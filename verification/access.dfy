/** The access gate every protected view passes first (decorators.py).

    Django's `auth_user` row is reduced to what the portal consults: the
    username and e-mail, the display name `get_full_name()` yields, the
    superuser flag, the group names and the permissions `has_perm` answers
    for. */
module Access {
  import opened Wrappers
  import opened Tables

  datatype User = User(
    username: string,
    email: string,
    fullName: string,
    isSuperuser: bool,
    groups: set<string>,
    perms: set<string>)

  /** The authenticated user making a request: the `auth_user` key and row. */
  datatype Actor = Actor(id: Id, user: User)

  datatype AccessError = PermissionDenied

  const CanCreateSolicitud := "portal_retenciones.can_create_solicitud"
  const CanViewSolicitudList := "portal_retenciones.can_view_solicitud_list"
  const CanViewPersonal := "portal_retenciones.can_view_personal"
  const CanManagePersonnel := "portal_retenciones.can_manage_personnel"

  /** `check_permission`: admits a superuser whatever is asked, then a holder
      of the permission; anyone else is refused by raising, never by a false
      answer. */
  function CheckPermission(u: User, perm: string): (r: Result<bool, AccessError>)
    ensures r.Success? ==> r.value
    ensures u.isSuperuser ==> r.Success?
    ensures !u.isSuperuser ==> (r.Success? <==> perm in u.perms)
    ensures r.Failure? ==> r.error == PermissionDenied
  {
    if u.isSuperuser then Success(true)
    else if perm in u.perms then Success(true)
    else Failure(PermissionDenied)
  }

  /** Whether the decorated view body runs at all. */
  predicate Admits(u: User, perm: string) {
    CheckPermission(u, perm).Success?
  }

  /** The decision reads nothing of the user but the superuser flag and the
      answer to `has_perm(perm)`. */
  lemma CheckReadsOnlyFlagAndPerm(u: User, v: User, perm: string)
    requires u.isSuperuser == v.isSuperuser
    requires (perm in u.perms) == (perm in v.perms)
    ensures CheckPermission(u, perm) == CheckPermission(v, perm)
  {
  }
}
