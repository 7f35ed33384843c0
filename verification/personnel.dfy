/** Staff management (`gestion_personal_view` and `_get_user_key`,
    views/pages.py).

    A manager turns a Django user into a retention executive or analyst, or
    takes the role away. The role row reuses the user's key as its own
    primary key, carries the user's display name and an e-mail that is the
    user's address or, when that is empty, a placeholder built from the
    username. */
module Personnel {
  import opened Wrappers
  import opened Tables
  import opened Models
  import opened Access
  import ModelsIntegrity

  const Placeholder := "@temp.local"

  /** `_get_user_key`: the e-mail to store on the role row. */
  function UserKey(u: User): (k: string)
    ensures u.email != "" ==> k == u.email
    ensures u.email == "" ==> |k| == |u.username| + |Placeholder| && k[..|u.username|] == u.username
                              && k[|u.username|..] == Placeholder
    ensures k != ""
  {
    if u.email != "" then u.email else u.username + Placeholder
  }

  /** Two users without an e-mail address get different placeholders
      exactly when their usernames differ. */
  lemma PlaceholdersDistinct(u: User, v: User)
    requires u.email == "" && v.email == ""
    ensures UserKey(u) == UserKey(v) <==> u.username == v.username
  {
    if UserKey(u) == UserKey(v) {
      assert |u.username| == |v.username|;
      assert u.username == UserKey(u)[..|u.username|];
    }
  }

  /** `get_full_name() or username`: the display name on the role row. */
  function UserName(u: User): (n: string)
    ensures u.fullName != "" ==> n == u.fullName
    ensures u.fullName == "" ==> n == u.username
  {
    if u.fullName != "" then u.fullName else u.username
  }

  /** The `action` field of the form. */
  datatype Action = AssignEjecutivo | RemoveEjecutivo | AssignAnalista | RemoveAnalista | OtherAction

  /** The error messages the view can queue: the decorator's refusal, the
      missing user and the integrity error (a `ProtectedError` is one). */
  datatype PersonnelError = Forbidden | UsuarioNoEncontrado | Integridad

  predicate EjecutivoEmailTaken(st: Store, email: string) {
    exists k | k in st.ejecutivos.rows :: st.ejecutivos.rows[k].email == email
  }

  predicate AnalistaEmailTaken(st: Store, email: string) {
    exists k | k in st.analistas.rows :: st.analistas.rows[k].email == email
  }

  /** `get_or_create(id=user_id, defaults=...)` on the executives: an existing
      row with that key is kept as it is (it is neither renamed nor
      reactivated); otherwise a new active row is inserted under the user's
      key, unless its e-mail is already taken. */
  function AsignarEjecutivo(st: Store, uid: Id, u: User): (r: Result<Store, PersonnelError>)
    requires Wf(st) && uid > 0
    ensures uid in st.ejecutivos.rows ==> r == Success(st)
    ensures r.Failure? <==> uid !in st.ejecutivos.rows && EjecutivoEmailTaken(st, UserKey(u))
    ensures r.Failure? ==> r.error == Integridad
    ensures r.Success? ==> r.value == st.(ejecutivos := r.value.ejecutivos)
    ensures r.Success? && uid !in st.ejecutivos.rows ==>
              r.value.ejecutivos.rows == st.ejecutivos.rows[uid := Ejecutivo(UserName(u), UserKey(u), true)]
  {
    if uid in st.ejecutivos.rows then Success(st)
    else if EjecutivoEmailTaken(st, UserKey(u)) then Failure(Integridad)
    else Success(st.(ejecutivos := st.ejecutivos.InsertAt(uid, Ejecutivo(UserName(u), UserKey(u), true))))
  }

  /** The same for the analysts. */
  function AsignarAnalista(st: Store, uid: Id, u: User): (r: Result<Store, PersonnelError>)
    requires Wf(st) && uid > 0
    ensures uid in st.analistas.rows ==> r == Success(st)
    ensures r.Failure? <==> uid !in st.analistas.rows && AnalistaEmailTaken(st, UserKey(u))
    ensures r.Failure? ==> r.error == Integridad
    ensures r.Success? ==> r.value == st.(analistas := r.value.analistas)
    ensures r.Success? && uid !in st.analistas.rows ==>
              r.value.analistas.rows == st.analistas.rows[uid := Analista(UserName(u), UserKey(u), true)]
  {
    if uid in st.analistas.rows then Success(st)
    else if AnalistaEmailTaken(st, UserKey(u)) then Failure(Integridad)
    else Success(st.(analistas := st.analistas.InsertAt(uid, Analista(UserName(u), UserKey(u), true))))
  }

  /** `gestion_personal_view`, POST: the store after the action, or the
      error message shown instead. `userId` is None when the form field is
      missing. */
  function GestionPersonal(st: Store, users: Table<User>, actor: Actor, userId: Option<Id>, action: Action)
    : (r: Result<Store, PersonnelError>)
    requires Wf(st) && users.Valid()
    ensures !Admits(actor.user, CanManagePersonnel) ==> r == Failure(Forbidden)
    ensures Admits(actor.user, CanManagePersonnel) && (userId.None? || userId.value !in users.rows) ==>
              r == Failure(UsuarioNoEncontrado)
    ensures r.Success? ==> userId.Some? && userId.value in users.rows
    ensures r.Failure? && r.error == Integridad ==>
              (action == RemoveEjecutivo && EjecutivoReferenced(st, userId.value))
              || (action == RemoveAnalista && AnalistaReferenced(st, userId.value))
              || (action == AssignEjecutivo && EjecutivoEmailTaken(st, UserKey(users.rows[userId.value])))
              || (action == AssignAnalista && AnalistaEmailTaken(st, UserKey(users.rows[userId.value])))
    ensures r.Success? && action == OtherAction ==> r.value == st
    ensures Admits(actor.user, CanManagePersonnel) && userId.Some? && userId.value in users.rows && r.Failure? ==>
              r.error == Integridad
    ensures Admits(actor.user, CanManagePersonnel) && userId.Some? && userId.value in users.rows ==>
              var uid := userId.value;
              var u := users.rows[uid];
              && (action == RemoveEjecutivo ==>
                    && (r.Failure? <==> EjecutivoReferenced(st, uid))
                    && (r.Success? ==> r.value.ejecutivos.rows == st.ejecutivos.rows - {uid}))
              && (action == RemoveAnalista ==>
                    && (r.Failure? <==> AnalistaReferenced(st, uid))
                    && (r.Success? ==> r.value.analistas.rows == st.analistas.rows - {uid}))
              && (action == AssignEjecutivo ==>
                    && (r.Failure? <==> uid !in st.ejecutivos.rows && EjecutivoEmailTaken(st, UserKey(u)))
                    && (r.Success? ==>
                          r.value.ejecutivos.rows ==
                            (if uid in st.ejecutivos.rows then st.ejecutivos.rows
                             else st.ejecutivos.rows[uid := Ejecutivo(UserName(u), UserKey(u), true)])))
              && (action == AssignAnalista ==>
                    && (r.Failure? <==> uid !in st.analistas.rows && AnalistaEmailTaken(st, UserKey(u)))
                    && (r.Success? ==>
                          r.value.analistas.rows ==
                            (if uid in st.analistas.rows then st.analistas.rows
                             else st.analistas.rows[uid := Analista(UserName(u), UserKey(u), true)])))
              && (action == OtherAction ==> r == Success(st))
    ensures r.Success? && action in {AssignEjecutivo, RemoveEjecutivo} ==> r.value == st.(ejecutivos := r.value.ejecutivos)
    ensures r.Success? && action in {AssignAnalista, RemoveAnalista} ==> r.value == st.(analistas := r.value.analistas)
  {
    if !Admits(actor.user, CanManagePersonnel) then Failure(Forbidden)
    else if userId.None? || userId.value !in users.rows then Failure(UsuarioNoEncontrado)
    else
      var uid := userId.value;
      var u := users.rows[uid];
      match action
      case AssignEjecutivo => AsignarEjecutivo(st, uid, u)
      case AssignAnalista => AsignarAnalista(st, uid, u)
      case RemoveEjecutivo =>
        (match DeleteEjecutivo(st, uid)
         case Success(st') => Success(st')
         case Failure(_) => Failure(Integridad))
      case RemoveAnalista =>
        (match DeleteAnalista(st, uid)
         case Success(st') => Success(st')
         case Failure(_) => Failure(Integridad))
      case OtherAction => Success(st)
  }

  /** The role flags the page lists for a user: whether an executive row and
      whether an analyst row exist under the user's key. */
  datatype Roles = Roles(isEjecutivo: bool, isAnalista: bool)

  function RolesDe(st: Store, uid: Id): Roles {
    Roles(uid in st.ejecutivos.rows, uid in st.analistas.rows)
  }

  /** A successful assignment shows the role on the page afterwards, and a
      successful removal no longer shows it; the other role is unaffected. */
  lemma ActionShowsOnRoster(st: Store, users: Table<User>, actor: Actor, uid: Id, action: Action)
    requires Wf(st) && users.Valid()
    requires GestionPersonal(st, users, actor, Some(uid), action).Success?
    ensures var after := RolesDe(GestionPersonal(st, users, actor, Some(uid), action).value, uid);
            var before := RolesDe(st, uid);
            && (action == AssignEjecutivo ==> after == before.(isEjecutivo := true))
            && (action == RemoveEjecutivo ==> after == before.(isEjecutivo := false))
            && (action == AssignAnalista ==> after == before.(isAnalista := true))
            && (action == RemoveAnalista ==> after == before.(isAnalista := false))
            && (action == OtherAction ==> after == before)
  {
  }

  /** Repeating an assignment changes nothing: the second `get_or_create`
      finds the row the first one made. */
  lemma AssignIdempotent(st: Store, users: Table<User>, actor: Actor, uid: Id, action: Action)
    requires Wf(st) && users.Valid()
    requires action == AssignEjecutivo || action == AssignAnalista
    requires GestionPersonal(st, users, actor, Some(uid), action).Success?
    ensures var st' := GestionPersonal(st, users, actor, Some(uid), action).value;
            Wf(st') && GestionPersonal(st', users, actor, Some(uid), action) == Success(st')
  {
    PersonnelKeepsWf(st, users, actor, Some(uid), action);
  }

  /** A new executive row never duplicates an e-mail and is referenced by
      nothing, so every constraint still holds. */
  lemma AsignarEjecutivoKeepsWf(st: Store, uid: Id, u: User)
    requires Wf(st) && uid > 0
    requires AsignarEjecutivo(st, uid, u).Success?
    ensures Wf(AsignarEjecutivo(st, uid, u).value)
  {
    ModelsIntegrity.ParentsGrowKeepForeignKeys(st, AsignarEjecutivo(st, uid, u).value);
  }

  lemma AsignarAnalistaKeepsWf(st: Store, uid: Id, u: User)
    requires Wf(st) && uid > 0
    requires AsignarAnalista(st, uid, u).Success?
    ensures Wf(AsignarAnalista(st, uid, u).value)
  {
    ModelsIntegrity.ParentsGrowKeepForeignKeys(st, AsignarAnalista(st, uid, u).value);
  }

  /** Managing staff keeps every database constraint. */
  lemma PersonnelKeepsWf(st: Store, users: Table<User>, actor: Actor, userId: Option<Id>, action: Action)
    requires Wf(st) && users.Valid()
    requires GestionPersonal(st, users, actor, userId, action).Success?
    ensures Wf(GestionPersonal(st, users, actor, userId, action).value)
  {
    var uid := userId.value;
    var u := users.rows[uid];
    match action
    case RemoveEjecutivo => ModelsIntegrity.DeleteEjecutivoKeepsWf(st, uid);
    case RemoveAnalista => ModelsIntegrity.DeleteAnalistaKeepsWf(st, uid);
    case AssignEjecutivo => AsignarEjecutivoKeepsWf(st, uid, u);
    case AssignAnalista => AsignarAnalistaKeepsWf(st, uid, u);
    case OtherAction =>
  }
}
