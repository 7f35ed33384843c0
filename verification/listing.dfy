/** The request list filtered by role (`lista_solicitudes_view`,
    views/pages.py). A superuser sees everything; a commercial executive the
    requests they created; a retention executive the requests assigned to the
    executive record sharing their user key, or nothing and a warning when
    there is no such record; anyone else admitted by the gate sees
    everything. The list is ordered by creation time, newest first. */
module Listing {
  import opened Wrappers
  import opened Tables
  import opened Models
  import opened Access

  const EjecutivoComercial := "Ejecutivo Comercial"
  const EjecutivoRetencion := "Ejecutivo Retencion"

  datatype ListError = Forbidden

  /** The rows to show and whether the "not linked to personnel" warning
      is raised. */
  datatype Listed = Listed(solicitudes: seq<Id>, warning: bool)

  /** The requests created by the user `uid`. */
  function CreatedBy(st: Store, uid: Id): (ks: set<Id>)
    ensures forall k :: k in ks <==> k in st.solicitudes.rows && st.solicitudes.rows[k].usuarioCreador == Some(uid)
  {
    st.solicitudes.KeysWhere((s: Solicitud) => s.usuarioCreador == Some(uid))
  }

  /** The requests assigned to the executive `e`. */
  function AssignedTo(st: Store, e: Id): (ks: set<Id>)
    ensures forall k :: k in ks <==> k in st.solicitudes.rows && st.solicitudes.rows[k].ejecutivo == e
  {
    st.solicitudes.KeysWhere((s: Solicitud) => s.ejecutivo == e)
  }

  /** The role filter: the visible requests and the warning flag. The
      commercial role is tested before the retention role. */
  function Visible(st: Store, actor: Actor): (r: (set<Id>, bool))
    ensures r.0 <= st.solicitudes.rows.Keys
    ensures r.1 <==> !actor.user.isSuperuser && EjecutivoComercial !in actor.user.groups
                     && EjecutivoRetencion in actor.user.groups && actor.id !in st.ejecutivos.rows
    ensures r.1 ==> r.0 == {}
  {
    var u := actor.user;
    if u.isSuperuser then (st.solicitudes.rows.Keys, false)
    else if EjecutivoComercial in u.groups then (CreatedBy(st, actor.id), false)
    else if EjecutivoRetencion in u.groups then
      if actor.id in st.ejecutivos.rows then (AssignedTo(st, actor.id), false)
      else ({}, true)
    else (st.solicitudes.rows.Keys, false)
  }

  /** A superuser sees every request, whatever groups they are in. */
  lemma SuperuserSeesAll(st: Store, actor: Actor)
    requires actor.user.isSuperuser
    ensures Visible(st, actor).0 == st.solicitudes.rows.Keys
  {
  }

  /** A commercial executive who is not a superuser sees exactly the
      requests they created, whatever their other groups. */
  lemma CommercialSeesOwn(st: Store, actor: Actor, k: Id)
    requires !actor.user.isSuperuser && EjecutivoComercial in actor.user.groups
    ensures k in Visible(st, actor).0 <==> k in st.solicitudes.rows && st.solicitudes.rows[k].usuarioCreador == Some(actor.id)
  {
  }

  /** A retention executive who is neither commercial nor a superuser sees
      exactly the requests assigned to the executive row under their key,
      and nothing when there is no such row. */
  lemma RetentionSeesAssigned(st: Store, actor: Actor, k: Id)
    requires !actor.user.isSuperuser && EjecutivoComercial !in actor.user.groups && EjecutivoRetencion in actor.user.groups
    ensures k in Visible(st, actor).0 <==>
              actor.id in st.ejecutivos.rows && k in st.solicitudes.rows && st.solicitudes.rows[k].ejecutivo == actor.id
  {
  }

  /** A user in neither executive group sees every request. */
  lemma OthersSeeAll(st: Store, actor: Actor)
    requires EjecutivoComercial !in actor.user.groups && EjecutivoRetencion !in actor.user.groups
    ensures Visible(st, actor).0 == st.solicitudes.rows.Keys
  {
  }

  /** Visibility partitioning: two retention executives (without the
      commercial role) linked to different executive records never see the
      same request, and each sees exactly the requests assigned to them. */
  lemma RetentionViewsPartition(st: Store, a: Actor, b: Actor)
    requires !a.user.isSuperuser && EjecutivoComercial !in a.user.groups && EjecutivoRetencion in a.user.groups
    requires !b.user.isSuperuser && EjecutivoComercial !in b.user.groups && EjecutivoRetencion in b.user.groups
    requires a.id != b.id
    ensures Visible(st, a).0 !! Visible(st, b).0
    ensures a.id in st.ejecutivos.rows ==> Visible(st, a).0 == AssignedTo(st, a.id)
  {
  }

  /** Selection of the newest remaining request. */
  lemma {:induction false} NewestExists(sols: map<Id, Solicitud>, rest: set<Id>)
    requires rest != {} && rest <= sols.Keys
    ensures exists x :: x in rest && forall y | y in rest :: sols[y].fechaCreacion <= sols[x].fechaCreacion
  {
    var times := set y | y in rest :: sols[y].fechaCreacion;
    var x0 :| x0 in rest;
    assert sols[x0].fechaCreacion in times;
    var newest := Max(times);
    var x :| x in rest && sols[x].fechaCreacion == newest;
    forall y | y in rest ensures sols[y].fechaCreacion <= sols[x].fechaCreacion {
      assert sols[y].fechaCreacion in times;
    }
  }

  /** `r` lists its requests newest first. */
  ghost predicate NewestFirst(sols: map<Id, Solicitud>, r: seq<Id>)
    requires forall i | 0 <= i < |r| :: r[i] in sols
  {
    forall i, j | 0 <= i < j < |r| :: sols[r[i]].fechaCreacion >= sols[r[j]].fechaCreacion
  }

  /** No request of `r` is listed twice. */
  ghost predicate NoRepeats(r: seq<Id>) {
    forall i, j | 0 <= i < j < |r| :: r[i] != r[j]
  }

  /** Every request of `r` is at least as new as every one in `rest`. */
  ghost predicate Dominates(sols: map<Id, Solicitud>, r: seq<Id>, rest: set<Id>)
    requires forall i | 0 <= i < |r| :: r[i] in sols
    requires rest <= sols.Keys
  {
    forall i, k | 0 <= i < |r| && k in rest :: sols[r[i]].fechaCreacion >= sols[k].fechaCreacion
  }

  /** Appending the newest of the remaining requests keeps the list newest
      first, free of repeats, and ahead of what remains. */
  lemma AppendNewest(sols: map<Id, Solicitud>, r: seq<Id>, rest: set<Id>, x: Id)
    requires rest <= sols.Keys && x in rest
    requires forall i | 0 <= i < |r| :: r[i] in sols && r[i] !in rest
    requires NewestFirst(sols, r) && NoRepeats(r) && Dominates(sols, r, rest)
    requires forall y | y in rest :: sols[y].fechaCreacion <= sols[x].fechaCreacion
    ensures NewestFirst(sols, r + [x]) && NoRepeats(r + [x]) && Dominates(sols, r + [x], rest - {x})
  {
  }

  /** `order_by('-fecha_creacion')`: the given requests, each once, newest
      first. Requests created at the same time come in no promised order. */
  method OrderByNewest(sols: map<Id, Solicitud>, ids: set<Id>) returns (r: seq<Id>)
    requires ids <= sols.Keys
    ensures forall i | 0 <= i < |r| :: r[i] in ids
    ensures forall k | k in ids :: k in r
    ensures forall i, j | 0 <= i < j < |r| :: r[i] != r[j]
    ensures forall i, j | 0 <= i < j < |r| :: sols[r[i]].fechaCreacion >= sols[r[j]].fechaCreacion
  {
    r := [];
    var rest := ids;
    while rest != {}
      invariant rest <= ids
      invariant forall i | 0 <= i < |r| :: r[i] in ids && r[i] !in rest
      invariant forall k | k in ids :: k in rest || k in r
      invariant NewestFirst(sols, r) && NoRepeats(r) && Dominates(sols, r, rest)
      decreases rest
    {
      NewestExists(sols, rest);
      var x :| x in rest && forall y | y in rest :: sols[y].fechaCreacion <= sols[x].fechaCreacion;
      AppendNewest(sols, r, rest, x);
      r := r + [x];
      rest := rest - {x};
    }
  }

  /** `lista_solicitudes_view`. */
  method ListaSolicitudes(st: Store, actor: Actor) returns (r: Result<Listed, ListError>)
    ensures r.Failure? <==> !Admits(actor.user, CanViewSolicitudList)
    ensures r.Success? ==>
      && (actor.user.isSuperuser ==> forall k :: k in r.value.solicitudes <==> k in st.solicitudes.rows)
      && (!actor.user.isSuperuser && EjecutivoComercial in actor.user.groups ==>
            forall k :: k in r.value.solicitudes <==>
              k in st.solicitudes.rows && st.solicitudes.rows[k].usuarioCreador == Some(actor.id))
      && (!actor.user.isSuperuser && EjecutivoComercial !in actor.user.groups && EjecutivoRetencion in actor.user.groups ==>
            forall k :: k in r.value.solicitudes <==>
              actor.id in st.ejecutivos.rows && k in st.solicitudes.rows && st.solicitudes.rows[k].ejecutivo == actor.id)
      && (EjecutivoComercial !in actor.user.groups && EjecutivoRetencion !in actor.user.groups ==>
            forall k :: k in r.value.solicitudes <==> k in st.solicitudes.rows)
      && (forall i | 0 <= i < |r.value.solicitudes| :: r.value.solicitudes[i] in st.solicitudes.rows)
      && (forall i, j | 0 <= i < j < |r.value.solicitudes| :: r.value.solicitudes[i] != r.value.solicitudes[j])
      && (forall i, j | 0 <= i < j < |r.value.solicitudes| ::
            st.solicitudes.rows[r.value.solicitudes[i]].fechaCreacion >= st.solicitudes.rows[r.value.solicitudes[j]].fechaCreacion)
      && r.value.warning == Visible(st, actor).1
  {
    if !Admits(actor.user, CanViewSolicitudList) {
      return Failure(Forbidden);
    }
    var (ids, warning) := Visible(st, actor);
    var ordered := OrderByNewest(st.solicitudes.rows, ids);
    if actor.user.isSuperuser {
      SuperuserSeesAll(st, actor);
    } else if EjecutivoComercial in actor.user.groups {
      forall k ensures k in ids <==> k in st.solicitudes.rows && st.solicitudes.rows[k].usuarioCreador == Some(actor.id) {
        CommercialSeesOwn(st, actor, k);
      }
    } else if EjecutivoRetencion in actor.user.groups {
      forall k ensures k in ids <==>
          actor.id in st.ejecutivos.rows && k in st.solicitudes.rows && st.solicitudes.rows[k].ejecutivo == actor.id {
        RetentionSeesAssigned(st, actor, k);
      }
    } else {
      OthersSeeAll(st, actor);
    }
    return Success(Listed(ordered, warning));
  }
}
