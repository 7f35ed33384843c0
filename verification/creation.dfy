/** Creation of a retention request (`nueva_solicitud_view`, views/pages.py).

    The form is checked in a fixed order, the initial status and approval
    level are looked up in the catalogs, an executive is taken from the
    round-robin rotation and an analyst is drawn from the active ones; the
    request and its circuit links are then written. All of it runs in one
    transaction: an error returns no store, so the caller keeps the one it
    had, cursor included. */
module Creation {
  import opened Wrappers
  import opened Tables
  import opened Models
  import opened Access
  import opened RoundRobin

  /** The posted form. An absent or empty client field is `None`; an absent
      deactivation date is the empty string. */
  datatype Form = Form(
    clienteId: Option<Id>,
    circuitos: seq<Id>,
    observaciones: Option<string>,
    fechaSolicitudBaja: string)

  datatype CreateError =
    | Forbidden                // the permission gate refused
    | ClienteNoSeleccionado    // no client chosen
    | SinCircuitos             // no circuit chosen
    | SinFechaBaja             // no deactivation date
    | FaltanCatalogos          // unknown client, or no 'Registrado' / orden-1 row
    | CatalogoDuplicado        // `.get` found several 'Registrado' or orden-1 rows
    | SinEjecutivosActivos     // the rotation has nobody to choose
    | SinAnalistasActivos      // no active analyst to draw
    | CircuitoInexistente      // a chosen circuit key has no row (integrity error)

  /** What the success message reports: the new request and the executive's name. */
  datatype Created = Created(store: Store, solicitud: Id, ejecutivoNombre: string)

  /** The keys of the analysts with `activo = True`. */
  function ActiveAnalistas(st: Store): (ks: set<Id>)
    ensures forall k :: k in ks <==> k in st.analistas.rows && st.analistas.rows[k].activo
  {
    st.analistas.KeysWhere((a: Analista) => a.activo)
  }

  /** `random.choice` over the active analysts: `draw` stands for the random
      number, the list is taken in key order. */
  function DrawAnalista(active: set<Id>, draw: nat): (a: Id)
    requires active != {}
    ensures a in active
  {
    var order := SortedKeys(active);
    order[draw % |order|]
  }

  /** Every active analyst is a possible outcome of the draw. */
  lemma EveryActiveAnalistaCanBeDrawn(active: set<Id>, a: Id)
    requires a in active
    ensures exists draw: nat :: DrawAnalista(active, draw) == a
  {
    var order := SortedKeys(active);
    assert a in order;
    var i :| 0 <= i < |order| && order[i] == a;
    SmallModulus(i, |order|);
    assert DrawAnalista(active, i) == a;
  }

  lemma SmallModulus(a: nat, n: nat)
    requires a < n
    ensures a % n == a
  {
  }

  /** The distinct circuit keys of the form (the association manager's `set`
      collapses repeats). */
  function Selected(form: Form): set<Id> {
    set c | c in form.circuitos
  }

  /** One association row per element of `cs`, inserted in order. */
  function LinkAll(t: Table<SolicitudCircuito>, sol: Id, cs: seq<Id>, now: Time): (r: Table<SolicitudCircuito>)
    requires t.Valid()
    ensures r.Valid() && t.nextId <= r.nextId
    ensures forall k | k in t.rows :: k in r.rows && r.rows[k] == t.rows[k]
    ensures forall k | k in r.rows && k !in t.rows ::
              k >= t.nextId && r.rows[k].solicitud == sol && r.rows[k].circuito in cs && r.rows[k].fechaAsociacion == now
    decreases |cs|
  {
    if cs == [] then t
    else
      var (t', k) := t.Insert(SolicitudCircuito(sol, cs[0], now));
      LinkAll(t', sol, cs[1..], now)
  }

  /** Every element of `cs` gets an association row. */
  lemma {:induction false} LinkAllCovers(t: Table<SolicitudCircuito>, sol: Id, cs: seq<Id>, now: Time)
    requires t.Valid()
    ensures var r := LinkAll(t, sol, cs, now);
            forall c | c in cs :: exists k :: k in r.rows && k !in t.rows && r.rows[k].circuito == c
    decreases |cs|
  {
    if cs != [] {
      var (t', k) := t.Insert(SolicitudCircuito(sol, cs[0], now));
      LinkAllCovers(t', sol, cs[1..], now);
      var r := LinkAll(t, sol, cs, now);
      assert r == LinkAll(t', sol, cs[1..], now);
      assert k in r.rows && k !in t.rows && r.rows[k].circuito == cs[0];
      forall c | c in cs ensures exists k :: k in r.rows && k !in t.rows && r.rows[k].circuito == c {
        if c != cs[0] {
          assert c in cs[1..];
          var k' :| k' in r.rows && k' !in t'.rows && r.rows[k'].circuito == c;
          assert k' !in t.rows;
        }
      }
    }
  }

  /** Distinct keys in `cs` give association rows with distinct circuits. */
  lemma {:induction false} LinkAllDistinct(t: Table<SolicitudCircuito>, sol: Id, cs: seq<Id>, now: Time)
    requires t.Valid()
    requires forall i, j | 0 <= i < j < |cs| :: cs[i] != cs[j]
    ensures var r := LinkAll(t, sol, cs, now);
            forall a, b | a in r.rows && b in r.rows && a !in t.rows && b !in t.rows
                          && r.rows[a].circuito == r.rows[b].circuito :: a == b
    decreases |cs|
  {
    if cs != [] {
      var (t', k) := t.Insert(SolicitudCircuito(sol, cs[0], now));
      var rest := cs[1..];
      assert forall i, j | 0 <= i < j < |rest| :: rest[i] != rest[j] by {
        forall i, j | 0 <= i < j < |rest| ensures rest[i] != rest[j] {
          assert rest[i] == cs[i + 1] && rest[j] == cs[j + 1];
        }
      }
      LinkAllDistinct(t', sol, rest, now);
      var r := LinkAll(t, sol, cs, now);
      assert r == LinkAll(t', sol, rest, now);
      assert cs[0] !in rest by {
        forall j | 0 <= j < |rest| ensures rest[j] != cs[0] {
          assert rest[j] == cs[j + 1];
        }
      }
      forall a, b | a in r.rows && b in r.rows && a !in t.rows && b !in t.rows
                    && r.rows[a].circuito == r.rows[b].circuito
        ensures a == b
      {
        assert a != k ==> a !in t'.rows && r.rows[a].circuito in rest;
        assert b != k ==> b !in t'.rows && r.rows[b].circuito in rest;
      }
    }
  }

  /** Everything the view needs for the request to be written, stated as
      facts about the store and the form. */
  ghost predicate Creatable(st: Store, actor: Actor, form: Form) {
    && Admits(actor.user, CanCreateSolicitud)
    && form.clienteId.Some?
    && form.circuitos != []
    && form.fechaSolicitudBaja != ""
    && form.clienteId.value in st.clientes.rows
    && |st.estados.KeysWhere(IsRegistrado)| == 1
    && |st.niveles.KeysWhere(IsFirstLevel)| == 1
    && ActiveEjecutivos(st) != {}
    && ActiveAnalistas(st) != {}
    && Selected(form) <= st.circuitos.rows.Keys
  }

  /** The form checks pass and the chosen client exists: what the view
      establishes before it looks at the catalogs. */
  ghost predicate FormReady(st: Store, actor: Actor, form: Form) {
    && Admits(actor.user, CanCreateSolicitud)
    && form.clienteId.Some?
    && form.circuitos != []
    && form.fechaSolicitudBaja != ""
    && form.clienteId.value in st.clientes.rows
  }

  /** `nueva_solicitud_view` on a POST. `now` is the creation time, `draw`
      the random number behind the analyst choice. */
  function NuevaSolicitud(st: Store, actor: Actor, form: Form, now: Time, draw: nat): (r: Result<Created, CreateError>)
    requires Wf(st)
    // The checks, in the order the view makes them.
    ensures !Admits(actor.user, CanCreateSolicitud) ==> r == Failure(Forbidden)
    ensures Admits(actor.user, CanCreateSolicitud) && form.clienteId.None? ==> r == Failure(ClienteNoSeleccionado)
    ensures Admits(actor.user, CanCreateSolicitud) && form.clienteId.Some? && form.circuitos == [] ==> r == Failure(SinCircuitos)
    ensures Admits(actor.user, CanCreateSolicitud) && form.clienteId.Some? && form.circuitos != [] && form.fechaSolicitudBaja == "" ==>
              r == Failure(SinFechaBaja)
    ensures (Admits(actor.user, CanCreateSolicitud) && form.clienteId.Some? && form.circuitos != [] && form.fechaSolicitudBaja != ""
             && form.clienteId.value !in st.clientes.rows) ==> r == Failure(FaltanCatalogos)
    // After the form: the catalogs, the staff and the circuits, in order.
    ensures FormReady(st, actor, form) && st.estados.KeysWhere(IsRegistrado) == {} ==> r == Failure(FaltanCatalogos)
    ensures FormReady(st, actor, form) && |st.estados.KeysWhere(IsRegistrado)| > 1 ==> r == Failure(CatalogoDuplicado)
    ensures FormReady(st, actor, form) && |st.estados.KeysWhere(IsRegistrado)| == 1 ==>
              && (st.niveles.KeysWhere(IsFirstLevel) == {} ==> r == Failure(FaltanCatalogos))
              && (|st.niveles.KeysWhere(IsFirstLevel)| > 1 ==> r == Failure(CatalogoDuplicado))
    ensures FormReady(st, actor, form) && |st.estados.KeysWhere(IsRegistrado)| == 1 && |st.niveles.KeysWhere(IsFirstLevel)| == 1 ==>
              && (ActiveEjecutivos(st) == {} ==> r == Failure(SinEjecutivosActivos))
              && (ActiveEjecutivos(st) != {} && ActiveAnalistas(st) == {} ==> r == Failure(SinAnalistasActivos))
              && (ActiveEjecutivos(st) != {} && ActiveAnalistas(st) != {} && !(Selected(form) <= st.circuitos.rows.Keys) ==>
                    r == Failure(CircuitoInexistente))
    ensures r == Failure(FaltanCatalogos) ==>
              form.clienteId.value !in st.clientes.rows
              || st.estados.KeysWhere(IsRegistrado) == {}
              || st.niveles.KeysWhere(IsFirstLevel) == {}
    ensures r == Failure(CatalogoDuplicado) ==>
              |st.estados.KeysWhere(IsRegistrado)| > 1 || |st.niveles.KeysWhere(IsFirstLevel)| > 1
    ensures r == Failure(SinEjecutivosActivos) ==> ActiveEjecutivos(st) == {}
    ensures r == Failure(SinAnalistasActivos) ==> ActiveAnalistas(st) == {}
    ensures r == Failure(CircuitoInexistente) ==> !(Selected(form) <= st.circuitos.rows.Keys)
    ensures r.Success? <==> Creatable(st, actor, form)
  {
    if !Admits(actor.user, CanCreateSolicitud) then Failure(Forbidden)
    else if form.clienteId.None? then Failure(ClienteNoSeleccionado)
    else if form.circuitos == [] then Failure(SinCircuitos)
    else if form.fechaSolicitudBaja == "" then Failure(SinFechaBaja)
    else if form.clienteId.value !in st.clientes.rows then Failure(FaltanCatalogos)
    else match st.estados.Get(IsRegistrado)
      case NotFound => Failure(FaltanCatalogos)
      case Multiple => Failure(CatalogoDuplicado)
      case Found(estado) =>
        match st.niveles.Get(IsFirstLevel)
        case NotFound => Failure(FaltanCatalogos)
        case Multiple => Failure(CatalogoDuplicado)
        case Found(nivel) =>
          match NextEjecutivo(st)
          case Failure(_) => Failure(SinEjecutivosActivos)
          case Success((st1, ejecutivo)) =>
            var analistas := ActiveAnalistas(st1);
            if analistas == {} then Failure(SinAnalistasActivos)
            else if !(Selected(form) <= st.circuitos.rows.Keys) then Failure(CircuitoInexistente)
            else
              var analista := DrawAnalista(analistas, draw);
              var sol := Solicitud(form.clienteId.value, ejecutivo, analista, estado, nivel, now,
                                   form.observaciones, true, form.fechaSolicitudBaja, Some(actor.id));
              var (solicitudes, id) := st1.solicitudes.Insert(sol);
              var enlaces := LinkAll(st1.enlaces, id, SortedKeys(Selected(form)), now);
              Success(Created(st1.(solicitudes := solicitudes, enlaces := enlaces), id,
                              st.ejecutivos.rows[ejecutivo].nombre))
  }

  /** What a successful creation writes: one new request in status
      'Registrado' at approval level 1, automatically assigned, created by the
      acting user, with the round-robin executive (whose key becomes the new
      cursor), an active analyst, and exactly the chosen circuits. */
  lemma CreationWrites(st: Store, actor: Actor, form: Form, now: Time, draw: nat)
    requires Wf(st)
    requires Creatable(st, actor, form)
    ensures var c := NuevaSolicitud(st, actor, form, now, draw).value;
      && c.solicitud !in st.solicitudes.rows
      && c.solicitud in c.store.solicitudes.rows
      && var s := c.store.solicitudes.rows[c.solicitud];
      && c.store.solicitudes.rows == st.solicitudes.rows[c.solicitud := s]
      && s.cliente == form.clienteId.value
      && s.estadoActual in st.estados.rows && st.estados.rows[s.estadoActual].nombreEstado == Registrado
      && s.nivelAprobacion in st.niveles.rows && st.niveles.rows[s.nivelAprobacion].orden == 1
      && s.asignadoAutomaticamente
      && s.usuarioCreador == Some(actor.id)
      && s.descripcion == form.observaciones
      && s.fechaSolicitudBaja == form.fechaSolicitudBaja
      && s.fechaCreacion == now
      && NextInRotation(ActiveEjecutivos(st), LastAssigned(st), s.ejecutivo)
      && c.store.ultimoEjecutivo == Some(s.ejecutivo as int)
      && c.ejecutivoNombre == st.ejecutivos.rows[s.ejecutivo].nombre
      && s.analista in ActiveAnalistas(st)
  {
    var estado := st.estados.Get(IsRegistrado).id;
    assert estado in st.estados.KeysWhere(IsRegistrado);
    var nivel := st.niveles.Get(IsFirstLevel).id;
    assert nivel in st.niveles.KeysWhere(IsFirstLevel);
    var (st1, ejecutivo) := NextEjecutivo(st).value;
    assert ActiveAnalistas(st1) == ActiveAnalistas(st);
  }

  /** The circuits linked to the new request are exactly the distinct keys
      the form selected. */
  lemma CreationLinksSelected(st: Store, actor: Actor, form: Form, now: Time, draw: nat)
    requires Wf(st)
    requires Creatable(st, actor, form)
    ensures var c := NuevaSolicitud(st, actor, form, now, draw).value;
            CircuitosDe(c.store, c.solicitud) == Selected(form)
  {
    var c := NuevaSolicitud(st, actor, form, now, draw).value;
    var (st1, ejecutivo) := NextEjecutivo(st).value;
    var cs := SortedKeys(Selected(form));
    var before := st.enlaces;
    assert st1.enlaces == before;
    assert c.store.enlaces == LinkAll(before, c.solicitud, cs, now);
    LinkAllCovers(before, c.solicitud, cs, now);
    var r := c.store.enlaces;
    // Old links belong to requests that already existed.
    forall k | k in before.rows ensures before.rows[k].solicitud != c.solicitud {
      assert EnlaceRefsExist(st, before.rows[k]);
    }
    forall x | x in CircuitosDe(c.store, c.solicitud) ensures x in Selected(form) {
      var k :| k in r.rows && r.rows[k].solicitud == c.solicitud && r.rows[k].circuito == x;
      assert k !in before.rows;
      assert x in cs;
    }
    forall x | x in Selected(form) ensures x in CircuitosDe(c.store, c.solicitud) {
      assert x in cs;
      var k :| k in r.rows && k !in before.rows && r.rows[k].circuito == x;
    }
  }

  /** A successful creation touches nothing but the request table, the
      association table (adding rows only) and the cursor. */
  lemma CreationLeavesRestAlone(st: Store, actor: Actor, form: Form, now: Time, draw: nat)
    requires Wf(st)
    requires Creatable(st, actor, form)
    ensures var c := NuevaSolicitud(st, actor, form, now, draw).value.store;
      && c.clientes == st.clientes && c.circuitos == st.circuitos
      && c.ejecutivos == st.ejecutivos && c.analistas == st.analistas
      && c.estados == st.estados && c.niveles == st.niveles
      && c.comentarios == st.comentarios
      && c.historialEstados == st.historialEstados && c.historialAsignaciones == st.historialAsignaciones
      && (forall k | k in st.enlaces.rows :: k in c.enlaces.rows && c.enlaces.rows[k] == st.enlaces.rows[k])
    ensures var res := NuevaSolicitud(st, actor, form, now, draw).value;
      forall k | k in res.store.enlaces.rows && k !in st.enlaces.rows ::
        res.store.enlaces.rows[k].solicitud == res.solicitud && res.store.enlaces.rows[k].fechaAsociacion == now
  {
  }

  /** A successful creation keeps every database constraint, in particular
      that a (request, circuit) pair is linked at most once. */
  lemma CreationKeepsWf(st: Store, actor: Actor, form: Form, now: Time, draw: nat)
    requires Wf(st)
    requires Creatable(st, actor, form)
    ensures Wf(NuevaSolicitud(st, actor, form, now, draw).value.store)
  {
    var c := NuevaSolicitud(st, actor, form, now, draw).value;
    var r := c.store;
    var id := c.solicitud;
    CreationWrites(st, actor, form, now, draw);
    CreationLeavesRestAlone(st, actor, form, now, draw);
    var cs := SortedKeys(Selected(form));
    var before := st.enlaces;
    assert r.enlaces == LinkAll(before, id, cs, now);
    LinkAllDistinct(before, id, cs, now);
    assert r.solicitudes.Valid();
    assert TablesValid(r);
    forall k | k in r.solicitudes.rows ensures SolicitudRefsExist(r, r.solicitudes.rows[k]) {
      if k != id { assert SolicitudRefsExist(st, st.solicitudes.rows[k]); }
    }
    forall k | k in r.comentarios.rows ensures r.comentarios.rows[k].solicitud in r.solicitudes.rows {
    }
    forall k | k in r.historialEstados.rows ensures HistorialEstadoRefsExist(r, r.historialEstados.rows[k]) {
      assert HistorialEstadoRefsExist(st, st.historialEstados.rows[k]);
    }
    forall k | k in r.historialAsignaciones.rows ensures HistorialAsignacionRefsExist(r, r.historialAsignaciones.rows[k]) {
      assert HistorialAsignacionRefsExist(st, st.historialAsignaciones.rows[k]);
    }
    forall k | k in before.rows ensures before.rows[k].solicitud != id {
      assert EnlaceRefsExist(st, before.rows[k]);
    }
    forall k | k in r.enlaces.rows ensures EnlaceRefsExist(r, r.enlaces.rows[k]) {
      if k in before.rows {
        assert EnlaceRefsExist(st, before.rows[k]);
      } else {
        assert r.enlaces.rows[k].circuito in cs;
      }
    }
    assert ForeignKeys(r);
    forall a, b | a in r.enlaces.rows && b in r.enlaces.rows
                  && r.enlaces.rows[a].solicitud == r.enlaces.rows[b].solicitud
                  && r.enlaces.rows[a].circuito == r.enlaces.rows[b].circuito
      ensures a == b
    {
      if a in before.rows && b in before.rows {
        assert before.rows[a] == r.enlaces.rows[a] && before.rows[b] == r.enlaces.rows[b];
      }
    }
  }
}
