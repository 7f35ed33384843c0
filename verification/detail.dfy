/** Opening a request (`solicitud_detalle_view`, views/pages.py).

    Viewing is not free of side effects: the first view of a request still
    in status 'Registrado' moves it to 'En Análisis' and writes one status
    history row naming the viewer. Any failure of that change is reported
    as a message and leaves the request as it was; the page is shown
    either way. */
module Detail {
  import opened Wrappers
  import opened Tables
  import opened Models
  import opened Access

  datatype DetailError = Forbidden | NotFound

  /** The message the view queues. */
  datatype Note =
    | Unchanged            // the request was not in 'Registrado'
    | MovedToEnAnalisis    // the automatic change happened
    | EnAnalisisMissing    // no 'En Análisis' row: configuration error message
    | ChangeFailed         // several 'En Análisis' rows: generic error message

  /** The name of the status a request is in. */
  function EstadoDe(st: Store, id: Id): string
    requires Wf(st) && id in st.solicitudes.rows
  {
    assert SolicitudRefsExist(st, st.solicitudes.rows[id]);
    st.estados.rows[st.solicitudes.rows[id].estadoActual].nombreEstado
  }

  /** `solicitud_detalle_view`: the store after the view and its message. */
  function VerDetalle(st: Store, actor: Actor, id: Id, now: Time): (r: Result<(Store, Note), DetailError>)
    requires Wf(st)
    ensures !Admits(actor.user, CanViewSolicitudList) ==> r == Failure(Forbidden)
    ensures Admits(actor.user, CanViewSolicitudList) && id !in st.solicitudes.rows ==> r == Failure(DetailError.NotFound)
    ensures r.Success? <==> Admits(actor.user, CanViewSolicitudList) && id in st.solicitudes.rows
    ensures r.Success? && r.value.1 != MovedToEnAnalisis ==> r.value.0 == st
    ensures r.Success? ==> (r.value.1 == Unchanged <==> EstadoDe(st, id) != Registrado)
    ensures r.Success? ==> (r.value.1 == MovedToEnAnalisis <==>
              EstadoDe(st, id) == Registrado && |st.estados.KeysWhere(IsEnAnalisis)| == 1)
    ensures r.Success? ==> (r.value.1 == EnAnalisisMissing <==>
              EstadoDe(st, id) == Registrado && st.estados.KeysWhere(IsEnAnalisis) == {})
  {
    if !Admits(actor.user, CanViewSolicitudList) then Failure(Forbidden)
    else if id !in st.solicitudes.rows then Failure(DetailError.NotFound)
    else if EstadoDe(st, id) != Registrado then Success((st, Unchanged))
    else match st.estados.Get(IsEnAnalisis)
      case NotFound => Success((st, EnAnalisisMissing))
      case Multiple => Success((st, ChangeFailed))
      case Found(nuevo) =>
        var s := st.solicitudes.rows[id];
        var entrada := HistorialEstado(id, s.estadoActual, nuevo, now, actor.user.username);
        var (historial, _) := st.historialEstados.Insert(entrada);
        Success((st.(historialEstados := historial,
                     solicitudes := st.solicitudes.Update(id, s.(estadoActual := nuevo))), MovedToEnAnalisis))
  }

  /** The automatic change writes exactly one history row (previous status
      'Registrado', new status 'En Análisis', author the viewer's username)
      and changes nothing of the request but its status. */
  lemma FirstViewMoves(st: Store, actor: Actor, id: Id, now: Time)
    requires Wf(st)
    requires VerDetalle(st, actor, id, now).Success?
    requires VerDetalle(st, actor, id, now).value.1 == MovedToEnAnalisis
    ensures var st' := VerDetalle(st, actor, id, now).value.0;
            var s := st.solicitudes.rows[id];
            var s' := st'.solicitudes.rows[id];
            && st'.solicitudes.rows == st.solicitudes.rows[id := s']
            && s' == s.(estadoActual := s'.estadoActual)
            && st.estados.rows[s'.estadoActual].nombreEstado == EnAnalisis
            && (exists h: Id :: && h !in st.historialEstados.rows
                            && st'.historialEstados.rows == st.historialEstados.rows[h := HistorialEstado(id, s.estadoActual, s'.estadoActual, now, actor.user.username)])
            && st.estados.rows[s.estadoActual].nombreEstado == Registrado
            && st' == st.(historialEstados := st'.historialEstados, solicitudes := st'.solicitudes)
  {
    var nuevo := st.estados.Get(IsEnAnalisis).id;
    assert nuevo in st.estados.KeysWhere(IsEnAnalisis);
    var s := st.solicitudes.rows[id];
    var (historial, h) := st.historialEstados.Insert(HistorialEstado(id, s.estadoActual, nuevo, now, actor.user.username));
    assert h !in st.historialEstados.rows;
  }

  /** A second view adds nothing: once moved to 'En Análisis' the request is
      no longer 'Registrado', so viewing it again leaves the store as it is. */
  lemma SecondViewAddsNothing(st: Store, actor: Actor, id: Id, now: Time, later: Time)
    requires Wf(st)
    requires VerDetalle(st, actor, id, now).Success?
    requires VerDetalle(st, actor, id, now).value.1 == MovedToEnAnalisis
    ensures Wf(VerDetalle(st, actor, id, now).value.0)
    ensures var st' := VerDetalle(st, actor, id, now).value.0;
            VerDetalle(st', actor, id, later) == Success((st', Unchanged))
  {
    DetailKeepsWf(st, actor, id, now);
    FirstViewMoves(st, actor, id, now);
    var st' := VerDetalle(st, actor, id, now).value.0;
    assert EstadoDe(st', id) == EnAnalisis;
  }

  /** Viewing keeps every database constraint. */
  lemma DetailKeepsWf(st: Store, actor: Actor, id: Id, now: Time)
    requires Wf(st)
    requires VerDetalle(st, actor, id, now).Success?
    ensures Wf(VerDetalle(st, actor, id, now).value.0)
  {
    if VerDetalle(st, actor, id, now).value.1 == MovedToEnAnalisis {
      var nuevo := st.estados.Get(IsEnAnalisis).id;
      assert nuevo in st.estados.KeysWhere(IsEnAnalisis);
      StatusChangeKeepsWf(st, id, nuevo, now, actor.user.username);
    }
  }

  /** Moving a request to an existing status and logging the move keeps
      every database constraint. */
  lemma StatusChangeKeepsWf(st: Store, id: Id, nuevo: Id, now: Time, autor: string)
    requires Wf(st) && id in st.solicitudes.rows && nuevo in st.estados.rows
    ensures var s := st.solicitudes.rows[id];
            Wf(st.(historialEstados := st.historialEstados.Insert(HistorialEstado(id, s.estadoActual, nuevo, now, autor)).0,
                   solicitudes := st.solicitudes.Update(id, s.(estadoActual := nuevo))))
  {
    var s := st.solicitudes.rows[id];
    var r := st.(historialEstados := st.historialEstados.Insert(HistorialEstado(id, s.estadoActual, nuevo, now, autor)).0,
                 solicitudes := st.solicitudes.Update(id, s.(estadoActual := nuevo)));
    assert SolicitudRefsExist(st, s);
    forall k | k in r.solicitudes.rows ensures SolicitudRefsExist(r, r.solicitudes.rows[k]) {
      assert SolicitudRefsExist(st, st.solicitudes.rows[k]);
    }
    forall k | k in r.historialEstados.rows ensures HistorialEstadoRefsExist(r, r.historialEstados.rows[k]) {
      if k in st.historialEstados.rows {
        assert HistorialEstadoRefsExist(st, st.historialEstados.rows[k]);
      }
    }
    forall k | k in r.historialAsignaciones.rows ensures HistorialAsignacionRefsExist(r, r.historialAsignaciones.rows[k]) {
      assert HistorialAsignacionRefsExist(st, st.historialAsignaciones.rows[k]);
    }
    forall k | k in r.enlaces.rows ensures EnlaceRefsExist(r, r.enlaces.rows[k]) {
      assert EnlaceRefsExist(st, st.enlaces.rows[k]);
    }
  }
}
