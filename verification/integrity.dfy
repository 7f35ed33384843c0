/** The deletion rules of models.py keep the database's constraints, and so
    does adding rows that nothing refers to yet. */
module ModelsIntegrity {
  import opened Wrappers
  import opened Tables
  import opened Models

  /** `a` holds some of the rows of `b`, unchanged, under the same counter. */
  ghost predicate SubTable<T>(a: Table<T>, b: Table<T>) {
    && a.nextId == b.nextId
    && a.rows.Keys <= b.rows.Keys
    && forall k | k in a.rows :: a.rows[k] == b.rows[k]
  }

  lemma SubTablesKeepUniqueness(st: Store, r: Store)
    requires Wf(st)
    requires SubTable(r.clientes, st.clientes) && SubTable(r.circuitos, st.circuitos)
    requires SubTable(r.ejecutivos, st.ejecutivos) && SubTable(r.analistas, st.analistas)
    requires SubTable(r.estados, st.estados) && SubTable(r.niveles, st.niveles)
    requires SubTable(r.solicitudes, st.solicitudes) && SubTable(r.comentarios, st.comentarios)
    requires SubTable(r.historialAsignaciones, st.historialAsignaciones)
    requires SubTable(r.historialEstados, st.historialEstados) && SubTable(r.enlaces, st.enlaces)
    ensures TablesValid(r)
    ensures RucUnique(r.clientes) && EjecutivoEmailUnique(r.ejecutivos) && AnalistaEmailUnique(r.analistas)
    ensures EnlacesUnique(r.enlaces)
  {
  }

  lemma DeleteSolicitudKeepsWf(st: Store, id: Id)
    requires Wf(st)
    ensures Wf(DeleteSolicitud(st, id))
  {
    var r := DeleteSolicitud(st, id);
    SubTablesKeepUniqueness(st, r);
    forall k | k in r.comentarios.rows ensures r.comentarios.rows[k].solicitud in r.solicitudes.rows {
      assert r.comentarios.rows[k] == st.comentarios.rows[k];
    }
    forall k | k in r.historialEstados.rows ensures HistorialEstadoRefsExist(r, r.historialEstados.rows[k]) {
      assert r.historialEstados.rows[k] == st.historialEstados.rows[k];
      assert HistorialEstadoRefsExist(st, st.historialEstados.rows[k]);
    }
    forall k | k in r.historialAsignaciones.rows ensures HistorialAsignacionRefsExist(r, r.historialAsignaciones.rows[k]) {
      assert r.historialAsignaciones.rows[k] == st.historialAsignaciones.rows[k];
      assert HistorialAsignacionRefsExist(st, st.historialAsignaciones.rows[k]);
    }
    forall k | k in r.enlaces.rows ensures EnlaceRefsExist(r, r.enlaces.rows[k]) {
      assert r.enlaces.rows[k] == st.enlaces.rows[k];
      assert EnlaceRefsExist(st, st.enlaces.rows[k]);
    }
    forall k | k in r.solicitudes.rows ensures SolicitudRefsExist(r, r.solicitudes.rows[k]) {
      assert SolicitudRefsExist(st, st.solicitudes.rows[k]);
    }
  }

  lemma DeleteCircuitoKeepsWf(st: Store, id: Id)
    requires Wf(st)
    ensures Wf(DeleteCircuito(st, id))
  {
    var r := DeleteCircuito(st, id);
    SubTablesKeepUniqueness(st, r);
    forall k | k in r.circuitos.rows ensures r.circuitos.rows[k].cliente in r.clientes.rows {
      assert r.circuitos.rows[k] == st.circuitos.rows[k];
    }
    forall k | k in r.enlaces.rows ensures EnlaceRefsExist(r, r.enlaces.rows[k]) {
      assert r.enlaces.rows[k] == st.enlaces.rows[k];
      assert EnlaceRefsExist(st, st.enlaces.rows[k]);
    }
    forall k | k in r.solicitudes.rows ensures SolicitudRefsExist(r, r.solicitudes.rows[k]) {
      assert SolicitudRefsExist(st, st.solicitudes.rows[k]);
    }
    forall k | k in r.historialEstados.rows ensures HistorialEstadoRefsExist(r, r.historialEstados.rows[k]) {
      assert HistorialEstadoRefsExist(st, st.historialEstados.rows[k]);
    }
    forall k | k in r.historialAsignaciones.rows ensures HistorialAsignacionRefsExist(r, r.historialAsignaciones.rows[k]) {
      assert HistorialAsignacionRefsExist(st, st.historialAsignaciones.rows[k]);
    }
  }

  lemma DeleteClienteKeepsWf(st: Store, id: Id)
    requires Wf(st)
    requires DeleteCliente(st, id).Success?
    ensures Wf(DeleteCliente(st, id).value)
  {
    var r := DeleteCliente(st, id).value;
    SubTablesKeepUniqueness(st, r);
    forall k | k in r.circuitos.rows ensures r.circuitos.rows[k].cliente in r.clientes.rows {
      assert r.circuitos.rows[k] == st.circuitos.rows[k];
    }
    forall k | k in r.enlaces.rows ensures EnlaceRefsExist(r, r.enlaces.rows[k]) {
      assert r.enlaces.rows[k] == st.enlaces.rows[k];
      assert EnlaceRefsExist(st, st.enlaces.rows[k]);
    }
    forall k | k in r.solicitudes.rows ensures SolicitudRefsExist(r, r.solicitudes.rows[k]) {
      assert SolicitudRefsExist(st, st.solicitudes.rows[k]);
      assert st.solicitudes.rows[k].cliente != id;
    }
    forall k | k in r.historialEstados.rows ensures HistorialEstadoRefsExist(r, r.historialEstados.rows[k]) {
      assert HistorialEstadoRefsExist(st, st.historialEstados.rows[k]);
    }
    forall k | k in r.historialAsignaciones.rows ensures HistorialAsignacionRefsExist(r, r.historialAsignaciones.rows[k]) {
      assert HistorialAsignacionRefsExist(st, st.historialAsignaciones.rows[k]);
    }
  }

  lemma DeleteEjecutivoKeepsWf(st: Store, id: Id)
    requires Wf(st)
    requires DeleteEjecutivo(st, id).Success?
    ensures Wf(DeleteEjecutivo(st, id).value)
  {
    var r := DeleteEjecutivo(st, id).value;
    SubTablesKeepUniqueness(st, r);
    forall k | k in r.solicitudes.rows ensures SolicitudRefsExist(r, r.solicitudes.rows[k]) {
      assert SolicitudRefsExist(st, st.solicitudes.rows[k]);
      assert st.solicitudes.rows[k].ejecutivo != id;
    }
    forall k | k in r.historialAsignaciones.rows ensures HistorialAsignacionRefsExist(r, r.historialAsignaciones.rows[k]) {
      assert HistorialAsignacionRefsExist(st, st.historialAsignaciones.rows[k]);
    }
    forall k | k in r.circuitos.rows ensures r.circuitos.rows[k].cliente in r.clientes.rows {
      assert r.circuitos.rows[k] == st.circuitos.rows[k];
    }
    forall k | k in r.comentarios.rows ensures r.comentarios.rows[k].solicitud in r.solicitudes.rows {
      assert r.comentarios.rows[k] == st.comentarios.rows[k];
    }
    forall k | k in r.historialEstados.rows ensures HistorialEstadoRefsExist(r, r.historialEstados.rows[k]) {
      assert HistorialEstadoRefsExist(st, st.historialEstados.rows[k]);
    }
    forall k | k in r.enlaces.rows ensures EnlaceRefsExist(r, r.enlaces.rows[k]) {
      assert EnlaceRefsExist(st, st.enlaces.rows[k]);
    }
  }

  lemma DeleteAnalistaKeepsWf(st: Store, id: Id)
    requires Wf(st)
    requires DeleteAnalista(st, id).Success?
    ensures Wf(DeleteAnalista(st, id).value)
  {
    var r := DeleteAnalista(st, id).value;
    SubTablesKeepUniqueness(st, r);
    forall k | k in r.solicitudes.rows ensures SolicitudRefsExist(r, r.solicitudes.rows[k]) {
      assert SolicitudRefsExist(st, st.solicitudes.rows[k]);
      assert st.solicitudes.rows[k].analista != id;
    }
    forall k | k in r.circuitos.rows ensures r.circuitos.rows[k].cliente in r.clientes.rows {
      assert r.circuitos.rows[k] == st.circuitos.rows[k];
    }
    forall k | k in r.comentarios.rows ensures r.comentarios.rows[k].solicitud in r.solicitudes.rows {
      assert r.comentarios.rows[k] == st.comentarios.rows[k];
    }
    forall k | k in r.historialEstados.rows ensures HistorialEstadoRefsExist(r, r.historialEstados.rows[k]) {
      assert HistorialEstadoRefsExist(st, st.historialEstados.rows[k]);
    }
    forall k | k in r.historialAsignaciones.rows ensures HistorialAsignacionRefsExist(r, r.historialAsignaciones.rows[k]) {
      assert HistorialAsignacionRefsExist(st, st.historialAsignaciones.rows[k]);
    }
    forall k | k in r.enlaces.rows ensures EnlaceRefsExist(r, r.enlaces.rows[k]) {
      assert EnlaceRefsExist(st, st.enlaces.rows[k]);
    }
  }

  lemma DeleteEstadoKeepsWf(st: Store, id: Id)
    requires Wf(st)
    requires DeleteEstado(st, id).Success?
    ensures Wf(DeleteEstado(st, id).value)
  {
    var r := DeleteEstado(st, id).value;
    SubTablesKeepUniqueness(st, r);
    forall k | k in r.solicitudes.rows ensures SolicitudRefsExist(r, r.solicitudes.rows[k]) {
      assert SolicitudRefsExist(st, st.solicitudes.rows[k]);
      assert st.solicitudes.rows[k].estadoActual != id;
    }
    forall k | k in r.historialEstados.rows ensures HistorialEstadoRefsExist(r, r.historialEstados.rows[k]) {
      assert HistorialEstadoRefsExist(st, st.historialEstados.rows[k]);
    }
    forall k | k in r.circuitos.rows ensures r.circuitos.rows[k].cliente in r.clientes.rows {
      assert r.circuitos.rows[k] == st.circuitos.rows[k];
    }
    forall k | k in r.comentarios.rows ensures r.comentarios.rows[k].solicitud in r.solicitudes.rows {
      assert r.comentarios.rows[k] == st.comentarios.rows[k];
    }
    forall k | k in r.historialAsignaciones.rows ensures HistorialAsignacionRefsExist(r, r.historialAsignaciones.rows[k]) {
      assert HistorialAsignacionRefsExist(st, st.historialAsignaciones.rows[k]);
    }
    forall k | k in r.enlaces.rows ensures EnlaceRefsExist(r, r.enlaces.rows[k]) {
      assert EnlaceRefsExist(st, st.enlaces.rows[k]);
    }
  }

  lemma DeleteNivelKeepsWf(st: Store, id: Id)
    requires Wf(st)
    requires DeleteNivel(st, id).Success?
    ensures Wf(DeleteNivel(st, id).value)
  {
    var r := DeleteNivel(st, id).value;
    SubTablesKeepUniqueness(st, r);
    forall k | k in r.solicitudes.rows ensures SolicitudRefsExist(r, r.solicitudes.rows[k]) {
      assert SolicitudRefsExist(st, st.solicitudes.rows[k]);
      assert st.solicitudes.rows[k].nivelAprobacion != id;
    }
    forall k | k in r.circuitos.rows ensures r.circuitos.rows[k].cliente in r.clientes.rows {
      assert r.circuitos.rows[k] == st.circuitos.rows[k];
    }
    forall k | k in r.comentarios.rows ensures r.comentarios.rows[k].solicitud in r.solicitudes.rows {
      assert r.comentarios.rows[k] == st.comentarios.rows[k];
    }
    forall k | k in r.historialEstados.rows ensures HistorialEstadoRefsExist(r, r.historialEstados.rows[k]) {
      assert HistorialEstadoRefsExist(st, st.historialEstados.rows[k]);
    }
    forall k | k in r.historialAsignaciones.rows ensures HistorialAsignacionRefsExist(r, r.historialAsignaciones.rows[k]) {
      assert HistorialAsignacionRefsExist(st, st.historialAsignaciones.rows[k]);
    }
    forall k | k in r.enlaces.rows ensures EnlaceRefsExist(r, r.enlaces.rows[k]) {
      assert EnlaceRefsExist(st, st.enlaces.rows[k]);
    }
  }

  /** Adding rows to the referenced tables, leaving every referring table
      as it was, keeps every foreign key valid. */
  lemma ParentsGrowKeepForeignKeys(st: Store, r: Store)
    requires ForeignKeys(st)
    requires r.circuitos == st.circuitos && r.solicitudes == st.solicitudes && r.comentarios == st.comentarios
    requires r.historialAsignaciones == st.historialAsignaciones && r.historialEstados == st.historialEstados
    requires r.enlaces == st.enlaces
    requires st.clientes.rows.Keys <= r.clientes.rows.Keys
    requires st.ejecutivos.rows.Keys <= r.ejecutivos.rows.Keys && st.analistas.rows.Keys <= r.analistas.rows.Keys
    requires st.estados.rows.Keys <= r.estados.rows.Keys && st.niveles.rows.Keys <= r.niveles.rows.Keys
    ensures ForeignKeys(r)
  {
    forall k | k in r.solicitudes.rows ensures SolicitudRefsExist(r, r.solicitudes.rows[k]) {
      assert SolicitudRefsExist(st, st.solicitudes.rows[k]);
    }
    forall k | k in r.historialAsignaciones.rows ensures HistorialAsignacionRefsExist(r, r.historialAsignaciones.rows[k]) {
      assert HistorialAsignacionRefsExist(st, st.historialAsignaciones.rows[k]);
    }
    forall k | k in r.historialEstados.rows ensures HistorialEstadoRefsExist(r, r.historialEstados.rows[k]) {
      assert HistorialEstadoRefsExist(st, st.historialEstados.rows[k]);
    }
    forall k | k in r.enlaces.rows ensures EnlaceRefsExist(r, r.enlaces.rows[k]) {
      assert EnlaceRefsExist(st, st.enlaces.rows[k]);
    }
  }
}
