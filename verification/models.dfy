/** The entities of the retention portal (models.py) and the rules the
    database enforces over them: foreign keys, uniqueness, and what happens
    to dependent rows when a row is deleted (PROTECT or CASCADE). */
module Models {
  import opened Wrappers
  import opened Tables

  /** An abstract timestamp, supplied by the caller in place of the clock. */
  type Time = nat

  /** A monetary amount in hundredths; carried, never computed with. */
  type Money = int

  /** The status a request is created in, and the one its first view moves
      it to. */
  const Registrado := "Registrado"
  const EnAnalisis := "En Análisis"

  datatype Cliente = Cliente(ruc: string, razonSocial: string, fechaRegistro: Time, estado: string)

  datatype Circuito = Circuito(
    cliente: Id,
    nombreCircuito: string,
    tipoServicio: Option<string>,
    estado: string,
    rentaMensual: Money,
    fechaCreacion: Time)

  /** A retention executive; its key is the `auth_user` key it is bound to. */
  datatype Ejecutivo = Ejecutivo(nombre: string, email: string, activo: bool)

  /** A retention analyst; its key is the `auth_user` key it is bound to. */
  datatype Analista = Analista(nombre: string, email: string, activo: bool)

  datatype Estado = Estado(nombreEstado: string, descripcion: Option<string>)

  datatype Nivel = Nivel(nombreNivel: string, orden: int)

  predicate IsRegistrado(e: Estado) { e.nombreEstado == Registrado }
  predicate IsEnAnalisis(e: Estado) { e.nombreEstado == EnAnalisis }

  /** The approval level a new request starts at. */
  predicate IsFirstLevel(n: Nivel) { n.orden == 1 }

  /** A retention request. Its circuits live in the `enlaces` table. The
      creator and the requested deactivation date are the fields the views
      write; the creator is an `auth_user` key, absent once that user is gone. */
  datatype Solicitud = Solicitud(
    cliente: Id,
    ejecutivo: Id,
    analista: Id,
    estadoActual: Id,
    nivelAprobacion: Id,
    fechaCreacion: Time,
    descripcion: Option<string>,
    asignadoAutomaticamente: bool,
    fechaSolicitudBaja: string,
    usuarioCreador: Option<Id>)

  datatype Comentario = Comentario(solicitud: Id, usuario: string, comentario: string, fechaComentario: Time)

  datatype HistorialAsignacion = HistorialAsignacion(
    solicitud: Id,
    ejecutivoAnterior: Id,
    ejecutivoNuevo: Id,
    fechaCambio: Time,
    motivo: Option<string>)

  datatype HistorialEstado = HistorialEstado(
    solicitud: Id,
    estadoAnterior: Id,
    estadoNuevo: Id,
    fechaCambio: Time,
    usuarioCambio: string)

  /** One row of the request/circuit association. */
  datatype SolicitudCircuito = SolicitudCircuito(solicitud: Id, circuito: Id, fechaAsociacion: Time)

  /** The whole database. `ultimoEjecutivo` is the `valor` of the
      `last_ejecutivo_id` configuration row, absent until first written. */
  datatype Store = Store(
    clientes: Table<Cliente>,
    circuitos: Table<Circuito>,
    ejecutivos: Table<Ejecutivo>,
    analistas: Table<Analista>,
    estados: Table<Estado>,
    niveles: Table<Nivel>,
    solicitudes: Table<Solicitud>,
    comentarios: Table<Comentario>,
    historialAsignaciones: Table<HistorialAsignacion>,
    historialEstados: Table<HistorialEstado>,
    enlaces: Table<SolicitudCircuito>,
    ultimoEjecutivo: Option<int>)

  /** A freshly migrated database: every table empty, no cursor row. */
  function EmptyStore(): (st: Store)
    ensures Wf(st)
  {
    Store(EmptyTable(0), EmptyTable(0), EmptyTable(0), EmptyTable(0), EmptyTable(0), EmptyTable(0),
          EmptyTable(0), EmptyTable(0), EmptyTable(0), EmptyTable(0), EmptyTable(0), None)
  }

  ghost predicate TablesValid(st: Store) {
    && st.clientes.Valid() && st.circuitos.Valid() && st.ejecutivos.Valid() && st.analistas.Valid()
    && st.estados.Valid() && st.niveles.Valid() && st.solicitudes.Valid() && st.comentarios.Valid()
    && st.historialAsignaciones.Valid() && st.historialEstados.Valid() && st.enlaces.Valid()
  }

  /** Every non-null foreign key points at an existing row. */
  ghost predicate ForeignKeys(st: Store) {
    && (forall k | k in st.circuitos.rows :: st.circuitos.rows[k].cliente in st.clientes.rows)
    && (forall k | k in st.solicitudes.rows :: SolicitudRefsExist(st, st.solicitudes.rows[k]))
    && (forall k | k in st.comentarios.rows :: st.comentarios.rows[k].solicitud in st.solicitudes.rows)
    && (forall k | k in st.historialAsignaciones.rows :: HistorialAsignacionRefsExist(st, st.historialAsignaciones.rows[k]))
    && (forall k | k in st.historialEstados.rows :: HistorialEstadoRefsExist(st, st.historialEstados.rows[k]))
    && (forall k | k in st.enlaces.rows :: EnlaceRefsExist(st, st.enlaces.rows[k]))
  }

  ghost predicate SolicitudRefsExist(st: Store, s: Solicitud) {
    && s.cliente in st.clientes.rows
    && s.ejecutivo in st.ejecutivos.rows
    && s.analista in st.analistas.rows
    && s.estadoActual in st.estados.rows
    && s.nivelAprobacion in st.niveles.rows
  }

  ghost predicate HistorialAsignacionRefsExist(st: Store, h: HistorialAsignacion) {
    h.solicitud in st.solicitudes.rows && h.ejecutivoAnterior in st.ejecutivos.rows && h.ejecutivoNuevo in st.ejecutivos.rows
  }

  ghost predicate HistorialEstadoRefsExist(st: Store, h: HistorialEstado) {
    h.solicitud in st.solicitudes.rows && h.estadoAnterior in st.estados.rows && h.estadoNuevo in st.estados.rows
  }

  ghost predicate EnlaceRefsExist(st: Store, e: SolicitudCircuito) {
    e.solicitud in st.solicitudes.rows && e.circuito in st.circuitos.rows
  }

  /** `Cliente.ruc` is unique. */
  ghost predicate RucUnique(t: Table<Cliente>) {
    forall a, b | a in t.rows && b in t.rows && t.rows[a].ruc == t.rows[b].ruc :: a == b
  }

  /** `EjecutivoRetencion.email` is unique. */
  ghost predicate EjecutivoEmailUnique(t: Table<Ejecutivo>) {
    forall a, b | a in t.rows && b in t.rows && t.rows[a].email == t.rows[b].email :: a == b
  }

  /** `AnalistaRetencion.email` is unique. */
  ghost predicate AnalistaEmailUnique(t: Table<Analista>) {
    forall a, b | a in t.rows && b in t.rows && t.rows[a].email == t.rows[b].email :: a == b
  }

  /** `unique_together = ('solicitud', 'circuito')`. */
  ghost predicate EnlacesUnique(t: Table<SolicitudCircuito>) {
    forall a, b | a in t.rows && b in t.rows
                  && t.rows[a].solicitud == t.rows[b].solicitud && t.rows[a].circuito == t.rows[b].circuito :: a == b
  }

  /** The constraints the database keeps at all times. */
  ghost predicate Wf(st: Store) {
    && TablesValid(st)
    && ForeignKeys(st)
    && RucUnique(st.clientes)
    && EjecutivoEmailUnique(st.ejecutivos)
    && AnalistaEmailUnique(st.analistas)
    && EnlacesUnique(st.enlaces)
  }

  /** The circuits a request is linked to. */
  function CircuitosDe(st: Store, sol: Id): (cs: set<Id>)
    ensures forall c :: c in cs <==> exists k :: k in st.enlaces.rows && st.enlaces.rows[k].solicitud == sol && st.enlaces.rows[k].circuito == c
  {
    set k | k in st.enlaces.rows && st.enlaces.rows[k].solicitud == sol :: st.enlaces.rows[k].circuito
  }

  // ---------------------------------------------------------------------
  // Deletion: PROTECT refuses, CASCADE removes the dependants as well.
  // ---------------------------------------------------------------------

  /** Django's `ProtectedError`, a kind of `IntegrityError`. */
  datatype DeleteError = ProtectedError

  predicate ClienteReferenced(st: Store, id: Id) {
    exists k | k in st.solicitudes.rows :: st.solicitudes.rows[k].cliente == id
  }

  predicate EjecutivoReferenced(st: Store, id: Id) {
    || (exists k | k in st.solicitudes.rows :: st.solicitudes.rows[k].ejecutivo == id)
    || (exists k | k in st.historialAsignaciones.rows ::
          st.historialAsignaciones.rows[k].ejecutivoAnterior == id || st.historialAsignaciones.rows[k].ejecutivoNuevo == id)
  }

  predicate AnalistaReferenced(st: Store, id: Id) {
    exists k | k in st.solicitudes.rows :: st.solicitudes.rows[k].analista == id
  }

  predicate EstadoReferenced(st: Store, id: Id) {
    || (exists k | k in st.solicitudes.rows :: st.solicitudes.rows[k].estadoActual == id)
    || (exists k | k in st.historialEstados.rows ::
          st.historialEstados.rows[k].estadoAnterior == id || st.historialEstados.rows[k].estadoNuevo == id)
  }

  predicate NivelReferenced(st: Store, id: Id) {
    exists k | k in st.solicitudes.rows :: st.solicitudes.rows[k].nivelAprobacion == id
  }

  /** Deleting a request takes its comments, both histories and its circuit
      links with it. */
  function DeleteSolicitud(st: Store, id: Id): (r: Store)
    ensures r.solicitudes.rows == st.solicitudes.rows - {id}
    ensures forall k | k in r.comentarios.rows :: r.comentarios.rows[k].solicitud != id
    ensures forall k | k in r.historialEstados.rows :: r.historialEstados.rows[k].solicitud != id
    ensures forall k | k in r.historialAsignaciones.rows :: r.historialAsignaciones.rows[k].solicitud != id
    ensures forall k | k in r.enlaces.rows :: r.enlaces.rows[k].solicitud != id
    ensures forall k | k in st.comentarios.rows && st.comentarios.rows[k].solicitud != id ::
              k in r.comentarios.rows && r.comentarios.rows[k] == st.comentarios.rows[k]
    ensures forall k | k in st.historialEstados.rows && st.historialEstados.rows[k].solicitud != id ::
              k in r.historialEstados.rows && r.historialEstados.rows[k] == st.historialEstados.rows[k]
    ensures forall k | k in st.historialAsignaciones.rows && st.historialAsignaciones.rows[k].solicitud != id ::
              k in r.historialAsignaciones.rows && r.historialAsignaciones.rows[k] == st.historialAsignaciones.rows[k]
    ensures forall k | k in st.enlaces.rows && st.enlaces.rows[k].solicitud != id ::
              k in r.enlaces.rows && r.enlaces.rows[k] == st.enlaces.rows[k]
    ensures r.clientes == st.clientes && r.circuitos == st.circuitos && r.estados == st.estados
    ensures r.ejecutivos == st.ejecutivos && r.analistas == st.analistas && r.niveles == st.niveles
    ensures r.ultimoEjecutivo == st.ultimoEjecutivo
  {
    st.(solicitudes := st.solicitudes.Where((k, s) => k != id),
        comentarios := st.comentarios.Where((k, c: Comentario) => c.solicitud != id),
        historialEstados := st.historialEstados.Where((k, h: HistorialEstado) => h.solicitud != id),
        historialAsignaciones := st.historialAsignaciones.Where((k, h: HistorialAsignacion) => h.solicitud != id),
        enlaces := st.enlaces.Where((k, e: SolicitudCircuito) => e.solicitud != id))
  }

  /** Deleting a circuit takes its request links with it. */
  function DeleteCircuito(st: Store, id: Id): (r: Store)
    ensures r.circuitos.rows == st.circuitos.rows - {id} && r.circuitos.nextId == st.circuitos.nextId
    ensures forall k | k in r.enlaces.rows :: r.enlaces.rows[k].circuito != id
    ensures forall k | k in st.enlaces.rows && st.enlaces.rows[k].circuito != id ::
              k in r.enlaces.rows && r.enlaces.rows[k] == st.enlaces.rows[k]
    ensures r.enlaces.rows.Keys <= st.enlaces.rows.Keys && r.enlaces.nextId == st.enlaces.nextId
    ensures r == st.(circuitos := r.circuitos, enlaces := r.enlaces)
  {
    st.(circuitos := st.circuitos.Where((k, c) => k != id),
        enlaces := st.enlaces.Where((k, e: SolicitudCircuito) => e.circuito != id))
  }

  /** Deleting a client is refused while a request points at it; otherwise
      its circuits, and their request links, go with it. */
  function DeleteCliente(st: Store, id: Id): (r: Result<Store, DeleteError>)
    ensures r.Failure? <==> ClienteReferenced(st, id)
    ensures r.Success? ==> r.value.clientes.rows == st.clientes.rows - {id} && r.value.clientes.nextId == st.clientes.nextId
    ensures r.Success? ==> forall k | k in r.value.circuitos.rows :: r.value.circuitos.rows[k].cliente != id
    ensures r.Success? ==> forall k | k in st.circuitos.rows && st.circuitos.rows[k].cliente != id ::
              k in r.value.circuitos.rows && r.value.circuitos.rows[k] == st.circuitos.rows[k]
    ensures r.Success? ==> r.value.circuitos.rows.Keys <= st.circuitos.rows.Keys && r.value.circuitos.nextId == st.circuitos.nextId
    // The links of the cascaded circuits go with them; the others stay as they were.
    ensures r.Success? ==> forall k | k in st.enlaces.rows ::
              (k in r.value.enlaces.rows <==> st.enlaces.rows[k].circuito in r.value.circuitos.rows)
    ensures r.Success? ==> forall k | k in r.value.enlaces.rows :: k in st.enlaces.rows && r.value.enlaces.rows[k] == st.enlaces.rows[k]
    ensures r.Success? ==> r.value.enlaces.nextId == st.enlaces.nextId
    ensures r.Success? ==> r.value == st.(clientes := r.value.clientes, circuitos := r.value.circuitos, enlaces := r.value.enlaces)
  {
    if ClienteReferenced(st, id) then Failure(ProtectedError)
    else
      var circuitos := st.circuitos.Where((k, c: Circuito) => c.cliente != id);
      Success(st.(clientes := st.clientes.Where((k, c) => k != id),
                  circuitos := circuitos,
                  enlaces := st.enlaces.Where((k, e: SolicitudCircuito) => e.circuito in circuitos.rows)))
  }

  /** Deleting an executive is refused while a request or an assignment
      history row points at it. Deleting a missing key deletes nothing. */
  function DeleteEjecutivo(st: Store, id: Id): (r: Result<Store, DeleteError>)
    ensures r.Failure? <==> EjecutivoReferenced(st, id)
    ensures r.Success? ==> r.value == st.(ejecutivos := r.value.ejecutivos)
    ensures r.Success? ==> r.value.ejecutivos.rows == st.ejecutivos.rows - {id}
  {
    if EjecutivoReferenced(st, id) then Failure(ProtectedError)
    else Success(st.(ejecutivos := st.ejecutivos.Where((k, e) => k != id)))
  }

  /** Deleting an analyst is refused while a request points at it. */
  function DeleteAnalista(st: Store, id: Id): (r: Result<Store, DeleteError>)
    ensures r.Failure? <==> AnalistaReferenced(st, id)
    ensures r.Success? ==> r.value == st.(analistas := r.value.analistas)
    ensures r.Success? ==> r.value.analistas.rows == st.analistas.rows - {id}
  {
    if AnalistaReferenced(st, id) then Failure(ProtectedError)
    else Success(st.(analistas := st.analistas.Where((k, a) => k != id)))
  }

  /** Deleting a status is refused while a request is in it or a status
      history row names it. */
  function DeleteEstado(st: Store, id: Id): (r: Result<Store, DeleteError>)
    ensures r.Failure? <==> EstadoReferenced(st, id)
    ensures r.Success? ==> r.value == st.(estados := r.value.estados)
    ensures r.Success? ==> r.value.estados.rows == st.estados.rows - {id}
  {
    if EstadoReferenced(st, id) then Failure(ProtectedError)
    else Success(st.(estados := st.estados.Where((k, e) => k != id)))
  }

  /** Deleting an approval level is refused while a request is at it. */
  function DeleteNivel(st: Store, id: Id): (r: Result<Store, DeleteError>)
    ensures r.Failure? <==> NivelReferenced(st, id)
    ensures r.Success? ==> r.value == st.(niveles := r.value.niveles)
    ensures r.Success? ==> r.value.niveles.rows == st.niveles.rows - {id}
  {
    if NivelReferenced(st, id) then Failure(ProtectedError)
    else Success(st.(niveles := st.niveles.Where((k, n) => k != id)))
  }
}
