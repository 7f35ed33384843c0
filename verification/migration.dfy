/** The legacy import (`migrar_con_pandas`): clients and circuits are read
    from the old database and rebuilt in the portal's, matched by RUC.

    The source rows arrive as sequences; the connection and the query are
    outside the model. */
module Migration {
  import opened Wrappers
  import opened Tables
  import opened Models

  /** A row of the legacy client query. */
  datatype ClienteRow = ClienteRow(ruc: string, razonSocial: string, fechaRegistro: Time, estado: string)

  /** A row of the legacy circuit query, joined with its client's RUC. */
  datatype CircuitoRow = CircuitoRow(
    nombreCircuito: string,
    tipoServicio: Option<string>,
    estado: string,
    rentaMensual: Money,
    fechaCreacion: Time,
    ruc: string)

  /** The client `get_or_create` inserts for a row. The legacy
      `fecha_registro` is passed among the defaults, but the field is
      `auto_now_add`, so the saved row carries the time of the import. */
  function ToCliente(row: ClienteRow, now: Time): (c: Cliente)
    ensures c.ruc == row.ruc && c.razonSocial == row.razonSocial && c.estado == row.estado
    ensures c.fechaRegistro == now
  {
    Cliente(row.ruc, row.razonSocial, now, row.estado)
  }

  /** The unsaved `Circuito` the loop appends, with the legacy date. */
  function ToCircuito(row: CircuitoRow, cliente: Id): Circuito {
    Circuito(cliente, row.nombreCircuito, row.tipoServicio, row.estado, row.rentaMensual, row.fechaCreacion)
  }

  // ---------------------------------------------------------------------
  // The wipe
  // ---------------------------------------------------------------------

  /** Deleting every request: comments, both histories and the circuit
      links go with them by CASCADE. */
  function WipeSolicitudes(st: Store): (r: Store)
    ensures forall id :: !ClienteReferenced(r, id)
  {
    st.(solicitudes := st.solicitudes.(rows := map[]),
        comentarios := st.comentarios.(rows := map[]),
        historialAsignaciones := st.historialAsignaciones.(rows := map[]),
        historialEstados := st.historialEstados.(rows := map[]),
        enlaces := st.enlaces.(rows := map[]))
  }

  /** The three deletes, in order. With the requests gone nothing protects
      a client, so the last delete cannot raise. Key sequences are not
      reset: new rows get keys above every old one. */
  function Wipe(st: Store): (r: Store)
    ensures r.clientes.rows == map[] && r.circuitos.rows == map[] && r.solicitudes.rows == map[]
    ensures r.comentarios.rows == map[] && r.enlaces.rows == map[]
    ensures r.historialAsignaciones.rows == map[] && r.historialEstados.rows == map[]
    ensures r.clientes.nextId == st.clientes.nextId && r.circuitos.nextId == st.circuitos.nextId
    ensures r.ejecutivos == st.ejecutivos && r.analistas == st.analistas
    ensures r.estados == st.estados && r.niveles == st.niveles && r.ultimoEjecutivo == st.ultimoEjecutivo
    ensures Wf(st) ==> r.clientes.Valid() && r.circuitos.Valid()
  {
    var w := WipeSolicitudes(st);
    w.(circuitos := w.circuitos.(rows := map[]), clientes := w.clientes.(rows := map[]))
  }

  lemma WipeKeepsWf(st: Store)
    requires Wf(st)
    ensures Wf(Wipe(st))
  {
  }

  // ---------------------------------------------------------------------
  // Step 1: clients and the RUC map
  // ---------------------------------------------------------------------

  function Rucs(rows: seq<ClienteRow>): (s: set<string>)
    ensures forall i | 0 <= i < |rows| :: rows[i].ruc in s
    ensures forall r | r in s :: exists i | 0 <= i < |rows| :: rows[i].ruc == r
  {
    set i | 0 <= i < |rows| :: rows[i].ruc
  }

  /** The first row carrying `ruc`. */
  function First(rows: seq<ClienteRow>, ruc: string): (i: nat)
    requires ruc in Rucs(rows)
    ensures i < |rows| && rows[i].ruc == ruc
    ensures forall j | 0 <= j < i :: rows[j].ruc != ruc
  {
    if rows[0].ruc == ruc then 0
    else
      assert ruc in Rucs(rows[1..]) by {
        var i :| 0 <= i < |rows| && rows[i].ruc == ruc;
        assert rows[1..][i - 1].ruc == ruc;
      }
      1 + First(rows[1..], ruc)
  }

  predicate HasRuc(ruc: string, c: Cliente) { c.ruc == ruc }

  /** The loop over the client rows: `get_or_create(ruc=...)` on each, in
      order, recording the key it returns under the row's RUC. A lookup that
      finds several rows raises and ends the command. */
  function ImportClientes(t: Table<Cliente>, m: map<string, Id>, rows: seq<ClienteRow>, now: Time)
    : (r: Result<(Table<Cliente>, map<string, Id>), GetError>)
    requires t.Valid()
    ensures r.Success? ==> r.value.0.Valid()
    decreases |rows|
  {
    if rows == [] then Success((t, m))
    else
      var row := rows[0];
      var (t', id, _) :- t.GetOrCreate((c: Cliente) => HasRuc(row.ruc, c), ToCliente(row, now));
      ImportClientes(t', m[row.ruc := id], rows[1..], now)
  }

  /** The map agrees with the table: each RUC maps to the row carrying it. */
  ghost predicate MapAgrees(t: Table<Cliente>, m: map<string, Id>) {
    forall ruc | ruc in m :: m[ruc] in t.rows && t.rows[m[ruc]].ruc == ruc
  }

  /** Every row of the table is the one its RUC maps to. */
  ghost predicate MapCovers(t: Table<Cliente>, m: map<string, Id>) {
    forall k | k in t.rows :: t.rows[k].ruc in m && m[t.rows[k].ruc] == k
  }

  lemma UniqueRucLookup(t: Table<Cliente>, ruc: string)
    requires RucUnique(t)
    ensures !t.Get((c: Cliente) => HasRuc(ruc, c)).Multiple?
  {
    var ks := t.KeysWhere((c: Cliente) => HasRuc(ruc, c));
    assert forall a, b | a in ks && b in ks :: a == b;
  }

  /** One iteration on a table with unique RUCs: the table after the
      `get_or_create`, the key it returned, and whether it inserted. */
  ghost function StepOf(t: Table<Cliente>, row: ClienteRow, now: Time): (Table<Cliente>, Id, bool)
    requires t.Valid() && RucUnique(t)
  {
    UniqueRucLookup(t, row.ruc);
    t.GetOrCreate((c: Cliente) => HasRuc(row.ruc, c), ToCliente(row, now)).value
  }

  /** The loop unrolled once. */
  lemma ImportCons(t: Table<Cliente>, m: map<string, Id>, rows: seq<ClienteRow>, now: Time)
    requires t.Valid() && RucUnique(t) && rows != []
    ensures var (t1, id, _) := StepOf(t, rows[0], now);
            ImportClientes(t, m, rows, now) == ImportClientes(t1, m[rows[0].ruc := id], rows[1..], now)
  {
    UniqueRucLookup(t, rows[0].ruc);
  }

  /** One iteration keeps the table's RUCs unique and the map in agreement
      with it; it inserts exactly when the RUC was absent. */
  lemma ImportStep(t: Table<Cliente>, m: map<string, Id>, row: ClienteRow, now: Time)
    requires t.Valid() && RucUnique(t) && MapAgrees(t, m)
    ensures var (t', id, created) := StepOf(t, row, now);
            && t'.Valid() && RucUnique(t') && MapAgrees(t', m[row.ruc := id]) && Extends(t', t)
            && id in t'.rows && t'.rows[id].ruc == row.ruc
            && (created <==> forall k | k in t.rows :: t.rows[k].ruc != row.ruc)
            && (created ==> t'.rows[id] == ToCliente(row, now))
  {
    var p := (c: Cliente) => HasRuc(row.ruc, c);
    UniqueRucLookup(t, row.ruc);
    var (t', id, created) := t.GetOrCreate(p, ToCliente(row, now)).value;
    if created {
      assert forall k | k in t.rows :: t.rows[k].ruc != row.ruc by {
        assert forall k | k in t.rows :: k !in t.KeysWhere(p) ==> !p(t.rows[k]);
      }
    } else {
      assert id in t.KeysWhere(p);
    }
  }

  /** One iteration keeps every row of the table the one its RUC maps to. */
  lemma ImportStepCovers(t: Table<Cliente>, m: map<string, Id>, row: ClienteRow, now: Time)
    requires t.Valid() && RucUnique(t) && MapAgrees(t, m) && MapCovers(t, m)
    ensures var (t', id, _) := StepOf(t, row, now);
            MapCovers(t', m[row.ruc := id])
  {
    var p := (c: Cliente) => HasRuc(row.ruc, c);
    UniqueRucLookup(t, row.ruc);
    var (t', id, created) := t.GetOrCreate(p, ToCliente(row, now)).value;
    if !created {
      assert id in t.KeysWhere(p);
    }
  }

  /** With unique RUCs the import never raises; the map gains exactly the
      RUCs of the rows and stays in agreement with the table, whose earlier
      rows are kept as they were. */
  lemma {:induction false} ImportInvariant(t: Table<Cliente>, m: map<string, Id>, rows: seq<ClienteRow>, now: Time)
    requires t.Valid() && RucUnique(t) && MapAgrees(t, m)
    ensures ImportClientes(t, m, rows, now).Success?
    ensures var (t', m') := ImportClientes(t, m, rows, now).value;
            && RucUnique(t') && MapAgrees(t', m') && Extends(t', t)
    decreases |rows|
  {
    if rows != [] {
      var (t1, id, _) := StepOf(t, rows[0], now);
      ImportCons(t, m, rows, now);
      ImportStep(t, m, rows[0], now);
      ImportInvariant(t1, m[rows[0].ruc := id], rows[1..], now);
      var (t', _) := ImportClientes(t1, m[rows[0].ruc := id], rows[1..], now).value;
      ExtendsTrans(t', t1, t);
    }
  }

  /** The map gains exactly the RUCs of the rows. */
  lemma {:induction false} ImportKeys(t: Table<Cliente>, m: map<string, Id>, rows: seq<ClienteRow>, now: Time)
    requires t.Valid() && RucUnique(t) && MapAgrees(t, m)
    ensures ImportClientes(t, m, rows, now).Success?
    ensures ImportClientes(t, m, rows, now).value.1.Keys == m.Keys + Rucs(rows)
    decreases |rows|
  {
    ImportInvariant(t, m, rows, now);
    if rows != [] {
      var (t1, id, _) := StepOf(t, rows[0], now);
      ImportCons(t, m, rows, now);
      ImportStep(t, m, rows[0], now);
      ImportKeys(t1, m[rows[0].ruc := id], rows[1..], now);
      RucsCons(rows);
    }
  }

  /** If every row of the table is the one its RUC maps to before the
      import, the same holds after it. */
  lemma {:induction false} ImportCovers(t: Table<Cliente>, m: map<string, Id>, rows: seq<ClienteRow>, now: Time)
    requires t.Valid() && RucUnique(t) && MapAgrees(t, m) && MapCovers(t, m)
    ensures ImportClientes(t, m, rows, now).Success?
    ensures MapCovers(ImportClientes(t, m, rows, now).value.0, ImportClientes(t, m, rows, now).value.1)
    decreases |rows|
  {
    ImportInvariant(t, m, rows, now);
    if rows != [] {
      var (t1, id, _) := StepOf(t, rows[0], now);
      ImportCons(t, m, rows, now);
      ImportStep(t, m, rows[0], now);
      ImportStepCovers(t, m, rows[0], now);
      ImportCovers(t1, m[rows[0].ruc := id], rows[1..], now);
    }
  }

  lemma RucsCons(rows: seq<ClienteRow>)
    requires rows != []
    ensures Rucs(rows) == {rows[0].ruc} + Rucs(rows[1..])
  {
    forall r | r in Rucs(rows) ensures r in {rows[0].ruc} + Rucs(rows[1..]) {
      var i :| 0 <= i < |rows| && rows[i].ruc == r;
      if i > 0 { assert rows[1..][i - 1].ruc == r; }
    }
  }

  /** The first row with a RUC wins: on a table without that RUC, the
      client made for it carries the data of the first row that has it;
      later rows with the same RUC change nothing. */
  lemma {:induction false} ImportFirstWins(t: Table<Cliente>, m: map<string, Id>, rows: seq<ClienteRow>, ruc: string, now: Time)
    requires t.Valid() && RucUnique(t) && MapAgrees(t, m)
    requires ruc in Rucs(rows) && forall k | k in t.rows :: t.rows[k].ruc != ruc
    ensures ImportClientes(t, m, rows, now).Success?
    ensures var (t', m') := ImportClientes(t, m, rows, now).value;
            ruc in m' && m'[ruc] in t'.rows && t'.rows[m'[ruc]] == ToCliente(rows[First(rows, ruc)], now)
    decreases |rows|
  {
    var row := rows[0];
    var (t1, id, created) := StepOf(t, row, now);
    var m1 := m[row.ruc := id];
    ImportCons(t, m, rows, now);
    ImportStep(t, m, row, now);
    if row.ruc == ruc {
      FirstRowKept(t1, m1, rows[1..], id, now);
    } else {
      assert ruc in Rucs(rows[1..]) by {
        var i :| 0 <= i < |rows| && rows[i].ruc == ruc;
        assert rows[1..][i - 1].ruc == ruc;
      }
      ImportFirstWins(t1, m1, rows[1..], ruc, now);
      assert First(rows, ruc) == 1 + First(rows[1..], ruc);
    }
  }

  /** A key already in the map keeps its row through the rest of the
      import: later lookups of its RUC find that same row. */
  lemma FirstRowKept(t: Table<Cliente>, m: map<string, Id>, rows: seq<ClienteRow>, id: Id, now: Time)
    requires t.Valid() && RucUnique(t) && MapAgrees(t, m) && id in t.rows
    requires t.rows[id].ruc in m && m[t.rows[id].ruc] == id
    ensures ImportClientes(t, m, rows, now).Success?
    ensures var (t', m') := ImportClientes(t, m, rows, now).value;
            var ruc := t.rows[id].ruc;
            ruc in m' && m'[ruc] == id && id in t'.rows && t'.rows[id] == t.rows[id]
  {
    ImportInvariant(t, m, rows, now);
    ImportKeys(t, m, rows, now);
    var (t', m') := ImportClientes(t, m, rows, now).value;
    var ruc := t.rows[id].ruc;
    UniqueKeyForRuc(t', m'[ruc], id);
  }

  lemma UniqueKeyForRuc(t: Table<Cliente>, a: Id, b: Id)
    requires RucUnique(t) && a in t.rows && b in t.rows && t.rows[a].ruc == t.rows[b].ruc
    ensures a == b
  {
  }

  // ---------------------------------------------------------------------
  // Step 2: circuits
  // ---------------------------------------------------------------------

  /** `if nuevo_cliente_id:` — a RUC with a mapped, nonzero key. */
  predicate HasParent(row: CircuitoRow, m: map<string, Id>) {
    row.ruc in m && m[row.ruc] != 0
  }

  /** The circuits to create, in the order of their rows: the reference the
      loop is checked against. */
  function ToCreate(rows: seq<CircuitoRow>, m: map<string, Id>): (cs: seq<Circuito>)
    ensures |cs| <= |rows|
  {
    if rows == [] then []
    else (if HasParent(rows[0], m) then [ToCircuito(rows[0], m[rows[0].ruc])] else []) + ToCreate(rows[1..], m)
  }

  /** Splitting the rows splits the result: the circuits keep the order of
      their rows. */
  lemma {:induction false} ToCreateAppend(a: seq<CircuitoRow>, b: seq<CircuitoRow>, m: map<string, Id>)
    ensures ToCreate(a + b, m) == ToCreate(a, m) + ToCreate(b, m)
    decreases |a|
  {
    if a != [] {
      var head := if HasParent(a[0], m) then [ToCircuito(a[0], m[a[0].ruc])] else [];
      assert (a + b)[0] == a[0];
      assert (a + b)[1..] == a[1..] + b;
      ToCreateAppend(a[1..], b, m);
      calc {
        ToCreate(a + b, m);
        head + ToCreate(a[1..] + b, m);
        head + (ToCreate(a[1..], m) + ToCreate(b, m));
        (head + ToCreate(a[1..], m)) + ToCreate(b, m);
        ToCreate(a, m) + ToCreate(b, m);
      }
    } else {
      assert a + b == b;
    }
  }

  /** A single row yields its circuit exactly when it has a parent, bound to
      the mapped client. */
  lemma ToCreateOne(row: CircuitoRow, m: map<string, Id>)
    ensures ToCreate([row], m) == if HasParent(row, m) then [ToCircuito(row, m[row.ruc])] else []
  {
    assert [row][1..] == [];
  }

  /** Every circuit to create belongs to a client the map knows. */
  lemma {:induction false} ToCreateHasParents(rows: seq<CircuitoRow>, m: map<string, Id>)
    ensures forall i | 0 <= i < |ToCreate(rows, m)| :: ToCreate(rows, m)[i].cliente in m.Values
    decreases |rows|
  {
    if rows != [] {
      ToCreateHasParents(rows[1..], m);
    }
  }

  /** The loop over the circuit rows with its two counters. */
  method PartitionCircuitos(rows: seq<CircuitoRow>, m: map<string, Id>)
    returns (aCrear: seq<Circuito>, creados: nat, sinPadre: nat)
    ensures aCrear == ToCreate(rows, m)
    ensures creados == |aCrear|
    ensures creados + sinPadre == |rows|
  {
    aCrear, creados, sinPadre := [], 0, 0;
    var i := 0;
    while i < |rows|
      invariant i <= |rows|
      invariant aCrear == ToCreate(rows[..i], m)
      invariant creados == |aCrear| && creados + sinPadre == i
    {
      var row := rows[i];
      ToCreateAppend(rows[..i], [row], m);
      ToCreateOne(row, m);
      assert rows[..i + 1] == rows[..i] + [row];
      if row.ruc in m && m[row.ruc] != 0 {
        aCrear := aCrear + [ToCircuito(row, m[row.ruc])];
        creados := creados + 1;
      } else {
        sinPadre := sinPadre + 1;
      }
      i := i + 1;
    }
    assert rows[..i] == rows;
  }

  /** The circuit `bulk_create` saves for a listed one: `fecha_creacion` is
      `auto_now_add`, so the legacy date gives way to the time of the
      import. */
  function Saved(c: Circuito, now: Time): (s: Circuito)
    ensures s.fechaCreacion == now
    ensures s.(fechaCreacion := c.fechaCreacion) == c
  {
    c.(fechaCreacion := now)
  }

  /** `bulk_create`: the i-th listed circuit is saved under the i-th key the
      sequence issues, and nothing else is inserted. */
  function BulkCreate(t: Table<Circuito>, cs: seq<Circuito>, now: Time): (r: Table<Circuito>)
    requires t.Valid()
    ensures r.Valid() && r.nextId == t.nextId + |cs|
    ensures Extends(r, t)
    ensures forall k | t.nextId <= k < t.nextId + |cs| :: k in r.rows && r.rows[k] == Saved(cs[k - t.nextId], now)
    ensures forall k | k in r.rows :: k in t.rows || t.nextId <= k
    decreases |cs|
  {
    if cs == [] then t
    else
      var (t', _) := t.Insert(Saved(cs[0], now));
      var rest := BulkCreate(t', cs[1..], now);
      BulkCreateShift(t, t', rest, cs, now);
      ExtendsTrans(rest, t', t);
      rest
  }

  /** The step of `BulkCreate`: the rest of the list lands one key up. */
  lemma BulkCreateShift(t: Table<Circuito>, t': Table<Circuito>, rest: Table<Circuito>, cs: seq<Circuito>, now: Time)
    requires t.Valid() && cs != [] && t' == t.Insert(Saved(cs[0], now)).0 && Extends(rest, t')
    requires forall k | t'.nextId <= k < t'.nextId + |cs[1..]| :: k in rest.rows && rest.rows[k] == Saved(cs[1..][k - t'.nextId], now)
    ensures forall k | t.nextId <= k < t.nextId + |cs| :: k in rest.rows && rest.rows[k] == Saved(cs[k - t.nextId], now)
  {
    forall k | t.nextId <= k < t.nextId + |cs| ensures k in rest.rows && rest.rows[k] == Saved(cs[k - t.nextId], now) {
      if k == t.nextId {
        assert k in t'.rows;
      } else {
        assert cs[1..][k - t'.nextId] == cs[k - t.nextId];
      }
    }
  }

  /** A circuit row is listed exactly when its RUC has a parent, and then
      bound to the mapped client. */
  lemma {:induction false} ToCreateMembers(rows: seq<CircuitoRow>, m: map<string, Id>)
    ensures forall i | 0 <= i < |rows| && HasParent(rows[i], m) :: ToCircuito(rows[i], m[rows[i].ruc]) in ToCreate(rows, m)
    ensures forall c | c in ToCreate(rows, m) ::
              exists i | 0 <= i < |rows| :: HasParent(rows[i], m) && c == ToCircuito(rows[i], m[rows[i].ruc])
    decreases |rows|
  {
    if rows != [] {
      var tail := ToCreate(rows[1..], m);
      ToCreateMembers(rows[1..], m);
      forall i | 1 <= i < |rows| && HasParent(rows[i], m)
        ensures ToCircuito(rows[i], m[rows[i].ruc]) in ToCreate(rows, m)
      {
        assert rows[1..][i - 1] == rows[i];
      }
      forall c | c in tail
        ensures exists i | 0 <= i < |rows| :: HasParent(rows[i], m) && c == ToCircuito(rows[i], m[rows[i].ruc])
      {
        var j :| 0 <= j < |rows[1..]| && HasParent(rows[1..][j], m) && c == ToCircuito(rows[1..][j], m[rows[1..][j].ruc]);
        assert rows[j + 1] == rows[1..][j];
      }
    }
  }

  /** After the bulk insert into the wiped table, every legacy circuit row
      whose RUC has a parent is saved, bound to the mapped client. */
  lemma MigratedCircuitosComplete(w: Table<Circuito>, rows: seq<CircuitoRow>, m: map<string, Id>, now: Time)
    requires w.Valid() && w.rows == map[]
    ensures forall i | 0 <= i < |rows| && HasParent(rows[i], m) ::
              Saved(ToCircuito(rows[i], m[rows[i].ruc]), now) in BulkCreate(w, ToCreate(rows, m), now).rows.Values
  {
    var cs := ToCreate(rows, m);
    var cc := BulkCreate(w, cs, now);
    ToCreateMembers(rows, m);
    forall i | 0 <= i < |rows| && HasParent(rows[i], m)
      ensures Saved(ToCircuito(rows[i], m[rows[i].ruc]), now) in cc.rows.Values
    {
      var j :| 0 <= j < |cs| && cs[j] == ToCircuito(rows[i], m[rows[i].ruc]);
      var k := w.nextId + j;
      assert k in cc.rows && cc.rows[k] == Saved(cs[k - w.nextId], now);
      assert cc.rows[k] in cc.rows.Values;
    }
  }

  /** Conversely, every circuit the bulk insert saves comes from a legacy
      row whose RUC has a parent. */
  lemma MigratedCircuitosSound(w: Table<Circuito>, rows: seq<CircuitoRow>, m: map<string, Id>, now: Time)
    requires w.Valid() && w.rows == map[]
    ensures forall k | k in BulkCreate(w, ToCreate(rows, m), now).rows ::
              exists i | 0 <= i < |rows| ::
                HasParent(rows[i], m) && BulkCreate(w, ToCreate(rows, m), now).rows[k] == Saved(ToCircuito(rows[i], m[rows[i].ruc]), now)
  {
    var cs := ToCreate(rows, m);
    var cc := BulkCreate(w, cs, now);
    ToCreateMembers(rows, m);
    forall k | k in cc.rows
      ensures exists i | 0 <= i < |rows| :: HasParent(rows[i], m) && cc.rows[k] == Saved(ToCircuito(rows[i], m[rows[i].ruc]), now)
    {
      var j := k - w.nextId;
      assert cc.rows[k] == Saved(cs[j], now);
      assert cs[j] in cs;
    }
  }

  /** What the command reports at the end. */
  datatype Report = Report(clientesMigrados: nat, circuitosMigrados: nat, circuitosSinPadre: nat)

  /** Importing into the wiped, empty client table: one client per
      distinct RUC, each carrying its first row's data, and a map that
      names exactly those clients. */
  lemma ImportFromEmpty(t: Table<Cliente>, rows: seq<ClienteRow>, now: Time)
    requires t.Valid() && t.rows == map[]
    ensures ImportClientes(t, map[], rows, now).Success?
    ensures var (t', m) := ImportClientes(t, map[], rows, now).value;
            && RucUnique(t') && MapAgrees(t', m) && MapCovers(t', m)
            && m.Keys == Rucs(rows)
            && (forall k | k in t'.rows :: t'.rows[k].ruc in Rucs(rows))
            && (forall ruc | ruc in Rucs(rows) :: t'.rows[m[ruc]] == ToCliente(rows[First(rows, ruc)], now))
  {
    ImportInvariant(t, map[], rows, now);
    ImportKeys(t, map[], rows, now);
    ImportCovers(t, map[], rows, now);
    var (t', m) := ImportClientes(t, map[], rows, now).value;
    forall ruc | ruc in Rucs(rows) ensures t'.rows[m[ruc]] == ToCliente(rows[First(rows, ruc)], now) {
      ImportFirstWins(t, map[], rows, ruc, now);
    }
  }

  /** Every circuit bulk-created from the partition points at an imported
      client. */
  lemma CircuitosHaveClientes(w: Table<Circuito>, tc: Table<Cliente>, m: map<string, Id>, rows: seq<CircuitoRow>, now: Time)
    requires w.Valid() && w.rows == map[] && MapAgrees(tc, m)
    ensures forall k | k in BulkCreate(w, ToCreate(rows, m), now).rows ::
              BulkCreate(w, ToCreate(rows, m), now).rows[k].cliente in tc.rows
  {
    var cs := ToCreate(rows, m);
    var cc := BulkCreate(w, cs, now);
    ToCreateHasParents(rows, m);
    forall k | k in cc.rows ensures cc.rows[k].cliente in tc.rows {
      var i := k - w.nextId;
      assert cc.rows[k] == Saved(cs[i], now);
      var ruc :| ruc in m && m[ruc] == cs[i].cliente;
    }
  }

  lemma MigratedWf(st: Store, tc: Table<Cliente>, cc: Table<Circuito>)
    requires Wf(st) && st.solicitudes.rows == map[] && st.enlaces.rows == map[]
    requires st.historialAsignaciones.rows == map[] && st.historialEstados.rows == map[] && st.comentarios.rows == map[]
    requires tc.Valid() && RucUnique(tc) && cc.Valid()
    requires forall k | k in cc.rows :: cc.rows[k].cliente in tc.rows
    ensures Wf(st.(clientes := tc, circuitos := cc))
  {
  }

  /** The whole command. A raised lookup ends it with the error; with a
      well-formed database it does not happen. The clients are the import
      into the wiped table, the circuits the bulk insert of the partition
      drawn with the resulting RUC map. */
  method Migrar(st: Store, clientes: seq<ClienteRow>, circuitos: seq<CircuitoRow>, now: Time)
    returns (r: Result<(Store, Report), GetError>)
    requires Wf(st)
    ensures r.Success?
    ensures Wf(r.value.0)
    ensures r.value.0.solicitudes.rows == map[] && r.value.0.enlaces.rows == map[]
    ensures r.value.0.ejecutivos == st.ejecutivos && r.value.0.analistas == st.analistas
    ensures r.value.0.estados == st.estados && r.value.0.niveles == st.niveles && r.value.0.ultimoEjecutivo == st.ultimoEjecutivo
    ensures forall k | k in r.value.0.clientes.rows :: r.value.0.clientes.rows[k].ruc in Rucs(clientes)
    ensures forall ruc | ruc in Rucs(clientes) ::
              exists k | k in r.value.0.clientes.rows :: r.value.0.clientes.rows[k] == ToCliente(clientes[First(clientes, ruc)], now)
    ensures r.value.1.clientesMigrados == |Rucs(clientes)|
    ensures r.value.1.circuitosMigrados + r.value.1.circuitosSinPadre == |circuitos|
    ensures ImportClientes(Wipe(st).clientes, map[], clientes, now).Success?
    ensures var (tc, m) := ImportClientes(Wipe(st).clientes, map[], clientes, now).value;
            && r.value.0.clientes == tc
            && r.value.0.circuitos == BulkCreate(Wipe(st).circuitos, ToCreate(circuitos, m), now)
            && r.value.1.circuitosMigrados == |ToCreate(circuitos, m)|
  {
    var w := Wipe(st);
    WipeKeepsWf(st);
    ImportFromEmpty(w.clientes, clientes, now);
    var imported := ImportClientes(w.clientes, map[], clientes, now);
    var (tc, m) := imported.value;
    var aCrear, creados, sinPadre := PartitionCircuitos(circuitos, m);
    var cc := BulkCreate(w.circuitos, aCrear, now);
    CircuitosHaveClientes(w.circuitos, tc, m, circuitos, now);
    MigratedWf(w, tc, cc);
    var st' := w.(clientes := tc, circuitos := cc);
    forall ruc | ruc in Rucs(clientes)
      ensures exists k | k in tc.rows :: tc.rows[k] == ToCliente(clientes[First(clientes, ruc)], now)
    {
      assert m[ruc] in tc.rows;
    }
    r := Success((st', Report(|m.Keys|, creados, sinPadre)));
  }
}
