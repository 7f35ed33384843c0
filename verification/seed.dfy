/** Loading the catalogs (the `seed_db` management command).

    Each catalog entry is fetched by name with `get_or_create`; a missing
    entry is inserted with its description or order, an existing one is
    left exactly as it is. Nothing is wrapped in a transaction: when a name
    matches several rows the lookup raises, the command stops there, and
    whatever was inserted before stays. */
module Seed {
  import opened Wrappers
  import opened Tables
  import opened Models
  import ModelsIntegrity

  const Estados: seq<Estado> := [
    Estado(Registrado, Some("Solicitud registrada por el ejecutivo.")),
    Estado(EnAnalisis, Some("Analista revisando el caso.")),
    Estado("Aprobado", Some("Solicitud de retención/baja aprobada.")),
    Estado("Rechazado", Some("Solicitud rechazada.")),
    Estado("Baja Ejecutada", Some("Baja del servicio completada."))
  ]

  const Niveles: seq<Nivel> := [
    Nivel("Nivel 1 - Ejecutivo", 1),
    Nivel("Nivel 2 - Analista", 2),
    Nivel("Nivel 3 - Gerencia", 3)
  ]

  function NombreEstado(e: Estado): string { e.nombreEstado }
  function NombreNivel(n: Nivel): string { n.nombreNivel }

  /** The lookup `<name field>=n`. */
  function Named<T>(name: T -> string, n: string): T -> bool {
    x => name(x) == n
  }

  /** No two catalog entries share a name. */
  ghost predicate DistinctNames<T>(items: seq<T>, name: T -> string) {
    forall i, j | 0 <= i < j < |items| :: name(items[i]) != name(items[j])
  }

  /** Every row `t'` has beyond those of `t` is one of the entries. */
  ghost predicate AddsOnly<T>(t': Table<T>, t: Table<T>, items: seq<T>) {
    forall k | k in t'.rows && k !in t.rows :: exists i | 0 <= i < |items| :: t'.rows[k] == items[i]
  }

  /** One `for` loop of the command: `get_or_create` on each entry's name,
      in order. The flag is false when a lookup raised and the loop stopped. */
  function SeedTable<T>(t: Table<T>, items: seq<T>, name: T -> string): (r: (Table<T>, bool))
    requires t.Valid()
    ensures r.0.Valid() && Extends(r.0, t) && AddsOnly(r.0, t, items)
    decreases |items|
  {
    if items == [] then (t, true)
    else match t.GetOrCreate(Named(name, name(items[0])), items[0])
      case Failure(_) => (t, false)
      case Success((t', _, _)) =>
        var r := SeedTable(t', items[1..], name);
        forall k | k in r.0.rows && k !in t.rows ensures exists i | 0 <= i < |items| :: r.0.rows[k] == items[i] {
          if k in t'.rows {
            assert r.0.rows[k] == items[0];
          } else {
            var i :| 0 <= i < |items[1..]| && r.0.rows[k] == items[1..][i];
            assert r.0.rows[k] == items[i + 1];
          }
        }
        r
  }

  /** The loop stops early exactly when some entry's name already matched
      several rows before the command ran. */
  lemma {:induction false} SeedCompletes<T>(t: Table<T>, items: seq<T>, name: T -> string)
    requires t.Valid() && DistinctNames(items, name)
    ensures SeedTable(t, items, name).1 <==> forall i | 0 <= i < |items| :: !t.Get(Named(name, name(items[i]))).Multiple?
    decreases |items|
  {
    if items != [] {
      var p := Named(name, name(items[0]));
      if !t.Get(p).Multiple? {
        var t' := t.GetOrCreate(p, items[0]).value.0;
        SeedCompletes(t', items[1..], name);
        forall i | 1 <= i < |items|
          ensures t'.Get(Named(name, name(items[i]))).Multiple? <==> t.Get(Named(name, name(items[i]))).Multiple?
        {
          SameMatches(t, t', Named(name, name(items[i])), p);
        }
        forall i | 1 <= i < |items| ensures items[1..][i - 1] == items[i] { }
      }
    }
  }

  /** A step that may only add rows matching `q` leaves the matches of any
      `p` disjoint from `q` as they were. */
  lemma SameMatches<T>(t: Table<T>, t': Table<T>, p: T -> bool, q: T -> bool)
    requires forall k | k in t.rows :: k in t'.rows && t'.rows[k] == t.rows[k]
    requires forall k | k in t'.rows && k !in t.rows :: q(t'.rows[k])
    requires forall x :: !(p(x) && q(x))
    ensures t'.KeysWhere(p) == t.KeysWhere(p)
    ensures t'.Get(p) == t.Get(p)
  {
    assert forall k :: k in t'.KeysWhere(p) <==> k in t.KeysWhere(p);
  }

  /** One iteration: the entry's name then matches exactly one row, and
      the loop continues on the rest from the updated table. */
  lemma SeedStep<T>(t: Table<T>, items: seq<T>, name: T -> string)
    requires t.Valid() && items != []
    requires !t.Get(Named(name, name(items[0]))).Multiple?
    ensures var t' := t.GetOrCreate(Named(name, name(items[0])), items[0]).value.0;
            && t'.Valid()
            && t'.Get(Named(name, name(items[0]))).Found?
            && SeedTable(t, items, name) == SeedTable(t', items[1..], name)
  {
    var p := Named(name, name(items[0]));
    var (t', k, created) := t.GetOrCreate(p, items[0]).value;
    if created {
      assert t'.KeysWhere(p) == {k} by {
        assert forall x :: x in t'.KeysWhere(p) <==> x == k;
      }
    }
  }

  /** Every entry's name matches exactly one row of `t`. */
  ghost predicate AllFound<T>(t: Table<T>, items: seq<T>, name: T -> string) {
    forall i | 0 <= i < |items| :: t.Get(Named(name, name(items[i]))).Found?
  }

  lemma AllFoundCons<T>(t: Table<T>, items: seq<T>, name: T -> string)
    requires items != [] && t.Get(Named(name, name(items[0]))).Found? && AllFound(t, items[1..], name)
    ensures AllFound(t, items, name)
  {
    forall i | 1 <= i < |items| ensures t.Get(Named(name, name(items[i]))).Found? {
      assert items[1..][i - 1] == items[i];
    }
  }

  /** Rows added by the rest of the loop never carry the first entry's name,
      so the lookup of that name is not disturbed by them. */
  lemma TailKeepsFirst<T>(r: Table<T>, t: Table<T>, items: seq<T>, name: T -> string)
    requires items != [] && DistinctNames(items, name)
    requires Extends(r, t) && AddsOnly(r, t, items[1..])
    ensures r.Get(Named(name, name(items[0]))) == t.Get(Named(name, name(items[0])))
  {
    forall k | k in r.rows && k !in t.rows ensures name(r.rows[k]) != name(items[0]) {
      var i :| 0 <= i < |items[1..]| && r.rows[k] == items[1..][i];
      assert r.rows[k] == items[i + 1];
    }
    SameMatches(t, r, Named(name, name(items[0])), (x: T) => name(x) != name(items[0]));
  }

  /** After a completed loop every entry's name matches exactly one row. */
  lemma {:induction false} SeedLeavesOneEach<T>(t: Table<T>, items: seq<T>, name: T -> string)
    requires t.Valid() && DistinctNames(items, name)
    requires SeedTable(t, items, name).1
    ensures AllFound(SeedTable(t, items, name).0, items, name)
    decreases |items|
  {
    if items != [] {
      var p := Named(name, name(items[0]));
      assert !t.Get(p).Multiple?;
      var t' := t.GetOrCreate(p, items[0]).value.0;
      var rest := SeedTable(t', items[1..], name);
      assert SeedTable(t, items, name) == rest && t'.Get(p).Found? by {
        SeedStep(t, items, name);
      }
      assert AllFound(rest.0, items[1..], name) && rest.0.Get(p) == t'.Get(p) by {
        assert DistinctNames(items[1..], name);
        SeedLeavesOneEach(t', items[1..], name);
        TailKeepsFirst(rest.0, t', items, name);
      }
      AllFoundCons(rest.0, items, name);
    }
  }

  /** Running the loop again on its own completed result changes nothing. */
  lemma {:induction false} SeedIdempotent<T>(t: Table<T>, items: seq<T>, name: T -> string)
    requires t.Valid()
    requires AllFound(t, items, name)
    ensures SeedTable(t, items, name) == (t, true)
    decreases |items|
  {
    if items != [] {
      forall i | 0 <= i < |items[1..]| ensures t.Get(Named(name, name(items[1..][i]))).Found? {
        assert items[1..][i] == items[i + 1];
      }
      SeedIdempotent(t, items[1..], name);
    }
  }

  /** The command: states first, then levels. The flag is false when it
      stopped early; the levels loop does not run if the states loop raised. */
  function SeedDb(st: Store): (r: (Store, bool))
    requires Wf(st)
    ensures r.0 == st.(estados := r.0.estados, niveles := r.0.niveles)
    ensures r.0.estados == SeedTable(st.estados, Estados, NombreEstado).0
    ensures !SeedTable(st.estados, Estados, NombreEstado).1 ==> r == (st.(estados := r.0.estados), false)
    ensures SeedTable(st.estados, Estados, NombreEstado).1 ==> (r.0.niveles, r.1) == SeedTable(st.niveles, Niveles, NombreNivel)
  {
    var (estados, ok) := SeedTable(st.estados, Estados, NombreEstado);
    if !ok then (st.(estados := estados), false)
    else
      var (niveles, ok') := SeedTable(st.niveles, Niveles, NombreNivel);
      (st.(estados := estados, niveles := niveles), ok')
  }

  lemma CatalogNamesDistinct()
    ensures DistinctNames(Estados, NombreEstado)
    ensures DistinctNames(Niveles, NombreNivel)
  {
  }

  /** On catalogs without duplicate names the command completes, and every
      catalog name then matches exactly one row. */
  lemma SeedDbCompletes(st: Store)
    requires Wf(st)
    requires forall i | 0 <= i < |Estados| :: !st.estados.Get(Named(NombreEstado, Estados[i].nombreEstado)).Multiple?
    requires forall i | 0 <= i < |Niveles| :: !st.niveles.Get(Named(NombreNivel, Niveles[i].nombreNivel)).Multiple?
    ensures SeedDb(st).1
    ensures AllFound(SeedDb(st).0.estados, Estados, NombreEstado)
    ensures AllFound(SeedDb(st).0.niveles, Niveles, NombreNivel)
  {
    CatalogNamesDistinct();
    SeedCompletes(st.estados, Estados, NombreEstado);
    SeedCompletes(st.niveles, Niveles, NombreNivel);
    SeedLeavesOneEach(st.estados, Estados, NombreEstado);
    SeedLeavesOneEach(st.niveles, Niveles, NombreNivel);
  }

  /** Running the command twice is the same as running it once. */
  lemma SeedDbIdempotent(st: Store)
    requires Wf(st) && SeedDb(st).1
    ensures Wf(SeedDb(st).0)
    ensures SeedDb(SeedDb(st).0) == SeedDb(st)
  {
    CatalogNamesDistinct();
    SeedDbKeepsWf(st);
    var st' := SeedDb(st).0;
    SeedLeavesOneEach(st.estados, Estados, NombreEstado);
    SeedLeavesOneEach(st.niveles, Niveles, NombreNivel);
    SeedIdempotent(st'.estados, Estados, NombreEstado);
    SeedIdempotent(st'.niveles, Niveles, NombreNivel);
  }

  /** On a database without states and levels, the command completes and
      yields exactly one 'Registrado' state and one level of order 1 — the
      two rows a new request needs. */
  lemma SeedEnablesCreation(st: Store)
    requires Wf(st) && st.estados.rows == map[] && st.niveles.rows == map[]
    ensures SeedDb(st).1
    ensures |SeedDb(st).0.estados.KeysWhere(IsRegistrado)| == 1
    ensures |SeedDb(st).0.niveles.KeysWhere(IsFirstLevel)| == 1
  {
    EmptyNoneMultiple(st.estados, Estados, NombreEstado);
    EmptyNoneMultiple(st.niveles, Niveles, NombreNivel);
    SeedDbCompletes(st);
    var st' := SeedDb(st).0;
    assert Estados[0].nombreEstado == Registrado;
    RegistradoUnique(st'.estados);
    FirstLevelUnique(st.niveles, st'.niveles);
  }

  /** In an empty table no lookup finds several rows. */
  lemma EmptyNoneMultiple<T>(t: Table<T>, items: seq<T>, name: T -> string)
    requires t.rows == map[]
    ensures forall i | 0 <= i < |items| :: !t.Get(Named(name, name(items[i]))).Multiple?
  {
    forall i | 0 <= i < |items| ensures !t.Get(Named(name, name(items[i]))).Multiple? {
      assert t.KeysWhere(Named(name, name(items[i]))) == {};
    }
  }

  lemma RegistradoUnique(estados: Table<Estado>)
    requires estados.Get(Named(NombreEstado, Registrado)).Found?
    ensures |estados.KeysWhere(IsRegistrado)| == 1
  {
    var e := estados.Get(Named(NombreEstado, Registrado)).id;
    assert estados.KeysWhere(IsRegistrado) == {e} by {
      assert forall k :: k in estados.KeysWhere(IsRegistrado) <==> k in estados.KeysWhere(Named(NombreEstado, Registrado));
    }
  }

  /** Among the seeded levels only the first has order 1. */
  lemma FirstLevelUnique(base: Table<Nivel>, niveles: Table<Nivel>)
    requires base.rows == map[] && AddsOnly(niveles, base, Niveles)
    requires niveles.Get(Named(NombreNivel, Niveles[0].nombreNivel)).Found?
    ensures |niveles.KeysWhere(IsFirstLevel)| == 1
  {
    var n := niveles.Get(Named(NombreNivel, Niveles[0].nombreNivel)).id;
    forall k | k in niveles.rows
      ensures IsFirstLevel(niveles.rows[k]) <==> niveles.rows[k].nombreNivel == Niveles[0].nombreNivel
    {
      var i :| 0 <= i < |Niveles| && niveles.rows[k] == Niveles[i];
    }
    assert niveles.KeysWhere(IsFirstLevel) == {n} by {
      assert forall k :: k in niveles.KeysWhere(IsFirstLevel) <==> k in niveles.KeysWhere(Named(NombreNivel, Niveles[0].nombreNivel));
    }
  }

  /** Seeding only adds catalog rows, so every constraint still holds. */
  lemma SeedDbKeepsWf(st: Store)
    requires Wf(st)
    ensures Wf(SeedDb(st).0)
  {
    var r := SeedDb(st).0;
    var (estados, ok) := SeedTable(st.estados, Estados, NombreEstado);
    if ok {
      var (niveles, _) := SeedTable(st.niveles, Niveles, NombreNivel);
      CatalogGrowthKeepsWf(st, estados, niveles);
    } else {
      CatalogGrowthKeepsWf(st, estados, st.niveles);
    }
  }

  lemma CatalogGrowthKeepsWf(st: Store, estados: Table<Estado>, niveles: Table<Nivel>)
    requires Wf(st)
    requires estados.Valid() && Extends(estados, st.estados)
    requires niveles.Valid() && Extends(niveles, st.niveles)
    ensures Wf(st.(estados := estados, niveles := niveles))
  {
    var r := st.(estados := estados, niveles := niveles);
    ModelsIntegrity.ParentsGrowKeepForeignKeys(st, r);
  }
}
