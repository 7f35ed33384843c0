/** Database tables as immutable values.

    Every table of the portal is a map from primary key to row together with
    the next key the database would issue. The SQLite backend gives Django's
    auto-increment keys the AUTOINCREMENT behaviour: keys start at 1, are never
    reused after a delete, and a row inserted with an explicit key moves the
    counter past it. */
module Tables {
  import opened Wrappers

  /** A primary key. */
  type Id = nat

  datatype Table<T> = Table(rows: map<Id, T>, nextId: Id) {

    /** Keys are positive and below the next key to be issued. */
    ghost predicate Valid() {
      0 < nextId && forall k | k in rows :: 0 < k < nextId
    }

    /** Inserts a row under a freshly issued key (an auto-increment insert). */
    function Insert(row: T): (r: (Table<T>, Id))
      requires Valid()
      ensures r.0.Valid()
      ensures r.1 == nextId && r.1 !in rows && r.1 > 0
      ensures r.0.rows == rows[r.1 := row]
      ensures r.0.nextId == r.1 + 1
    {
      (Table(rows[nextId := row], nextId + 1), nextId)
    }

    /** Inserts a row under a caller-chosen positive key. */
    function InsertAt(id: Id, row: T): (t: Table<T>)
      requires Valid() && 0 < id
      ensures t.Valid()
      ensures t.rows == rows[id := row]
      ensures nextId <= t.nextId
    {
      Table(rows[id := row], if id < nextId then nextId else id + 1)
    }

    /** Overwrites an existing row (a `save()` of a loaded instance). */
    function Update(id: Id, row: T): (t: Table<T>)
      requires id in rows
      ensures t.rows == rows[id := row] && t.nextId == nextId
      ensures Valid() ==> t.Valid()
    {
      Table(rows[id := row], nextId)
    }

    /** Keeps only the rows satisfying `keep`; the key counter is unaffected. */
    function Where(keep: (Id, T) -> bool): (t: Table<T>)
      ensures t.nextId == nextId
      ensures t.rows.Keys <= rows.Keys
      ensures forall k | k in rows :: k in t.rows <==> keep(k, rows[k])
      ensures forall k | k in t.rows :: t.rows[k] == rows[k]
      ensures Valid() ==> t.Valid()
    {
      Table(map k | k in rows && keep(k, rows[k]) :: rows[k], nextId)
    }

    /** The keys of the rows satisfying `p`. */
    function KeysWhere(p: T -> bool): (ks: set<Id>)
      ensures forall k :: k in ks <==> k in rows && p(rows[k])
    {
      set k | k in rows && p(rows[k])
    }

    /** Django's `objects.get(...)`: the unique matching row, or the reason
        there is none. */
    function Get(p: T -> bool): (r: Lookup)
      ensures r.NotFound? <==> KeysWhere(p) == {}
      ensures r.Found? ==> KeysWhere(p) == {r.id}
      ensures r.Multiple? ==> exists a, b :: a in KeysWhere(p) && b in KeysWhere(p) && a != b
    {
      var ks := KeysWhere(p);
      if ks == {} then NotFound
      else if |ks| == 1 then
        var k := Min(ks);
        SingletonIs(ks, k);
        Found(k)
      else
        TwoElements(ks);
        Multiple
    }

    /** Django's `objects.get_or_create(<lookup>, defaults=...)`: returns the
        key of the unique row matching `p`, inserting `row` when none does. */
    function GetOrCreate(p: T -> bool, row: T): (r: Result<(Table<T>, Id, bool), GetError>)
      requires Valid()
      ensures r.Failure? <==> Get(p).Multiple?
      ensures r.Success? && !r.value.2 ==> r.value.0 == this && KeysWhere(p) == {r.value.1}
      ensures r.Success? && r.value.2 ==>
                KeysWhere(p) == {} && r.value.1 !in rows && r.value.0 == Insert(row).0 && r.value.1 == Insert(row).1
      ensures r.Success? ==> r.value.0.Valid() && r.value.1 in r.value.0.rows
    {
      match Get(p)
      case Found(k) => Success((this, k, false))
      case NotFound =>
        var (t, k) := Insert(row);
        Success((t, k, true))
      case Multiple => Failure(MultipleObjectsReturned)
    }
  }

  datatype Lookup = NotFound | Found(id: Id) | Multiple
  datatype GetError = MultipleObjectsReturned

  /** `t'` keeps every row of `t` unchanged. */
  ghost predicate Extends<T>(t': Table<T>, t: Table<T>) {
    forall k | k in t.rows :: k in t'.rows && t'.rows[k] == t.rows[k]
  }

  lemma ExtendsTrans<T>(t'': Table<T>, t': Table<T>, t: Table<T>)
    requires Extends(t'', t') && Extends(t', t)
    ensures Extends(t'', t)
  {
  }

  /** An empty table whose database sequence has issued `issued` keys. */
  function EmptyTable<T>(issued: nat): (t: Table<T>)
    ensures t.Valid() && t.rows == map[]
  {
    Table(map[], issued + 1)
  }

  lemma SingletonIs(s: set<Id>, k: Id)
    requires |s| == 1 && k in s
    ensures s == {k}
  {
    var rest := s - {k};
    assert |rest| == 0;
  }

  lemma TwoElements(s: set<Id>)
    requires s != {} && |s| != 1
    ensures exists a, b :: a in s && b in s && a != b
  {
    var a :| a in s;
    assert s != {a} by { assert |{a}| == 1; }
    var b :| b in s && b != a;
  }

  /** Descending from any element of `s` reaches a least one. */
  lemma {:induction false} HasMin(s: set<nat>, x: nat)
    requires x in s
    ensures exists m :: m in s && forall y | y in s :: m <= y
    decreases x
  {
    if exists y :: y in s && y < x {
      var y :| y in s && y < x;
      HasMin(s, y);
    } else {
      assert forall y | y in s :: x <= y;
    }
  }

  /** A finite set of naturals has an upper bound. */
  lemma {:induction false} UpperBound(s: set<nat>) returns (b: nat)
    ensures forall y | y in s :: y <= b
    decreases |s|
  {
    if s == {} {
      b := 0;
    } else {
      var x :| x in s;
      var b' := UpperBound(s - {x});
      b := if x > b' then x else b';
      forall y | y in s ensures y <= b {
        if y != x { assert y in s - {x}; }
      }
    }
  }

  /** Descending from an upper bound reaches a greatest element. */
  lemma {:induction false} HasMaxBelow(s: set<nat>, b: nat)
    requires s != {} && forall y | y in s :: y <= b
    ensures exists m :: m in s && forall y | y in s :: y <= m
    decreases b
  {
    if b !in s {
      var x :| x in s;
      assert x < b;
      HasMaxBelow(s, b - 1);
    }
  }

  lemma HasMax(s: set<nat>)
    requires s != {}
    ensures exists m :: m in s && forall y | y in s :: y <= m
  {
    var b := UpperBound(s);
    HasMaxBelow(s, b);
  }

  /** The least element of a non-empty set. */
  function Min(s: set<nat>): (m: nat)
    requires s != {}
    ensures m in s && forall y | y in s :: m <= y
  {
    var x :| x in s;
    HasMin(s, x);
    var m :| m in s && forall y | y in s :: m <= y; m
  }

  /** The greatest element of a non-empty set. */
  function Max(s: set<nat>): (m: nat)
    requires s != {}
    ensures m in s && forall y | y in s :: y <= m
  {
    HasMax(s);
    var m :| m in s && forall y | y in s :: y <= m; m
  }

  ghost predicate StrictlyIncreasing(r: seq<nat>) {
    forall i, j | 0 <= i < j < |r| :: r[i] < r[j]
  }

  /** The elements of `s` in ascending order: what `order_by('id')` yields. */
  function SortedKeys(s: set<nat>): (r: seq<nat>)
    ensures |r| == |s|
    ensures forall i | 0 <= i < |r| :: r[i] in s
    ensures forall x | x in s :: x in r
    ensures StrictlyIncreasing(r)
    decreases |s|
  {
    if s == {} then []
    else
      var m := Min(s);
      var rest := SortedKeys(s - {m});
      SortedCons(s, m, rest);
      [m] + rest
  }

  /** Putting the least element in front of an ascending listing of the
      others lists the whole set ascending. */
  lemma SortedCons(s: set<nat>, m: nat, rest: seq<nat>)
    requires m in s && forall y | y in s :: m <= y
    requires |rest| == |s - {m}| && StrictlyIncreasing(rest)
    requires forall i | 0 <= i < |rest| :: rest[i] in s - {m}
    requires forall x | x in s - {m} :: x in rest
    ensures |[m] + rest| == |s| && StrictlyIncreasing([m] + rest)
    ensures forall i | 0 <= i < |[m] + rest| :: ([m] + rest)[i] in s
    ensures forall x | x in s :: x in [m] + rest
  {
    ConsIncreasing(m, rest);
    forall x | x in s ensures x in [m] + rest {
      if x != m { assert x in s - {m}; }
    }
  }

  lemma ConsIncreasing(m: nat, rest: seq<nat>)
    requires StrictlyIncreasing(rest) && forall i | 0 <= i < |rest| :: m < rest[i]
    ensures StrictlyIncreasing([m] + rest)
  {
    var r := [m] + rest;
    forall i, j | 0 <= i < j < |r| ensures r[i] < r[j] {
      assert r[j] == rest[j - 1];
      if i > 0 { assert r[i] == rest[i - 1]; }
    }
  }
}
