/** Round-robin choice of the executive a new request is routed to
    (`get_next_ejecutivo`, views/pages.py).

    The active executives are taken in ascending key order; the configuration
    row `last_ejecutivo_id` remembers the last one chosen (0 before the first
    choice). The next choice is the first active key above it, wrapping to the
    smallest active key, and is written back to the configuration row. */
module RoundRobin {
  import opened Wrappers
  import opened Tables
  import opened Models

  /** The keys of the executives with `activo = True`. */
  function ActiveEjecutivos(st: Store): (ks: set<Id>)
    ensures forall k :: k in ks <==> k in st.ejecutivos.rows && st.ejecutivos.rows[k].activo
  {
    st.ejecutivos.KeysWhere((e: Ejecutivo) => e.activo)
  }

  /** The stored cursor; `get_or_create` supplies 0 when the row is missing. */
  function LastAssigned(st: Store): int {
    st.ultimoEjecutivo.GetOr(0)
  }

  /** The rotation rule, stated independently of how it is computed: `e` is
      an active key, and either it is the least active key above `last`, or
      no active key lies above `last` and `e` is the least active key. */
  ghost predicate NextInRotation(active: set<Id>, last: int, e: Id) {
    && e in active
    && if e > last then forall x | x in active && x > last :: e <= x
       else forall x | x in active :: e <= x && x <= last
  }

  /** The choice itself, on the set of active keys. */
  function Pick(active: set<Id>, last: int): (e: Id)
    requires active != {}
    ensures NextInRotation(active, last, e)
  {
    var above := set x | x in active && x > last;
    if above != {} then
      var e := Min(above);
      assert forall x | x in active && x > last :: x in above;
      e
    else
      var e := Min(active);
      assert forall x | x in active :: x !in above;
      e
  }

  datatype AllocError = NoActiveEjecutivos

  /** `get_next_ejecutivo`: fails, before the cursor row is read or created,
      when no executive is active; otherwise returns the store with the
      cursor moved to the chosen executive, and that executive. */
  function NextEjecutivo(st: Store): (r: Result<(Store, Id), AllocError>)
    ensures r.Failure? <==> ActiveEjecutivos(st) == {}
    ensures r.Success? ==> NextInRotation(ActiveEjecutivos(st), LastAssigned(st), r.value.1)
    ensures r.Success? ==> r.value.0 == st.(ultimoEjecutivo := Some(r.value.1 as int))
  {
    var active := ActiveEjecutivos(st);
    if active == {} then Failure(NoActiveEjecutivos)
    else
      var e := Pick(active, LastAssigned(st));
      Success((st.(ultimoEjecutivo := Some(e as int)), e))
  }

  /** The rotation rule determines the choice: at most one key satisfies it. */
  lemma NextInRotationUnique(active: set<Id>, last: int, e: Id, e': Id)
    requires NextInRotation(active, last, e) && NextInRotation(active, last, e')
    ensures e == e'
  {
  }

  /** A newly activated executive whose key lies between the cursor and every
      other active key above it is served next. */
  lemma NewcomerServedNext(active: set<Id>, last: int, n: Id)
    requires n in active && n > last
    requires forall x | x in active && x > last :: n <= x
    ensures Pick(active, last) == n
  {
    assert NextInRotation(active, last, n);
    NextInRotationUnique(active, last, n, Pick(active, last));
  }

  /** The position that follows `j` in a rotation of length `n`. */
  function Following(j: nat, n: nat): nat {
    if j + 1 < n then j + 1 else 0
  }

  /** `i` reduced modulo `n`, by repeated subtraction. */
  function Cycle(i: nat, n: nat): (c: nat)
    requires n > 0
    ensures c < n
  {
    if i < n then i else Cycle(i - n, n)
  }

  /** The subtraction loop is the remainder: `Cycle` is `i % n`. */
  lemma {:induction false} CycleIsMod(i: nat, n: nat)
    requires n > 0
    ensures Cycle(i, n) == i % n
    decreases i
  {
    if i >= n {
      CycleIsMod(i - n, n);
      ModUnique(i, (i - n) / n + 1, (i - n) % n, n);
    }
  }

  lemma MulAtLeast(d: int, n: int)
    requires d >= 1 && n > 0
    ensures d * n >= n
  {
  }

  /** Euclidean division is unique: `x == q * n + r` with `0 <= r < n` fixes
      the remainder. */
  lemma ModUnique(x: int, q: int, r: int, n: int)
    requires n > 0 && 0 <= r < n && x == q * n + r
    ensures x % n == r
  {
    var q', r' := x / n, x % n;
    assert (q' - q) * n == r - r';
    if q' > q {
      MulAtLeast(q' - q, n);
    } else if q' < q {
      MulAtLeast(q - q', n);
    }
  }

  lemma {:induction false} CycleStep(i: nat, n: nat)
    requires n > 0
    ensures Cycle(i + 1, n) == Following(Cycle(i, n), n)
    decreases i
  {
    if i + 1 < n {
    } else if i + 1 == n {
      assert Cycle(i + 1, n) == Cycle(0, n);
    } else {
      CycleStep(i - n, n);
      assert Cycle(i + 1, n) == Cycle(i - n + 1, n);
    }
  }

  /** `order` lists exactly the elements of `active`, ascending. */
  ghost predicate Enumerates(order: seq<Id>, active: set<Id>) {
    && StrictlyIncreasing(order)
    && (forall i | 0 <= i < |order| :: order[i] in active)
    && (forall x | x in active :: x in order)
  }

  lemma SortedKeysEnumerates(active: set<Id>)
    ensures Enumerates(SortedKeys(active), active)
  {
  }

  /** In an ascending enumeration, after `order[j]` the rotation rule selects
      the element at the following position, wrapping after the last. */
  lemma RuleAfter(active: set<Id>, order: seq<Id>, j: nat)
    requires Enumerates(order, active)
    requires j < |order|
    ensures NextInRotation(active, order[j], order[Following(j, |order|)])
  {
    var n := |order|;
    var c := order[Following(j, n)];
    if j + 1 < n {
      forall x | x in active && x > order[j] ensures c <= x {
        var t :| 0 <= t < n && order[t] == x;
        assert !(t <= j);
        if t > j + 1 {
          assert order[j + 1] < order[t];
        }
      }
      assert order[j] < c;
    } else {
      forall x | x in active ensures c <= x && x <= order[j] {
        var t :| 0 <= t < n && order[t] == x;
        if t > 0 { assert order[0] < order[t]; }
        if t < j { assert order[t] < order[j]; }
      }
    }
  }

  /** From a cursor below every active element the rule selects the least. */
  lemma RuleFromBelow(active: set<Id>, order: seq<Id>, last: int)
    requires Enumerates(order, active) && active != {}
    requires forall x | x in active :: last < x
    ensures |order| > 0 && NextInRotation(active, last, order[0])
  {
    var x0 :| x0 in active;
    assert x0 in order;
    forall x | x in active && x > last ensures order[0] <= x {
      var t :| 0 <= t < |order| && order[t] == x;
      if t > 0 { assert order[0] < order[t]; }
    }
  }

  /** The executives handed out by `k` successive allocations from `st`. */
  ghost function Allocations(st: Store, k: nat): seq<Id>
    decreases k
  {
    if k == 0 then []
    else match NextEjecutivo(st)
      case Failure(_) => []
      case Success((st', e)) => [e] + Allocations(st', k - 1)
  }

  /** One allocation moves only the cursor, so the active set is unchanged. */
  lemma AllocationStep(st: Store, k: nat)
    requires ActiveEjecutivos(st) != {} && k > 0
    ensures var (st', e) := NextEjecutivo(st).value;
            && ActiveEjecutivos(st') == ActiveEjecutivos(st)
            && LastAssigned(st') == e
            && Allocations(st, k) == [e] + Allocations(st', k - 1)
  {
  }

  /** If the next allocation serves position `m`, the one after it serves
      position m + 1. */
  lemma StepKeepsRotating(st: Store, m: nat)
    requires ActiveEjecutivos(st) != {}
    requires NextEjecutivo(st).value.1 == SortedKeys(ActiveEjecutivos(st))[Cycle(m, |ActiveEjecutivos(st)|)]
    ensures var st' := NextEjecutivo(st).value.0;
            && ActiveEjecutivos(st') == ActiveEjecutivos(st)
            && NextEjecutivo(st').value.1 == SortedKeys(ActiveEjecutivos(st))[Cycle(m + 1, |ActiveEjecutivos(st)|)]
  {
    var active := ActiveEjecutivos(st);
    var order := SortedKeys(active);
    var n := |order|;
    var (st', e) := NextEjecutivo(st).value;
    assert ActiveEjecutivos(st') == active;
    assert LastAssigned(st') == e;
    var j := Cycle(m, n);
    SortedKeysEnumerates(active);
    RuleAfter(active, order, j);
    var e' := NextEjecutivo(st').value.1;
    assert NextInRotation(active, order[j], e');
    NextInRotationUnique(active, order[j], e', order[Following(j, n)]);
    CycleStep(m, n);
  }

  /** `allocs` walks `order` cyclically from position `m`. */
  ghost predicate Rotates(allocs: seq<Id>, order: seq<Id>, m: nat)
    requires order != []
  {
    forall i | 0 <= i < |allocs| :: allocs[i] == order[Cycle(m + i, |order|)]
  }

  lemma RotatesCons(e: Id, rest: seq<Id>, order: seq<Id>, m: nat)
    requires order != [] && e == order[Cycle(m, |order|)] && Rotates(rest, order, m + 1)
    ensures Rotates([e] + rest, order, m)
  {
    forall i | 0 < i < |[e] + rest| ensures ([e] + rest)[i] == order[Cycle(m + i, |order|)] {
      assert ([e] + rest)[i] == rest[i - 1];
      assert m + 1 + (i - 1) == m + i;
    }
  }

  /** Once the next allocation is the executive at position `m` of the
      ascending order (counted cyclically), the following ones continue
      through the positions m + 1, m + 2, ... */
  lemma {:induction false} RotationContinues(st: Store, m: nat, k: nat)
    requires ActiveEjecutivos(st) != {}
    requires NextEjecutivo(st).value.1 == SortedKeys(ActiveEjecutivos(st))[Cycle(m, |ActiveEjecutivos(st)|)]
    ensures |Allocations(st, k)| == k
    ensures Rotates(Allocations(st, k), SortedKeys(ActiveEjecutivos(st)), m)
    decreases k
  {
    if k > 0 {
      var (st', e) := NextEjecutivo(st).value;
      AllocationStep(st, k);
      StepKeepsRotating(st, m);
      RotationContinues(st', m + 1, k - 1);
      RotatesCons(e, Allocations(st', k - 1), SortedKeys(ActiveEjecutivos(st)), m);
    }
  }

  /** Round-robin fairness: with active executives e1 < ... < eN and a cursor
      below every active key (0 on first use), the i-th of any number of
      successive allocations returns e(1 + i mod N). */
  lemma RoundRobinFair(st: Store, k: nat)
    requires ActiveEjecutivos(st) != {}
    requires forall x | x in ActiveEjecutivos(st) :: LastAssigned(st) < x
    ensures |Allocations(st, k)| == k
    ensures var order := SortedKeys(ActiveEjecutivos(st));
            forall i | 0 <= i < k :: Allocations(st, k)[i] == order[Cycle(i, |order|)]
  {
    var active := ActiveEjecutivos(st);
    var order := SortedKeys(active);
    SortedKeysEnumerates(active);
    RuleFromBelow(active, order, LastAssigned(st));
    NextInRotationUnique(active, LastAssigned(st), NextEjecutivo(st).value.1, order[0]);
    RotationContinues(st, 0, k);
    forall i | 0 <= i < k ensures Allocations(st, k)[i] == order[Cycle(i, |order|)] {
      assert 0 + i == i;
    }
  }

  /** The first full round: N + 1 allocations from a fresh cursor return
      e1, ..., eN and then e1 again, every one of them active. */
  lemma FirstRoundThenWrap(st: Store)
    requires st.ejecutivos.Valid()
    requires ActiveEjecutivos(st) != {}
    requires LastAssigned(st) == 0
    ensures var order := SortedKeys(ActiveEjecutivos(st));
            Allocations(st, |order| + 1) == order + [order[0]]
  {
    var active := ActiveEjecutivos(st);
    var order := SortedKeys(active);
    assert forall x | x in active :: LastAssigned(st) < x;
    RoundRobinFair(st, |order| + 1);
    OneRoundShape(Allocations(st, |order| + 1), order);
  }

  /** Positions 0 .. N taken cyclically: the whole order, then its head. */
  lemma OneRoundShape(a: seq<Id>, order: seq<Id>)
    requires order != [] && |a| == |order| + 1
    requires forall i | 0 <= i < |a| :: a[i] == order[Cycle(i, |order|)]
    ensures a == order + [order[0]]
  {
    var n := |order|;
    var expected := order + [order[0]];
    forall i | 0 <= i < n + 1 ensures a[i] == expected[i] {
      if i < n {
        assert Cycle(i, n) == i;
      } else {
        assert Cycle(n, n) == Cycle(0, n);
      }
    }
  }
}
