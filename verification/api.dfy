/** The two JSON lookups the request form calls (views/api.py): the client
    search by business name and the circuits of one client. */
module Api {
  import opened Wrappers
  import opened Tables
  import opened Models

  /** SQLite's `LIKE` folds case for the ASCII letters only. */
  function LowerChar(c: char): char {
    if 'A' <= c <= 'Z' then (c as int + 32) as char else c
  }

  function Lower(s: string): (r: string)
    ensures |r| == |s| && forall i | 0 <= i < |s| :: r[i] == LowerChar(s[i])
  {
    seq(|s|, i requires 0 <= i < |s| => LowerChar(s[i]))
  }

  /** `sub` occurs in `s` starting at position `i`. */
  predicate InfixAt(sub: string, s: string, i: nat) {
    i + |sub| <= |s| && s[i..i + |sub|] == sub
  }

  /** `sub` occurs in `s` at some position. */
  ghost predicate IsInfix(sub: string, s: string) {
    exists i: nat :: InfixAt(sub, s, i)
  }

  predicate StartsWith(s: string, p: string) {
    |p| <= |s| && s[..|p|] == p
  }

  /** The substring test, by trying each starting position in turn. */
  function Contains(s: string, sub: string): bool
    decreases |s|
  {
    if StartsWith(s, sub) then true
    else if s == [] then false
    else Contains(s[1..], sub)
  }

  lemma {:induction false} ContainsIsInfix(s: string, sub: string)
    ensures Contains(s, sub) <==> IsInfix(sub, s)
    decreases |s|
  {
    if StartsWith(s, sub) {
      assert InfixAt(sub, s, 0);
    } else if s == [] {
    } else {
      ContainsIsInfix(s[1..], sub);
      forall i: nat | InfixAt(sub, s, i) ensures i > 0 && InfixAt(sub, s[1..], i - 1) {
        assert s[1..][i - 1..i - 1 + |sub|] == s[i..i + |sub|];
      }
      forall i: nat | InfixAt(sub, s[1..], i) ensures InfixAt(sub, s, i + 1) {
        assert s[i + 1..i + 1 + |sub|] == s[1..][i..i + |sub|];
      }
    }
  }

  /** `razon_social__icontains=q`. */
  predicate IContains(s: string, q: string) {
    Contains(Lower(s), Lower(q))
  }

  /** One entry of the client search response. */
  datatype ClienteHit = ClienteHit(id: Id, nombre: string, ruc: string)

  const MaxResults := 10

  function Matching(clientes: Table<Cliente>, q: string): (ks: set<Id>)
    ensures forall k :: k in ks <==> k in clientes.rows && IContains(clientes.rows[k].razonSocial, q)
  {
    clientes.KeysWhere((c: Cliente) => IContains(c.razonSocial, q))
  }

  /** The first ten matching keys, ascending (all of them when fewer). */
  function FirstMatches(clientes: Table<Cliente>, q: string): (ids: seq<Id>)
    ensures var order := SortedKeys(Matching(clientes, q));
            && |ids| == (if |order| <= MaxResults then |order| else MaxResults)
            && ids == order[..|ids|]
    ensures forall i | 0 <= i < |ids| :: ids[i] in Matching(clientes, q)
    ensures StrictlyIncreasing(ids)
  {
    var order := SortedKeys(Matching(clientes, q));
    if |order| <= MaxResults then order else order[..MaxResults]
  }

  function ClienteHitOf(id: Id, c: Cliente): ClienteHit {
    ClienteHit(id, c.razonSocial, c.ruc)
  }

  /** `search_clientes`: `q` is None when the parameter is absent. The
      queryset has no ordering; it is taken in key order, the order SQLite
      returns rows of a table scan in. */
  function SearchClientes(clientes: Table<Cliente>, q: Option<string>): (r: seq<ClienteHit>)
    ensures q.None? || q == Some("") ==> r == []
    ensures |r| <= MaxResults
    ensures forall i | 0 <= i < |r| ::
              && r[i].id in clientes.rows
              && r[i] == ClienteHitOf(r[i].id, clientes.rows[r[i].id])
              && IContains(clientes.rows[r[i].id].razonSocial, q.value)
    ensures forall i, j | 0 <= i < j < |r| :: r[i].id < r[j].id
  {
    if q.None? || q.value == "" then []
    else
      var ids := FirstMatches(clientes, q.value);
      seq(|ids|, i requires 0 <= i < |ids| => ClienteHitOf(ids[i], clientes.rows[ids[i]]))
  }

  /** The search misses a matching client only when it has already returned
      ten, all with smaller keys; so it returns every match when there are
      at most ten. */
  lemma SearchReturnsFirstMatches(clientes: Table<Cliente>, q: string, k: Id)
    requires q != ""
    requires k in clientes.rows && IContains(clientes.rows[k].razonSocial, q)
    requires forall i | 0 <= i < |SearchClientes(clientes, Some(q))| :: SearchClientes(clientes, Some(q))[i].id != k
    ensures var r := SearchClientes(clientes, Some(q));
            |r| == MaxResults && forall i | 0 <= i < |r| :: r[i].id < k
  {
    var order := SortedKeys(Matching(clientes, q));
    var ids := FirstMatches(clientes, q);
    var r := SearchClientes(clientes, Some(q));
    assert forall i | 0 <= i < |r| :: r[i].id == ids[i] == order[i];
    assert k in order;
    var t :| 0 <= t < |order| && order[t] == k;
    MissedAfterPrefix(order, |ids|, t);
  }

  /** In an ascending sequence, an element outside a prefix lies beyond it
      and is larger than everything in it. */
  lemma MissedAfterPrefix(order: seq<Id>, n: nat, t: nat)
    requires StrictlyIncreasing(order) && n <= |order| && t < |order|
    requires forall i | 0 <= i < n :: order[i] != order[t]
    ensures n <= t && forall i | 0 <= i < n :: order[i] < order[t]
  {
    var v := order[t];
    assert forall i | 0 <= i < n :: order[i] != v;
  }

  /** The case-insensitive match is substring containment after folding. */
  lemma SearchMatchesAreInfixes(clientes: Table<Cliente>, q: string, i: nat)
    requires i < |SearchClientes(clientes, Some(q))|
    ensures var c := clientes.rows[SearchClientes(clientes, Some(q))[i].id];
            IsInfix(Lower(q), Lower(c.razonSocial))
  {
    var c := clientes.rows[SearchClientes(clientes, Some(q))[i].id];
    ContainsIsInfix(Lower(c.razonSocial), Lower(q));
  }

  /** Folding case makes the match blind to ASCII case in the query. */
  lemma QueryCaseIrrelevant(s: string, q: string, q': string)
    requires Lower(q) == Lower(q')
    ensures IContains(s, q) <==> IContains(s, q')
  {
  }

  /** One entry of the circuit lookup response. */
  datatype CircuitoHit = CircuitoHit(id: Id, nombreCircuito: string, tipoServicio: Option<string>, rentaMensual: Money)

  function HitOf(id: Id, c: Circuito): CircuitoHit {
    CircuitoHit(id, c.nombreCircuito, c.tipoServicio, c.rentaMensual)
  }

  /** The keys a response lists, in order. */
  function Ids(r: seq<CircuitoHit>): (ids: seq<Id>)
    ensures |ids| == |r| && forall i | 0 <= i < |r| :: ids[i] == r[i].id
  {
    seq(|r|, i requires 0 <= i < |r| => r[i].id)
  }

  function OwnedBy(circuitos: Table<Circuito>, clienteId: Id): (ks: set<Id>)
    ensures forall k :: k in ks <==> k in circuitos.rows && circuitos.rows[k].cliente == clienteId
  {
    circuitos.KeysWhere((c: Circuito) => c.cliente == clienteId)
  }

  /** `get_circuitos_por_cliente`, in key order. The route only admits an
      integer, so the error branch of the view is not reachable. */
  function CircuitosPorCliente(circuitos: Table<Circuito>, clienteId: Id): (r: seq<CircuitoHit>)
    ensures forall i | 0 <= i < |r| ::
              && r[i].id in circuitos.rows
              && circuitos.rows[r[i].id].cliente == clienteId
              && r[i] == HitOf(r[i].id, circuitos.rows[r[i].id])
    ensures forall k | k in circuitos.rows && circuitos.rows[k].cliente == clienteId :: k in Ids(r)
    ensures forall i, j | 0 <= i < j < |r| :: r[i].id < r[j].id
  {
    var order := SortedKeys(OwnedBy(circuitos, clienteId));
    var r := seq(|order|, i requires 0 <= i < |order| => HitOf(order[i], circuitos.rows[order[i]]));
    HitsListOwned(circuitos, clienteId, order, r);
    r
  }

  lemma HitsListOwned(circuitos: Table<Circuito>, clienteId: Id, order: seq<Id>, r: seq<CircuitoHit>)
    requires order == SortedKeys(OwnedBy(circuitos, clienteId))
    requires |r| == |order| && forall i | 0 <= i < |r| :: r[i] == HitOf(order[i], circuitos.rows[order[i]])
    ensures forall i | 0 <= i < |r| ::
              && r[i].id in circuitos.rows
              && circuitos.rows[r[i].id].cliente == clienteId
              && r[i] == HitOf(r[i].id, circuitos.rows[r[i].id])
    ensures forall k | k in circuitos.rows && circuitos.rows[k].cliente == clienteId :: k in Ids(r)
    ensures forall i, j | 0 <= i < j < |r| :: r[i].id < r[j].id
  {
    assert Ids(r) == order;
  }

  /** A key with no client row gets an empty list, not an error: the view
      only filters, and every circuit belongs to an existing client. */
  lemma UnknownClienteHasNoCircuitos(st: Store, clienteId: Id)
    requires Wf(st) && clienteId !in st.clientes.rows
    ensures CircuitosPorCliente(st.circuitos, clienteId) == []
  {
    var r := CircuitosPorCliente(st.circuitos, clienteId);
    assert OwnedBy(st.circuitos, clienteId) == {};
  }

  /** The circuits of distinct clients never overlap. */
  lemma CircuitosDisjoint(circuitos: Table<Circuito>, a: Id, b: Id, i: nat, j: nat)
    requires a != b
    requires i < |CircuitosPorCliente(circuitos, a)| && j < |CircuitosPorCliente(circuitos, b)|
    ensures CircuitosPorCliente(circuitos, a)[i].id != CircuitosPorCliente(circuitos, b)[j].id
  {
  }
}
