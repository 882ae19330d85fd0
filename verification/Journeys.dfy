/**
  The state of a lookup as a value, and what each locked operation of `journey` does to it.
 */
module Journeys {
  import opened Ids
  import opened Buckets
  import opened Packets

  /** A node that can still be asked, with its closeness to the destination. */
  datatype Route = Route(node: Node, distance: int)

  datatype JourneyState = JourneyState(
    source: Id, destination: Id,
    visited: set<Hash>, values: set<Hash>, outstanding: map<Hash, int>,
    routes: seq<Route>, remaining: int, inflight: int, completed: bool)

  function NewJourney(source: Id, destination: Id, iterations: int): JourneyState {
    JourneyState(source, destination, {}, {}, map[], [], iterations, 0, false)
  }

  function RouteTo(s: JourneyState, n: Node): Route {
    Route(n, PrefixLen(n.id, s.destination))
  }

  // ---------------------------------------------------------------- add

  /** The first route worse than `d`, or the number of routes. */
  function FirstWorse(routes: seq<Route>, d: int): (i: nat)
    ensures i <= |routes|
    ensures i < |routes| ==> routes[i].distance < d
  {
    if routes == [] then 0
    else if routes[0].distance < d then 0
    else
      var i := FirstWorse(routes[1..], d);
      assert i < |routes| - 1 ==> routes[1..][i] == routes[i + 1];
      i + 1
  }

  lemma {:induction false} NoneWorseBefore(routes: seq<Route>, d: int, j: nat)
    requires j < FirstWorse(routes, d)
    ensures routes[j].distance >= d
  {
    if j > 0 {
      NoneWorseBefore(routes[1..], d, j - 1);
      assert routes[1..][j - 1] == routes[j];
    }
  }

  function AddNode(h: Hasher, s: JourneyState, n: Node): JourneyState {
    var k := h(n.id);
    if n.id == s.source || k in s.visited then s
    else if |s.routes| < K then
      s.(visited := s.visited + {k}, routes := s.routes + [RouteTo(s, n)])
    else
      var r := RouteTo(s, n);
      var i := FirstWorse(s.routes, r.distance);
      if i == |s.routes| then s.(visited := s.visited + {k})
      else s.(visited := s.visited + {k} - {h(s.routes[i].node.id)}, routes := s.routes[i := r])
  }

  function AddNodes(h: Hasher, s: JourneyState, ns: seq<Node>): JourneyState {
    if ns == [] then s else AddNode(h, AddNodes(h, s, ns[..|ns| - 1]), ns[|ns| - 1])
  }

  // ---------------------------------------------------------------- next

  /** The order of `Less`: longer prefix first, then lower latency. */
  predicate Less(x: Route, y: Route) {
    if x.distance != y.distance then x.distance > y.distance else x.node.latency < y.node.latency
  }

  /** `Less` is a strict weak order, so the sort is well defined; it puts closer routes first and,
      of equally close ones, faster ones. */
  lemma LessIsStrictWeakOrder(x: Route, y: Route, z: Route)
    ensures x.distance > y.distance ==> Less(x, y)
    ensures x.distance == y.distance ==> (Less(x, y) <==> x.node.latency < y.node.latency)
    ensures !Less(x, x)
    ensures Less(x, y) ==> !Less(y, x)
    ensures Less(x, y) && Less(y, z) ==> Less(x, z)
    ensures !Less(x, y) && !Less(y, z) ==> !Less(x, z)
  {
  }

  predicate Sorted(routes: seq<Route>) {
    forall i, j | 0 <= i < j < |routes| :: !Less(routes[j], routes[i])
  }

  /** Some result of sorting: sort.Sort promises no particular order of equals. */
  predicate IsSorting(routes: seq<Route>, sorted: seq<Route>) {
    multiset(routes) == multiset(sorted) && |sorted| == |routes| && Sorted(sorted)
  }

  predicate Exhausted(s: JourneyState) {
    s.remaining == 0 || s.routes == [] || s.completed
  }

  function Available(s: JourneyState, count: nat): nat {
    Min(count, |s.routes|)
  }

  function NextState(s: JourneyState, count: nat, sorted: seq<Route>): JourneyState {
    if Exhausted(s) then s
    else
      var a := Available(s, count);
      s.(remaining := s.remaining - 1, inflight := s.inflight + a,
         routes := if a <= |sorted| then sorted[a..] else [])
  }

  /** The routes handed out by a call of `next`; none when it returns nil. */
  function Handed(s: JourneyState, count: nat, sorted: seq<Route>): seq<Route> {
    if Exhausted(s) || Available(s, count) > |sorted| then [] else sorted[..Available(s, count)]
  }

  // ---------------------------------------------------------------- the other operations

  function ResponseState(s: JourneyState): JourneyState {
    if s.inflight > 0 then s.(inflight := s.inflight - 1) else s
  }

  /** Nothing is in flight and no route is left. */
  predicate ShouldError(s: JourneyState) {
    s.inflight < 1 && |s.routes| < 1
  }

  ghost function SumValues(m: map<Hash, int>): int {
    if m == map[] then 0
    else
      var k :| k in m;
      m[k] + SumValues(m - {k})
  }

  /** The sum does not depend on the order in which a map is walked. */
  lemma {:induction false} SumValuesAny(m: map<Hash, int>, k: Hash)
    requires k in m
    ensures SumValues(m) == m[k] + SumValues(m - {k})
    decreases |m|
  {
    var j :| j in m && SumValues(m) == m[j] + SumValues(m - {j});
    if j != k {
      SumValuesAny(m - {j}, k);
      SumValuesAny(m - {k}, j);
      assert m - {j} - {k} == m - {k} - {j};
    }
  }

  ghost predicate CanFinish(s: JourneyState, force: bool) {
    !s.completed && (force || (s.inflight <= 0 && SumValues(s.outstanding) <= 0))
  }

  ghost function FinishState(s: JourneyState, force: bool): JourneyState {
    if CanFinish(s, force) then s.(completed := true) else s
  }

  function SeenState(h: Hasher, s: JourneyState, v: Bytes): JourneyState {
    s.(values := s.values + {h(v)})
  }

  function AddOutstandingState(h: Hasher, s: JourneyState, from: Bytes, n: int): JourneyState {
    if h(from) in s.outstanding then s else s.(outstanding := s.outstanding[h(from) := n])
  }

  /** A missing entry of a Go map reads as zero. */
  function Expected(s: JourneyState, k: Hash): int {
    if k in s.outstanding then s.outstanding[k] else 0
  }

  function RemoveOutstandingState(h: Hasher, s: JourneyState, from: Bytes, n: int): JourneyState {
    s.(outstanding := s.outstanding[h(from) := Expected(s, h(from)) - n])
  }
}
