/**
  When a journey keeps the optimum routes. A full list replaces its first route that is worse than
  the new one, which need not be the worst.
 */
module JourneyOptimum {
  import opened Ids
  import opened Buckets
  import opened Packets
  import opened Journeys
  import opened JourneyRuns

  /** `kept` are the best of `all`: nothing left out is closer than something kept. */
  ghost predicate AreBest(kept: seq<Route>, all: multiset<Route>) {
    && multiset(kept) <= all
    && forall x, y | x in all - multiset(kept) && y in kept :: x.distance <= y.distance
  }

  /** Of the routes there are and the new one, the best ones are kept. */
  ghost predicate KeepsBest(routes: seq<Route>, r: Route, kept: seq<Route>) {
    AreBest(kept, multiset(routes) + multiset{r})
  }

  /** The node is neither the source nor marked as visited. */
  predicate Fresh(h: Hasher, s: JourneyState, n: Node) {
    n.id != s.source && h(n.id) !in s.visited
  }

  predicate IsWorst(routes: seq<Route>, i: nat)
    requires i < |routes|
  {
    forall j | 0 <= j < |routes| :: routes[i].distance <= routes[j].distance
  }

  /** No route is worse than `d`, or the first that is worse is a worst one. */
  predicate FirstWorseIsWorst(routes: seq<Route>, d: int) {
    var i := FirstWorse(routes, d);
    i == |routes| || IsWorst(routes, i)
  }

  lemma ReplacedRoutes(routes: seq<Route>, i: nat, r: Route)
    requires i < |routes|
    ensures multiset(routes[i := r]) == multiset(routes) - multiset{routes[i]} + multiset{r}
    ensures routes[i] in multiset(routes)
  {
    assert routes == routes[..i] + [routes[i]] + routes[i + 1..];
    assert routes[i := r] == routes[..i] + [r] + routes[i + 1..];
    assert routes[i] in routes;
  }

  lemma LeftOut(all: multiset<Route>, x: Route, r: Route)
    requires x in all
    ensures all + multiset{r} - (all - multiset{x} + multiset{r}) == multiset{x}
  {
  }

  /** Replacing slot `i` keeps the best exactly when no other is worse. */
  lemma ReplaceKeepsBestIff(routes: seq<Route>, i: nat, r: Route)
    requires i < |routes| && routes[i].distance < r.distance
    ensures KeepsBest(routes, r, routes[i := r]) <==> IsWorst(routes, i)
  {
    var kept := routes[i := r];
    ReplacedRoutes(routes, i, r);
    LeftOut(multiset(routes), routes[i], r);
    if KeepsBest(routes, r, kept) {
      forall j | 0 <= j < |routes| ensures routes[i].distance <= routes[j].distance {
        assert kept[j] in kept && routes[i] in multiset{routes[i]};
      }
    }
    if IsWorst(routes, i) {
      forall y | y in kept ensures routes[i].distance <= y.distance {
        var j :| 0 <= j < |kept| && kept[j] == y;
      }
    }
  }

  lemma RefusedKeepsBest(routes: seq<Route>, r: Route)
    requires FirstWorse(routes, r.distance) == |routes|
    ensures KeepsBest(routes, r, routes)
  {
    forall y | y in routes ensures r.distance <= y.distance {
      var j :| 0 <= j < |routes| && routes[j] == y;
      NoneWorseBefore(routes, r.distance, j);
    }
    assert multiset(routes) + multiset{r} - multiset(routes) == multiset{r};
  }

  /** A full list keeps the best of its routes and a new one if and only if it has none that is
      worse, or the first one that is worse is a worst one. */
  lemma AddKeepsBestIff(h: Hasher, s: JourneyState, n: Node)
    requires |s.routes| == K && Fresh(h, s, n)
    ensures KeepsBest(s.routes, RouteTo(s, n), AddNode(h, s, n).routes)
            <==> FirstWorseIsWorst(s.routes, RouteTo(s, n).distance)
  {
    var r := RouteTo(s, n);
    var i := FirstWorse(s.routes, r.distance);
    if i < |s.routes| {
      ReplaceKeepsBestIff(s.routes, i, r);
    } else {
      RefusedKeepsBest(s.routes, r);
    }
  }

  // ---------------------------------------------------------------- many additions

  /** The routes offered, as often as each was not skipped. */
  ghost function Offers(h: Hasher, s: JourneyState, ns: seq<Node>): multiset<Route> {
    if ns == [] then multiset{}
    else
      var k := |ns| - 1;
      Offers(h, s, ns[..k])
      + if Fresh(h, AddNodes(h, s, ns[..k]), ns[k]) then multiset{RouteTo(s, ns[k])} else multiset{}
  }

  /** Each time a full list gets a new node, what it replaces is a worst one. */
  ghost predicate ReplacesWorst(h: Hasher, s: JourneyState, ns: seq<Node>) {
    forall k | 0 <= k < |ns| :: ReplacesWorstAt(h, AddNodes(h, s, ns[..k]), ns[k])
  }

  ghost predicate ReplacesWorstAt(h: Hasher, s: JourneyState, n: Node) {
    Fresh(h, s, n) && |s.routes| >= K ==> FirstWorseIsWorst(s.routes, RouteTo(s, n).distance)
  }

  /** Best of what was best before and one more, if one is left out. */
  lemma BestExtends(routes: seq<Route>, r: Route, kept: seq<Route>, all: multiset<Route>)
    requires AreBest(routes, all) && KeepsBest(routes, r, kept) && |kept| == |routes|
    ensures AreBest(kept, all + multiset{r})
  {
    var gone := multiset(routes) + multiset{r} - multiset(kept);
    assert all + multiset{r} - multiset(kept) == (all - multiset(routes)) + gone;
    forall x, y | x in all + multiset{r} - multiset(kept) && y in kept ensures x.distance <= y.distance {
      if x in all - multiset(routes) { BetterThanLeftOut(routes, r, kept, all, x, y); }
    }
  }

  /** Something left out before is not closer than anything kept now. */
  lemma BetterThanLeftOut(routes: seq<Route>, r: Route, kept: seq<Route>, all: multiset<Route>, x: Route, y: Route)
    requires AreBest(routes, all) && KeepsBest(routes, r, kept) && |kept| == |routes|
    requires x in all - multiset(routes) && y in kept
    ensures x.distance <= y.distance
  {
    assert y in multiset(kept);
    if y !in routes {
      var z := OneLeftOut(routes, y, kept);
      assert x.distance <= z.distance <= y.distance;
    }
  }

  lemma OneLeftOut(routes: seq<Route>, r: Route, kept: seq<Route>) returns (z: Route)
    requires multiset(kept) <= multiset(routes) + multiset{r} && |kept| == |routes| && r in kept && r !in routes
    ensures z in routes && z in multiset(routes) + multiset{r} - multiset(kept)
  {
    var all := multiset(routes) + multiset{r};
    assert |all| == |multiset(kept)| + |all - multiset(kept)|;
    z :| z in all - multiset(kept);
    assert z != r by { assert r in multiset(kept) && r !in multiset(routes); }
    assert z in multiset(routes);
  }

  /** The list holds the best of what was offered, and everything while it has room. */
  ghost predicate HoldsBest(routes: seq<Route>, all: multiset<Route>) {
    AreBest(routes, all) && |routes| <= K && (|routes| < K ==> multiset(routes) == all)
  }

  lemma AddNodeBest(h: Hasher, s: JourneyState, n: Node, all: multiset<Route>)
    requires HoldsBest(s.routes, all) && ReplacesWorstAt(h, s, n)
    ensures HoldsBest(AddNode(h, s, n).routes, all + if Fresh(h, s, n) then multiset{RouteTo(s, n)} else multiset{})
  {
    var r, kept := RouteTo(s, n), AddNode(h, s, n).routes;
    if !Fresh(h, s, n) {
      assert all + multiset{} == all;
    } else if |s.routes| < K {
      assert multiset(kept) == all + multiset{r};
    } else {
      AddKeepsBestIff(h, s, n);
      BestExtends(s.routes, r, kept, all);
    }
  }

  /** If every replacement hits a worst route, the list holds the best of everything offered. */
  lemma {:induction false} AddNodesKeepsBest(h: Hasher, s: JourneyState, ns: seq<Node>)
    requires |s.routes| <= K && ReplacesWorst(h, s, ns)
    ensures HoldsBest(AddNodes(h, s, ns).routes, multiset(s.routes) + Offers(h, s, ns))
  {
    if ns == [] {
      assert multiset(s.routes) + multiset{} == multiset(s.routes);
    } else {
      var k := |ns| - 1;
      ReplacesWorstPrefix(h, s, ns);
      AddNodesKeepsBest(h, s, ns[..k]);
      AddNodesFrame(h, s, ns[..k]);
      var t, all := AddNodes(h, s, ns[..k]), multiset(s.routes) + Offers(h, s, ns[..k]);
      AddNodeBest(h, t, ns[k], all);
      var more := if Fresh(h, t, ns[k]) then multiset{RouteTo(s, ns[k])} else multiset{};
      assert multiset(s.routes) + (Offers(h, s, ns[..k]) + more) == all + more;
    }
  }

  lemma ReplacesWorstPrefix(h: Hasher, s: JourneyState, ns: seq<Node>)
    requires ns != [] && ReplacesWorst(h, s, ns)
    ensures ReplacesWorst(h, s, ns[..|ns| - 1]) && ReplacesWorstAt(h, AddNodes(h, s, ns[..|ns| - 1]), ns[|ns| - 1])
  {
    var rest := ns[..|ns| - 1];
    forall k | 0 <= k < |rest| ensures ReplacesWorstAt(h, AddNodes(h, s, rest[..k]), rest[k]) {
      assert rest[..k] == ns[..k];
    }
  }

  // ---------------------------------------------------------------- lists that are not the optimum

  /** New nodes with hashes of their own, at most as many as the list has room for. */
  ghost predicate AllNew(h: Hasher, s: JourneyState, ns: seq<Node>) {
    && |s.routes| + |ns| <= K
    && (forall i | 0 <= i < |ns| :: Fresh(h, s, ns[i]))
    && (forall i, j | 0 <= i < j < |ns| :: h(ns[i].id) != h(ns[j].id))
  }

  /** The nodes have become routes, in order, and are marked. */
  ghost predicate Taken(h: Hasher, s: JourneyState, ns: seq<Node>, t: JourneyState) {
    && |t.routes| == |s.routes| + |ns|
    && (forall i | 0 <= i < |ns| :: t.routes[|s.routes| + i] == RouteTo(s, ns[i]))
    && (forall k | k in t.visited :: k in s.visited || exists i :: 0 <= i < |ns| && h(ns[i].id) == k)
  }

  /** While there is room every new node becomes a route, in order. */
  lemma {:induction false} RoomIsTaken(h: Hasher, s: JourneyState, ns: seq<Node>)
    requires AllNew(h, s, ns)
    ensures Taken(h, s, ns, AddNodes(h, s, ns))
  {
    if ns != [] {
      var n := |ns| - 1;
      RoomIsTaken(h, s, ns[..n]);
      AddNodesFrame(h, s, ns[..n]);
      OneMoreTaken(h, s, ns, AddNodes(h, s, ns[..n]));
    }
  }

  lemma OneMoreTaken(h: Hasher, s: JourneyState, ns: seq<Node>, t: JourneyState)
    requires ns != [] && AllNew(h, s, ns) && t.source == s.source && t.destination == s.destination
    requires Taken(h, s, ns[..|ns| - 1], t)
    ensures Taken(h, s, ns, AddNode(h, t, ns[|ns| - 1]))
  {
    var n := |ns| - 1;
    LastIsFresh(h, s, ns, t);
    var u := AddNode(h, t, ns[n]);
    forall k | k in u.visited ensures k in s.visited || exists i :: 0 <= i < |ns| && h(ns[i].id) == k {
      if k in t.visited && k !in s.visited {
        var i :| 0 <= i < n && h(ns[..n][i].id) == k;
        assert h(ns[i].id) == k;
      }
    }
  }

  lemma LastIsFresh(h: Hasher, s: JourneyState, ns: seq<Node>, t: JourneyState)
    requires ns != [] && AllNew(h, s, ns) && t.source == s.source
    requires var n := |ns| - 1;
             forall k | k in t.visited :: k in s.visited || exists i :: 0 <= i < n && h(ns[..n][i].id) == k
    ensures Fresh(h, t, ns[|ns| - 1])
  {
    var n := |ns| - 1;
    assert Fresh(h, s, ns[n]);
    assert forall i | 0 <= i < n :: ns[..n][i] == ns[i] && h(ns[i].id) != h(ns[n].id);
  }

  /** The first node of a list of new ones is closer than another of them, and less close than the
      last, which comes when the list is full. */
  ghost predicate Misleading(h: Hasher, s: JourneyState, ns: seq<Node>, j: nat, n: Node) {
    && s.routes == [] && |ns| == K && 0 < j < K && AllNew(h, s, ns)
    && Fresh(h, s, n) && (forall i | 0 <= i < K :: h(ns[i].id) != h(n.id))
    && RouteTo(s, ns[j]).distance < RouteTo(s, ns[0]).distance < RouteTo(s, n).distance
  }

  /** Then the last node replaces the first, although a worse one is in the list. */
  lemma BetterRouteIsLost(h: Hasher, s: JourneyState, ns: seq<Node>, j: nat, n: Node)
    requires Misleading(h, s, ns, j, n)
    ensures var t := AddNodes(h, s, ns);
            && |t.routes| == K && Fresh(h, t, n)
            && !KeepsBest(t.routes, RouteTo(t, n), AddNode(h, t, n).routes)
  {
    var t := AddNodes(h, s, ns);
    RoomIsTaken(h, s, ns);
    AddNodesFrame(h, s, ns);
    assert Fresh(h, t, n);
    assert t.routes[0] == RouteTo(s, ns[0]) && t.routes[j] == RouteTo(s, ns[j]);
    AddKeepsBestIff(h, t, n);
  }

  // such a list

  function ZeroId(): Id {
    seq(KEY_BYTES, _ => 0)
  }

  /** A node whose id starts with the two bytes. */
  function Peer(first: Byte, second: Byte): (n: Node)
    ensures n.id[0] == first && n.id[1] == second
  {
    Node([first, second] + seq(KEY_BYTES - 2, _ => 0), Address([], 0), 0, 0, 0, 0, false)
  }

  lemma PeerBits()
    ensures DifferFirstAt(128, 0, 0) && DifferFirstAt(64, 0, 1) && DifferFirstAt(32, 0, 2)
  {
    assert ByteBit(128, 0) && !ByteBit(0, 0);
    assert !ByteBit(64, 0) && ByteBit(64, 1) && !ByteBit(0, 1);
    assert !ByteBit(32, 0) && !ByteBit(32, 1) && ByteBit(32, 2) && !ByteBit(0, 2);
  }

  lemma PeerDistance(first: Byte, second: Byte, z: nat)
    requires DifferFirstAt(first, 0, z)
    ensures PrefixLen(Peer(first, second).id, ZeroId()) == z
  {
    PrefixEndsAt(Peer(first, second).id, ZeroId(), 0, z);
  }

  /** One node at distance 1 and then nineteen at distance 0. */
  function Peers(): (ns: seq<Node>)
    ensures |ns| == K && ns[0] == Peer(64, 0) && forall i | 0 < i < K :: ns[i] == Peer(128, i)
  {
    seq(K, i requires 0 <= i < K => if i == 0 then Peer(64, 0) else Peer(128, i))
  }

  /** The ids of the nodes have different hashes. */
  ghost predicate HashesApart(h: Hasher, ns: seq<Node>) {
    forall i, j | 0 <= i < j < |ns| :: h(ns[i].id) != h(ns[j].id)
  }

  /** From a journey to the zero id, these and one at distance 2. */
  lemma MisleadingExists(h: Hasher, s: JourneyState)
    requires HashesApart(h, Peers() + [Peer(32, 0)]) && s == NewJourney(Peer(0, 1).id, ZeroId(), K)
    ensures Misleading(h, s, Peers(), 1, Peer(32, 0))
  {
    var ns := Peers();
    PeerBits();
    PeerDistance(64, 0, 1);
    PeerDistance(128, 1, 0);
    PeerDistance(32, 0, 2);
    var all := ns + [Peer(32, 0)];
    forall i, j | 0 <= i < j < K ensures h(ns[i].id) != h(ns[j].id) {
      assert all[i] == ns[i] && all[j] == ns[j];
    }
    forall i | 0 <= i < K ensures h(ns[i].id) != h(Peer(32, 0).id) && ns[i].id != s.source {
      assert all[i] == ns[i] && all[K] == Peer(32, 0) && ns[i].id[0] >= 64;
    }
  }
}
