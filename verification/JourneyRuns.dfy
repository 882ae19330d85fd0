/**
  Properties of a journey over every interleaving of its operations.
 */
module JourneyRuns {
  import opened Ids
  import opened Buckets
  import opened Packets
  import opened Journeys

  /** The operations; `sorted` is the outcome of the sort inside `next`, and `request` says which
      of the nodes handed out so far the response comes from. */
  datatype Event =
    | Add(nodes: seq<Node>)
    | Next(count: nat, sorted: seq<Route>)
    | Response(request: nat)
    | Finish(force: bool)
    | Seen(value: Bytes)
    | AddOutstanding(from: Bytes, n: int)
    | RemoveOutstanding(from: Bytes, n: int)

  ghost function Step(h: Hasher, s: JourneyState, e: Event): JourneyState {
    match e
    case Add(nodes) => AddNodes(h, s, nodes)
    case Next(count, sorted) => NextState(s, count, sorted)
    case Response(_) => ResponseState(s)
    case Finish(force) => FinishState(s, force)
    case Seen(v) => SeenState(h, s, v)
    case AddOutstanding(from, n) => AddOutstandingState(h, s, from, n)
    case RemoveOutstanding(from, n) => RemoveOutstandingState(h, s, from, n)
  }

  /** What a step hands out. */
  function Out(s: JourneyState, e: Event): seq<Route> {
    if e.Next? then Handed(s, e.count, e.sorted) else []
  }

  ghost function After(h: Hasher, s: JourneyState, events: seq<Event>): JourneyState {
    if events == [] then s
    else Step(h, After(h, s, events[..|events| - 1]), events[|events| - 1])
  }

  /** Everything handed out in a run. */
  ghost function HandedOut(h: Hasher, s: JourneyState, events: seq<Event>): seq<Route> {
    if events == [] then []
    else
      var n := |events| - 1;
      HandedOut(h, s, events[..n]) + Out(After(h, s, events[..n]), events[n])
  }

  /** Every sort in the run is a sort of the routes at that moment. */
  ghost predicate Legal(h: Hasher, s: JourneyState, events: seq<Event>) {
    forall t | 0 <= t < |events| && events[t].Next? :: IsSorting(After(h, s, events[..t]).routes, events[t].sorted)
  }

  lemma LegalPrefix(h: Hasher, s: JourneyState, events: seq<Event>)
    requires events != [] && Legal(h, s, events)
    ensures Legal(h, s, events[..|events| - 1])
    ensures events[|events| - 1].Next? ==>
              IsSorting(After(h, s, events[..|events| - 1]).routes, events[|events| - 1].sorted)
  {
    var rest := events[..|events| - 1];
    forall t | 0 <= t < |rest| && rest[t].Next? ensures IsSorting(After(h, s, rest[..t]).routes, rest[t].sorted) {
      assert rest[..t] == events[..t];
    }
  }

  // ---------------------------------------------------------------- no node twice

  /** No two members share a hash, and all hashes are marked as visited. */
  ghost predicate Marked(h: Hasher, s: JourneyState, trail: multiset<Route>) {
    && (forall r :: trail[r] <= 1)
    && (forall r, q | r in trail && q in trail && h(r.node.id) == h(q.node.id) :: r == q)
    && (forall r | r in trail :: h(r.node.id) in s.visited && r.node.id != s.source)
  }

  /** All routes live or handed out so far. */
  ghost predicate TrailInv(h: Hasher, s: JourneyState, handed: seq<Route>) {
    |s.routes| <= K && Marked(h, s, multiset(handed) + multiset(s.routes))
  }

  lemma AddNodeTrail(h: Hasher, s: JourneyState, n: Node, handed: seq<Route>)
    requires TrailInv(h, s, handed)
    ensures TrailInv(h, AddNode(h, s, n), handed)
  {
    var k, r := h(n.id), RouteTo(s, n);
    if n.id != s.source && k !in s.visited {
      var i := FirstWorse(s.routes, r.distance);
      if |s.routes| < K {
        AppendTrail(h, s, r, handed);
      } else if i < |s.routes| {
        ReplaceTrail(h, s, i, r, handed);
      }
    }
  }

  lemma AppendTrail(h: Hasher, s: JourneyState, r: Route, handed: seq<Route>)
    requires TrailInv(h, s, handed) && |s.routes| < K && h(r.node.id) !in s.visited && r.node.id != s.source
    ensures TrailInv(h, s.(visited := s.visited + {h(r.node.id)}, routes := s.routes + [r]), handed)
  {
    var s' := s.(visited := s.visited + {h(r.node.id)}, routes := s.routes + [r]);
    var trail := multiset(handed) + multiset(s.routes);
    MarkNew(h, s, s', trail, r);
    assert multiset(handed) + multiset(s'.routes) == trail + multiset{r};
  }

  lemma ReplaceTrail(h: Hasher, s: JourneyState, i: nat, r: Route, handed: seq<Route>)
    requires TrailInv(h, s, handed) && i < |s.routes| && h(r.node.id) !in s.visited && r.node.id != s.source
    ensures var visited := s.visited + {h(r.node.id)} - {h(s.routes[i].node.id)};
            TrailInv(h, s.(visited := visited, routes := s.routes[i := r]), handed)
  {
    var gone := s.routes[i];
    var s' := s.(visited := s.visited + {h(r.node.id)} - {h(gone.node.id)}, routes := s.routes[i := r]);
    var trail := multiset(handed) + multiset(s.routes);
    assert gone in s.routes && gone in trail;
    Evict(h, s, trail, gone);
    var t := s.(visited := s.visited - {h(gone.node.id)});
    assert s'.visited == t.visited + {h(r.node.id)};
    MarkNew(h, t, s', trail - multiset{gone}, r);
    Replaced(s.routes, i, r);
    assert multiset(handed) + multiset(s'.routes) == trail - multiset{gone} + multiset{r};
  }

  lemma MarkNew(h: Hasher, s: JourneyState, s': JourneyState, trail: multiset<Route>, r: Route)
    requires Marked(h, s, trail) && h(r.node.id) !in s.visited && r.node.id != s.source
    requires s'.source == s.source && s'.visited == s.visited + {h(r.node.id)}
    ensures Marked(h, s', trail + multiset{r})
  {
  }

  /** Taking a route out allows its mark to be removed. */
  lemma Evict(h: Hasher, s: JourneyState, trail: multiset<Route>, r: Route)
    requires Marked(h, s, trail) && r in trail
    ensures Marked(h, s.(visited := s.visited - {h(r.node.id)}), trail - multiset{r})
  {
  }

  lemma Replaced(routes: seq<Route>, i: nat, r: Route)
    requires i < |routes|
    ensures multiset(routes[i := r]) == multiset(routes) - multiset{routes[i]} + multiset{r}
  {
  }

  lemma {:induction false} AddNodesTrail(h: Hasher, s: JourneyState, ns: seq<Node>, handed: seq<Route>)
    requires TrailInv(h, s, handed)
    ensures TrailInv(h, AddNodes(h, s, ns), handed)
  {
    if ns != [] {
      AddNodesTrail(h, s, ns[..|ns| - 1], handed);
      AddNodeTrail(h, AddNodes(h, s, ns[..|ns| - 1]), ns[|ns| - 1], handed);
    }
  }

  /** `next` conserves routes: what it hands out and what remains are what there was. */
  lemma NextConserves(s: JourneyState, count: nat, sorted: seq<Route>)
    requires IsSorting(s.routes, sorted)
    ensures multiset(Handed(s, count, sorted)) + multiset(NextState(s, count, sorted).routes) == multiset(s.routes)
  {
    var a := Available(s, count);
    assert sorted == sorted[..a] + sorted[a..];
  }

  /** `r` may go before `q`: its node shares more leading bits with the destination, or as many
      and its latency is not higher. */
  predicate CloserOrFaster(r: Route, q: Route) {
    r.distance > q.distance || (r.distance == q.distance && r.node.latency <= q.node.latency)
  }

  /** Unless the journey is over, `next` hands out as many routes as are asked for and there are:
      the closest and among these the fastest, in that order. */
  lemma NextIsBest(s: JourneyState, count: nat, sorted: seq<Route>)
    requires IsSorting(s.routes, sorted)
    ensures var out := Handed(s, count, sorted);
            && |out| == (if s.remaining == 0 || s.completed then 0 else Min(count, |s.routes|))
            && (forall i, j | 0 <= i < j < |out| :: CloserOrFaster(out[i], out[j]))
            && (forall r, q | r in out && q in NextState(s, count, sorted).routes :: CloserOrFaster(r, q))
  {
    forall i, j | 0 <= i < j < |sorted| ensures CloserOrFaster(sorted[i], sorted[j]) {
      assert !Less(sorted[j], sorted[i]);
    }
  }

  lemma NextTrail(h: Hasher, s: JourneyState, count: nat, sorted: seq<Route>, handed: seq<Route>)
    requires TrailInv(h, s, handed) && IsSorting(s.routes, sorted)
    ensures TrailInv(h, NextState(s, count, sorted), handed + Handed(s, count, sorted))
  {
    NextConserves(s, count, sorted);
    var out, s' := Handed(s, count, sorted), NextState(s, count, sorted);
    assert multiset(handed + out) + multiset(s'.routes) == multiset(handed) + multiset(s.routes);
  }

  lemma StepTrail(h: Hasher, s: JourneyState, e: Event, handed: seq<Route>)
    requires TrailInv(h, s, handed) && (e.Next? ==> IsSorting(s.routes, e.sorted))
    ensures TrailInv(h, Step(h, s, e), handed + Out(s, e))
  {
    if e.Next? {
      NextTrail(h, s, e.count, e.sorted, handed);
    } else {
      assert handed + Out(s, e) == handed;
      if e.Add? {
        AddNodesTrail(h, s, e.nodes, handed);
      }
    }
  }

  lemma {:induction false} RunTrail(h: Hasher, source: Id, destination: Id, iterations: int, events: seq<Event>)
    requires Legal(h, NewJourney(source, destination, iterations), events)
    ensures var s := NewJourney(source, destination, iterations);
            TrailInv(h, After(h, s, events), HandedOut(h, s, events))
  {
    if events != [] {
      var s := NewJourney(source, destination, iterations);
      var n := |events| - 1;
      LegalPrefix(h, s, events);
      RunTrail(h, source, destination, iterations, events[..n]);
      StepTrail(h, After(h, s, events[..n]), events[n], HandedOut(h, s, events[..n]));
    }
  }

  /** In every run, `next` never hands out the same node twice, never two nodes with the same
      hash, and never the source. Nothing is assumed about collisions of the hash. */
  lemma NoNodeVisitedTwice(h: Hasher, source: Id, destination: Id, iterations: int, events: seq<Event>, i: nat, j: nat)
    requires Legal(h, NewJourney(source, destination, iterations), events)
    requires i < j < |HandedOut(h, NewJourney(source, destination, iterations), events)|
    ensures var out := HandedOut(h, NewJourney(source, destination, iterations), events);
            && h(out[i].node.id) != h(out[j].node.id) && out[i].node.id != out[j].node.id
            && out[i].node.id != source && out[j].node.id != source
  {
    var s := NewJourney(source, destination, iterations);
    RunTrail(h, source, destination, iterations, events);
    SourceFixed(h, s, events);
    TwoHanded(h, After(h, s, events), HandedOut(h, s, events), i, j);
  }

  lemma TwoHanded(h: Hasher, s: JourneyState, out: seq<Route>, i: nat, j: nat)
    requires TrailInv(h, s, out) && i < j < |out|
    ensures h(out[i].node.id) != h(out[j].node.id)
    ensures out[i].node.id != s.source && out[j].node.id != s.source
  {
    var trail := multiset(out) + multiset(s.routes);
    assert out[i] in trail && out[j] in trail;
    assert out[i] != out[j] by {
      assert out == out[..j] + ([out[j]] + out[j + 1..]);
      assert out[i] == out[..j][i] && out[i] in multiset(out[..j]);
      assert multiset(out) == multiset(out[..j]) + multiset([out[j]] + out[j + 1..]);
      assert out[j] in multiset([out[j]] + out[j + 1..]);
    }
  }

  lemma {:induction false} SourceFixed(h: Hasher, s: JourneyState, events: seq<Event>)
    ensures After(h, s, events).source == s.source && After(h, s, events).destination == s.destination
  {
    if events != [] {
      var n := |events| - 1;
      SourceFixed(h, s, events[..n]);
      if events[n].Add? { AddNodesFrame(h, After(h, s, events[..n]), events[n].nodes); }
    }
  }

  lemma {:induction false} AddNodesFrame(h: Hasher, s: JourneyState, ns: seq<Node>)
    ensures var t := AddNodes(h, s, ns);
            && t.source == s.source && t.destination == s.destination && t.values == s.values
            && t.outstanding == s.outstanding && t.remaining == s.remaining && t.inflight == s.inflight
            && t.completed == s.completed
  {
    if ns != [] { AddNodesFrame(h, s, ns[..|ns| - 1]); }
  }

  // ---------------------------------------------------------------- distances stay with their nodes

  ghost predicate Paired(destination: Id, routes: seq<Route>) {
    forall r | r in routes :: r.distance == PrefixLen(r.node.id, destination)
  }

  lemma {:induction false} AddNodesPaired(h: Hasher, s: JourneyState, ns: seq<Node>)
    requires Paired(s.destination, s.routes)
    ensures Paired(s.destination, AddNodes(h, s, ns).routes)
  {
    if ns != [] {
      var rest := ns[..|ns| - 1];
      AddNodesPaired(h, s, rest);
      AddNodesFrame(h, s, rest);
    }
  }

  lemma StepPaired(h: Hasher, s: JourneyState, e: Event)
    requires Paired(s.destination, s.routes) && (e.Next? ==> IsSorting(s.routes, e.sorted))
    ensures Paired(s.destination, Step(h, s, e).routes) && Paired(s.destination, Out(s, e))
  {
    if e.Add? {
      AddNodesPaired(h, s, e.nodes);
    } else if e.Next? {
      NextConserves(s, e.count, e.sorted);
      assert forall r | r in Out(s, e) :: r in multiset(Out(s, e));
      assert forall r | r in Step(h, s, e).routes :: r in multiset(Step(h, s, e).routes);
      assert forall r | r in multiset(s.routes) :: r in s.routes;
    }
  }

  /** In every run each route, live or handed out, carries the closeness of its own node to the
      destination the journey was made for. */
  lemma {:induction false} RoutesStayPaired(h: Hasher, source: Id, destination: Id, iterations: int, events: seq<Event>)
    requires Legal(h, NewJourney(source, destination, iterations), events)
    ensures var s := NewJourney(source, destination, iterations);
            Paired(destination, After(h, s, events).routes) && Paired(destination, HandedOut(h, s, events))
  {
    if events != [] {
      var s := NewJourney(source, destination, iterations);
      var n := |events| - 1;
      LegalPrefix(h, s, events);
      RoutesStayPaired(h, source, destination, iterations, events[..n]);
      SourceFixed(h, s, events[..n]);
      StepPaired(h, After(h, s, events[..n]), events[n]);
    }
  }

  // ---------------------------------------------------------------- how much is handed out

  /** What `rounds` rounds of at most `c` nodes hand out at most. */
  function Allowed(rounds: nat, c: nat): nat {
    if rounds == 0 then 0 else Allowed(rounds - 1, c) + c
  }

  lemma {:induction false} AllowedIsProduct(rounds: nat, c: nat)
    ensures Allowed(rounds, c) == rounds * c
  {
    if rounds > 0 {
      AllowedIsProduct(rounds - 1, c);
      assert rounds * c == (rounds - 1) * c + c;
    }
  }

  lemma {:induction false} HandedOutAllowed(h: Hasher, s: JourneyState, events: seq<Event>, c: nat)
    requires s.remaining >= 0
    requires forall e | e in events && e.Next? :: e.count <= c
    ensures 0 <= After(h, s, events).remaining <= s.remaining
    ensures |HandedOut(h, s, events)| <= Allowed(s.remaining - After(h, s, events).remaining, c)
  {
    if events != [] {
      var n := |events| - 1;
      HandedOutAllowed(h, s, events[..n], c);
      assert events[n] in events;
      StepBounded(h, After(h, s, events[..n]), events[n], c);
    }
  }

  /** With every call of `next` asking for at most `c`, a journey hands out at most
      iterations * c nodes. */
  lemma HandedOutBounded(h: Hasher, s: JourneyState, events: seq<Event>, c: nat) returns (spent: nat)
    requires s.remaining >= 0
    requires forall e | e in events && e.Next? :: e.count <= c
    ensures spent == s.remaining - After(h, s, events).remaining <= s.remaining
    ensures |HandedOut(h, s, events)| <= spent * c
  {
    HandedOutAllowed(h, s, events, c);
    spent := s.remaining - After(h, s, events).remaining;
    AllowedIsProduct(spent, c);
  }

  lemma StepBounded(h: Hasher, s: JourneyState, e: Event, c: nat)
    requires s.remaining >= 0 && (e.Next? ==> e.count <= c)
    ensures var t := Step(h, s, e);
            if |Out(s, e)| == 0 then s.remaining - 1 <= t.remaining <= s.remaining && t.remaining >= 0
            else t.remaining == s.remaining - 1 >= 0 && |Out(s, e)| <= c
  {
    if e.Add? { AddNodesFrame(h, s, e.nodes); }
  }
}
