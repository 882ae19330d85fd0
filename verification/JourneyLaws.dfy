/**
  What the operations of a journey amount to over every run, in terms of the calls alone: which
  routes go out first, which nodes are marked, what is outstanding, when the journey is completed.
 */
module JourneyLaws {
  import opened Ids
  import opened Buckets
  import opened Packets
  import opened Journeys
  import opened JourneyRuns
  import opened JourneyGuarantees
  import opened JourneyOptimum

  // ---------------------------------------------------------------- closest first

  /** In every run, what a call of `next` hands out shares at least as many leading bits with the
      destination as what it leaves, and with as many it is not slower. */
  lemma HandsOutClosest(h: Hasher, source: Id, destination: Id, iterations: int, events: seq<Event>, t: nat,
                        r: Route, q: Route)
    requires var s0 := NewJourney(source, destination, iterations);
             && Legal(h, s0, events) && t < |events| && events[t].Next?
             && r in Out(After(h, s0, events[..t]), events[t])
             && q in After(h, s0, events[..t + 1]).routes
    ensures PrefixLen(r.node.id, destination) >= PrefixLen(q.node.id, destination)
    ensures PrefixLen(r.node.id, destination) == PrefixLen(q.node.id, destination) ==> r.node.latency <= q.node.latency
  {
    var s0 := NewJourney(source, destination, iterations);
    var s, e := After(h, s0, events[..t]), events[t];
    LegalUpTo(h, s0, events, t);
    RoutesStayPaired(h, source, destination, iterations, events[..t]);
    SourceFixed(h, s0, events[..t]);
    StepPaired(h, s, e);
    NextIsBest(s, e.count, e.sorted);
    assert events[..t + 1][..t] == events[..t];
  }

  // ---------------------------------------------------------------- what is marked

  function Bit(b: bool): nat {
    if b then 1 else 0
  }

  /** A route to a node with hash `k` has gone from the list. */
  ghost predicate Evicts(h: Hasher, before: JourneyState, after: JourneyState, k: Hash) {
    exists r :: r in before.routes && r !in after.routes && h(r.node.id) == k
  }

  /** How often a node with hash `k` was new when it was offered. */
  ghost function Marks(h: Hasher, s: JourneyState, ns: seq<Node>, k: Hash): nat {
    if ns == [] then 0
    else
      var n := |ns| - 1;
      Marks(h, s, ns[..n], k) + Bit(Fresh(h, AddNodes(h, s, ns[..n]), ns[n]) && h(ns[n].id) == k)
  }

  /** How often an offer evicted a route to a node with hash `k`. */
  ghost function Evictions(h: Hasher, s: JourneyState, ns: seq<Node>, k: Hash): nat {
    if ns == [] then 0
    else
      var n := |ns| - 1;
      Evictions(h, s, ns[..n], k) + Bit(Evicts(h, AddNodes(h, s, ns[..n]), AddNodes(h, s, ns), k))
  }

  lemma RoutesAreMarked(h: Hasher, s: JourneyState, handed: seq<Route>)
    requires TrailInv(h, s, handed)
    ensures forall r | r in s.routes :: h(r.node.id) in s.visited && r.node.id != s.source
    ensures forall i, j | 0 <= i < |s.routes| && 0 <= j < |s.routes| && s.routes[i] == s.routes[j] :: i == j
  {
    assert forall r | r in s.routes :: r in multiset(handed) + multiset(s.routes);
    forall i, j | 0 <= i < j < |s.routes| ensures s.routes[i] != s.routes[j] {
      Twice(s.routes, i, j);
      assert multiset(s.routes)[s.routes[i]] <= (multiset(handed) + multiset(s.routes))[s.routes[i]] <= 1;
    }
  }

  lemma Twice(routes: seq<Route>, i: nat, j: nat)
    requires i < j < |routes|
    ensures routes[i] == routes[j] ==> multiset(routes)[routes[i]] >= 2
  {
    assert routes == routes[..j] + ([routes[j]] + routes[j + 1..]);
    assert routes[..j][i] in multiset(routes[..j]);
    assert multiset(routes) == multiset(routes[..j]) + multiset([routes[j]] + routes[j + 1..]);
    assert routes[j] in multiset([routes[j]] + routes[j + 1..]);
  }

  /** Replacing slot `i` of different routes evicts exactly the one in it. */
  lemma ReplacedIsEvicted(h: Hasher, s: JourneyState, t: JourneyState, i: nat, r: Route, k: Hash)
    requires i < |s.routes| && t.routes == s.routes[i := r] && r !in s.routes
    requires forall a, b | 0 <= a < |s.routes| && 0 <= b < |s.routes| && s.routes[a] == s.routes[b] :: a == b
    ensures Evicts(h, s, t, k) <==> h(s.routes[i].node.id) == k
  {
    var gone := s.routes[i];
    assert gone in s.routes && gone !in t.routes;
    assert forall j | 0 <= j < |s.routes| && j != i :: s.routes[j] == t.routes[j];
    assert forall q | q in s.routes && q !in t.routes :: q == gone;
  }

  /** One offer marks the node if it is new, and unmarks the one it evicts. */
  lemma AddNodeMarks(h: Hasher, s: JourneyState, n: Node, handed: seq<Route>, k: Hash)
    requires TrailInv(h, s, handed)
    ensures var t := AddNode(h, s, n);
            Bit(k in t.visited) + Bit(Evicts(h, s, t, k)) == Bit(k in s.visited) + Bit(Fresh(h, s, n) && h(n.id) == k)
  {
    var r := RouteTo(s, n);
    var i := FirstWorse(s.routes, r.distance);
    if Fresh(h, s, n) {
      RoutesAreMarked(h, s, handed);
      if |s.routes| >= K && i < |s.routes| {
        assert s.routes[i] in s.routes;
        ReplacedIsEvicted(h, s, AddNode(h, s, n), i, r, k);
      }
    }
  }

  /** Over any sequence of offers a hash is marked if and only if it was marked, by an offer or
      before, once more than it was evicted. */
  lemma {:induction false} MarksBalance(h: Hasher, s: JourneyState, ns: seq<Node>, handed: seq<Route>, k: Hash)
    requires TrailInv(h, s, handed)
    ensures Bit(k in AddNodes(h, s, ns).visited) + Evictions(h, s, ns, k) == Bit(k in s.visited) + Marks(h, s, ns, k)
  {
    if ns != [] {
      var n := |ns| - 1;
      MarksBalance(h, s, ns[..n], handed, k);
      AddNodesTrail(h, s, ns[..n], handed);
      AddNodeMarks(h, AddNodes(h, s, ns[..n]), ns[n], handed, k);
    }
  }

  ghost function StepMarks(h: Hasher, s: JourneyState, e: Event, k: Hash): nat {
    if e.Add? then Marks(h, s, e.nodes, k) else 0
  }

  ghost function StepEvictions(h: Hasher, s: JourneyState, e: Event, k: Hash): nat {
    if e.Add? then Evictions(h, s, e.nodes, k) else 0
  }

  ghost function MarksIn(h: Hasher, s: JourneyState, events: seq<Event>, k: Hash): nat {
    if events == [] then 0
    else
      var n := |events| - 1;
      MarksIn(h, s, events[..n], k) + StepMarks(h, After(h, s, events[..n]), events[n], k)
  }

  ghost function EvictionsIn(h: Hasher, s: JourneyState, events: seq<Event>, k: Hash): nat {
    if events == [] then 0
    else
      var n := |events| - 1;
      EvictionsIn(h, s, events[..n], k) + StepEvictions(h, After(h, s, events[..n]), events[n], k)
  }

  lemma StepBalance(h: Hasher, s: JourneyState, e: Event, handed: seq<Route>, k: Hash)
    requires TrailInv(h, s, handed)
    ensures Bit(k in Step(h, s, e).visited) + StepEvictions(h, s, e, k) == Bit(k in s.visited) + StepMarks(h, s, e, k)
  {
    if e.Add? { MarksBalance(h, s, e.nodes, handed, k); }
  }

  /** In every run a hash is marked if and only if nodes with it were new, when offered, once more
      than routes to them were evicted; otherwise the two happened equally often. */
  lemma {:induction false} MarkedIffOfferedOnceMore(h: Hasher, source: Id, destination: Id, iterations: int,
                                                    events: seq<Event>, k: Hash)
    requires Legal(h, NewJourney(source, destination, iterations), events)
    ensures var s := NewJourney(source, destination, iterations);
            MarksIn(h, s, events, k) == EvictionsIn(h, s, events, k) + Bit(k in After(h, s, events).visited)
  {
    if events != [] {
      var s := NewJourney(source, destination, iterations);
      var n := |events| - 1;
      LegalPrefix(h, s, events);
      MarkedIffOfferedOnceMore(h, source, destination, iterations, events[..n], k);
      RunTrail(h, source, destination, iterations, events[..n]);
      StepBalance(h, After(h, s, events[..n]), events[n], HandedOut(h, s, events[..n]), k);
    }
  }

  // ---------------------------------------------------------------- who becomes a route

  /** A new node becomes a route if and only if there is room or a route that is less close. */
  lemma BecomesRouteIff(h: Hasher, s: JourneyState, n: Node, handed: seq<Route>)
    requires TrailInv(h, s, handed) && Fresh(h, s, n)
    ensures var r := Route(n, PrefixLen(n.id, s.destination));
            r in AddNode(h, s, n).routes <==> |s.routes| < K || exists q :: q in s.routes && q.distance < r.distance
  {
    var r := RouteTo(s, n);
    var i := FirstWorse(s.routes, r.distance);
    RoutesAreMarked(h, s, handed);
    if |s.routes| >= K {
      if i < |s.routes| {
        assert s.routes[i] in s.routes;
        assert AddNode(h, s, n).routes[i] == r;
      } else {
        forall q | q in s.routes ensures q.distance >= r.distance {
          var j :| 0 <= j < |s.routes| && s.routes[j] == q;
          NoneWorseBefore(s.routes, r.distance, j);
        }
      }
    } else {
      assert AddNode(h, s, n).routes[|s.routes|] == r;
    }
  }

  /** An evicted node is new again. */
  lemma EvictedIsFresh(h: Hasher, s: JourneyState, n: Node, handed: seq<Route>, r: Route)
    requires TrailInv(h, s, handed) && r in s.routes && r !in AddNode(h, s, n).routes
    ensures Fresh(h, AddNode(h, s, n), r.node)
  {
    var k := h(r.node.id);
    AddNodeMarks(h, s, n, handed, k);
    RoutesAreMarked(h, s, handed);
    assert Evicts(h, s, AddNode(h, s, n), k);
  }

  /** No node with hash `k` is offered. */
  predicate NotOffered(h: Hasher, events: seq<Event>, k: Hash) {
    forall t | 0 <= t < |events| && events[t].Add? :: forall n | n in events[t].nodes :: h(n.id) != k
  }

  /** A new node stays new until a node with its hash is offered. */
  lemma {:induction false} StaysFresh(h: Hasher, s: JourneyState, events: seq<Event>, n: Node)
    requires Fresh(h, s, n) && NotOffered(h, events, h(n.id))
    ensures Fresh(h, After(h, s, events), n)
  {
    if events != [] {
      var m := |events| - 1;
      var t := After(h, s, events[..m]);
      StaysFresh(h, s, events[..m], n);
      if events[m].Add? {
        AddNodesFrame(h, t, events[m].nodes);
        if h(n.id) in AddNodes(h, t, events[m].nodes).visited {
          NewMarks(h, t, events[m].nodes, h(n.id));
          assert false;
        }
      }
    }
  }

  /** The run goes on with offering `n`, which evicts the route `r`, and then with `later`. */
  ghost predicate Evicting(h: Hasher, s: JourneyState, events: seq<Event>, n: Node, r: Route, later: seq<Event>) {
    && Legal(h, s, events + [Add([n])] + later)
    && r in After(h, s, events).routes && r !in AddNode(h, After(h, s, events), n).routes
  }

  lemma {:induction false} RunInParts(h: Hasher, s: JourneyState, a: seq<Event>, b: seq<Event>)
    ensures After(h, After(h, s, a), b) == After(h, s, a + b)
  {
    if b == [] {
      assert a + b == a;
    } else {
      RunInParts(h, s, a, b[..|b| - 1]);
      assert (a + b)[..|a + b| - 1] == a + b[..|b| - 1];
    }
  }

  lemma AddOne(h: Hasher, s: JourneyState, n: Node)
    ensures AddNodes(h, s, [n]) == AddNode(h, s, n)
    ensures After(h, s, [Add([n])]) == AddNode(h, s, n)
  {
    assert [n][..0] == [] && [Add([n])][..0] == [];
  }

  /** Parts of the run. */
  lemma EvictingParts(h: Hasher, s: JourneyState, events: seq<Event>, n: Node, r: Route, later: seq<Event>)
    requires Evicting(h, s, events, n, r, later)
    ensures Legal(h, s, events)
    ensures After(h, s, events + [Add([n])]) == AddNode(h, After(h, s, events), n)
    ensures After(h, s, events + [Add([n])] + later) == After(h, AddNode(h, After(h, s, events), n), later)
  {
    LegalUpTo(h, s, events + [Add([n])] + later, |events|);
    assert (events + [Add([n])] + later)[..|events|] == events;
    RunInParts(h, s, events, [Add([n])]);
    AddOne(h, After(h, s, events), n);
    RunInParts(h, s, events + [Add([n])], later);
  }

  /** In every run a node that was evicted, and then not offered, gets its second chance when it is
      offered again: it becomes a route if there is room or a route that is less close. */
  lemma EvictedCanReturn(h: Hasher, source: Id, destination: Id, iterations: int,
                         events: seq<Event>, n: Node, r: Route, later: seq<Event>)
    requires Evicting(h, NewJourney(source, destination, iterations), events, n, r, later)
    requires NotOffered(h, later, h(r.node.id))
    ensures var s := After(h, NewJourney(source, destination, iterations), events + [Add([n])] + later);
            r in AddNode(h, s, r.node).routes
            <==> |s.routes| < K || exists q :: q in s.routes && q.distance < r.distance
  {
    var s0, all := NewJourney(source, destination, iterations), events + [Add([n])] + later;
    var s, u := After(h, s0, events), After(h, s0, all);
    EvictingParts(h, s0, events, n, r, later);
    RunTrail(h, source, destination, iterations, events);
    EvictedIsFresh(h, s, n, HandedOut(h, s0, events), r);
    StaysFresh(h, AddNode(h, s, n), later, r.node);
    RoutesStayPaired(h, source, destination, iterations, events);
    SourceFixed(h, s0, all);
    assert r == Route(r.node, PrefixLen(r.node.id, u.destination));
    RunTrail(h, source, destination, iterations, all);
    BecomesRouteIff(h, u, r.node, HandedOut(h, s0, all));
  }

  // ---------------------------------------------------------------- rounds, values, completion

  /** The calls of `next` made while rounds and routes were left and the journey was not completed. */
  ghost function Rounds(h: Hasher, s: JourneyState, events: seq<Event>): nat {
    if events == [] then 0
    else
      var n := |events| - 1;
      var t := After(h, s, events[..n]);
      Rounds(h, s, events[..n])
      + Bit(events[n].Next? && t.remaining != 0 && |t.routes| > 0 && !t.completed)
  }

  /** Each such call uses up one of the iterations the journey was made with, and nothing else does. */
  lemma {:induction false} RoundsAreCounted(h: Hasher, source: Id, destination: Id, iterations: int, events: seq<Event>)
    ensures var s := NewJourney(source, destination, iterations);
            After(h, s, events).remaining == iterations - Rounds(h, s, events)
  {
    if events != [] {
      var s, n := NewJourney(source, destination, iterations), |events| - 1;
      RoundsAreCounted(h, source, destination, iterations, events[..n]);
      if events[n].Add? { AddNodesFrame(h, After(h, s, events[..n]), events[n].nodes); }
    }
  }

  lemma StepValues(h: Hasher, s: JourneyState, e: Event, k: Hash)
    ensures k in Step(h, s, e).values <==> k in s.values || (e.Seen? && h(e.value) == k)
  {
    if e.Add? { AddNodesFrame(h, s, e.nodes); }
  }

  /** A value is seen if and only if one with its hash was passed to `seen`. */
  lemma {:induction false} SeenIffShown(h: Hasher, source: Id, destination: Id, iterations: int,
                                        events: seq<Event>, k: Hash)
    ensures k in After(h, NewJourney(source, destination, iterations), events).values
            <==> exists t :: 0 <= t < |events| && events[t].Seen? && h(events[t].value) == k
  {
    if events != [] {
      var s, n := NewJourney(source, destination, iterations), |events| - 1;
      SeenIffShown(h, source, destination, iterations, events[..n], k);
      StepValues(h, After(h, s, events[..n]), events[n], k);
      assert forall t | 0 <= t < n :: events[..n][t] == events[t];
    }
  }

  /** `finish` is called with force, or when no reply and no announced value is missing. */
  ghost predicate ReadyAt(h: Hasher, s: JourneyState, events: seq<Event>, t: nat) {
    && t < |events| && events[t].Finish?
    && var u := After(h, s, events[..t]);
       events[t].force || (u.inflight <= 0 && SumValues(u.outstanding) <= 0)
  }

  /** A journey is completed if and only if `finish` was so called at some time. */
  lemma {:induction false} CompletedIffReady(h: Hasher, source: Id, destination: Id, iterations: int,
                                             events: seq<Event>)
    ensures var s := NewJourney(source, destination, iterations);
            After(h, s, events).completed <==> exists t :: ReadyAt(h, s, events, t)
  {
    if events != [] {
      var s, n := NewJourney(source, destination, iterations), |events| - 1;
      CompletedIffReady(h, source, destination, iterations, events[..n]);
      if events[n].Add? { AddNodesFrame(h, After(h, s, events[..n]), events[n].nodes); }
      forall t: nat | t < n ensures ReadyAt(h, s, events[..n], t) <==> ReadyAt(h, s, events, t) {
        assert events[..n][..t] == events[..t];
      }
      assert After(h, s, events).completed <==> After(h, s, events[..n]).completed || ReadyAt(h, s, events, n);
    }
  }

  // ---------------------------------------------------------------- what is outstanding

  /** The event changes or sets what is expected from the node with hash `k`. */
  predicate Concerns(h: Hasher, e: Event, k: Hash) {
    (e.AddOutstanding? || e.RemoveOutstanding?) && h(e.from) == k
  }

  /** What the first event that concerns `k` announces; a removal announces nothing. */
  function FirstAnnounced(h: Hasher, events: seq<Event>, k: Hash): int {
    if events == [] then 0
    else if Concerns(h, events[0], k) then (if events[0].AddOutstanding? then events[0].n else 0)
    else FirstAnnounced(h, events[1..], k)
  }

  function TotalRemoved(h: Hasher, events: seq<Event>, k: Hash): int {
    if events == [] then 0
    else
      var e := events[|events| - 1];
      TotalRemoved(h, events[..|events| - 1], k) + if Concerns(h, e, k) && e.RemoveOutstanding? then e.n else 0
  }

  predicate EverConcerned(h: Hasher, events: seq<Event>, k: Hash) {
    exists t :: 0 <= t < |events| && Concerns(h, events[t], k)
  }

  lemma {:induction false} FirstAnnouncedStep(h: Hasher, events: seq<Event>, k: Hash)
    requires events != []
    ensures var n := |events| - 1;
            && (EverConcerned(h, events, k) <==> EverConcerned(h, events[..n], k) || Concerns(h, events[n], k))
            && FirstAnnounced(h, events, k) == (if EverConcerned(h, events[..n], k) || !Concerns(h, events[n], k)
                                                then FirstAnnounced(h, events[..n], k)
                                                else if events[n].AddOutstanding? then events[n].n else 0)
  {
    var n := |events| - 1;
    assert forall t | 0 <= t < n :: events[..n][t] == events[t];
    if n > 0 {
      FirstAnnouncedStep(h, events[1..], k);
      assert events[1..][..n - 1] == events[..n][1..];
      var mid := events[..n][1..];
      assert EverConcerned(h, events[..n], k) <==> Concerns(h, events[0], k) || EverConcerned(h, mid, k) by {
        assert forall t | 0 <= t < |mid| :: mid[t] == events[..n][t + 1];
        assert forall t | 0 < t < n :: mid[t - 1] == events[..n][t];
      }
    }
  }

  lemma StepOutstanding(h: Hasher, s: JourneyState, e: Event, k: Hash)
    ensures var t := Step(h, s, e);
            var before := if k in s.outstanding then s.outstanding[k] else if e.AddOutstanding? then e.n else 0;
            var less := if Concerns(h, e, k) && e.RemoveOutstanding? then e.n else 0;
            && (k in t.outstanding <==> k in s.outstanding || Concerns(h, e, k))
            && (k in t.outstanding ==> t.outstanding[k] == before - less)
  {
    if e.Add? { AddNodesFrame(h, s, e.nodes); }
  }

  /** Over every run, what is expected from a node is what was announced first, unless a removal
      came before, less everything removed. */
  lemma {:induction false} OutstandingLedger(h: Hasher, source: Id, destination: Id, iterations: int,
                                             events: seq<Event>, k: Hash)
    ensures var s := After(h, NewJourney(source, destination, iterations), events);
            && (k in s.outstanding <==> EverConcerned(h, events, k))
            && (k in s.outstanding ==>
                  s.outstanding[k] == FirstAnnounced(h, events, k) - TotalRemoved(h, events, k))
  {
    if events != [] {
      var s, n := NewJourney(source, destination, iterations), |events| - 1;
      OutstandingLedger(h, source, destination, iterations, events[..n], k);
      FirstAnnouncedStep(h, events, k);
      if !EverConcerned(h, events[..n], k) { NothingRemoved(h, events[..n], k); }
      StepOutstanding(h, After(h, s, events[..n]), events[n], k);
    }
  }

  lemma {:induction false} NothingRemoved(h: Hasher, events: seq<Event>, k: Hash)
    requires !EverConcerned(h, events, k)
    ensures TotalRemoved(h, events, k) == 0 && FirstAnnounced(h, events, k) == 0
  {
    if events != [] {
      var n := |events| - 1;
      FirstAnnouncedStep(h, events, k);
      NothingRemoved(h, events[..n], k);
    }
  }
}
