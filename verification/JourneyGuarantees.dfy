/**
  What a caller of a journey can rely on: the best route is not lost, replies are counted
  exactly, completion happens once.
 */
module JourneyGuarantees {
  import opened Ids
  import opened Buckets
  import opened Packets
  import opened Journeys
  import opened JourneyRuns

  // ---------------------------------------------------------------- adding never loses the best

  /** Some live route is at least as close as `d`. */
  ghost predicate Reaches(s: JourneyState, d: int) {
    exists i :: 0 <= i < |s.routes| && s.routes[i].distance >= d
  }

  lemma AddNodeReaches(h: Hasher, s: JourneyState, n: Node, d: int)
    requires Reaches(s, d)
    ensures Reaches(AddNode(h, s, n), d)
  {
    var s' := AddNode(h, s, n);
    var i :| 0 <= i < |s.routes| && s.routes[i].distance >= d;
    assert s'.routes[i].distance >= s.routes[i].distance;
  }

  /** A node that is not skipped is at most as close as the best route afterwards. */
  lemma AddNodeNew(h: Hasher, s: JourneyState, n: Node)
    requires n.id != s.source && h(n.id) !in s.visited
    ensures Reaches(AddNode(h, s, n), PrefixLen(n.id, s.destination))
  {
    var s', r := AddNode(h, s, n), RouteTo(s, n);
    if |s.routes| < K {
      assert s'.routes[|s.routes|] == r;
    } else {
      var i := FirstWorse(s.routes, r.distance);
      if i < |s.routes| {
        assert s'.routes[i] == r;
      } else {
        NoneWorseBefore(s.routes, r.distance, 0);
        assert s'.routes[0].distance >= r.distance;
      }
    }
  }

  lemma {:induction false} AddNodesReaches(h: Hasher, s: JourneyState, ns: seq<Node>, d: int)
    requires Reaches(s, d)
    ensures Reaches(AddNodes(h, s, ns), d)
  {
    if ns != [] {
      AddNodesReaches(h, s, ns[..|ns| - 1], d);
      AddNodeReaches(h, AddNodes(h, s, ns[..|ns| - 1]), ns[|ns| - 1], d);
    }
  }

  /** Only the offered nodes are newly marked. */
  lemma {:induction false} NewMarks(h: Hasher, s: JourneyState, ns: seq<Node>, k: Hash)
    requires k in AddNodes(h, s, ns).visited
    ensures k in s.visited || exists i :: 0 <= i < |ns| && ns[i].id != s.source && h(ns[i].id) == k
  {
    if ns != [] {
      var n := |ns| - 1;
      var t := AddNodes(h, s, ns[..n]);
      AddNodesFrame(h, s, ns[..n]);
      if k in t.visited {
        NewMarks(h, s, ns[..n], k);
        if k !in s.visited {
          var i :| 0 <= i < n && ns[..n][i].id != s.source && h(ns[..n][i].id) == k;
          assert ns[i].id != s.source && h(ns[i].id) == k;
        }
      } else {
        assert ns[n].id != s.source && h(ns[n].id) == k;
      }
    }
  }

  /** A different id offered earlier has the same hash. */
  ghost predicate Collides(h: Hasher, ns: seq<Node>, i: nat)
    requires i < |ns|
  {
    exists j :: 0 <= j < i && ns[j].id != ns[i].id && h(ns[j].id) == h(ns[i].id)
  }

  /** After any sequence of additions the best live route is at least as close as every offered
      node that was not marked before; only a hash collision with a node offered earlier in the
      same sequence can make `add` skip it. */
  lemma {:induction false} BestNeverLost(h: Hasher, s: JourneyState, ns: seq<Node>, i: nat)
    requires i < |ns| && ns[i].id != s.source && h(ns[i].id) !in s.visited
    ensures Reaches(AddNodes(h, s, ns), PrefixLen(ns[i].id, s.destination)) || Collides(h, ns, i)
    decreases |ns|, i
  {
    var n := |ns| - 1;
    var rest := ns[..n];
    var t := AddNodes(h, s, rest);
    AddNodesFrame(h, s, rest);
    if i < n {
      BestNeverLost(h, s, rest, i);
      if Collides(h, rest, i) {
        var j :| 0 <= j < i && rest[j].id != rest[i].id && h(rest[j].id) == h(rest[i].id);
        assert ns[j].id != ns[i].id && h(ns[j].id) == h(ns[i].id);
      } else {
        AddNodeReaches(h, t, ns[n], PrefixLen(ns[i].id, s.destination));
      }
    } else if h(ns[n].id) !in t.visited {
      AddNodeNew(h, t, ns[n]);
    } else {
      NewMarks(h, s, rest, h(ns[n].id));
      var j :| 0 <= j < |rest| && rest[j].id != s.source && h(rest[j].id) == h(ns[n].id);
      assert h(ns[j].id) == h(ns[n].id);
      if ns[j].id == ns[n].id { BestNeverLost(h, s, ns, j); }
    }
  }

  /** Several calls of `add` are one call with all their nodes, so this covers any sequence of them. */
  lemma {:induction false} AddInParts(h: Hasher, s: JourneyState, a: seq<Node>, b: seq<Node>)
    ensures AddNodes(h, AddNodes(h, s, a), b) == AddNodes(h, s, a + b)
  {
    if b == [] {
      assert a + b == a;
    } else {
      AddInParts(h, s, a, b[..|b| - 1]);
      assert (a + b)[..|a + b| - 1] == a + b[..|b| - 1];
    }
  }

  /** While the list is full no slot gets worse. */
  lemma {:induction false} SlotsNeverWorsen(h: Hasher, s: JourneyState, ns: seq<Node>, i: nat)
    requires |s.routes| == K && i < K
    ensures |AddNodes(h, s, ns).routes| == K
    ensures AddNodes(h, s, ns).routes[i].distance >= s.routes[i].distance
  {
    if ns != [] { SlotsNeverWorsen(h, s, ns[..|ns| - 1], i); }
  }

  // ---------------------------------------------------------------- replies

  function Replies(events: seq<Event>): nat {
    if events == [] then 0
    else Replies(events[..|events| - 1]) + if events[|events| - 1].Response? then 1 else 0
  }

  /** At no time up to `t` have there been more replies than requests. */
  ghost predicate NoSurplusReplies(h: Hasher, s: JourneyState, events: seq<Event>, t: nat)
    requires t <= |events|
  {
    forall u | 0 <= u <= t :: Replies(events[..u]) <= |HandedOut(h, s, events[..u])|
  }

  ghost predicate InflightExact(h: Hasher, s: JourneyState, events: seq<Event>, t: nat)
    requires t <= |events|
  {
    After(h, s, events[..t]).inflight == |HandedOut(h, s, events[..t])| - Replies(events[..t])
  }

  lemma StepInflight(h: Hasher, s: JourneyState, e: Event)
    requires e.Next? ==> IsSorting(s.routes, e.sorted)
    ensures Step(h, s, e).inflight ==
            s.inflight + |Out(s, e)| - if e.Response? && s.inflight > 0 then 1 else 0
  {
    if e.Add? { AddNodesFrame(h, s, e.nodes); }
  }

  lemma {:induction false} InflightNonNegative(h: Hasher, s: JourneyState, events: seq<Event>)
    requires Legal(h, s, events) && s.inflight >= 0
    ensures After(h, s, events).inflight >= 0
  {
    if events != [] {
      LegalPrefix(h, s, events);
      InflightNonNegative(h, s, events[..|events| - 1]);
      StepInflight(h, After(h, s, events[..|events| - 1]), events[|events| - 1]);
    }
  }

  lemma {:induction false} LegalUpTo(h: Hasher, s: JourneyState, events: seq<Event>, t: nat)
    requires Legal(h, s, events) && t <= |events|
    ensures Legal(h, s, events[..t])
  {
    forall u | 0 <= u < t && events[..t][u].Next?
      ensures IsSorting(After(h, s, events[..t][..u]).routes, events[..t][u].sorted)
    {
      assert events[..t][..u] == events[..u];
    }
  }

  lemma {:induction false} RepliesCounted(h: Hasher, s: JourneyState, events: seq<Event>, t: nat)
    requires Legal(h, s, events) && s.inflight == 0 && t <= |events|
    requires NoSurplusReplies(h, s, events, t)
    ensures InflightExact(h, s, events, t)
  {
    if t > 0 {
      RepliesCounted(h, s, events, t - 1);
      LegalUpTo(h, s, events, t);
      LegalPrefix(h, s, events[..t]);
      assert events[..t][..t - 1] == events[..t - 1];
      StepInflight(h, After(h, s, events[..t - 1]), events[t - 1]);
      assert Replies(events[..t]) <= |HandedOut(h, s, events[..t])|;
    }
  }

  /** `inflight` is exactly the number of unanswered requests in every state of a run if and
      only if at no time there have been more replies than requests. */
  lemma InflightExactIff(h: Hasher, s: JourneyState, events: seq<Event>)
    requires Legal(h, s, events) && s.inflight == 0
    ensures (forall t | 0 <= t <= |events| :: InflightExact(h, s, events, t))
            <==> NoSurplusReplies(h, s, events, |events|)
  {
    if NoSurplusReplies(h, s, events, |events|) {
      forall t | 0 <= t <= |events| ensures InflightExact(h, s, events, t) {
        RepliesCounted(h, s, events, t);
      }
    }
    if forall t | 0 <= t <= |events| :: InflightExact(h, s, events, t) {
      forall u | 0 <= u <= |events| ensures Replies(events[..u]) <= |HandedOut(h, s, events[..u])| {
        assert InflightExact(h, s, events, u);
        LegalUpTo(h, s, events, u);
        InflightNonNegative(h, s, events[..u]);
      }
    }
  }

  // ---------------------------------------------------------------- completion

  /** The call of `finish` at time `t` returns true. */
  ghost predicate FinishedAt(h: Hasher, s: JourneyState, events: seq<Event>, t: nat) {
    t < |events| && events[t].Finish? && CanFinish(After(h, s, events[..t]), events[t].force)
  }

  lemma {:induction false} CompletedForever(h: Hasher, s: JourneyState, events: seq<Event>, t: nat, u: nat)
    requires FinishedAt(h, s, events, t) && t < u <= |events|
    ensures After(h, s, events[..u]).completed
  {
    assert events[..u][..u - 1] == events[..u - 1];
    if t < u - 1 {
      CompletedForever(h, s, events, t, u - 1);
      var x := After(h, s, events[..u - 1]);
      if events[u - 1].Add? { AddNodesFrame(h, x, events[u - 1].nodes); }
    }
  }

  /** `finish` returns true at most once in a run, and nothing is handed out after it has. */
  lemma FinishesOnce(h: Hasher, s: JourneyState, events: seq<Event>, t: nat, u: nat)
    requires FinishedAt(h, s, events, t) && t < u < |events|
    ensures !FinishedAt(h, s, events, u)
    ensures Out(After(h, s, events[..u]), events[u]) == []
    ensures events[u].Next? ==> Exhausted(After(h, s, events[..u]))
  {
    CompletedForever(h, s, events, t, u);
  }

  /** Every reply comes from a node that was asked before, and no node replies twice. */
  ghost predicate AtMostOneReplyEach(h: Hasher, s: JourneyState, events: seq<Event>) {
    && (forall u | 0 <= u < |events| && events[u].Response? :: events[u].request < |HandedOut(h, s, events[..u])|)
    && (forall u, v | 0 <= u < v < |events| && events[u].Response? && events[v].Response? ::
          events[u].request != events[v].request)
  }

  /** The requests answered. */
  ghost function Answered(events: seq<Event>): set<nat> {
    set u | 0 <= u < |events| && events[u].Response? :: events[u].request
  }

  lemma {:induction false} HandedOutGrows(h: Hasher, s: JourneyState, events: seq<Event>, u: nat)
    requires u <= |events|
    ensures |HandedOut(h, s, events[..u])| <= |HandedOut(h, s, events)|
    decreases |events|
  {
    if u < |events| {
      var n := |events| - 1;
      HandedOutGrows(h, s, events[..n], u);
      assert events[..n][..u] == events[..u];
    } else {
      assert events[..u] == events;
    }
  }

  lemma OneReplyEachPrefix(h: Hasher, s: JourneyState, events: seq<Event>, n: nat)
    requires AtMostOneReplyEach(h, s, events) && n <= |events|
    ensures AtMostOneReplyEach(h, s, events[..n])
  {
    forall u | 0 <= u < n && events[u].Response?
      ensures events[..n][u].request < |HandedOut(h, s, events[..n][..u])|
    {
      assert events[..n][..u] == events[..u];
    }
  }

  /** With one reply each, the replies are as many as the requests answered, all of them made. */
  lemma {:induction false} AnsweredCount(h: Hasher, s: JourneyState, events: seq<Event>)
    requires AtMostOneReplyEach(h, s, events)
    ensures |Answered(events)| == Replies(events)
    ensures forall i | i in Answered(events) :: i < |HandedOut(h, s, events)|
  {
    if events != [] {
      var n := |events| - 1;
      OneReplyEachPrefix(h, s, events, n);
      AnsweredCount(h, s, events[..n]);
      HandedOutGrows(h, s, events, n);
      AnsweredStep(events);
    }
  }

  lemma AnsweredStep(events: seq<Event>)
    requires events != []
    ensures var n := |events| - 1;
            Answered(events) == Answered(events[..n]) + if events[n].Response? then {events[n].request} else {}
  {
    var n := |events| - 1;
    forall i | i in Answered(events[..n]) ensures i in Answered(events) {
      var u :| 0 <= u < n && events[..n][u].Response? && events[..n][u].request == i;
      assert events[u].Response? && events[u].request == i;
    }
  }

  /** Requests below `n` that are all answered when the answers are as many. */
  lemma {:induction false} FullRange(answered: set<nat>, n: nat)
    requires forall i | i in answered :: i < n
    ensures |answered| <= n
    ensures |answered| == n ==> forall i | 0 <= i < n :: i in answered
  {
    if n == 0 {
      assert answered == {};
    } else {
      FullRange(answered - {n - 1}, n - 1);
    }
  }

  lemma OneReplyEachIsNoSurplus(h: Hasher, s: JourneyState, events: seq<Event>)
    requires AtMostOneReplyEach(h, s, events)
    ensures NoSurplusReplies(h, s, events, |events|)
  {
    forall u | 0 <= u <= |events| ensures Replies(events[..u]) <= |HandedOut(h, s, events[..u])| {
      OneReplyEachPrefix(h, s, events, u);
      AnsweredCount(h, s, events[..u]);
      FullRange(Answered(events[..u]), |HandedOut(h, s, events[..u])|);
    }
  }

  /** When no node replies twice, an unforced `finish` succeeds only after every node handed out
      has replied. */
  lemma FinishOnlyWhenAnswered(h: Hasher, s: JourneyState, events: seq<Event>, t: nat)
    requires Legal(h, s, events) && s.inflight == 0 && AtMostOneReplyEach(h, s, events)
    requires FinishedAt(h, s, events, t) && !events[t].force
    ensures forall i | 0 <= i < |HandedOut(h, s, events[..t])| :: i in Answered(events[..t])
  {
    OneReplyEachIsNoSurplus(h, s, events);
    RepliesCounted(h, s, events, t);
    OneReplyEachPrefix(h, s, events, t);
    AnsweredCount(h, s, events[..t]);
    FullRange(Answered(events[..t]), |HandedOut(h, s, events[..t])|);
  }
}
