/**
  Which nodes have to reply only once for `Find` to wait for all nodes it asks: all those it has
  asked and all those it may still ask. The runs that show this ask round after round until the
  node is asked, every round in answer to a different node, and then let it answer in batches.
 */
module FindWaits {
  import opened Ids
  import opened Options
  import opened Buckets
  import opened Packets
  import opened Journeys
  import opened JourneyRuns
  import opened FindReplies
  import opened FindCompletion
  import Journey

  /** Only the given nodes reply more than once. */
  ghost predicate OnlyRepeat(events: seq<FindReplies.Event>, repeaters: set<Id>) {
    forall i, j | 0 <= i < j < |events| && events[i].id == events[j].id :: events[i].id in repeaters
  }

  /** In every run the journey completes only when every node asked has replied. */
  ghost predicate WaitsForAll(h: Hasher, s: Lookup, handed: seq<Route>, repeaters: set<Id>) {
    forall events | Genuine(h, s, handed, events) && OnlyRepeat(events, repeaters) && Completes(h, s, events) ::
      Unanswered(h, s, handed, events) == {}
  }

  // ---------------------------------------------------------------- one more round

  /** The node names another one. */
  function NamesOne(id: Id, sorted: seq<Route>): FindReplies.Event {
    FindReplies.Event(id, Answer([], 0, [], [Some(Address([], 0))]), sorted)
  }

  lemma RoundStep(h: Hasher, t: Lookup, id: Id, sorted: seq<Route>)
    requires h(id) in t.journey.visited && !Exhausted(t.journey) && IsSorting(t.journey.routes, sorted)
    ensures var e, a := NamesOne(id, sorted), Min(FAN_OUT, |sorted|);
            var j := Handle(h, t, e.id, e.reply, e.sorted).journey;
            && SortsIfAsking(h, t, e) && Asked(h, t, e) == sorted[..a]
            && j.routes == sorted[a..] && j.remaining == t.journey.remaining - 1
            && !j.completed && j.outstanding == t.journey.outstanding
  {
    OfferedKnown(h, t, NamesOne(id, sorted));
  }

  /** Nobody has replied twice, nobody has sent values, two nodes have not replied, and there are
      rounds enough to ask all. */
  ghost predicate Waiting(h: Hasher, s: Lookup, handed: seq<Route>, events: seq<FindReplies.Event>) {
    var j := FindReplies.After(h, s, events).journey;
    && Genuine(h, s, handed, events) && OneReplyEach(events) && |Unanswered(h, s, handed, events)| >= 2
    && CanAskAll(j)
  }

  predicate CanAskAll(j: JourneyState) {
    j.outstanding == map[] && !j.completed && FAN_OUT * j.remaining >= |j.routes|
  }

  /** One more reply, by a node that has not replied. */
  lemma GenuineSnoc(h: Hasher, s: Lookup, handed: seq<Route>, events: seq<FindReplies.Event>, e: FindReplies.Event)
    requires Genuine(h, s, handed, events) && SortsIfAsking(h, FindReplies.After(h, s, events), e)
    requires e.id in NodeIds(Sent(h, s, handed, events))
    ensures Genuine(h, s, handed, events + [e])
    ensures FindReplies.After(h, s, events + [e]) ==
            Handle(h, FindReplies.After(h, s, events), e.id, e.reply, e.sorted)
    ensures Sent(h, s, handed, events + [e]) ==
            Sent(h, s, handed, events) + Asked(h, FindReplies.After(h, s, events), e)
  {
    assert (events + [e])[..|events|] == events;
    NodeIsHanded(Sent(h, s, handed, events), e.id);
    SentStep(h, s, handed, events + [e]);
  }

  lemma NodeIsHanded(sent: seq<Route>, id: Id)
    requires id in NodeIds(sent)
    ensures FromHanded(sent, id)
  {
  }

  lemma OneReplyEachSnoc(events: seq<FindReplies.Event>, e: FindReplies.Event)
    requires OneReplyEach(events) && e.id !in Repliers(events)
    ensures OneReplyEach(events + [e])
  {
    assert forall i | 0 <= i < |events| :: events[i] in events;
  }

  /** A round handed out in answer to a node that had not replied. */
  lemma OneRound(h: Hasher, s: Lookup, handed: seq<Route>, events: seq<FindReplies.Event>)
    returns (e: FindReplies.Event)
    requires Started(h, s, handed) && Waiting(h, s, handed, events)
    requires FindReplies.After(h, s, events).journey.routes != []
    ensures Waiting(h, s, handed, events + [e]) && e.id in NodeIds(Sent(h, s, handed, events))
    ensures var routes, rest := FindReplies.After(h, s, events).journey.routes,
                                FindReplies.After(h, s, events + [e]).journey.routes;
            && |rest| < |routes|
            && NodeIds(routes) <= NodeIds(Sent(h, s, handed, events + [e])) + NodeIds(rest)
  {
    var t := FindReplies.After(h, s, events);
    var sorted := Journey.SomeSorting(t.journey.routes);
    var id :| id in Unanswered(h, s, handed, events);
    e := NamesOne(id, sorted);
    LookupNeverLearns(h, s, handed, events);
    NodeIsHanded(Sent(h, s, handed, events), id);
    HandedIsMarked(h, t.journey, Sent(h, s, handed, events), id);
    RoundStep(h, t, id, sorted);
    GenuineSnoc(h, s, handed, events, e);
    OneReplyEachSnoc(events, e);
    RoundUnanswered(h, s, handed, events, e, Sent(h, s, handed, events), sorted[..Min(FAN_OUT, |sorted|)]);
    SortedNodes(t.journey.routes, sorted, Min(FAN_OUT, |sorted|), Sent(h, s, handed, events));
  }

  /** The node that replied is replaced by at least one that is asked. */
  lemma RoundUnanswered(h: Hasher, s: Lookup, handed: seq<Route>, events: seq<FindReplies.Event>, e: FindReplies.Event,
                        sent: seq<Route>, more: seq<Route>)
    requires Started(h, s, handed) && Genuine(h, s, handed, events) && Genuine(h, s, handed, events + [e])
    requires sent == Sent(h, s, handed, events) && sent + more == Sent(h, s, handed, events + [e]) && more != []
    requires e.id in Unanswered(h, s, handed, events)
    ensures |Unanswered(h, s, handed, events + [e])| >= |Unanswered(h, s, handed, events)|
  {
    UnansweredLaw(h, s, handed, events);
    SentDistinct(h, s, handed, events + [e]);
    RepliersSnoc(events, e);
    RoundCount(sent, more, Repliers(events), e.id);
  }

  lemma RepliersSnoc(events: seq<FindReplies.Event>, e: FindReplies.Event)
    ensures Repliers(events + [e]) == Repliers(events) + {e.id}
  {
    assert (events + [e])[..|events|] == events;
    RepliersStep(events + [e]);
  }

  lemma RoundCount(sent: seq<Route>, more: seq<Route>, repliers: set<Id>, id: Id)
    requires DistinctNodes(sent + more) && more != [] && repliers <= NodeIds(sent) && id in NodeIds(sent) - repliers
    ensures |NodeIds(sent + more) - (repliers + {id})| >= |NodeIds(sent) - repliers|
  {
    NodeIdsAppend(sent, more);
    UnansweredStep(NodeIds(sent), NodeIds(more), repliers, id);
  }

  /** Sorting and handing out the first ones loses no node. */
  lemma SortedNodes(routes: seq<Route>, sorted: seq<Route>, a: nat, sent: seq<Route>)
    requires IsSorting(routes, sorted) && a <= |sorted|
    ensures NodeIds(routes) <= NodeIds(sent + sorted[..a]) + NodeIds(sorted[a..])
  {
    forall r | r in routes ensures r in sent + sorted[..a] || r in sorted[a..] {
      assert r in multiset(routes) && r in multiset(sorted);
      assert sorted == sorted[..a] + sorted[a..];
    }
  }

  // ---------------------------------------------------------------- until a node is asked

  /** Rounds are handed out until the node, which is asked or may be asked, has been asked; it has
      not replied yet. */
  lemma {:induction false} AskUntil(h: Hasher, s: Lookup, handed: seq<Route>, events: seq<FindReplies.Event>, id: Id)
    returns (events': seq<FindReplies.Event>)
    requires Started(h, s, handed) && Waiting(h, s, handed, events) && id !in Repliers(events)
    requires id in NodeIds(Sent(h, s, handed, events)) + NodeIds(FindReplies.After(h, s, events).journey.routes)
    ensures Waiting(h, s, handed, events') && id in Unanswered(h, s, handed, events')
    decreases |FindReplies.After(h, s, events).journey.routes|
  {
    if id in NodeIds(Sent(h, s, handed, events)) {
      events' := events;
    } else {
      var e := OneRound(h, s, handed, events);
      RepliersSnoc(events, e);
      events' := AskUntil(h, s, handed, events + [e], id);
    }
  }

  // ---------------------------------------------------------------- then it answers in batches

  lemma {:induction false} AfterAppend(h: Hasher, s: Lookup, a: seq<FindReplies.Event>, b: seq<FindReplies.Event>)
    ensures FindReplies.After(h, s, a + b) == FindReplies.After(h, FindReplies.After(h, s, a), b)
  {
    if b == [] {
      assert a + b == a;
    } else {
      var n := |b| - 1;
      AfterAppend(h, s, a, b[..n]);
      assert (a + b)[..|a| + n] == a + b[..n];
    }
  }

  ghost predicate SendsValues(e: FindReplies.Event, id: Id) {
    e.id == id && e.reply.Answer? && e.reply.values != []
  }

  /** Replies with values ask nobody. */
  lemma {:induction false} ValuesAskNobody(h: Hasher, s: Lookup, handed: seq<Route>, events: seq<FindReplies.Event>,
                                           k: nat, id: Id)
    requires k <= |events| && Genuine(h, s, handed, events[..k]) && id in NodeIds(Sent(h, s, handed, events[..k]))
    requires forall i | k <= i < |events| :: SendsValues(events[i], id)
    ensures Genuine(h, s, handed, events) && Sent(h, s, handed, events) == Sent(h, s, handed, events[..k])
  {
    if k == |events| {
      assert events[..k] == events;
    } else {
      var n := |events| - 1;
      assert events[..n][..k] == events[..k];
      ValuesAskNobody(h, s, handed, events[..n], k, id);
      ValuesLast(h, s, handed, events, id);
    }
  }

  lemma ValuesLast(h: Hasher, s: Lookup, handed: seq<Route>, events: seq<FindReplies.Event>, id: Id)
    requires events != [] && Genuine(h, s, handed, events[..|events| - 1]) && SendsValues(events[|events| - 1], id)
    requires id in NodeIds(Sent(h, s, handed, events[..|events| - 1]))
    ensures Genuine(h, s, handed, events)
    ensures Sent(h, s, handed, events) == Sent(h, s, handed, events[..|events| - 1])
  {
    var n := |events| - 1;
    NodeIsHanded(Sent(h, s, handed, events[..n]), id);
    SentStep(h, s, handed, events);
    assert !AsksMore(h, FindReplies.After(h, s, events[..n]), events[n]);
  }

  lemma RepliersAppend(a: seq<FindReplies.Event>, b: seq<FindReplies.Event>, id: Id)
    requires b != [] && forall i | 0 <= i < |b| :: b[i].id == id
    ensures Repliers(a + b) == Repliers(a) + {id}
  {
    OneReplier(b, id);
    assert Repliers(a + b) == Repliers(a) + Repliers(b);
  }

  lemma OnlyOneRepeats(a: seq<FindReplies.Event>, b: seq<FindReplies.Event>, id: Id, repeaters: set<Id>)
    requires OneReplyEach(a) && id in repeaters && forall i | 0 <= i < |b| :: b[i].id == id
    ensures OnlyRepeat(a + b, repeaters)
  {
  }

  /** From where a node has been asked and not replied, its batches complete the journey. */
  lemma BatchesComplete(h: Hasher, s: Lookup, handed: seq<Route>, a: seq<FindReplies.Event>, id: Id)
    returns (b: seq<FindReplies.Event>)
    requires Started(h, s, handed) && Waiting(h, s, handed, a) && id in Unanswered(h, s, handed, a)
    ensures Genuine(h, s, handed, a + b) && Completes(h, s, a + b)
    ensures b != [] && forall i | 0 <= i < |b| :: b[i].id == id
    ensures Sent(h, s, handed, a + b) == Sent(h, s, handed, a)
  {
    var n := WaitingInflight(h, s, handed, a);
    b := InBatches(id, [], seq(n, _ => []));
    BatchesGenuine(h, s, handed, a, b, id);
    CompletesAfter(h, s, a, b, n);
  }

  lemma BatchesGenuine(h: Hasher, s: Lookup, handed: seq<Route>, a: seq<FindReplies.Event>,
                       b: seq<FindReplies.Event>, id: Id)
    requires Genuine(h, s, handed, a) && id in NodeIds(Sent(h, s, handed, a))
    requires forall i | 0 <= i < |b| :: SendsValues(b[i], id)
    ensures Genuine(h, s, handed, a + b) && Sent(h, s, handed, a + b) == Sent(h, s, handed, a)
  {
    assert (a + b)[..|a|] == a;
    ValuesAskNobody(h, s, handed, a + b, |a|, id);
  }

  lemma WaitingInflight(h: Hasher, s: Lookup, handed: seq<Route>, a: seq<FindReplies.Event>) returns (n: nat)
    requires Started(h, s, handed) && Waiting(h, s, handed, a)
    ensures n >= 2 && AfterBatches(FindReplies.After(h, s, a).journey, h([]), n, 0)
  {
    UnansweredLaw(h, s, handed, a);
    OneReplyEachCounts(h, s, handed, a);
    n := FindReplies.After(h, s, a).journey.inflight;
  }

  lemma CompletesAfter(h: Hasher, s: Lookup, a: seq<FindReplies.Event>, b: seq<FindReplies.Event>, n: nat)
    requires AfterBatches(FindReplies.After(h, s, a).journey, h([]), n, 0) && |b| == n > 0
    requires forall i | 0 <= i < n :: IsBatch(b[i], [], n)
    ensures Completes(h, s, a + b)
  {
    var t := FindReplies.After(h, s, a);
    BatchesCount(h, t, [], b, n);
    BatchesCount(h, t, [], b[..n - 1], n);
    AfterAppend(h, s, a, b);
    AfterAppend(h, s, a, b[..n - 1]);
    assert (a + b)[..|a + b| - 1] == a + b[..n - 1];
  }

  /** So a node that may reply more than once can complete the journey while another has not replied. */
  lemma RepeaterRun(h: Hasher, s: Lookup, handed: seq<Route>, id: Id) returns (events: seq<FindReplies.Event>)
    requires Started(h, s, handed) && |handed| >= 2 && CanAskAll(s.journey)
    requires id in NodeIds(handed) + NodeIds(s.journey.routes)
    ensures Genuine(h, s, handed, events) && Completes(h, s, events) && Unanswered(h, s, handed, events) != {}
    ensures OnlyRepeat(events, {id})
  {
    NothingYet(h, s, handed);
    var a := AskUntil(h, s, handed, [], id);
    var b := BatchesComplete(h, s, handed, a, id);
    events := a + b;
    RepliersAppend(a, b, id);
    OnlyOneRepeats(a, b, id, {id});
    OneIsLeft(NodeIds(Sent(h, s, handed, a)), Repliers(a), id);
  }

  lemma RepeaterBreaks(h: Hasher, s: Lookup, handed: seq<Route>, id: Id, repeaters: set<Id>)
    requires Started(h, s, handed) && |handed| >= 2 && CanAskAll(s.journey)
    requires id in repeaters && id in NodeIds(handed) + NodeIds(s.journey.routes)
    ensures !WaitsForAll(h, s, handed, repeaters)
  {
    var events := RepeaterRun(h, s, handed, id);
    assert OnlyRepeat(events, repeaters);
  }

  lemma OneIsLeft(sent: set<Id>, repliers: set<Id>, id: Id)
    requires |sent - repliers| >= 2
    ensures sent - (repliers + {id}) != {}
  {
    var left := sent - repliers;
    assert |left - {id}| >= 1;
    assert sent - (repliers + {id}) == left - {id};
  }

  lemma NothingYet(h: Hasher, s: Lookup, handed: seq<Route>)
    requires Started(h, s, handed) && |handed| >= 2 && CanAskAll(s.journey)
    ensures Waiting(h, s, handed, []) && Sent(h, s, handed, []) == handed && Repliers([]) == {}
  {
    TrailDistinct(h, s.journey, handed);
    NodeIdsCount(handed);
    assert Sent(h, s, handed, []) == handed;
    assert Unanswered(h, s, handed, []) == NodeIds(handed);
  }

  // ---------------------------------------------------------------- the exact condition

  /** Whoever replies was among the nodes the lookup started with. */
  lemma {:induction false} RepliersAreKnown(h: Hasher, s: Lookup, handed: seq<Route>, events: seq<FindReplies.Event>)
    requires Started(h, s, handed) && Genuine(h, s, handed, events)
    ensures Repliers(events) <= NodeIds(handed) + NodeIds(s.journey.routes)
  {
    UnansweredLaw(h, s, handed, events);
    LookupNeverLearns(h, s, handed, events);
    SentAreKnown(handed, s.journey.routes, Sent(h, s, handed, events), FindReplies.After(h, s, events).journey.routes);
  }

  lemma SentAreKnown(handed: seq<Route>, routes: seq<Route>, sent: seq<Route>, left: seq<Route>)
    requires multiset(sent) + multiset(left) == multiset(handed) + multiset(routes)
    ensures NodeIds(sent) <= NodeIds(handed) + NodeIds(routes)
  {
    forall r | r in sent ensures r in handed || r in routes {
      assert r in multiset(sent) + multiset(left);
    }
  }

  /** A lookup that has asked two or more nodes, and has rounds enough to ask all others, waits for
      all of them in every run if and only if none that is asked or may be asked may reply more
      than once. With one node asked and no other known it always waits. */
  lemma WaitsForAllIff(h: Hasher, s: Lookup, handed: seq<Route>, repeaters: set<Id>)
    requires Started(h, s, handed) && CanAskAll(s.journey)
    requires |handed| >= 2 || s.journey.routes == []
    ensures WaitsForAll(h, s, handed, repeaters)
            <==> |handed| < 2 || repeaters !! NodeIds(handed) + NodeIds(s.journey.routes)
  {
    if |handed| < 2 {
      LoneNode(h, s, handed, repeaters);
    } else if id :| id in repeaters && id in NodeIds(handed) + NodeIds(s.journey.routes) {
      RepeaterBreaks(h, s, handed, id, repeaters);
    } else {
      forall events: seq<FindReplies.Event> | Genuine(h, s, handed, events) && OnlyRepeat(events, repeaters)
                                              && Completes(h, s, events)
        ensures Unanswered(h, s, handed, events) == {}
      {
        RepliersAreKnown(h, s, handed, events);
        assert forall i | 0 <= i < |events| :: events[i] in events && events[i].id in Repliers(events);
        CompletesOnlyWhenAnswered(h, s, handed, events);
      }
    }
  }

  lemma LoneNode(h: Hasher, s: Lookup, handed: seq<Route>, repeaters: set<Id>)
    requires Started(h, s, handed) && |handed| < 2 && s.journey.routes == []
    ensures WaitsForAll(h, s, handed, repeaters)
  {
    forall events: seq<FindReplies.Event> | Genuine(h, s, handed, events) && Completes(h, s, events)
      ensures Unanswered(h, s, handed, events) == {}
    {
      UnansweredLaw(h, s, handed, events);
      LoneSent(h, s, handed, events);
      assert events[0] in events && events[0].id in Repliers(events);
      LoneReplied(handed, NodeIds(Sent(h, s, handed, events)), Repliers(events), events[0].id);
    }
  }

  lemma LoneSent(h: Hasher, s: Lookup, handed: seq<Route>, events: seq<FindReplies.Event>)
    requires Started(h, s, handed) && s.journey.routes == [] && Genuine(h, s, handed, events)
    ensures NodeIds(Sent(h, s, handed, events)) <= NodeIds(handed)
  {
    LookupNeverLearns(h, s, handed, events);
    SentAreKnown(handed, [], Sent(h, s, handed, events), FindReplies.After(h, s, events).journey.routes);
  }

  lemma LoneReplied(handed: seq<Route>, sent: set<Id>, repliers: set<Id>, id: Id)
    requires |handed| < 2 && sent <= NodeIds(handed) && id in repliers && repliers <= sent
    ensures sent - repliers == {}
  {
  }

  /** `Find` starts so: with the nodes it knows added to a journey of K rounds, and the first round
      handed out. */
  lemma FindStartsSo(h: Hasher, local: Id, key: Id, ns: seq<Node>, sorted: seq<Route>)
    requires IsSorting(AddNodes(h, NewJourney(local, key, K), ns).routes, sorted)
    ensures var j := AddNodes(h, NewJourney(local, key, K), ns);
            var s, handed := Lookup(NextState(j, FAN_OUT, sorted), []), Handed(j, FAN_OUT, sorted);
            && Started(h, s, handed) && CanAskAll(s.journey)
            && (|handed| >= 2 || s.journey.routes == [])
  {
    var s := NewJourney(local, key, K);
    AddNodesTrail(h, s, ns, []);
    AddNodesFrame(h, s, ns);
    var j := AddNodes(h, s, ns);
    NextTrail(h, j, FAN_OUT, sorted, []);
    assert [] + Handed(j, FAN_OUT, sorted) == Handed(j, FAN_OUT, sorted);
  }
}
