/**
  When `Find` ends. Every reply counts one request as answered, also the further batches of an
  answer in several parts, so a journey can complete while nodes that were asked have not replied.
  It is shown by how much the count of requests in flight is off, and when completion means that
  every node asked has replied.
 */
module FindCompletion {
  import opened Ids
  import opened Options
  import opened Packets
  import opened Journeys
  import opened JourneyRuns
  import opened FindReplies

  /** The nodes asked up to now: those of the first round and of the rounds since. */
  ghost function Sent(h: Hasher, s: Lookup, handed: seq<Route>, events: seq<FindReplies.Event>): seq<Route> {
    handed + AskedIn(h, s, events)
  }

  ghost function NodeIds(routes: seq<Route>): set<Id> {
    set r | r in routes :: r.node.id
  }

  ghost function Repliers(events: seq<FindReplies.Event>): set<Id> {
    set e | e in events :: e.id
  }

  /** The nodes asked that have not replied. */
  ghost function Unanswered(h: Hasher, s: Lookup, handed: seq<Route>, events: seq<FindReplies.Event>): set<Id> {
    NodeIds(Sent(h, s, handed, events)) - Repliers(events)
  }

  /** Further replies of a node counted as answers of others, less first replies not counted. */
  ghost function Miscounted(h: Hasher, s: Lookup, events: seq<FindReplies.Event>): int {
    if events == [] then 0
    else
      var n := |events| - 1;
      var again := events[n].id in Repliers(events[..n]);
      var counted := FindReplies.After(h, s, events[..n]).journey.inflight > 0;
      Miscounted(h, s, events[..n]) + if again && counted then 1 else if !again && !counted then -1 else 0
  }

  /** A lookup whose first round has been sent. */
  ghost predicate Started(h: Hasher, s: Lookup, handed: seq<Route>) {
    TrailInv(h, s.journey, handed) && s.journey.inflight == |handed| && !s.journey.completed
  }

  // ---------------------------------------------------------------- one reply

  lemma {:induction false} PassOnFrame(h: Hasher, s: Lookup, values: seq<Option<Bytes>>)
    ensures var j := PassOn(h, s, values).0.journey; j == s.journey.(values := j.values)
    decreases |values|
  {
    if values != [] && values[0].Some? {
      var v := values[0].value;
      var t := s.On(SeenState(h, s.journey, v));
      PassOnFrame(h, if h(v) in s.journey.values then t else t.Tell(Found(v)), values[1..]);
    }
  }

  lemma HandleInflight(h: Hasher, s: Lookup, e: FindReplies.Event)
    requires h(e.id) in s.journey.visited && SortsIfAsking(h, s, e)
    ensures Handle(h, s, e.id, e.reply, e.sorted).journey.inflight ==
            ResponseState(s.journey).inflight + |Asked(h, s, e)|
  {
    var t := s.On(ResponseState(s.journey));
    match e.reply
    case Failed =>
    case NoPayload =>
    case Answer(sender, found, values, nodes) =>
      if |values| > 0 {
        var j := RemoveOutstandingState(h, AddOutstandingState(h, t.journey, sender, found), sender, |values|);
        PassOnFrame(h, t.On(j), values);
      } else if OffersNodes(s, e) {
        OfferedKnown(h, s, e);
      }
  }

  /** A journey that completes has nothing in flight by its own count. */
  lemma CompletesWithNoneInflight(h: Hasher, s: Lookup, e: FindReplies.Event)
    requires h(e.id) in s.journey.visited
    requires !s.journey.completed && Handle(h, s, e.id, e.reply, e.sorted).journey.completed
    ensures Handle(h, s, e.id, e.reply, e.sorted).journey.inflight <= 0
  {
    var t := s.On(ResponseState(s.journey));
    match e.reply
    case Failed =>
    case NoPayload =>
    case Answer(sender, found, values, nodes) =>
      if |values| > 0 {
        var j := RemoveOutstandingState(h, AddOutstandingState(h, t.journey, sender, found), sender, |values|);
        PassOnFrame(h, t.On(j), values);
      } else if OffersNodes(s, e) {
        OfferedKnown(h, s, e);
      }
  }

  // ---------------------------------------------------------------- distinct nodes

  ghost predicate DistinctNodes(routes: seq<Route>) {
    forall i, j | 0 <= i < j < |routes| :: routes[i].node.id != routes[j].node.id
  }

  lemma TrailDistinct(h: Hasher, j: JourneyState, handed: seq<Route>)
    requires TrailInv(h, j, handed)
    ensures DistinctNodes(handed)
  {
    forall a, b | 0 <= a < b < |handed| ensures handed[a].node.id != handed[b].node.id {
      TwoHanded(h, j, handed, a, b);
    }
  }

  lemma {:induction false} NodeIdsCount(routes: seq<Route>)
    requires DistinctNodes(routes)
    ensures |NodeIds(routes)| == |routes|
  {
    if routes != [] {
      var n := |routes| - 1;
      NodeIdsCount(routes[..n]);
      assert NodeIds(routes) == NodeIds(routes[..n]) + {routes[n].node.id};
    }
  }

  /** What a round adds to the nodes asked. */
  lemma NodeIdsAppend(a: seq<Route>, b: seq<Route>)
    requires DistinctNodes(a + b)
    ensures NodeIds(a + b) == NodeIds(a) + NodeIds(b) && NodeIds(a) !! NodeIds(b) && |NodeIds(b)| == |b|
  {
    forall i, j | 0 <= i < |a| && 0 <= j < |b| ensures a[i].node.id != b[j].node.id {
      assert (a + b)[i] == a[i] && (a + b)[|a| + j] == b[j];
    }
    forall i, j | 0 <= i < j < |b| ensures b[i].node.id != b[j].node.id {
      assert (a + b)[|a| + i] == b[i] && (a + b)[|a| + j] == b[j];
    }
    NodeIdsCount(b);
  }

  /** The nodes without an answer after one more reply, from `id`, and a further round. */
  lemma UnansweredStep(sent: set<Id>, more: set<Id>, repliers: set<Id>, id: Id)
    requires sent !! more && repliers <= sent && id in sent
    ensures |(sent + more) - (repliers + {id})| == |sent - repliers| - (if id in repliers then 0 else 1) + |more|
  {
    assert (sent + more) - (repliers + {id}) == (sent - repliers - {id}) + more;
  }

  // ---------------------------------------------------------------- the law

  /** The nodes that have not replied are as many as are in flight, and those miscounted. */
  ghost predicate Law(h: Hasher, s: Lookup, handed: seq<Route>, events: seq<FindReplies.Event>) {
    var inflight := FindReplies.After(h, s, events).journey.inflight;
    && inflight >= 0 && Repliers(events) <= NodeIds(Sent(h, s, handed, events))
    && |Unanswered(h, s, handed, events)| == inflight + Miscounted(h, s, events)
  }

  lemma {:induction false} UnansweredLaw(h: Hasher, s: Lookup, handed: seq<Route>, events: seq<FindReplies.Event>)
    requires Started(h, s, handed) && Genuine(h, s, handed, events)
    ensures Law(h, s, handed, events)
  {
    if events == [] {
      assert Sent(h, s, handed, events) == handed;
      TrailDistinct(h, s.journey, handed);
      NodeIdsCount(handed);
      assert Unanswered(h, s, handed, events) == NodeIds(handed);
    } else {
      UnansweredLaw(h, s, handed, events[..|events| - 1]);
      LawStep(h, s, handed, events);
    }
  }

  lemma LawStep(h: Hasher, s: Lookup, handed: seq<Route>, events: seq<FindReplies.Event>)
    requires Started(h, s, handed) && events != [] && Genuine(h, s, handed, events)
    requires Law(h, s, handed, events[..|events| - 1])
    ensures Law(h, s, handed, events)
  {
    var n := |events| - 1;
    var before, e, t := events[..n], events[n], FindReplies.After(h, s, events[..n]);
    SentStep(h, s, handed, events);
    FromSent(h, s, handed, events);
    SentDistinct(h, s, handed, events);
    RepliersStep(events);
    InflightStep(h, s, handed, events);
    LawCount(Sent(h, s, handed, before), Asked(h, t, e), Repliers(before), e.id, t.journey.inflight,
             Miscounted(h, s, before));
  }

  lemma LawCount(sent: seq<Route>, more: seq<Route>, repliers: set<Id>, id: Id, inflight: int, off: int)
    requires DistinctNodes(sent + more) && repliers <= NodeIds(sent) && id in NodeIds(sent)
    requires inflight >= 0 && |NodeIds(sent) - repliers| == inflight + off
    ensures var again, counted := id in repliers, inflight > 0;
            && repliers + {id} <= NodeIds(sent + more)
            && |NodeIds(sent + more) - (repliers + {id})| ==
               (inflight - (if counted then 1 else 0) + |more|)
               + (off + if again && counted then 1 else if !again && !counted then -1 else 0)
  {
    NodeIdsAppend(sent, more);
    UnansweredStep(NodeIds(sent), NodeIds(more), repliers, id);
  }

  lemma RepliersStep(events: seq<FindReplies.Event>)
    requires events != []
    ensures Repliers(events) == Repliers(events[..|events| - 1]) + {events[|events| - 1].id}
  {
  }

  lemma SentStep(h: Hasher, s: Lookup, handed: seq<Route>, events: seq<FindReplies.Event>)
    requires events != []
    ensures var n := |events| - 1;
            Sent(h, s, handed, events)
            == Sent(h, s, handed, events[..n]) + Asked(h, FindReplies.After(h, s, events[..n]), events[n])
  {
    var n := |events| - 1;
    Associative(handed, AskedIn(h, s, events[..n]), Asked(h, FindReplies.After(h, s, events[..n]), events[n]));
  }

  lemma Associative(a: seq<Route>, b: seq<Route>, c: seq<Route>)
    ensures a + (b + c) == a + b + c
  {
  }

  lemma FromSent(h: Hasher, s: Lookup, handed: seq<Route>, events: seq<FindReplies.Event>)
    requires events != [] && Genuine(h, s, handed, events)
    ensures events[|events| - 1].id in NodeIds(Sent(h, s, handed, events[..|events| - 1]))
  {
    HandedIsNode(Sent(h, s, handed, events[..|events| - 1]), events[|events| - 1].id);
  }

  lemma HandedIsNode(sent: seq<Route>, id: Id)
    requires FromHanded(sent, id)
    ensures id in NodeIds(sent)
  {
  }

  lemma SentDistinct(h: Hasher, s: Lookup, handed: seq<Route>, events: seq<FindReplies.Event>)
    requires Started(h, s, handed) && Genuine(h, s, handed, events)
    ensures DistinctNodes(Sent(h, s, handed, events))
  {
    LookupNeverLearns(h, s, handed, events);
    TrailDistinct(h, FindReplies.After(h, s, events).journey, Sent(h, s, handed, events));
  }

  lemma InflightStep(h: Hasher, s: Lookup, handed: seq<Route>, events: seq<FindReplies.Event>)
    requires Started(h, s, handed) && events != [] && Genuine(h, s, handed, events)
    ensures var n := |events| - 1;
            var t := FindReplies.After(h, s, events[..n]);
            FindReplies.After(h, s, events).journey.inflight ==
            ResponseState(t.journey).inflight + |Asked(h, t, events[n])|
  {
    var n := |events| - 1;
    var t := FindReplies.After(h, s, events[..n]);
    LookupNeverLearns(h, s, handed, events[..n]);
    HandedIsMarked(h, t.journey, Sent(h, s, handed, events[..n]), events[n].id);
    HandleInflight(h, t, events[n]);
  }

  // ---------------------------------------------------------------- when completion means answered

  /** The last reply of the run completes the journey. */
  ghost predicate Completes(h: Hasher, s: Lookup, events: seq<FindReplies.Event>) {
    && events != [] && FindReplies.After(h, s, events).journey.completed
    && !FindReplies.After(h, s, events[..|events| - 1]).journey.completed
  }

  /** When a journey completes, every node asked has replied if and only if no further reply of a
      node has been counted for another one that has not replied. */
  lemma CompletedMeansAnsweredIff(h: Hasher, s: Lookup, handed: seq<Route>, events: seq<FindReplies.Event>)
    requires Started(h, s, handed) && Genuine(h, s, handed, events) && Completes(h, s, events)
    ensures Unanswered(h, s, handed, events) == {} <==> Miscounted(h, s, events) == 0
    ensures |Unanswered(h, s, handed, events)| == Miscounted(h, s, events)
  {
    UnansweredLaw(h, s, handed, events);
    var n := |events| - 1;
    var t := FindReplies.After(h, s, events[..n]);
    LookupNeverLearns(h, s, handed, events[..n]);
    HandedIsMarked(h, t.journey, Sent(h, s, handed, events[..n]), events[n].id);
    CompletesWithNoneInflight(h, t, events[n]);
  }

  /** No node replies twice. */
  ghost predicate OneReplyEach(events: seq<FindReplies.Event>) {
    forall i, j | 0 <= i < j < |events| :: events[i].id != events[j].id
  }

  lemma {:induction false} OneReplyEachCounts(h: Hasher, s: Lookup, handed: seq<Route>, events: seq<FindReplies.Event>)
    requires Started(h, s, handed) && Genuine(h, s, handed, events) && OneReplyEach(events)
    ensures Miscounted(h, s, events) == 0
  {
    if events != [] {
      var n := |events| - 1;
      OneReplyEachCounts(h, s, handed, events[..n]);
      UnansweredLaw(h, s, handed, events[..n]);
      assert events[n].id in Unanswered(h, s, handed, events[..n]);
    }
  }

  /** If no node replies twice, a journey completes only when every node asked has replied. */
  lemma CompletesOnlyWhenAnswered(h: Hasher, s: Lookup, handed: seq<Route>, events: seq<FindReplies.Event>)
    requires Started(h, s, handed) && Genuine(h, s, handed, events) && OneReplyEach(events) && Completes(h, s, events)
    ensures Unanswered(h, s, handed, events) == {}
  {
    OneReplyEachCounts(h, s, handed, events);
    CompletedMeansAnsweredIff(h, s, handed, events);
  }

  // ---------------------------------------------------------------- an answer in several batches

  /** An answer of one value per batch, from the node `id`. */
  function InBatches(id: Id, sender: Bytes, values: seq<Bytes>): seq<FindReplies.Event> {
    seq(|values|, i requires 0 <= i < |values| =>
      FindReplies.Event(id, Answer(sender, |values|, [Some(values[i])], []), []))
  }

  /** After `k` of `n` batches under the key `from`, with `n` requests in flight at the start. */
  ghost predicate AfterBatches(j: JourneyState, from: Hash, n: nat, k: nat) {
    && j.inflight == n - k && (j.completed <==> 0 < k == n)
    && j.outstanding == if k == 0 then map[] else map[from := n - k]
  }

  predicate IsBatch(e: FindReplies.Event, sender: Bytes, n: nat) {
    && e.reply.Answer? && e.reply.sender == sender && e.reply.found == n
    && |e.reply.values| == 1 && e.reply.values[0].Some?
  }

  lemma OneBatch(h: Hasher, t: Lookup, e: FindReplies.Event, sender: Bytes, n: nat, k: nat)
    requires IsBatch(e, sender, n) && k < n && AfterBatches(t.journey, h(sender), n, k)
    ensures AfterBatches(Handle(h, t, e.id, e.reply, e.sorted).journey, h(sender), n, k + 1)
  {
    var u := t.On(ResponseState(t.journey));
    var j := RemoveOutstandingState(h, AddOutstandingState(h, u.journey, sender, n), sender, 1);
    assert j.outstanding == map[h(sender) := n - k - 1];
    PassOnFrame(h, u.On(j), e.reply.values);
    assert PassOn(h, u.On(j), e.reply.values).1 by { assert e.reply.values[1..] == []; }
    SumValuesAny(j.outstanding, h(sender));
    assert j.outstanding - {h(sender)} == map[];
  }

  lemma {:induction false} BatchesCount(h: Hasher, s: Lookup, sender: Bytes, events: seq<FindReplies.Event>, n: nat)
    requires AfterBatches(s.journey, h(sender), n, 0) && |events| <= n
    requires forall i | 0 <= i < |events| :: IsBatch(events[i], sender, n)
    ensures AfterBatches(FindReplies.After(h, s, events).journey, h(sender), n, |events|)
  {
    if events != [] {
      var k := |events| - 1;
      BatchesCount(h, s, sender, events[..k], n);
      OneBatch(h, FindReplies.After(h, s, events[..k]), events[k], sender, n, k);
    }
  }

  /** Replies with values ask nobody. */
  lemma {:induction false} BatchesAskNobody(h: Hasher, s: Lookup, handed: seq<Route>, events: seq<FindReplies.Event>)
    requires forall i | 0 <= i < |events| ::
               FromHanded(handed, events[i].id) && events[i].reply.Answer? && events[i].reply.values != []
    ensures Genuine(h, s, handed, events) && Sent(h, s, handed, events) == handed
  {
    if events != [] {
      var n := |events| - 1;
      BatchesAskNobody(h, s, handed, events[..n]);
      SentStep(h, s, handed, events);
    }
  }

  /** A node that answers in as many batches as nodes were asked completes the journey alone:
      none of the others has replied. */
  lemma BatchesCompleteAlone(h: Hasher, s: Lookup, handed: seq<Route>, id: Id, sender: Bytes, values: seq<Bytes>)
    requires Started(h, s, handed) && s.journey.outstanding == map[]
    requires FromHanded(handed, id) && |values| == |handed|
    ensures var events := InBatches(id, sender, values);
            && Genuine(h, s, handed, events) && Completes(h, s, events)
            && Unanswered(h, s, handed, events) == NodeIds(handed) - {id}
  {
    var events, n := InBatches(id, sender, values), |values|;
    BatchesAskNobody(h, s, handed, events);
    BatchesCount(h, s, sender, events, n);
    BatchesCount(h, s, sender, events[..n - 1], n);
    OneReplier(events, id);
  }

  lemma OneReplier(events: seq<FindReplies.Event>, id: Id)
    requires events != [] && forall i | 0 <= i < |events| :: events[i].id == id
    ensures Repliers(events) == {id}
  {
    assert events[0] in events;
  }
}
