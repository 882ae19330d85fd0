/**
  `Find` with the request cache. A request stays pending until its closure returns true or the
  sweep finds it expired, and then its closure runs once more; so a node that has answered is
  counted again when its request expires. It is shown which requests are pending over every run,
  and that the runs are runs of `FindReplies`.
 */
module FindRequests {
  import opened Ids
  import opened Options
  import opened Packets
  import opened Journeys
  import opened JourneyRuns
  import opened FindReplies
  import opened FindCompletion
  import opened FindWaits
  import FindTells

  /** The lookup, the pending requests with the node each went to, all requests there have been,
      and those that have expired. */
  datatype State = State(lookup: Lookup, pending: map<Hash, Id>, made: map<Hash, Id>, expired: set<Hash>)

  datatype Event =
    | Arrive(k: Hash, reply: Reply, sorted: seq<Route>, keys: seq<Hash>)   // a response; keys of the next requests
    | Expire(k: Hash)                                                      // the sweep finds it expired

  /** Requests to the given nodes, under the given keys. */
  function Register(m: map<Hash, Id>, keys: seq<Hash>, routes: seq<Route>): map<Hash, Id> {
    if routes == [] || |keys| != |routes| then m
    else
      var n := |routes| - 1;
      Register(m, keys[..n], routes[..n])[keys[n] := routes[n].node.id]
  }

  function Begin(s: Lookup, handed: seq<Route>, keys: seq<Hash>): State {
    State(s, Register(map[], keys, handed), Register(map[], keys, handed), {})
  }

  /** The reply the closure of the request under key `e.k` is run with. */
  function ReplyOf(s: State, e: Event): FindReplies.Event
    requires e.k in s.pending
  {
    match e
    case Arrive(k, reply, sorted, _) => FindReplies.Event(s.pending[k], reply, sorted)
    case Expire(k) => FindReplies.Event(s.pending[k], Failed, [])
  }

  ghost function Step(h: Hasher, s: State, e: Event): State {
    if e.k !in s.pending then s
    else
      var r := ReplyOf(s, e);
      var lookup := Handle(h, s.lookup, r.id, r.reply, r.sorted);
      match e
      case Arrive(k, reply, sorted, keys) =>
        var asked := Asked(h, s.lookup, r);
        var pending := Register(s.pending, keys, asked);
        State(lookup, if Forgets(h, s.lookup, r.id, reply, sorted) then pending - {k} else pending,
              Register(s.made, keys, asked), s.expired)
      case Expire(k) => s.(lookup := lookup, pending := s.pending - {k}, expired := s.expired + {k})
  }

  ghost function After(h: Hasher, s: State, events: seq<Event>): State {
    if events == [] then s else Step(h, After(h, s, events[..|events| - 1]), events[|events| - 1])
  }

  /** The replies with which closures ran. */
  ghost function Ran(h: Hasher, s: State, events: seq<Event>): seq<FindReplies.Event> {
    if events == [] then []
    else
      var n := |events| - 1;
      var t := After(h, s, events[..n]);
      Ran(h, s, events[..n]) + if events[n].k in t.pending then [ReplyOf(t, events[n])] else []
  }

  predicate NewKeys(m: map<Hash, Id>, keys: seq<Hash>) {
    && (forall k | k in keys :: k !in m)
    && (forall i, j | 0 <= i < j < |keys| :: keys[i] != keys[j])
  }

  /** A response is no timeout, a round is handed out of a sorting, and every request has its own key. */
  ghost predicate Proper(h: Hasher, s: State, e: Event) {
    e.Arrive? && e.k in s.pending ==>
      && !e.reply.Failed? && SortsIfAsking(h, s.lookup, ReplyOf(s, e))
      && |e.keys| == |Asked(h, s.lookup, ReplyOf(s, e))| && NewKeys(s.made, e.keys)
  }

  ghost predicate ProperRun(h: Hasher, s: State, events: seq<Event>) {
    forall t | 0 <= t < |events| :: Proper(h, After(h, s, events[..t]), events[t])
  }

  lemma ProperPrefix(h: Hasher, s: State, events: seq<Event>)
    requires events != [] && ProperRun(h, s, events)
    ensures ProperRun(h, s, events[..|events| - 1])
    ensures Proper(h, After(h, s, events[..|events| - 1]), events[|events| - 1])
  {
    var n := |events| - 1;
    forall t | 0 <= t < n ensures Proper(h, After(h, s, events[..n][..t]), events[..n][t]) {
      assert events[..n][..t] == events[..t];
    }
  }

  // ---------------------------------------------------------------- registering

  /** `r` is `m` and, under new keys, the given nodes. */
  ghost predicate Extends(m: map<Hash, Id>, keys: seq<Hash>, routes: seq<Route>, r: map<Hash, Id>) {
    && |keys| == |routes|
    && (forall k | k in r :: k in m || k in keys)
    && (forall k | k in m :: k in r && r[k] == m[k])
    && (forall i | 0 <= i < |keys| :: keys[i] in r && r[keys[i]] == routes[i].node.id)
  }

  lemma {:induction false} Registered(m: map<Hash, Id>, keys: seq<Hash>, routes: seq<Route>)
    requires |keys| == |routes| && NewKeys(m, keys)
    ensures Extends(m, keys, routes, Register(m, keys, routes))
  {
    if routes != [] {
      var n := |routes| - 1;
      assert forall k | k in keys[..n] :: k in keys;
      Registered(m, keys[..n], routes[..n]);
      ExtendsOne(m, keys, routes, Register(m, keys[..n], routes[..n]));
    }
  }

  lemma ExtendsOne(m: map<Hash, Id>, keys: seq<Hash>, routes: seq<Route>, r: map<Hash, Id>)
    requires |keys| == |routes| > 0 && NewKeys(m, keys)
    requires Extends(m, keys[..|keys| - 1], routes[..|keys| - 1], r)
    ensures Extends(m, keys, routes, r[keys[|keys| - 1] := routes[|keys| - 1].node.id])
  {
    var n := |keys| - 1;
    assert keys[n] in keys;
    assert forall i | 0 <= i < n :: keys[..n][i] == keys[i] && routes[..n][i] == routes[i] && keys[i] in keys;
  }

  // ---------------------------------------------------------------- what is pending

  /** A response that does not complete the journey leaves its request pending. */
  lemma ForgetsIffCompletes(h: Hasher, s: Lookup, id: Id, reply: Reply, sorted: seq<Route>)
    requires !s.journey.completed && !reply.Failed?
    ensures Forgets(h, s, id, reply, sorted) <==> Handle(h, s, id, reply, sorted).journey.completed
  {
    var e := FindReplies.Event(id, reply, sorted);
    FindTells.HandleTells(h, s, e);
    FindTells.ForgetsIff(h, s, e);
  }

  ghost predicate Consistent(s: State) {
    && (forall k | k in s.pending :: k in s.made && s.pending[k] == s.made[k])
    && (forall k | k in s.expired :: k in s.made)
  }

  /** The requests that have not expired are pending. */
  ghost predicate AllPending(s: State) {
    forall k | k in s.made :: k in s.pending <==> k !in s.expired
  }

  lemma StepPending(h: Hasher, s: State, e: Event)
    requires Consistent(s) && Proper(h, s, e)
    ensures var t := Step(h, s, e);
            && Consistent(t)
            && (s.lookup.journey.completed ==> t.lookup.journey.completed)
            && (AllPending(s) && !t.lookup.journey.completed ==> AllPending(t))
  {
    if e.k in s.pending && e.Arrive? {
      var asked := Asked(h, s.lookup, ReplyOf(s, e));
      Registered(s.made, e.keys, asked);
      assert NewKeys(s.pending, e.keys);
      Registered(s.pending, e.keys, asked);
      if !s.lookup.journey.completed { ForgetsIffCompletes(h, s.lookup, s.pending[e.k], e.reply, e.sorted); }
    }
  }

  lemma BeginPending(s: Lookup, handed: seq<Route>, keys: seq<Hash>)
    requires |keys| == |handed| && NewKeys(map[], keys)
    ensures Consistent(Begin(s, handed, keys)) && AllPending(Begin(s, handed, keys))
  {
    Registered(map[], keys, handed);
  }

  /** Until the journey completes, exactly the requests that have not expired are pending: a node
      that has replied can be counted again, by a further response and when its request expires. */
  lemma {:induction false} PendingUntilCompleted(h: Hasher, s: State, events: seq<Event>)
    requires Consistent(s) && AllPending(s) && ProperRun(h, s, events)
    ensures Consistent(After(h, s, events))
    ensures !After(h, s, events).lookup.journey.completed ==> AllPending(After(h, s, events))
  {
    if events != [] {
      var n := |events| - 1;
      ProperPrefix(h, s, events);
      PendingUntilCompleted(h, s, events[..n]);
      StepPending(h, After(h, s, events[..n]), events[n]);
    }
  }

  // ---------------------------------------------------------------- the replies

  /** The requests made went to different nodes, all of them asked by the replies handled. */
  ghost predicate Linked(h: Hasher, s: Lookup, handed: seq<Route>, t: State, ran: seq<FindReplies.Event>) {
    && Consistent(t) && t.lookup == FindReplies.After(h, s, ran) && Genuine(h, s, handed, ran)
    && Asks(t.made, NodeIds(Sent(h, s, handed, ran)))
  }

  ghost predicate Asks(made: map<Hash, Id>, nodes: set<Id>) {
    && (forall k | k in made :: made[k] in nodes)
    && (forall k, k' | k in made && k' in made && made[k] == made[k'] :: k == k')
  }

  lemma {:induction false} RegisterAsks(made: map<Hash, Id>, keys: seq<Hash>, sent: seq<Route>, asked: seq<Route>)
    requires |keys| == |asked| && NewKeys(made, keys) && Asks(made, NodeIds(sent)) && DistinctNodes(sent + asked)
    ensures Asks(Register(made, keys, asked), NodeIds(sent + asked))
  {
    if asked == [] {
      assert sent + asked == sent;
    } else {
      var n := |asked| - 1;
      var before := sent + asked[..n];
      assert sent + asked == before + [asked[n]];
      DistinctPrefix(before, asked[n]);
      NewKeysPrefix(made, keys, asked);
      RegisterAsks(made, keys[..n], sent, asked[..n]);
      AskOne(Register(made, keys[..n], asked[..n]), NodeIds(before), keys[n], asked[n].node.id);
    }
  }

  lemma NewKeysPrefix(made: map<Hash, Id>, keys: seq<Hash>, asked: seq<Route>)
    requires |keys| == |asked| > 0 && NewKeys(made, keys)
    ensures var n := |keys| - 1;
            NewKeys(made, keys[..n]) && keys[n] !in Register(made, keys[..n], asked[..n])
  {
    var n := |keys| - 1;
    assert keys[n] in keys && forall k | k in keys[..n] :: k in keys;
    Registered(made, keys[..n], asked[..n]);
  }

  lemma DistinctPrefix(routes: seq<Route>, r: Route)
    requires DistinctNodes(routes + [r])
    ensures DistinctNodes(routes) && r.node.id !in NodeIds(routes)
    ensures NodeIds(routes + [r]) == NodeIds(routes) + {r.node.id}
  {
    forall i, j | 0 <= i < j < |routes| ensures routes[i].node.id != routes[j].node.id {
      assert (routes + [r])[i] == routes[i] && (routes + [r])[j] == routes[j];
    }
    NodeIdsAppend(routes, [r]);
    assert r in [r] && NodeIds([r]) == {r.node.id};
  }

  lemma AskOne(made: map<Hash, Id>, nodes: set<Id>, k: Hash, id: Id)
    requires Asks(made, nodes) && k !in made && id !in nodes
    ensures Asks(made[k := id], nodes + {id})
  {
  }

  lemma {:induction false} BeginLinked(h: Hasher, s: Lookup, handed: seq<Route>, keys: seq<Hash>)
    requires Started(h, s, handed) && |keys| == |handed| && NewKeys(map[], keys)
    ensures Linked(h, s, handed, Begin(s, handed, keys), [])
  {
    BeginPending(s, handed, keys);
    TrailDistinct(h, s.journey, handed);
    assert [] + handed == handed && Sent(h, s, handed, []) == handed;
    RegisterAsks(map[], keys, [], handed);
  }

  lemma StepLinked(h: Hasher, s: Lookup, handed: seq<Route>, t: State, ran: seq<FindReplies.Event>, e: Event)
    requires Started(h, s, handed) && Linked(h, s, handed, t, ran) && Proper(h, t, e) && e.k in t.pending
    ensures Linked(h, s, handed, Step(h, t, e), ran + [ReplyOf(t, e)])
  {
    var r, sent := ReplyOf(t, e), Sent(h, s, handed, ran);
    StepPending(h, t, e);
    GenuineSnoc(h, s, handed, ran, r);
    SentDistinct(h, s, handed, ran + [r]);
    if e.Arrive? {
      RegisterAsks(t.made, e.keys, sent, Asked(h, t.lookup, r));
    } else {
      assert sent + [] == sent;
    }
  }

  /** Every run is a run of `FindReplies`, in which every reply comes from a node that was asked. */
  lemma {:induction false} RunsAreGenuine(h: Hasher, s: Lookup, handed: seq<Route>, keys: seq<Hash>, events: seq<Event>)
    requires Started(h, s, handed) && |keys| == |handed| && NewKeys(map[], keys)
    requires ProperRun(h, Begin(s, handed, keys), events)
    ensures Linked(h, s, handed, After(h, Begin(s, handed, keys), events), Ran(h, Begin(s, handed, keys), events))
  {
    var b := Begin(s, handed, keys);
    if events == [] {
      BeginLinked(h, s, handed, keys);
    } else {
      var n := |events| - 1;
      ProperPrefix(h, b, events);
      RunsAreGenuine(h, s, handed, keys, events[..n]);
      var t, ran := After(h, b, events[..n]), Ran(h, b, events[..n]);
      if events[n].k in t.pending {
        StepLinked(h, s, handed, t, ran, events[n]);
      } else {
        assert ran + [] == ran;
      }
    }
  }

  // ---------------------------------------------------------------- who replies twice

  /** The requests whose closures ran, in order. */
  ghost function RanKeys(h: Hasher, s: State, events: seq<Event>): seq<Hash> {
    if events == [] then []
    else
      var n := |events| - 1;
      RanKeys(h, s, events[..n]) + if events[n].k in After(h, s, events[..n]).pending then [events[n].k] else []
  }

  ghost predicate EachOnce(keys: seq<Hash>) {
    forall i, j | 0 <= i < j < |keys| :: keys[i] != keys[j]
  }

  /** The replies come from the nodes the requests went to. */
  ghost predicate KeysMatch(made: map<Hash, Id>, keys: seq<Hash>, ran: seq<FindReplies.Event>) {
    |keys| == |ran| && forall i | 0 <= i < |keys| :: keys[i] in made && made[keys[i]] == ran[i].id
  }

  lemma MadeGrows(h: Hasher, s: State, e: Event)
    requires Proper(h, s, e)
    ensures forall k | k in s.made :: k in Step(h, s, e).made && Step(h, s, e).made[k] == s.made[k]
  {
    if e.k in s.pending && e.Arrive? { Registered(s.made, e.keys, Asked(h, s.lookup, ReplyOf(s, e))); }
  }

  lemma {:induction false} RanKeysMatch(h: Hasher, s: State, events: seq<Event>)
    requires Consistent(s) && AllPending(s) && ProperRun(h, s, events)
    ensures KeysMatch(After(h, s, events).made, RanKeys(h, s, events), Ran(h, s, events))
  {
    if events != [] {
      var n := |events| - 1;
      ProperPrefix(h, s, events);
      RanKeysMatch(h, s, events[..n]);
      PendingUntilCompleted(h, s, events[..n]);
      MadeGrows(h, After(h, s, events[..n]), events[n]);
    }
  }

  lemma MatchOnce(made: map<Hash, Id>, nodes: set<Id>, keys: seq<Hash>, ran: seq<FindReplies.Event>)
    requires Asks(made, nodes) && KeysMatch(made, keys, ran)
    ensures EachOnce(keys) <==> OneReplyEach(ran)
  {
  }

  /** No node replies twice if and only if no closure runs twice, be it for a further response or
      for a timeout after one; and then the journey completes only when every node asked has replied. */
  lemma WaitsIfClosuresRunOnce(h: Hasher, s: Lookup, handed: seq<Route>, keys: seq<Hash>, events: seq<Event>)
    requires Started(h, s, handed) && |keys| == |handed| && NewKeys(map[], keys)
    requires ProperRun(h, Begin(s, handed, keys), events)
    ensures var b := Begin(s, handed, keys);
            var ran := Ran(h, b, events);
            && Genuine(h, s, handed, ran)
            && (EachOnce(RanKeys(h, b, events)) <==> OneReplyEach(ran))
            && (OneReplyEach(ran) && Completes(h, s, ran) ==> Unanswered(h, s, handed, ran) == {})
  {
    var b := Begin(s, handed, keys);
    var ran := Ran(h, b, events);
    RunsAreGenuine(h, s, handed, keys, events);
    BeginPending(s, handed, keys);
    RanKeysMatch(h, b, events);
    MatchOnce(After(h, b, events).made, NodeIds(Sent(h, s, handed, ran)), RanKeys(h, b, events), ran);
    if OneReplyEach(ran) && Completes(h, s, ran) { CompletesOnlyWhenAnswered(h, s, handed, ran); }
  }

  // ---------------------------------------------------------------- a timeout after an answer

  /** An answer of one value, which is all the sender has. */
  function OneValue(sender: Bytes, v: Bytes): Reply {
    Answer(sender, 1, [Some(v)], [])
  }

  lemma ValueStep(h: Hasher, t: Lookup, id: Id, sender: Bytes, v: Bytes)
    requires !t.journey.completed
    ensures var j := Handle(h, t, id, OneValue(sender, v), []).journey;
            && j.inflight == ResponseState(t.journey).inflight
            && j.outstanding ==
               RemoveOutstandingState(h, AddOutstandingState(h, t.journey, sender, 1), sender, 1).outstanding
            && (j.completed <==> j.inflight <= 0 && SumValues(j.outstanding) <= 0)
  {
    var u := t.On(ResponseState(t.journey));
    var j := RemoveOutstandingState(h, AddOutstandingState(h, u.journey, sender, 1), sender, 1);
    PassOnFrame(h, u.On(j), [Some(v)]);
    assert PassOn(h, u.On(j), [Some(v)]).1 by { assert [Some(v)][1..] == []; }
  }

  lemma NoneOutstanding(m: map<Hash, int>, a: Hash, b: Hash)
    requires m == if a == b then map[a := -1] else map[a := 0, b := 0]
    ensures SumValues(m) <= 0
  {
    SumValuesAny(m, a);
    if a == b {
      assert m - {a} == map[];
    } else {
      SumValuesAny(m - {a}, b);
      assert m - {a} - {b} == map[];
    }
  }

  lemma TimeoutSteps(h: Hasher, s: Lookup, a: Id, b: Id, sender: Bytes, sender': Bytes, v: Bytes, w: Bytes)
    requires !s.journey.completed && s.journey.inflight == 3 && s.journey.outstanding == map[]
    ensures var t := Handle(h, s, a, OneValue(sender, v), []);
            var u := Handle(h, t, a, Failed, []);
            && !t.journey.completed && !u.journey.completed
            && Handle(h, u, b, OneValue(sender', w), []).journey.completed
  {
    var t := Handle(h, s, a, OneValue(sender, v), []);
    ValueStep(h, s, a, sender, v);
    assert t.journey.outstanding == map[h(sender) := 0];
    var u := Handle(h, t, a, Failed, []);
    assert u.journey.inflight == 1 && u.journey.outstanding == t.journey.outstanding && !u.journey.completed;
    ValueStep(h, u, b, sender', w);
    NoneOutstanding(Handle(h, u, b, OneValue(sender', w), []).journey.outstanding, h(sender), h(sender'));
  }

  lemma RunSnoc(h: Hasher, s: State, events: seq<Event>, e: Event)
    requires ProperRun(h, s, events) && Proper(h, After(h, s, events), e)
    ensures ProperRun(h, s, events + [e]) && After(h, s, events + [e]) == Step(h, After(h, s, events), e)
    ensures e.k in After(h, s, events).pending ==>
              Ran(h, s, events + [e]) == Ran(h, s, events) + [ReplyOf(After(h, s, events), e)]
  {
    assert (events + [e])[..|events|] == events;
    forall t | 0 <= t < |events + [e]| ensures Proper(h, After(h, s, (events + [e])[..t]), (events + [e])[t]) {
      if t < |events| { assert (events + [e])[..t] == events[..t]; }
    }
  }

  /** A response with one value asks nobody, and leaves its request pending unless it completes. */
  lemma ValueResponse(h: Hasher, t: State, k: Hash, sender: Bytes, v: Bytes)
    requires k in t.pending && !t.lookup.journey.completed
    ensures var e := Arrive(k, OneValue(sender, v), [], []);
            var lookup := Handle(h, t.lookup, t.pending[k], OneValue(sender, v), []);
            && Proper(h, t, e) && Step(h, t, e).lookup == lookup
            && (!lookup.journey.completed ==> Step(h, t, e).pending == t.pending)
  {
    ForgetsIffCompletes(h, t.lookup, t.pending[k], OneValue(sender, v), []);
  }

  /** Nobody is asked by failures and values. */
  lemma {:induction false} NobodyAsked(h: Hasher, s: Lookup, handed: seq<Route>, ran: seq<FindReplies.Event>)
    requires forall i | 0 <= i < |ran| :: ran[i].reply.Failed? || (ran[i].reply.Answer? && ran[i].reply.values != [])
    ensures Sent(h, s, handed, ran) == handed
  {
    if ran != [] {
      NobodyAsked(h, s, handed, ran[..|ran| - 1]);
      SentStep(h, s, handed, ran);
    }
  }

  /** The first node answers and its request expires. */
  lemma FirstExpires(h: Hasher, b: State, k: Hash, v: Bytes) returns (events: seq<Event>)
    requires k in b.pending && !b.lookup.journey.completed
    requires !Handle(h, b.lookup, b.pending[k], OneValue(b.pending[k], v), []).journey.completed
    ensures var x := b.pending[k];
            var t := Handle(h, b.lookup, x, OneValue(x, v), []);
            && ProperRun(h, b, events)
            && Ran(h, b, events) == [FindReplies.Event(x, OneValue(x, v), []), FindReplies.Event(x, Failed, [])]
            && After(h, b, events).lookup == Handle(h, t, x, Failed, [])
            && After(h, b, events).pending == b.pending - {k}
  {
    var x := b.pending[k];
    var e := Arrive(k, OneValue(x, v), [], []);
    ValueResponse(h, b, k, x, v);
    RunSnoc(h, b, [], e);
    RunSnoc(h, b, [] + [e], Expire(k));
    events := [] + [e] + [Expire(k)];
  }

  function AnswerTimeoutAnswer(x: Id, y: Id, v: Bytes, w: Bytes): seq<FindReplies.Event> {
    [FindReplies.Event(x, OneValue(x, v), []), FindReplies.Event(x, Failed, []),
     FindReplies.Event(y, OneValue(y, w), [])]
  }

  /** The last event runs a closure that completes the journey. */
  ghost predicate CompletesWith(h: Hasher, b: State, events: seq<Event>, e: Event) {
    && ProperRun(h, b, events) && ProperRun(h, b, events + [e]) && e.k in After(h, b, events).pending
    && !After(h, b, events).lookup.journey.completed && After(h, b, events + [e]).lookup.journey.completed
    && Ran(h, b, events + [e]) == Ran(h, b, events) + [ReplyOf(After(h, b, events), e)]
  }

  /** And then the second node answers. */
  lemma TimeoutRun(h: Hasher, b: State, k: Hash, k': Hash, v: Bytes, w: Bytes) returns (events: seq<Event>, e: Event)
    requires k in b.pending && k' in b.pending && k != k'
    requires var j := b.lookup.journey; !j.completed && j.inflight == 3 && j.outstanding == map[]
    ensures var x, y := b.pending[k], b.pending[k'];
            && CompletesWith(h, b, events, e)
            && Ran(h, b, events + [e]) == AnswerTimeoutAnswer(x, y, v, w)
  {
    var x, y := b.pending[k], b.pending[k'];
    TimeoutSteps(h, b.lookup, x, y, x, y, v, w);
    events := FirstExpires(h, b, k, v);
    e := Arrive(k', OneValue(y, w), [], []);
    ValueResponse(h, After(h, b, events), k', y, w);
    RunSnoc(h, b, events, e);
  }

  /** The journey has completed by these replies although the third node has sent none, and nobody
      has sent more than one answer. */
  ghost predicate Early(h: Hasher, s: Lookup, handed: seq<Route>, ran: seq<FindReplies.Event>)
    requires |handed| == 3
  {
    && Genuine(h, s, handed, ran) && Completes(h, s, ran)
    && (forall i, j | 0 <= i < j < |ran| && ran[i].id == ran[j].id :: ran[j].reply.Failed?)
    && Unanswered(h, s, handed, ran) == {handed[2].node.id}
  }

  /** With three nodes asked, each sends at most one answer, complete in itself, and still the journey
      can complete before the third has replied: the timeout of the first counts for it. */
  lemma TimeoutCountsAgain(h: Hasher, s: Lookup, handed: seq<Route>, keys: seq<Hash>, v: Bytes, w: Bytes)
    returns (events: seq<Event>)
    requires Started(h, s, handed) && |handed| == |keys| == 3 && s.journey.outstanding == map[] && NewKeys(map[], keys)
    ensures ProperRun(h, Begin(s, handed, keys), events)
    ensures Early(h, s, handed, Ran(h, Begin(s, handed, keys), events))
  {
    FirstTwoPending(s, handed, keys);
    var before, e := TimeoutRun(h, Begin(s, handed, keys), keys[0], keys[1], v, w);
    events := before + [e];
    CompletedBy(h, s, handed, keys, before, e);
    TrailDistinct(h, s.journey, handed);
    ThreeReplies(h, s, handed, v, w);
  }

  lemma CompletedBy(h: Hasher, s: Lookup, handed: seq<Route>, keys: seq<Hash>, events: seq<Event>, e: Event)
    requires Started(h, s, handed) && |keys| == |handed| && NewKeys(map[], keys)
    requires CompletesWith(h, Begin(s, handed, keys), events, e)
    ensures ProperRun(h, Begin(s, handed, keys), events + [e])
    ensures var ran := Ran(h, Begin(s, handed, keys), events + [e]); Genuine(h, s, handed, ran) && Completes(h, s, ran)
  {
    var b := Begin(s, handed, keys);
    RunsAreGenuine(h, s, handed, keys, events);
    RunsAreGenuine(h, s, handed, keys, events + [e]);
    var ran := Ran(h, b, events + [e]);
    assert ran[..|ran| - 1] == Ran(h, b, events);
  }

  lemma FirstTwoPending(s: Lookup, handed: seq<Route>, keys: seq<Hash>)
    requires |handed| == |keys| == 3 && NewKeys(map[], keys)
    ensures var p := Begin(s, handed, keys).pending;
            && keys[0] in p && p[keys[0]] == handed[0].node.id && keys[1] in p && p[keys[1]] == handed[1].node.id
  {
    Registered(map[], keys, handed);
  }

  lemma ThreeReplies(h: Hasher, s: Lookup, handed: seq<Route>, v: Bytes, w: Bytes)
    requires |handed| == 3 && DistinctNodes(handed)
    ensures var ran := AnswerTimeoutAnswer(handed[0].node.id, handed[1].node.id, v, w);
            Genuine(h, s, handed, ran) && Completes(h, s, ran) ==> Early(h, s, handed, ran)
  {
    var ran := AnswerTimeoutAnswer(handed[0].node.id, handed[1].node.id, v, w);
    NobodyAsked(h, s, handed, ran);
    ThreeNodes(handed, ran);
  }

  lemma ThreeNodes(handed: seq<Route>, ran: seq<FindReplies.Event>)
    requires |handed| == |ran| == 3 && DistinctNodes(handed)
    requires ran[0].id == ran[1].id == handed[0].node.id && ran[2].id == handed[1].node.id && ran[1].reply.Failed?
    ensures NodeIds(handed) - Repliers(ran) == {handed[2].node.id}
    ensures forall i, j | 0 <= i < j < |ran| && ran[i].id == ran[j].id :: ran[j].reply.Failed?
  {
    assert handed[0].node.id != handed[1].node.id && handed[0].node.id != handed[2].node.id;
    assert handed[1].node.id != handed[2].node.id;
    assert ran[0] in ran && ran[2] in ran && handed[2] in handed;
  }
}
