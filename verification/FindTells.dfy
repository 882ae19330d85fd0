/**
  What the closure of `Find` does with a reply, told from the reply and the state of the journey:
  what the user is called with, whether the journey completes, whether the request is forgotten.
 */
module FindTells {
  import opened Ids
  import opened Options
  import opened Buckets
  import opened Packets
  import opened Journeys
  import JourneyRuns
  import opened FindReplies

  // ---------------------------------------------------------------- the values of one answer

  /** The entries before the first one that cannot be decoded. */
  predicate Readable(values: seq<Option<Bytes>>, n: nat) {
    n <= |values| && (forall i | 0 <= i < n :: values[i].Some?) && (n < |values| ==> values[n].None?)
  }

  function FirstBad(values: seq<Option<Bytes>>): (n: nat)
    ensures Readable(values, n)
  {
    if values == [] || values[0].None? then 0 else FirstBad(values[1..]) + 1
  }

  /** The value at `i` is new: its hash has neither been seen before nor earlier in the answer. */
  ghost predicate NewAt(h: Hasher, seen: set<Hash>, values: seq<Option<Bytes>>, i: nat)
    requires i < FirstBad(values)
  {
    h(values[i].value) !in seen && forall j | 0 <= j < i :: h(values[j].value) != h(values[i].value)
  }

  /** The new ones among the first `n` values, in order. */
  ghost function NewValues(h: Hasher, seen: set<Hash>, values: seq<Option<Bytes>>, n: nat): seq<UserCall>
    requires n <= FirstBad(values)
  {
    if n == 0 then []
    else
      NewValues(h, seen, values, n - 1) + if NewAt(h, seen, values, n - 1) then [Found(values[n - 1].value)] else []
  }

  ghost function HashesOf(h: Hasher, values: seq<Option<Bytes>>, n: nat): set<Hash>
    requires n <= FirstBad(values)
  {
    set i | 0 <= i < n :: h(values[i].value)
  }

  /** The lookup after the first `n` values have been passed on. */
  ghost function Passed(h: Hasher, s: Lookup, values: seq<Option<Bytes>>, n: nat): Lookup
    requires n <= FirstBad(values)
  {
    Lookup(s.journey.(values := s.journey.values + HashesOf(h, values, n)),
           s.user + NewValues(h, s.journey.values, values, n))
  }

  lemma {:induction false} PassOnFrom(h: Hasher, s: Lookup, values: seq<Option<Bytes>>, n: nat)
    requires n <= FirstBad(values)
    ensures PassOn(h, s, values) == PassOn(h, Passed(h, s, values, n), values[n..])
  {
    if n == 0 {
      assert values[0..] == values && Passed(h, s, values, 0) == s;
    } else {
      PassOnFrom(h, s, values, n - 1);
      PassOneMore(h, s, values, n - 1);
    }
  }

  /** What passing on the next value does. */
  function PassedOne(h: Hasher, s: Lookup, v: Bytes): Lookup {
    var t := s.On(SeenState(h, s.journey, v));
    if h(v) in s.journey.values then t else t.Tell(Found(v))
  }

  lemma PassOneMore(h: Hasher, s: Lookup, values: seq<Option<Bytes>>, n: nat)
    requires n < FirstBad(values)
    ensures PassOn(h, Passed(h, s, values, n), values[n..]) == PassOn(h, Passed(h, s, values, n + 1), values[n + 1..])
  {
    PassedStep(h, s, values, n);
    UnfoldPassOn(h, Passed(h, s, values, n), values[n..]);
    assert values[n..][1..] == values[n + 1..];
  }

  lemma UnfoldPassOn(h: Hasher, s: Lookup, values: seq<Option<Bytes>>)
    requires values != [] && values[0].Some?
    ensures PassOn(h, s, values) == PassOn(h, PassedOne(h, s, values[0].value), values[1..])
  {
  }

  lemma PassedStep(h: Hasher, s: Lookup, values: seq<Option<Bytes>>, n: nat)
    requires n < FirstBad(values)
    ensures Passed(h, s, values, n + 1) == PassedOne(h, Passed(h, s, values, n), values[n].value)
  {
    var a, v, seen := Passed(h, s, values, n), values[n].value, s.journey.values;
    assert HashesOf(h, values, n + 1) == HashesOf(h, values, n) + {h(v)};
    assert seen + HashesOf(h, values, n + 1) == a.journey.values + {h(v)};
    assert s.user + (NewValues(h, seen, values, n) + [Found(v)]) == a.user + [Found(v)];
    assert s.user + (NewValues(h, seen, values, n) + []) == a.user;
    assert h(v) in HashesOf(h, values, n) <==> exists j :: 0 <= j < n && h(values[j].value) == h(v);
  }

  /** An answer with values passes on, in order, those before the first bad entry whose hash is new;
      a bad entry ends it and is reported. */
  lemma PassesOnNewValues(h: Hasher, s: Lookup, values: seq<Option<Bytes>>)
    ensures var n, t := FirstBad(values), PassOn(h, s, values);
            && t.1 == (n == |values|)
            && t.0.user == s.user + NewValues(h, s.journey.values, values, n)
                           + (if n < |values| then [Problem(BAD_VALUE)] else [])
            && t.0.journey == s.journey.(values := s.journey.values + HashesOf(h, values, n))
  {
    PassOnFrom(h, s, values, FirstBad(values));
  }

  // ---------------------------------------------------------------- one reply

  /** What is expected from the senders after an answer with `n` values. */
  function OutstandingAfter(h: Hasher, j: JourneyState, sender: Bytes, found: int, n: nat): map<Hash, int> {
    var k := h(sender);
    j.outstanding[k := (if k in j.outstanding then j.outstanding[k] else found) - n]
  }

  predicate AllReadable(nodes: seq<Option<Address>>) {
    forall n | n in nodes :: n.Some?
  }

  /** No reply but this one is missing. */
  predicate LastReply(j: JourneyState) {
    j.inflight <= 1
  }

  /** Nodes cannot be asked any more: no round is left, or no route even with the nodes of the reply. */
  ghost predicate DeadEnd(h: Hasher, s: Lookup, e: Event)
    requires OffersNodes(s, e)
  {
    s.journey.remaining == 0 || Offered(h, s, e).routes == []
  }

  /** The reply has no values and leads nowhere. */
  ghost predicate Fruitless(h: Hasher, s: Lookup, e: Event) {
    && !s.journey.completed && e.reply.Answer? && |e.reply.values| == 0
    && (|e.reply.nodes| == 0 || (OffersNodes(s, e) && DeadEnd(h, s, e)))
  }

  /** When a reply completes the journey: no other reply is missing, no announced value is, and it is
      an answer, either fruitless or with values that can all be read. */
  ghost predicate Completes(h: Hasher, s: Lookup, e: Event) {
    && !s.journey.completed && e.reply.Answer? && LastReply(s.journey)
    && if |e.reply.values| > 0 then
         && FirstBad(e.reply.values) == |e.reply.values|
         && SumValues(OutstandingAfter(h, s.journey, e.reply.sender, e.reply.found, |e.reply.values|)) <= 0
       else
         Fruitless(h, s, e) && SumValues(s.journey.outstanding) <= 0
  }

  /** What the user is called with for a reply. */
  ghost function Told(h: Hasher, s: Lookup, e: Event): seq<UserCall> {
    if s.journey.completed then []
    else
      match e.reply
      case Failed => if LastReply(s.journey) && s.journey.routes == [] then [Problem(REQUEST_FAILED)] else []
      case NoPayload => [Problem(INVALID_RESPONSE)]
      case Answer(_, _, values, nodes) =>
        if |values| > 0 then
          var n := FirstBad(values);
          NewValues(h, s.journey.values, values, n) + if n < |values| then [Problem(BAD_VALUE)] else []
        else if !AllReadable(nodes) then [Problem(BAD_NODE)]
        else if Completes(h, s, e) then [Problem(NOT_FOUND)]
        else []
  }

  lemma AfterValues(h: Hasher, s: Lookup, e: Event)
    requires !s.journey.completed && e.reply.Answer? && |e.reply.values| > 0
    ensures var r := Handle(h, s, e.id, e.reply, e.sorted);
            r.user == s.user + Told(h, s, e) && (r.journey.completed <==> Completes(h, s, e))
  {
    var t, values := s.On(ResponseState(s.journey)), e.reply.values;
    var j := RemoveOutstandingState(h, AddOutstandingState(h, t.journey, e.reply.sender, e.reply.found),
                                    e.reply.sender, |values|);
    PassesOnNewValues(h, t.On(j), values);
    assert j.outstanding == OutstandingAfter(h, s.journey, e.reply.sender, e.reply.found, |values|);
    var told := NewValues(h, s.journey.values, values, FirstBad(values));
    var bad := if FirstBad(values) < |values| then [Problem(BAD_VALUE)] else [];
    assert s.user + told + bad == s.user + (told + bad);
  }

  lemma AfterNodes(h: Hasher, s: Lookup, e: Event)
    requires !s.journey.completed && e.reply.Answer? && |e.reply.values| == 0 && |e.reply.nodes| > 0
    ensures var r := Handle(h, s, e.id, e.reply, e.sorted);
            r.user == s.user + Told(h, s, e) && (r.journey.completed <==> Completes(h, s, e))
  {
    if AllReadable(e.reply.nodes) {
      assert OffersNodes(s, e);
      JourneyRuns.AddNodesFrame(h, ResponseState(s.journey), NewNodes(e.id, e.reply.nodes));
    }
  }

  /** For every reply in every state: what the user is called with, and exactly when it completes
      the journey. */
  lemma HandleTells(h: Hasher, s: Lookup, e: Event)
    ensures var r := Handle(h, s, e.id, e.reply, e.sorted);
            && r.user == s.user + Told(h, s, e)
            && (r.journey.completed <==> s.journey.completed || Completes(h, s, e))
  {
    if !s.journey.completed && e.reply.Answer? {
      if |e.reply.values| > 0 {
        AfterValues(h, s, e);
      } else if |e.reply.nodes| > 0 {
        AfterNodes(h, s, e);
      }
    }
  }

  /** A request is forgotten if and only if the journey is completed, before or by the reply, or the
      reply is a failure with nothing left to wait for or to ask. */
  lemma ForgetsIff(h: Hasher, s: Lookup, e: Event)
    ensures Forgets(h, s, e.id, e.reply, e.sorted)
            <==> || s.journey.completed || Completes(h, s, e)
                 || (e.reply.Failed? && LastReply(s.journey) && s.journey.routes == [])
  {
    var t := s.On(ResponseState(s.journey));
    if !s.journey.completed && e.reply.Answer? {
      if |e.reply.values| > 0 {
        var j := RemoveOutstandingState(h, AddOutstandingState(h, t.journey, e.reply.sender, e.reply.found),
                                        e.reply.sender, |e.reply.values|);
        PassesOnNewValues(h, t.On(j), e.reply.values);
        assert j.outstanding == OutstandingAfter(h, s.journey, e.reply.sender, e.reply.found, |e.reply.values|);
      } else if |e.reply.nodes| > 0 && AllReadable(e.reply.nodes) {
        assert OffersNodes(s, e);
        JourneyRuns.AddNodesFrame(h, t.journey, NewNodes(e.id, e.reply.nodes));
      }
    }
  }

  /** A reply that leads on has the three closest routes asked next, or all there are. */
  lemma AsksThreeClosest(h: Hasher, s: Lookup, e: Event)
    requires OffersNodes(s, e) && SortsIfAsking(h, s, e)
    ensures |Asked(h, s, e)| == if s.journey.remaining == 0 then 0 else Min(3, |Offered(h, s, e).routes|)
    ensures var left := Handle(h, s, e.id, e.reply, e.sorted).journey.routes;
            forall r, q | r in Asked(h, s, e) && q in left :: JourneyRuns.CloserOrFaster(r, q)
  {
    JourneyRuns.AddNodesFrame(h, ResponseState(s.journey), NewNodes(e.id, e.reply.nodes));
    if AsksMore(h, s, e) { JourneyRuns.NextIsBest(Offered(h, s, e), FAN_OUT, e.sorted); }
  }

  // ---------------------------------------------------------------- runs

  /** The reply at time `t` completes the journey without values. */
  ghost predicate FruitlessEnd(h: Hasher, s: Lookup, events: seq<Event>, t: nat) {
    t < |events| && Completes(h, After(h, s, events[..t]), events[t]) && |events[t].reply.values| == 0
  }

  lemma {:induction false} NoProblemAmongValues(h: Hasher, seen: set<Hash>, values: seq<Option<Bytes>>, n: nat)
    requires n <= FirstBad(values)
    ensures forall u | u in NewValues(h, seen, values, n) :: u.Found?
  {
    if n > 0 { NoProblemAmongValues(h, seen, values, n - 1); }
  }

  /** A single reply tells that nothing was found exactly when it ends the journey without values,
      and then it tells nothing else. */
  lemma ToldNotFound(h: Hasher, s: Lookup, e: Event)
    ensures Problem(NOT_FOUND) in Told(h, s, e) <==> Completes(h, s, e) && |e.reply.values| == 0
    ensures Problem(NOT_FOUND) in Told(h, s, e) ==> Told(h, s, e) == [Problem(NOT_FOUND)]
  {
    assert NOT_FOUND[0] == 'v' && REQUEST_FAILED[0] == 'r' && INVALID_RESPONSE[0] == 'i';
    assert BAD_VALUE[0] == 'b' && BAD_NODE[0] == 'b';
    if e.reply.Answer? { NoProblemAmongValues(h, s.journey.values, e.reply.values, FirstBad(e.reply.values)); }
  }

  /** If the user has been told that there is no value, that was the end. */
  ghost predicate LastWord(user: seq<UserCall>, completed: bool) {
    var not := Problem(NOT_FOUND);
    not in user ==> completed && user[|user| - 1] == not && not !in user[..|user| - 1]
  }

  lemma OneMoreReply(h: Hasher, s: Lookup, e: Event)
    requires LastWord(s.user, s.journey.completed)
    ensures var r := Handle(h, s, e.id, e.reply, e.sorted);
            && LastWord(r.user, r.journey.completed)
            && (Problem(NOT_FOUND) in r.user <==>
                Problem(NOT_FOUND) in s.user || (Completes(h, s, e) && |e.reply.values| == 0))
  {
    HandleTells(h, s, e);
    ToldNotFound(h, s, e);
    MoreWords(s.user, Told(h, s, e), s.journey.completed, Handle(h, s, e.id, e.reply, e.sorted).journey.completed);
  }

  lemma MoreWords(user: seq<UserCall>, told: seq<UserCall>, before: bool, after: bool)
    requires LastWord(user, before) && (before ==> told == [] && after)
    requires Problem(NOT_FOUND) in told ==> told == [Problem(NOT_FOUND)] && after
    ensures LastWord(user + told, after)
  {
    if told == [] {
      assert user + told == user;
    } else if Problem(NOT_FOUND) in told {
      assert (user + told)[..|user|] == user;
    }
  }

  /** In every run the user learns that there is no value if and only if a reply without values ends
      the journey; and then that is the last the user hears. */
  lemma {:induction false} NotFoundIff(h: Hasher, s: Lookup, events: seq<Event>)
    requires s.user == []
    ensures Problem(NOT_FOUND) in After(h, s, events).user <==> exists t :: FruitlessEnd(h, s, events, t)
    ensures LastWord(After(h, s, events).user, After(h, s, events).journey.completed)
  {
    if events != [] {
      var n := |events| - 1;
      NotFoundIff(h, s, events[..n]);
      OneMoreReply(h, After(h, s, events[..n]), events[n]);
      SameEnds(h, s, events);
    }
  }

  lemma SameEnds(h: Hasher, s: Lookup, events: seq<Event>)
    requires events != []
    ensures var n := |events| - 1;
            (exists t :: FruitlessEnd(h, s, events, t)) <==>
            (exists t :: FruitlessEnd(h, s, events[..n], t)) || FruitlessEnd(h, s, events, n)
  {
    var n := |events| - 1;
    forall t: nat | t < n ensures FruitlessEnd(h, s, events[..n], t) <==> FruitlessEnd(h, s, events, t) {
      assert events[..n][..t] == events[..t];
    }
  }
}
