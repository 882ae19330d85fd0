/**
  What a `Find` that has completed has told the user: the replies of `FindReplies` are the batches
  that responders cut their values into, in any interleaving and mixed with any other replies.
 */
module FindValues {
  import opened Ids
  import opened Options
  import opened Packets
  import opened Batching
  import opened Journeys
  import opened JourneyRuns
  import opened FindReplies
  import opened FindCompletion
  import opened Accounting

  /** The values of a batch as the reply carries them. */
  function Wire(vs: seq<Value>): seq<Option<Bytes>> {
    seq(|vs|, i requires 0 <= i < |vs| => Some(vs[i].value))
  }

  /** The reply is batch `x.b` of responder `x.i`, or one without values. */
  ghost predicate Carries(rs: seq<Responder>, e: FindReplies.Event, x: Happening) {
    match x
    case Batch(i, b) =>
      && i < |rs| && b < |Batches(rs[i].values)| && e.reply.Answer?
      && e.reply.sender == rs[i].id && e.reply.found == |rs[i].values|
      && e.reply.values == Wire(Batches(rs[i].values)[b])
    case Other(y) => Leaves(y) && (e.reply.Answer? ==> e.reply.values == [])
  }

  ghost predicate AllCarry(rs: seq<Responder>, events: seq<FindReplies.Event>, hs: seq<Happening>) {
    |events| == |hs| && forall t | 0 <= t < |events| :: Carries(rs, events[t], hs[t])
  }

  /** The journey had not completed before the last reply. */
  ghost predicate RunsOn(h: Hasher, s: Lookup, events: seq<FindReplies.Event>) {
    events == [] || !FindReplies.After(h, s, events[..|events| - 1]).journey.completed
  }

  lemma RunsOnPrefix(h: Hasher, s: Lookup, events: seq<FindReplies.Event>)
    requires events != [] && RunsOn(h, s, events)
    ensures RunsOn(h, s, events[..|events| - 1])
  {
    var before := events[..|events| - 1];
    if before != [] && FindReplies.After(h, s, before[..|before| - 1]).journey.completed {
      SilentAfterCompletion(h, s, before, |before| - 1);
    }
  }

  // ---------------------------------------------------------------- the counts

  lemma BatchNotEmpty(r: Responder, b: nat)
    requires b < |Batches(r.values)|
    ensures Batches(r.values)[b] != []
  {
    BatchesAre(r.values);
    assert Tight(Batches(r.values)[b]);
  }

  /** A reply changes the outstanding counts as the batch it carries does. */
  lemma HandleOutstanding(h: Hasher, rs: seq<Responder>, t: Lookup, e: FindReplies.Event, x: Happening)
    requires !t.journey.completed && Carries(rs, e, x)
    ensures FindReplies.Handle(h, t, e.id, e.reply, e.sorted).journey.outstanding ==
            Accounting.Handle(h, rs, t.journey, x).outstanding
  {
    var u := t.On(ResponseState(t.journey));
    if x.Other? { OutstandingUnchanged(h, t.journey, x.e); }
    match e.reply
    case Failed =>
    case NoPayload =>
    case Answer(sender, found, values, nodes) =>
      if x.Batch? {
        BatchNotEmpty(rs[x.i], x.b);
        var j := RemoveOutstandingState(h, AddOutstandingState(h, u.journey, sender, found), sender, |values|);
        PassOnFrame(h, u.On(j), values);
      } else if OffersNodes(t, e) {
        AddNodesFrame(h, u.journey, NewNodes(e.id, nodes));
      }
  }

  lemma BalancedByOutstanding(h: Hasher, rs: seq<Responder>, j: JourneyState, j': JourneyState, hs: seq<Happening>)
    requires Balanced(h, rs, j, hs) && j'.outstanding == j.outstanding
    ensures Balanced(h, rs, j', hs)
  {
    forall i | 0 <= i < |rs| ensures Entry(h, rs, j', hs, i) { assert Entry(h, rs, j, hs, i); }
  }

  lemma {:induction false} FindBalances(h: Hasher, rs: seq<Responder>, s: Lookup,
                                        events: seq<FindReplies.Event>, hs: seq<Happening>)
    requires Plausible(h, rs, hs) && AllCarry(rs, events, hs) && RunsOn(h, s, events) && s.journey.outstanding == map[]
    ensures Balanced(h, rs, FindReplies.After(h, s, events).journey, hs)
  {
    if events != [] {
      var n := |events| - 1;
      PlausiblePrefix(h, rs, hs);
      RunsOnPrefix(h, s, events);
      FindBalances(h, rs, s, events[..n], hs[..n]);
      var t := FindReplies.After(h, s, events[..n]);
      HandleBalances(h, rs, t.journey, hs);
      HandleOutstanding(h, rs, t, events[n], hs[n]);
      BalancedByOutstanding(h, rs, Accounting.Handle(h, rs, t.journey, hs[n]),
                            FindReplies.After(h, s, events).journey, hs);
    }
  }

  // ---------------------------------------------------------------- the values

  /** Every hash recorded is that of a value passed on. */
  ghost predicate Told(h: Hasher, s: Lookup) {
    forall k | k in s.journey.values :: ToldValue(h, s.user, k)
  }

  ghost predicate ToldValue(h: Hasher, user: seq<UserCall>, k: Hash) {
    exists i :: 0 <= i < |user| && user[i].Found? && h(user[i].value) == k
  }

  lemma TellTold(h: Hasher, s: Lookup, u: UserCall)
    requires Told(h, s)
    ensures Told(h, s.Tell(u))
  {
    forall k | k in s.journey.values ensures ToldValue(h, s.Tell(u).user, k) {
      var i :| 0 <= i < |s.user| && s.user[i].Found? && h(s.user[i].value) == k;
      assert s.Tell(u).user[i] == s.user[i];
    }
  }

  lemma TellNew(h: Hasher, s: Lookup, v: Bytes)
    requires Told(h, s)
    ensures Told(h, s.On(SeenState(h, s.journey, v)).Tell(Found(v)))
  {
    TellTold(h, s, Found(v));
    var t := s.On(SeenState(h, s.journey, v)).Tell(Found(v));
    assert t.user[|s.user|] == Found(v);
    forall k | k in t.journey.values ensures ToldValue(h, t.user, k) {
      assert t.user == s.Tell(Found(v)).user;
    }
  }

  /** The values of a batch are all recorded, and every hash recorded has been told. */
  lemma {:induction false} PassOnTells(h: Hasher, s: Lookup, values: seq<Option<Bytes>>)
    requires Told(h, s)
    ensures Told(h, PassOn(h, s, values).0) && s.journey.values <= PassOn(h, s, values).0.journey.values
    ensures (forall v | v in values :: v.Some?) ==>
              PassOn(h, s, values).1 && forall v | v in values :: h(v.value) in PassOn(h, s, values).0.journey.values
    decreases |values|
  {
    if values != [] {
      if values[0].None? {
        TellTold(h, s, Problem(BAD_VALUE));
        assert values[0] in values;
      } else {
        var v := values[0].value;
        var t := s.On(SeenState(h, s.journey, v));
        var u := if h(v) in s.journey.values then t else t.Tell(Found(v));
        if h(v) in s.journey.values {
          assert t.journey.values == s.journey.values;
        } else {
          TellNew(h, s, v);
        }
        PassOnTells(h, u, values[1..]);
        assert forall x | x in values :: x == values[0] || x in values[1..];
      }
    }
  }

  /** After one more reply everything recorded has been told, and nothing recorded is forgotten. */
  lemma HandleTells(h: Hasher, s: Lookup, e: FindReplies.Event)
    requires Told(h, s)
    ensures var t := FindReplies.Handle(h, s, e.id, e.reply, e.sorted);
            Told(h, t) && s.journey.values <= t.journey.values
  {
    var u := s.On(ResponseState(s.journey));
    TellTold(h, s, Problem(REQUEST_FAILED));
    TellTold(h, s, Problem(INVALID_RESPONSE));
    TellTold(h, s, Problem(NOT_FOUND));
    TellTold(h, s, Problem(BAD_NODE));
    match e.reply
    case Failed =>
    case NoPayload =>
    case Answer(sender, found, values, nodes) =>
      if |values| > 0 {
        var j := RemoveOutstandingState(h, AddOutstandingState(h, u.journey, sender, found), sender, |values|);
        PassOnTells(h, u.On(j), values);
      } else if OffersNodes(s, e) {
        AddNodesFrame(h, u.journey, NewNodes(e.id, nodes));
      }
  }

  /** A batch records all its values. */
  lemma BatchRecorded(h: Hasher, rs: seq<Responder>, s: Lookup, e: FindReplies.Event, i: nat, b: nat, v: Value)
    requires Told(h, s) && !s.journey.completed && Carries(rs, e, Batch(i, b)) && v in Batches(rs[i].values)[b]
    ensures h(v.value) in FindReplies.Handle(h, s, e.id, e.reply, e.sorted).journey.values
  {
    var u := s.On(ResponseState(s.journey));
    var r := e.reply;
    var j := RemoveOutstandingState(h, AddOutstandingState(h, u.journey, r.sender, r.found), r.sender, |r.values|);
    PassOnTells(h, u.On(j), r.values);
    var k :| 0 <= k < |Batches(rs[i].values)[b]| && Batches(rs[i].values)[b][k] == v;
    assert r.values[k] == Some(v.value) && r.values[k] in r.values;
  }

  lemma {:induction false} ValuesRecorded(h: Hasher, rs: seq<Responder>, s: Lookup, events: seq<FindReplies.Event>,
                                          hs: seq<Happening>, i: nat, b: nat, v: Value)
    requires AllCarry(rs, events, hs) && RunsOn(h, s, events) && s.journey.values == {}
    requires i < |rs| && b in Got(hs, i) && b < |Batches(rs[i].values)| && v in Batches(rs[i].values)[b]
    ensures h(v.value) in FindReplies.After(h, s, events).journey.values
  {
    var n := |events| - 1;
    var t := FindReplies.After(h, s, events[..n]);
    RunsOnPrefix(h, s, events);
    RunTells(h, s, events[..n]);
    HandleTells(h, t, events[n]);
    GotExtend(hs, i);
    if b in Got(hs[..n], i) {
      ValuesRecorded(h, rs, s, events[..n], hs[..n], i, b, v);
    } else {
      BatchRecorded(h, rs, t, events[n], i, b, v);
    }
  }

  lemma {:induction false} RunTells(h: Hasher, s: Lookup, events: seq<FindReplies.Event>)
    requires s.journey.values == {}
    ensures Told(h, FindReplies.After(h, s, events))
  {
    if events != [] {
      var n := |events| - 1;
      RunTells(h, s, events[..n]);
      HandleTells(h, FindReplies.After(h, s, events[..n]), events[n]);
    }
  }

  // ---------------------------------------------------------------- main result

  /** A journey that completes expects no more values by its own count. */
  lemma CompletesWithNoneOutstanding(h: Hasher, s: Lookup, e: FindReplies.Event)
    requires !s.journey.completed && FindReplies.Handle(h, s, e.id, e.reply, e.sorted).journey.completed
    ensures SumValues(FindReplies.Handle(h, s, e.id, e.reply, e.sorted).journey.outstanding) <= 0
  {
    var t := s.On(ResponseState(s.journey));
    match e.reply
    case Failed =>
    case NoPayload =>
    case Answer(sender, found, values, nodes) =>
      if |values| > 0 {
        var j := RemoveOutstandingState(h, AddOutstandingState(h, t.journey, sender, found), sender, |values|);
        PassOnFrame(h, t.On(j), values);
      } else if OffersNodes(s, e) {
        AddNodesFrame(h, t.journey, NewNodes(e.id, nodes));
      }
  }

  /** When a `Find` completes, every value of every responder that has answered has been passed on
      to the user, or one with the same hash. */
  lemma EveryValueReachesTheUser(h: Hasher, rs: seq<Responder>, s: Lookup, events: seq<FindReplies.Event>,
                                 hs: seq<Happening>, i: nat, v: Value)
    requires Plausible(h, rs, hs) && AllCarry(rs, events, hs) && Completes(h, s, events)
    requires s.journey.outstanding == map[] && s.journey.values == {}
    requires i < |rs| && Got(hs, i) != {} && v in rs[i].values
    ensures ToldValue(h, FindReplies.After(h, s, events).user, h(v.value))
  {
    var n := |events| - 1;
    var t := FindReplies.After(h, s, events);
    FindBalances(h, rs, s, events, hs);
    CompletesWithNoneOutstanding(h, FindReplies.After(h, s, events[..n]), events[n]);
    BatchesAre(rs[i].values);
    var b := InSomeBatch(Batches(rs[i].values), v);
    AllGot(h, rs, t.journey, hs, i, b);
    ValuesRecorded(h, rs, s, events, hs, i, b, v);
    RunTells(h, s, events);
  }

  lemma {:induction false} InSomeBatch(batches: seq<seq<Value>>, v: Value) returns (b: nat)
    requires v in Flatten(batches)
    ensures b < |batches| && v in batches[b]
  {
    if v in batches[0] {
      b := 0;
    } else {
      b := InSomeBatch(batches[1..], v);
      b := b + 1;
    }
  }
}
