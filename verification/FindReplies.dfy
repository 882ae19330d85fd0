/**
  The reply handler of `Find`: one atomic step per reply, on the journey and on what the user's
  callback has been called with.
 */
module FindReplies {
  import opened Ids
  import opened Options
  import opened Buckets
  import opened Packets
  import opened Journeys
  import opened JourneyRuns

  /** Nodes asked per round. */
  const FAN_OUT := 3

  /** What the user's callback is called with. */
  datatype UserCall = Found(value: Bytes) | Problem(what: string)

  const REQUEST_FAILED := "request failed"
  const INVALID_RESPONSE := "invalid response to find value request"
  const BAD_VALUE := "bad find value data"
  const BAD_NODE := "bad find value node data"
  const NOT_FOUND := "value not found"

  /** What arrives for a request: a failure, an event without payload, or values or nodes, where
      an entry that cannot be decoded is None. */
  datatype Reply =
    | Failed
    | NoPayload
    | Answer(sender: Bytes, found: int, values: seq<Option<Bytes>>, nodes: seq<Option<Address>>)

  datatype Lookup = Lookup(journey: JourneyState, user: seq<UserCall>)
  {
    function Tell(u: UserCall): Lookup {
      this.(user := user + [u])
    }

    function On(j: JourneyState): Lookup {
      this.(journey := j)
    }
  }

  /** The values in order, each passed on unless its hash has been seen; stops at a bad one. */
  function PassOn(h: Hasher, s: Lookup, values: seq<Option<Bytes>>): (r: (Lookup, bool))
    decreases |values|
  {
    if values == [] then (s, true)
    else if values[0].None? then (s.Tell(Problem(BAD_VALUE)), false)
    else
      var v := values[0].value;
      var t := s.On(SeenState(h, s.journey, v));
      PassOn(h, if h(v) in s.journey.values then t else t.Tell(Found(v)), values[1..])
  }

  /** An unforced finish that, if it succeeds, tells the user that there is nothing. */
  ghost function GiveUp(s: Lookup): Lookup {
    var t := s.On(FinishState(s.journey, false));
    if CanFinish(s.journey, false) then t.Tell(Problem(NOT_FOUND)) else t
  }

  /** The source builds every node of a reply with the id of the responder. */
  function NewNodes(id: Id, nodes: seq<Option<Address>>): seq<Node>
    requires forall n | n in nodes :: n.Some?
  {
    seq(|nodes|, i requires 0 <= i < |nodes| => assert nodes[i] in nodes; Node(id, nodes[i].value, 0, 0, 0, 0, false))
  }

  ghost function OnValues(h: Hasher, s: Lookup, sender: Bytes, found: int, values: seq<Option<Bytes>>): Lookup {
    var j := RemoveOutstandingState(h, AddOutstandingState(h, s.journey, sender, found), sender, |values|);
    var (t, ok) := PassOn(h, s.On(j), values);
    if ok then t.On(FinishState(t.journey, false)) else t
  }

  ghost function OnNodes(h: Hasher, s: Lookup, id: Id, nodes: seq<Option<Address>>, sorted: seq<Route>): Lookup {
    if exists n :: n in nodes && n.None? then s.Tell(Problem(BAD_NODE))
    else
      var j := AddNodes(h, s.journey, NewNodes(id, nodes));
      if Exhausted(j) then GiveUp(s.On(j)) else s.On(NextState(j, FAN_OUT, sorted))
  }

  /** One reply from the node with the given id. */
  ghost function Handle(h: Hasher, s: Lookup, id: Id, reply: Reply, sorted: seq<Route>): Lookup {
    var t := s.On(ResponseState(s.journey));
    if s.journey.completed then t
    else
      match reply
      case Failed => if ShouldError(t.journey) then t.Tell(Problem(REQUEST_FAILED)) else t
      case NoPayload => t.Tell(Problem(INVALID_RESPONSE))
      case Answer(sender, found, values, nodes) =>
        if |values| > 0 then OnValues(h, t, sender, found, values)
        else if |nodes| < 1 then GiveUp(t)
        else OnNodes(h, t, id, nodes, sorted)
  }

  /** Whether the closure asks the cache to forget the request. */
  ghost predicate Forgets(h: Hasher, s: Lookup, id: Id, reply: Reply, sorted: seq<Route>) {
    var t := s.On(ResponseState(s.journey));
    s.journey.completed ||
    match reply
    case Failed => ShouldError(t.journey)
    case NoPayload => false
    case Answer(sender, found, values, nodes) =>
      if |values| > 0 then
        var j := RemoveOutstandingState(h, AddOutstandingState(h, t.journey, sender, found), sender, |values|);
        PassOn(h, t.On(j), values).1 && CanFinish(PassOn(h, t.On(j), values).0.journey, false)
      else if |nodes| < 1 then CanFinish(t.journey, false)
      else (forall n | n in nodes :: n.Some?)
           && var j := AddNodes(h, t.journey, NewNodes(id, nodes)); Exhausted(j) && CanFinish(j, false)
  }

  // ---------------------------------------------------------------- runs

  datatype Event = Event(id: Id, reply: Reply, sorted: seq<Route>)

  ghost function After(h: Hasher, s: Lookup, events: seq<Event>): Lookup {
    if events == [] then s
    else
      var e := events[|events| - 1];
      Handle(h, After(h, s, events[..|events| - 1]), e.id, e.reply, e.sorted)
  }

  // ---------------------------------------------------------------- values are passed on once

  /** No two values passed on share a hash, and all their hashes are recorded. */
  ghost predicate OnceInv(h: Hasher, s: Lookup) {
    && (forall i | 0 <= i < |s.user| && s.user[i].Found? :: h(s.user[i].value) in s.journey.values)
    && (forall i, j | 0 <= i < j < |s.user| && s.user[i].Found? && s.user[j].Found? ::
          h(s.user[i].value) != h(s.user[j].value))
  }

  lemma TellKeeps(h: Hasher, s: Lookup, what: string)
    requires OnceInv(h, s)
    ensures OnceInv(h, s.Tell(Problem(what)))
  {
  }

  lemma TellValue(h: Hasher, s: Lookup, v: Bytes)
    requires OnceInv(h, s) && h(v) !in s.journey.values
    ensures OnceInv(h, s.On(SeenState(h, s.journey, v)).Tell(Found(v)))
  {
  }

  lemma {:induction false} PassOnKeeps(h: Hasher, s: Lookup, values: seq<Option<Bytes>>)
    requires OnceInv(h, s)
    ensures OnceInv(h, PassOn(h, s, values).0)
    decreases |values|
  {
    if values != [] {
      if values[0].None? {
        TellKeeps(h, s, BAD_VALUE);
      } else {
        var v := values[0].value;
        var t := s.On(SeenState(h, s.journey, v));
        if h(v) !in s.journey.values {
          TellValue(h, s, v);
          PassOnKeeps(h, t.Tell(Found(v)), values[1..]);
        } else {
          PassOnKeeps(h, t, values[1..]);
        }
      }
    }
  }

  lemma HandleKeeps(h: Hasher, s: Lookup, e: Event)
    requires OnceInv(h, s)
    ensures OnceInv(h, Handle(h, s, e.id, e.reply, e.sorted))
  {
    var t := s.On(ResponseState(s.journey));
    assert OnceInv(h, t);
    match e.reply
    case Failed =>
    case NoPayload =>
    case Answer(sender, found, values, nodes) =>
      if |values| > 0 {
        var j := RemoveOutstandingState(h, AddOutstandingState(h, t.journey, sender, found), sender, |values|);
        PassOnKeeps(h, t.On(j), values);
      } else if |nodes| >= 1 && forall n | n in nodes :: n.Some? {
        AddNodesFrame(h, t.journey, NewNodes(e.id, nodes));
      }
  }

  /** Over every run of replies from any responders, no two values with the same hash are passed
      on to the user. */
  lemma {:induction false} NoValueTwice(h: Hasher, s: Lookup, events: seq<Event>)
    requires OnceInv(h, s)
    ensures OnceInv(h, After(h, s, events))
  {
    if events != [] {
      var n := |events| - 1;
      NoValueTwice(h, s, events[..n]);
      HandleKeeps(h, After(h, s, events[..n]), events[n]);
    }
  }

  // ---------------------------------------------------------------- silence after completion

  /** Once the journey is completed no reply, of any kind, reaches the user. */
  lemma {:induction false} SilentAfterCompletion(h: Hasher, s: Lookup, events: seq<Event>, t: nat)
    requires t <= |events| && After(h, s, events[..t]).journey.completed
    ensures After(h, s, events).user == After(h, s, events[..t]).user
    ensures After(h, s, events).journey.completed
    decreases |events|
  {
    if t < |events| {
      var n := |events| - 1;
      assert events[..n][..t] == events[..t];
      SilentAfterCompletion(h, s, events[..n], t);
    } else {
      assert events[..t] == events;
    }
  }

  // ---------------------------------------------------------------- what a lookup learns

  /** Nodes of a reply all carry the responder's id, which is marked already: nothing is added. */
  lemma {:induction false} KnownNodesAddNothing(h: Hasher, s: JourneyState, ns: seq<Node>, id: Id)
    requires forall n | n in ns :: n.id == id
    requires id == s.source || h(id) in s.visited
    ensures AddNodes(h, s, ns) == s
  {
    if ns != [] {
      assert ns[|ns| - 1] in ns;
      KnownNodesAddNothing(h, s, ns[..|ns| - 1], id);
    }
  }

  /** The reply names nodes, all of them readable, while the journey goes on. */
  ghost predicate OffersNodes(s: Lookup, e: Event) {
    && !s.journey.completed && e.reply.Answer? && |e.reply.values| == 0 && |e.reply.nodes| >= 1
    && forall n | n in e.reply.nodes :: n.Some?
  }

  /** The journey with the nodes of the reply offered to it. */
  ghost function Offered(h: Hasher, s: Lookup, e: Event): JourneyState
    requires OffersNodes(s, e)
  {
    AddNodes(h, ResponseState(s.journey), NewNodes(e.id, e.reply.nodes))
  }

  /** The reply leads to a further round of requests. */
  ghost predicate AsksMore(h: Hasher, s: Lookup, e: Event) {
    OffersNodes(s, e) && !Exhausted(Offered(h, s, e))
  }

  /** The routes handed out in answer to a reply. */
  ghost function Asked(h: Hasher, s: Lookup, e: Event): seq<Route> {
    if AsksMore(h, s, e) then Handed(Offered(h, s, e), FAN_OUT, e.sorted) else []
  }

  /** Offering nodes under an id that is marked changes nothing. */
  lemma OfferedKnown(h: Hasher, s: Lookup, e: Event)
    requires OffersNodes(s, e) && h(e.id) in s.journey.visited
    ensures Offered(h, s, e) == ResponseState(s.journey)
  {
    KnownNodesAddNothing(h, ResponseState(s.journey), NewNodes(e.id, e.reply.nodes), e.id);
  }

  ghost function AskedIn(h: Hasher, s: Lookup, events: seq<Event>): seq<Route> {
    if events == [] then []
    else
      var n := |events| - 1;
      AskedIn(h, s, events[..n]) + Asked(h, After(h, s, events[..n]), events[n])
  }

  ghost predicate FromHanded(handed: seq<Route>, id: Id) {
    exists r :: r in handed && r.node.id == id
  }

  /** Every reply comes from a node that was asked, and every sort sorts the routes. */
  ghost predicate Genuine(h: Hasher, s: Lookup, handed: seq<Route>, events: seq<Event>)
    decreases |events|
  {
    events == [] ||
    (var n := |events| - 1;
     && Genuine(h, s, handed, events[..n])
     && FromHanded(handed + AskedIn(h, s, events[..n]), events[n].id)
     && SortsIfAsking(h, After(h, s, events[..n]), events[n]))
  }

  /** When a further round is handed out, `sorted` is the result of the sort in it. */
  ghost predicate SortsIfAsking(h: Hasher, s: Lookup, e: Event) {
    AsksMore(h, s, e) ==> IsSorting(Offered(h, s, e).routes, e.sorted)
  }

  ghost predicate SameTrail(a: JourneyState, b: JourneyState) {
    a.routes == b.routes && a.visited == b.visited && a.source == b.source
  }

  lemma {:induction false} PassOnSameTrail(h: Hasher, s: Lookup, values: seq<Option<Bytes>>)
    ensures SameTrail(s.journey, PassOn(h, s, values).0.journey)
    decreases |values|
  {
    if values != [] && values[0].Some? {
      var v := values[0].value;
      var t := s.On(SeenState(h, s.journey, v));
      PassOnSameTrail(h, if h(v) in s.journey.values then t else t.Tell(Found(v)), values[1..]);
    }
  }

  /** A reply from a marked node changes the routes only by handing some of them out. */
  lemma HandleRoutes(h: Hasher, s: Lookup, e: Event)
    requires h(e.id) in s.journey.visited
    ensures var j := Handle(h, s, e.id, e.reply, e.sorted).journey;
            if AsksMore(h, s, e) then SameTrail(j, NextState(s.journey, FAN_OUT, e.sorted)) else SameTrail(j, s.journey)
  {
    var t := s.On(ResponseState(s.journey));
    match e.reply
    case Failed =>
    case NoPayload =>
    case Answer(sender, found, values, nodes) =>
      if |values| > 0 {
        var j := RemoveOutstandingState(h, AddOutstandingState(h, t.journey, sender, found), sender, |values|);
        PassOnSameTrail(h, t.On(j), values);
      } else if OffersNodes(s, e) {
        OfferedKnown(h, s, e);
      }
  }

  /** Every node is asked at most once, and the nodes asked and the live routes are `all`. */
  ghost predicate Conserves(h: Hasher, j: JourneyState, handed: seq<Route>, all: multiset<Route>) {
    TrailInv(h, j, handed) && multiset(handed) + multiset(j.routes) == all
  }

  lemma HandleTrail(h: Hasher, s: Lookup, e: Event, before: seq<Route>, asked: seq<Route>, all: multiset<Route>)
    requires Conserves(h, s.journey, before + asked, all)
    requires FromHanded(before + asked, e.id) && SortsIfAsking(h, s, e)
    ensures Conserves(h, Handle(h, s, e.id, e.reply, e.sorted).journey, before + (asked + Asked(h, s, e)), all)
  {
    HandedIsMarked(h, s.journey, before + asked, e.id);
    HandleRoutes(h, s, e);
    if OffersNodes(s, e) { OfferedKnown(h, s, e); }
    MoveTrail(h, s.journey, Handle(h, s, e.id, e.reply, e.sorted).journey, AsksMore(h, s, e), e.sorted,
              before, asked, all);
  }

  lemma HandedIsMarked(h: Hasher, j: JourneyState, handed: seq<Route>, id: Id)
    requires TrailInv(h, j, handed) && FromHanded(handed, id)
    ensures h(id) in j.visited
  {
  }

  /** Either nothing moves, or some routes go from the live ones to those asked. */
  lemma MoveTrail(h: Hasher, j: JourneyState, j': JourneyState, moved: bool, sorted: seq<Route>,
                  before: seq<Route>, asked: seq<Route>, all: multiset<Route>)
    requires Conserves(h, j, before + asked, all) && (moved ==> IsSorting(j.routes, sorted))
    requires SameTrail(j', if moved then NextState(j, FAN_OUT, sorted) else j)
    ensures Conserves(h, j', before + (asked + if moved then Handed(j, FAN_OUT, sorted) else []), all)
  {
    if moved {
      var out := Handed(j, FAN_OUT, sorted);
      HandOutConserves(h, j, j', sorted, before + asked, all);
      assert before + (asked + out) == before + asked + out;
    } else {
      assert before + (asked + []) == before + asked;
    }
  }

  lemma HandOutConserves(h: Hasher, j: JourneyState, j': JourneyState, sorted: seq<Route>,
                         handed: seq<Route>, all: multiset<Route>)
    requires Conserves(h, j, handed, all) && IsSorting(j.routes, sorted)
    requires SameTrail(j', NextState(j, FAN_OUT, sorted))
    ensures Conserves(h, j', handed + Handed(j, FAN_OUT, sorted), all)
  {
    var out := Handed(j, FAN_OUT, sorted);
    NextTrail(h, j, FAN_OUT, sorted, handed);
    NextConserves(j, FAN_OUT, sorted);
    assert multiset(handed + out) == multiset(handed) + multiset(out);
  }

  /** A lookup never learns of a node: whatever nodes the replies name, the nodes it has asked and
      may still ask are exactly those it started with. */
  lemma {:induction false} LookupNeverLearns(h: Hasher, s: Lookup, handed: seq<Route>, events: seq<Event>)
    requires TrailInv(h, s.journey, handed) && Genuine(h, s, handed, events)
    ensures Conserves(h, After(h, s, events).journey, handed + AskedIn(h, s, events),
                      multiset(handed) + multiset(s.journey.routes))
  {
    if events == [] {
      assert handed + AskedIn(h, s, events) == handed;
    } else {
      var n := |events| - 1;
      LookupNeverLearns(h, s, handed, events[..n]);
      HandleTrail(h, After(h, s, events[..n]), events[n], handed, AskedIn(h, s, events[..n]),
                  multiset(handed) + multiset(s.journey.routes));
    }
  }
}
