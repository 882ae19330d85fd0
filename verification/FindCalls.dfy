/**
  The closure of `findValueCallback` as the source has it: it works on the shared journey in
  place and calls the user back.
 */
module FindCalls {
  import opened Ids
  import opened Options
  import opened Buckets
  import opened Journeys
  import opened FindReplies
  import Journey
  import FindTells

  class FindCall {
    const journey: Journey.Journey
    var user: seq<UserCall>

    constructor (journey: Journey.Journey)
      requires journey.Valid()
      ensures Valid() && this.journey == journey && user == []
    {
      this.journey := journey;
      user := [];
    }

    ghost predicate Valid()
      reads this, journey, journey.nodes, journey.distances
    {
      journey.Valid()
    }

    ghost function Value(): Lookup
      requires Valid()
      reads this, journey, journey.nodes, journey.distances
    {
      Lookup(journey.Value(), user)
    }

    method Tell(u: UserCall)
      requires Valid()
      modifies this`user
      ensures Valid() && Value() == old(Value()).Tell(u)
    {
      user := user + [u];
    }

    /** Passes the values of an answer on to the user, each hash once. */
    method PassValues(values: seq<Option<Bytes>>) returns (ok: bool)
      requires Valid()
      modifies this`user, journey
      ensures Valid() && (Value(), ok) == PassOn(journey.hash, old(Value()), values)
    {
      var i := 0;
      assert values[0..] == values;
      while i < |values|
        invariant 0 <= i <= |values| && Valid()
        invariant PassOn(journey.hash, Value(), values[i..]) == PassOn(journey.hash, old(Value()), values)
      {
        assert values[i..][1..] == values[i + 1..];
        if values[i].None? {
          Tell(Problem(BAD_VALUE));
          return false;
        }
        var v := values[i].value;
        var seen := journey.SeenValue(v);
        if !seen {
          Tell(Found(v));
        }
        i := i + 1;
      }
      ok := true;
    }

    method FinishOrNotFound() returns (done: bool)
      requires Valid()
      modifies this`user, journey
      ensures Valid() && Value() == GiveUp(old(Value())) && done == CanFinish(old(Value()).journey, false)
    {
      done := journey.Finish(false);
      if done {
        Tell(Problem(NOT_FOUND));
      }
    }

    method HandleValues(sender: Bytes, found: int, values: seq<Option<Bytes>>) returns (done: bool)
      requires Valid()
      modifies this`user, journey
      ensures Valid() && Value() == OnValues(journey.hash, old(Value()), sender, found, values)
      ensures var h, s := journey.hash, old(Value());
              var j := RemoveOutstandingState(h, AddOutstandingState(h, s.journey, sender, found), sender, |values|);
              done == (PassOn(h, s.On(j), values).1 && CanFinish(PassOn(h, s.On(j), values).0.journey, false))
    {
      journey.AddOutstanding(sender, found);
      journey.RemoveOutstanding(sender, |values|);
      var ok := PassValues(values);
      if !ok {
        return false;
      }
      done := journey.Finish(false);
    }

    /** Offers the nodes of an answer to the journey and asks the next ones. `failing` is how many
        of the writes of these requests fail. */
    method HandleNodes(id: Id, nodes: seq<Option<Address>>, failing: nat)
      returns (done: bool, asked: seq<Node>, ghost sorted: seq<Route>)
      requires Valid()
      modifies this`user, journey, journey.nodes, journey.distances
      ensures Valid() && Value() == OnNodes(journey.hash, old(Value()), id, nodes, sorted)
      ensures done == ((forall n | n in nodes :: n.Some?)
                       && var j := AddNodes(journey.hash, old(Value()).journey, NewNodes(id, nodes));
                          Exhausted(j) && CanFinish(j, false))
      ensures if forall n | n in nodes :: n.Some? then
                var j := AddNodes(journey.hash, old(Value()).journey, NewNodes(id, nodes));
                IsSorting(j.routes, sorted) && asked == Journey.NodesOf(Handed(j, FAN_OUT, sorted))
              else asked == []
    {
      sorted, asked := [], [];
      var newNodes := [];
      var i := 0;
      while i < |nodes|
        invariant 0 <= i <= |nodes| && |newNodes| == i && Valid() && Value() == old(Value())
        invariant forall k | 0 <= k < i :: nodes[k].Some? && newNodes[k] == Node(id, nodes[k].value, 0, 0, 0, 0, false)
      {
        if nodes[i].None? {
          assert nodes[i] in nodes;
          Tell(Problem(BAD_NODE));
          return false, [], sorted;
        }
        newNodes := newNodes + [Node(id, nodes[i].value, 0, 0, 0, 0, false)];
        i := i + 1;
      }
      assert newNodes == NewNodes(id, nodes);
      journey.Add(newNodes);
      var ns;
      ns, sorted := journey.Next(FAN_OUT);
      if ns.None? {
        done := FinishOrNotFound();
        return done, [], sorted;
      }
      asked := ns.value;
      done := RetryFinish(failing);
    }

    /** The error path of the request loop: after a round has been handed out it never finishes. */
    method RetryFinish(failing: nat) returns (done: bool)
      requires Valid() && journey.inflight > 0
      modifies journey`completed
      ensures Valid() && Value() == old(Value()) && !done
    {
      var i := 0;
      while i < failing
        invariant Valid() && Value() == old(Value()) && journey.inflight > 0
      {
        done := journey.Finish(false);
        if done {
          assert false;
        }
        i := i + 1;
      }
      done := false;
    }

    /** One reply to the request sent to the node with the given id; returns whether to forget the
        request, and the nodes asked next. */
    method HandleReply(id: Id, reply: Reply, failing: nat)
      returns (forget: bool, asked: seq<Node>, ghost sorted: seq<Route>)
      requires Valid()
      modifies this`user, journey, journey.nodes, journey.distances
      ensures Valid() && Value() == Handle(journey.hash, old(Value()), id, reply, sorted)
      ensures var e := Event(id, reply, sorted);
              && user == old(user) + FindTells.Told(journey.hash, old(Value()), e)
              && forget == Forgets(journey.hash, old(Value()), id, reply, sorted)
              && SortsIfAsking(journey.hash, old(Value()), e)
              && asked == Journey.NodesOf(Asked(journey.hash, old(Value()), e))
    {
      ghost var before := Value();
      forget, asked, sorted := Respond(id, reply, failing);
      FindTells.HandleTells(journey.hash, before, Event(id, reply, sorted));
    }

    /** The cases of the closure. */
    method Respond(id: Id, reply: Reply, failing: nat)
      returns (forget: bool, asked: seq<Node>, ghost sorted: seq<Route>)
      requires Valid()
      modifies this`user, journey, journey.nodes, journey.distances
      ensures Valid() && Value() == Handle(journey.hash, old(Value()), id, reply, sorted)
      ensures forget == Forgets(journey.hash, old(Value()), id, reply, sorted)
      ensures var e := Event(id, reply, sorted);
              && SortsIfAsking(journey.hash, old(Value()), e)
              && asked == Journey.NodesOf(Asked(journey.hash, old(Value()), e))
    {
      sorted, asked := [], [];
      var completed, shouldError := journey.ResponseReceived();
      if completed {
        return true, [], sorted;
      }
      match reply
      case Failed =>
        if shouldError {
          Tell(Problem(REQUEST_FAILED));
        }
        return shouldError, [], sorted;
      case NoPayload =>
        Tell(Problem(INVALID_RESPONSE));
        return false, [], sorted;
      case Answer(sender, found, values, nodes) =>
        if |values| > 0 {
          forget := HandleValues(sender, found, values);
        } else if |nodes| < 1 {
          forget := FinishOrNotFound();
        } else {
          forget, asked, sorted := HandleNodes(id, nodes, failing);
        }
    }
  }
}
