/**
  The request cache and the store closure as the source has them: a map of pending requests
  with deadlines, and a counter shared by the closures of one `Store` call.
 */
module StoreCalls {
  import opened Packets
  import opened StoreProtocol

  datatype Pending = Pending(index: nat, deadline: int)

  ghost function Indices(m: map<Hash, Pending>): map<Hash, nat> {
    map k | k in m :: m[k].index
  }

  /** The state after a sequence of events. */
  function Steps(c: Call, s: State, events: seq<Event>): State {
    if events == [] then s else Step(c, Steps(c, s, events[..|events| - 1]), events[|events| - 1])
  }

  class StoreCall {
    const call: Call
    var next: nat
    var requests: map<Hash, Pending>
    var acks: nat
    var user: seq<Outcome>
    ghost var acked: set<nat>
    ghost var failed: set<nat>

    constructor (call: Call)
      ensures this.call == call && Value() == START
    {
      this.call := call;
      next, requests, acks, user := 0, map[], 0, [];
      acked, failed := {}, {};
    }

    ghost function Value(): State
      reads this
    {
      State(next, Indices(requests), acks, user, acked, failed)
    }

    /** One turn of the loop of `Store`: the local node is short-cut, a remote one gets a request
        with a deadline. */
    method SendNext(deadline: int)
      requires call.Valid()
      modifies this
      ensures Value() == Step(call, old(Value()), Send)
    {
      if next >= call.n {
        return;
      }
      if !call.Remote(next) {
        if call.n == 1 {
          user := user + [Success];
          next := 1;
          return;
        }
        next := next + 1;
        return;
      }
      requests := requests[call.keys[next] := Pending(next, deadline)];
      next := next + 1;
      assert Indices(requests) == old(Indices(requests))[call.keys[old(next)] := old(next)];
    }

    /** A response: runs the closure of the request, if it is still pending, and forgets it. */
    method Callback(k: Hash)
      modifies this
      ensures Value() == Step(call, old(Value()), Reply(k))
    {
      if k !in requests {
        return;
      }
      acked := acked + {requests[k].index};
      acks := acks + 1;
      if acks == call.n - 1 {
        user := user + [Success];
      }
      requests := requests - {k};
      assert Indices(requests) == old(Indices(requests)) - {k};
    }

    method Expire(k: Hash)
      modifies this
      ensures Value() == Step(call, old(Value()), StoreProtocol.Expire(k))
      ensures requests == old(requests) - {k}
    {
      if k !in requests {
        return;
      }
      failed := failed + {requests[k].index};
      user := user + [Error];
      requests := requests - {k};
      assert Indices(requests) == old(Indices(requests)) - {k};
    }

    /** One sweep of the cache: every request past its deadline gets a timeout and is forgotten. */
    method Sweep(now: int) returns (ghost events: seq<Event>)
      modifies this
      ensures Value() == Steps(call, old(Value()), events)
      ensures forall e | e in events :: e.Expire? && e.k in old(requests) && now > old(requests)[e.k].deadline
      ensures requests == map k | k in old(requests) && now <= old(requests)[k].deadline :: old(requests)[k]
    {
      events := [];
      var keys := requests.Keys;
      while keys != {}
        invariant keys <= requests.Keys <= old(requests).Keys
        invariant forall k | k in requests :: requests[k] == old(requests)[k]
        invariant forall k | k in old(requests) ::
                    k in requests <==> k in keys || now <= old(requests)[k].deadline
        invariant Value() == Steps(call, old(Value()), events)
        invariant forall e | e in events :: e.Expire? && e.k in old(requests) && now > old(requests)[e.k].deadline
        decreases keys
      {
        var k :| k in keys;
        keys := keys - {k};
        if now > requests[k].deadline {
          ghost var e := StoreProtocol.Expire(k);
          assert (events + [e])[..|events|] == events;
          Expire(k);
          events := events + [e];
        }
      }
    }
  }
}
