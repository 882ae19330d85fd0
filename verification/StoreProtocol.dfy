/**
  `Store` with the request cache: requests go out one by one while replies, duplicate replies
  and timeouts come in, and the closures of all requests share one counter.
 */
module StoreProtocol {
  import opened Packets
  import opened Sums
  import opened Options

  /** The call: `n` nodes to store to, which of them (if any) is the local one, and the hash of
      the request id drawn for each. */
  datatype Call = Call(n: nat, local: Option<nat>, keys: seq<Hash>)
  {
    ghost predicate Valid() {
      && n > 0 && |keys| == n && (local.Some? ==> local.value < n)
      && (forall i, j | 0 <= i < j < n :: keys[i] != keys[j])
    }

    predicate Remote(i: nat) {
      i < n && local != Some(i)
    }

    ghost function Remotes(): set<nat> {
      set i: nat | 0 <= i < n && Remote(i)
    }
  }

  /** What the user's callback is called with. */
  datatype Outcome = Success | Error

  /** Nodes processed by the loop, the pending requests by key, the shared counter, the calls of
      the user's callback, and which requests were acknowledged and which timed out. */
  datatype State = State(next: nat, pending: map<Hash, nat>, acks: nat, user: seq<Outcome>,
                         acked: set<nat>, failed: set<nat>)

  const START := State(0, map[], 0, [], {}, {})

  datatype Event =
    | Send               // the loop of Store handles the next node
    | Reply(k: Hash)     // a response carrying a request id arrives
    | Expire(k: Hash)    // the sweep of the cache finds a pending request expired

  function Step(c: Call, s: State, e: Event): State {
    match e
    case Send =>
      if s.next >= c.n || s.next >= |c.keys| then s
      else if c.Remote(s.next) then s.(next := s.next + 1, pending := s.pending[c.keys[s.next] := s.next])
      else if c.n == 1 then s.(next := 1, user := s.user + [Success])
      else s.(next := s.next + 1)
    case Reply(k) =>
      if k !in s.pending then s
      else
        s.(pending := s.pending - {k}, acks := s.acks + 1, acked := s.acked + {s.pending[k]},
           user := if s.acks + 1 == c.n - 1 then s.user + [Success] else s.user)
    case Expire(k) =>
      if k !in s.pending then s
      else s.(pending := s.pending - {k}, failed := s.failed + {s.pending[k]}, user := s.user + [Error])
  }

  function After(c: Call, events: seq<Event>): State {
    if events == [] then START else Step(c, After(c, events[..|events| - 1]), events[|events| - 1])
  }

  // ---------------------------------------------------------------- the invariant

  /** The request of node `i` has been sent and has neither been acknowledged nor timed out. */
  predicate Open(c: Call, s: State, i: nat) {
    c.Remote(i) && i < s.next && i !in s.acked && i !in s.failed
  }

  /** A request is pending, under its own key, exactly while it is open. */
  ghost predicate PendingInv(c: Call, s: State)
    requires c.Valid()
  {
    && s.next <= c.n && s.acked !! s.failed && s.acks == |s.acked|
    && (forall k | k in s.pending :: Open(c, s, s.pending[k]) && c.keys[s.pending[k]] == k)
    && (forall i: nat | Open(c, s, i) :: c.keys[i] in s.pending)
    && (forall i | i in s.acked + s.failed :: c.Remote(i) && i < s.next)
  }

  function Count(user: seq<Outcome>, o: Outcome): nat {
    if user == [] then 0 else Count(user[..|user| - 1], o) + if user[|user| - 1] == o then 1 else 0
  }

  /** The outcomes seen by the user, in terms of which requests ended how. */
  ghost predicate UserInv(c: Call, s: State) {
    && Count(s.user, Error) == |s.failed|
    && Count(s.user, Success) ==
         if c.n == 1 then (if c.local.Some? && s.next == 1 then 1 else 0)
         else if |s.acked| >= c.n - 1 then 1 else 0
  }

  lemma CountSnoc(user: seq<Outcome>, x: Outcome, o: Outcome)
    ensures Count(user + [x], o) == Count(user, o) + if x == o then 1 else 0
  {
  }

  lemma SendPending(c: Call, s: State)
    requires c.Valid() && PendingInv(c, s)
    ensures PendingInv(c, Step(c, s, Send))
  {
  }

  /** A pending request gets its outcome; every other stays as it is. */
  lemma ClosePending(c: Call, s: State, s': State, k: Hash)
    requires c.Valid() && PendingInv(c, s) && k in s.pending
    requires s'.next == s.next && s'.pending == s.pending - {k} && s'.acks == |s'.acked|
    requires (s'.acked == s.acked + {s.pending[k]} && s'.failed == s.failed)
             || (s'.acked == s.acked && s'.failed == s.failed + {s.pending[k]})
    ensures PendingInv(c, s')
  {
    var i := s.pending[k];
    assert Open(c, s, i) && i !in s.acked;
    assert forall j: nat :: Open(c, s', j) <==> Open(c, s, j) && j != i;
  }

  lemma StepPending(c: Call, s: State, e: Event)
    requires c.Valid() && PendingInv(c, s)
    ensures PendingInv(c, Step(c, s, e))
  {
    match e
    case Send => SendPending(c, s);
    case Reply(k) =>
      if k in s.pending {
        assert Open(c, s, s.pending[k]);
        ClosePending(c, s, Step(c, s, e), k);
      }
    case Expire(k) => if k in s.pending { ClosePending(c, s, Step(c, s, e), k); }
  }

  lemma StepUser(c: Call, s: State, e: Event)
    requires c.Valid() && PendingInv(c, s) && UserInv(c, s)
    ensures UserInv(c, Step(c, s, e))
  {
    match e
    case Send =>
      CountSnoc(s.user, Success, Success);
      CountSnoc(s.user, Success, Error);
    case Reply(k) => if k in s.pending { ReplyUser(c, s, k); }
    case Expire(k) => if k in s.pending { ExpireUser(c, s, k); }
  }

  lemma ReplyUser(c: Call, s: State, k: Hash)
    requires c.Valid() && PendingInv(c, s) && UserInv(c, s) && k in s.pending
    ensures UserInv(c, Step(c, s, Reply(k)))
  {
  }

  lemma ExpireUser(c: Call, s: State, k: Hash)
    requires c.Valid() && PendingInv(c, s) && UserInv(c, s) && k in s.pending
    ensures UserInv(c, Step(c, s, Expire(k)))
  {
  }

  lemma {:induction false} RunInv(c: Call, events: seq<Event>)
    requires c.Valid()
    ensures PendingInv(c, After(c, events)) && UserInv(c, After(c, events))
  {
    if events != [] {
      var n := |events| - 1;
      RunInv(c, events[..n]);
      StepPending(c, After(c, events[..n]), events[n]);
      StepUser(c, After(c, events[..n]), events[n]);
    }
  }

  // ---------------------------------------------------------------- main results

  lemma {:induction false} RemoteCount(c: Call)
    requires c.Valid()
    ensures |c.Remotes()| == if c.local.Some? then c.n - 1 else c.n
  {
    BelowCount(c.n);
    if c.local.Some? {
      assert c.Remotes() == Below(c.n) - {c.local.value};
    } else {
      assert c.Remotes() == Below(c.n);
    }
  }

  ghost function Below(n: nat): set<nat> {
    if n == 0 then {} else Below(n - 1) + {n - 1}
  }

  lemma {:induction false} BelowCount(n: nat)
    ensures |Below(n)| == n
    ensures forall i: nat :: i in Below(n) <==> i < n
  {
    if n > 0 { BelowCount(n - 1); }
  }

  /** With the local node among the nodes and at least one remote: in every order of sends,
      replies, duplicates and timeouts each request has at most one outcome, success is reported
      at most once and exactly when every remote node has acknowledged, and success and error
      are never both reported. */
  lemma StoreReportsFaithfully(c: Call, events: seq<Event>)
    requires c.Valid() && c.local.Some? && c.n > 1
    ensures var s := After(c, events);
            && s.acked !! s.failed && s.acked + s.failed <= c.Remotes()
            && Count(s.user, Success) <= 1 && Count(s.user, Error) == |s.failed|
            && (Count(s.user, Success) == 1 <==> s.acked == c.Remotes())
            && (Count(s.user, Success) == 0 || Count(s.user, Error) == 0)
  {
    RunInv(c, events);
    RemoteCount(c);
    var s := After(c, events);
    assert s.acked <= c.Remotes() && s.failed <= c.Remotes();
    SubsetSize(s.acked, c.Remotes());
    if s.acked == c.Remotes() {
      assert s.failed == {};
    }
  }

  // ---------------------------------------------------------------- the fate of each request

  datatype Fate = Unsent | Waiting | Acked | TimedOut

  function Sends(events: seq<Event>): nat {
    if events == [] then 0 else Sends(events[..|events| - 1]) + if events[|events| - 1].Send? then 1 else 0
  }

  /** What an event makes of the fate of the request to node `i`, when there were `sends` turns of
      the loop before. */
  function NextFate(c: Call, f: Fate, e: Event, sends: nat, i: nat): Fate
    requires i < |c.keys|
  {
    match f
    case Unsent => if e.Send? && sends == i then Waiting else Unsent
    case Waiting => if e == Reply(c.keys[i]) then Acked else if e == Expire(c.keys[i]) then TimedOut else Waiting
    case decided => decided
  }

  /** The request to node `i` goes out with the `i`-th turn of the loop, and the first response or
      expiry after that decides its fate. */
  function FateOf(c: Call, events: seq<Event>, i: nat): Fate
    requires i < |c.keys|
  {
    if events == [] then Unsent
    else
      var n := |events| - 1;
      NextFate(c, FateOf(c, events[..n], i), events[n], Sends(events[..n]), i)
  }

  /** The fate recorded in the state. */
  function FateIn(s: State, i: nat): Fate {
    if i >= s.next then Unsent else if i in s.acked then Acked else if i in s.failed then TimedOut else Waiting
  }

  /** A key is pending for node `i` exactly while its request is waiting. */
  ghost predicate WaitsUnder(c: Call, s: State, k: Hash, i: nat)
    requires i < |c.keys|
  {
    k in s.pending && s.pending[k] == i <==> FateIn(s, i) == Waiting && c.keys[i] == k
  }

  lemma PendingIsWaiting(c: Call, s: State, k: Hash, i: nat)
    requires c.Valid() && PendingInv(c, s) && c.Remote(i)
    ensures WaitsUnder(c, s, k, i)
  {
    assert Open(c, s, i) <==> FateIn(s, i) == Waiting;
  }

  lemma CloseFate(c: Call, s: State, e: Event, sends: nat, i: nat)
    requires i < |c.keys| && !e.Send? && WaitsUnder(c, s, e.k, i)
    ensures FateIn(Step(c, s, e), i) == NextFate(c, FateIn(s, i), e, sends, i)
  {
  }

  lemma SendFate(c: Call, s: State, sends: nat, i: nat)
    requires |c.keys| == c.n && c.Remote(i) && s.next == (if sends < c.n then sends else c.n)
    requires i >= s.next ==> i !in s.acked && i !in s.failed
    ensures FateIn(Step(c, s, Send), i) == NextFate(c, FateIn(s, i), Send, sends, i)
  {
  }

  lemma StepFate(c: Call, s: State, e: Event, sends: nat, i: nat)
    requires c.Valid() && PendingInv(c, s) && c.Remote(i) && s.next == (if sends < c.n then sends else c.n)
    ensures FateIn(Step(c, s, e), i) == NextFate(c, FateIn(s, i), e, sends, i)
  {
    if e.Send? {
      SendFate(c, s, sends, i);
    } else {
      PendingIsWaiting(c, s, e.k, i);
      CloseFate(c, s, e, sends, i);
    }
  }

  lemma {:induction false} SendsAreCounted(c: Call, events: seq<Event>)
    requires c.Valid()
    ensures After(c, events).next == if Sends(events) < c.n then Sends(events) else c.n
  {
    if events != [] { SendsAreCounted(c, events[..|events| - 1]); }
  }

  /** In every run the state records the fate of every remote request. */
  lemma {:induction false} FatesAreRecorded(c: Call, events: seq<Event>, i: nat)
    requires c.Valid() && c.Remote(i)
    ensures FateIn(After(c, events), i) == FateOf(c, events, i)
  {
    if events != [] {
      var n := |events| - 1;
      FatesAreRecorded(c, events[..n], i);
      RunInv(c, events[..n]);
      SendsAreCounted(c, events[..n]);
      StepFate(c, After(c, events[..n]), events[n], Sends(events[..n]), i);
    }
  }

  /** The remote requests of a given fate. */
  ghost function WithFate(c: Call, events: seq<Event>, f: Fate): set<nat>
    requires |c.keys| == c.n
  {
    set i: nat | i < c.n && c.Remote(i) && FateOf(c, events, i) == f
  }

  lemma SetsOfFate(c: Call, s: State, i: nat)
    requires c.Valid() && PendingInv(c, s)
    ensures i in s.acked <==> FateIn(s, i) == Acked
    ensures i in s.failed <==> FateIn(s, i) == TimedOut
  {
    assert i in s.acked || i in s.failed ==> i in s.acked + s.failed;
  }

  lemma RecordedSets(c: Call, events: seq<Event>)
    requires c.Valid()
    ensures After(c, events).acked == WithFate(c, events, Acked)
    ensures After(c, events).failed == WithFate(c, events, TimedOut)
  {
    var s := After(c, events);
    RunInv(c, events);
    forall i: nat | c.Remote(i)
      ensures i in s.acked <==> FateOf(c, events, i) == Acked
      ensures i in s.failed <==> FateOf(c, events, i) == TimedOut
    {
      FatesAreRecorded(c, events, i);
      SetsOfFate(c, s, i);
    }
    assert forall i | i in s.acked + s.failed :: c.Remote(i);
  }

  /** With the local node among several, success is reported if and only if every remote request is
      answered before it times out, and as many errors as there are requests that time out first. */
  lemma StoreReportsFates(c: Call, events: seq<Event>)
    requires c.Valid() && c.local.Some? && c.n > 1
    ensures Count(After(c, events).user, Success) == 1 <==> WithFate(c, events, Acked) == c.Remotes()
    ensures Count(After(c, events).user, Error) == |WithFate(c, events, TimedOut)|
  {
    RecordedSets(c, events);
    StoreReportsFaithfully(c, events);
  }

  // ---------------------------------------------------------------- without the local node

  /** The run in which all requests go out, the first `j` nodes answer and nothing else happens. */
  function Answered(c: Call, j: nat): seq<Event>
    requires j <= |c.keys|
    decreases j
  {
    if j == 0 then seq(c.n, _ => Send) else Answered(c, j - 1) + [Reply(c.keys[j - 1])]
  }

  lemma {:induction false} AllSent(c: Call, m: nat)
    requires c.Valid() && c.local.None? && m <= c.n
    ensures var s := After(c, seq(m, _ => Send));
            s.next == m && s.acks == 0 && s.user == [] && forall i | 0 <= i < m :: c.keys[i] in s.pending
  {
    if m > 0 {
      AllSent(c, m - 1);
      assert seq(m, _ => Send)[..m - 1] == seq(m - 1, _ => Send);
    }
  }

  lemma {:induction false} FirstAnswered(c: Call, j: nat)
    requires c.Valid() && c.local.None? && j <= c.n - 1
    ensures var s := After(c, Answered(c, j));
            && s.acks == j && (forall i | j <= i < c.n :: c.keys[i] in s.pending)
            && s.user == if 0 < j == c.n - 1 then [Success] else []
  {
    if j == 0 {
      AllSent(c, c.n);
    } else {
      FirstAnswered(c, j - 1);
      var events := Answered(c, j);
      assert events[..|events| - 1] == Answered(c, j - 1);
    }
  }

  /** Without the local node the threshold is one too low: there is a run that reports success
      and then an error. */
  lemma WithoutLocalReportsBoth(c: Call) returns (events: seq<Event>)
    requires c.Valid() && c.local.None? && c.n > 1
    ensures After(c, events).user == [Success, Error]
  {
    events := Answered(c, c.n - 1) + [Expire(c.keys[c.n - 1])];
    FirstAnswered(c, c.n - 1);
    assert events[..|events| - 1] == Answered(c, c.n - 1);
  }

  /** And a store to a single remote node never reports success. */
  lemma LoneRemoteNeverSucceeds(c: Call, events: seq<Event>)
    requires c.Valid() && c.local.None? && c.n == 1
    ensures Count(After(c, events).user, Success) == 0
  {
  }

  ghost predicate Contradictory(c: Call) {
    exists events :: Success in After(c, events).user && Error in After(c, events).user
  }

  lemma {:induction false} CountPositive(user: seq<Outcome>, o: Outcome)
    ensures o in user <==> Count(user, o) > 0
  {
    if user != [] {
      CountPositive(user[..|user| - 1], o);
      assert user == user[..|user| - 1] + [user[|user| - 1]];
    }
  }

  /** For two or more nodes, the user may be told both success and failure if and only if the
      local node is not among them. */
  lemma ContradictoryIffNoLocal(c: Call)
    requires c.Valid() && c.n > 1
    ensures Contradictory(c) <==> c.local.None?
  {
    if c.local.None? {
      var events := WithoutLocalReportsBoth(c);
    } else {
      forall events ensures !(Success in After(c, events).user && Error in After(c, events).user) {
        StoreReportsFaithfully(c, events);
        CountPositive(After(c, events).user, Success);
        CountPositive(After(c, events).user, Error);
      }
    }
  }
}
