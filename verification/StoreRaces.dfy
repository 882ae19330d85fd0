/**
  `Store` with the steps of the request cache apart. A listener, or the sweep, loads a request,
  runs its closure and only then deletes it (cache.go:88-95, cache.go:104-109), so another one can
  load it in between. It is shown that without such a second load every run is one of
  `StoreProtocol`, and that the user can be told both success and failure exactly if some request
  may be loaded a second time.
 */
module StoreRaces {
  import opened Packets
  import opened Sums
  import opened StoreProtocol
  import StoreCalls

  /** A request that has been loaded, by a listener with its response or by the sweep. */
  datatype Loaded = Loaded(k: Hash, i: nat, ok: bool)

  /** The state of `Store`, the requests loaded, and those whose closure has run, to be deleted. */
  datatype Race = Race(s: State, loaded: multiset<Loaded>, ran: multiset<Hash>)

  datatype Move =
    | SendNext                  // the loop of Store handles the next node
    | Load(k: Hash, ok: bool)   // a response, or the sweep, finds the request
    | Run(x: Loaded)            // its closure runs
    | Delete(k: Hash)           // it is deleted

  const BEGIN := Race(START, multiset{}, multiset{})

  /** What the closure of request `i` does. */
  function Closure(c: Call, s: State, i: nat, ok: bool): State {
    if ok then
      s.(acks := s.acks + 1, acked := s.acked + {i},
         user := if s.acks + 1 == c.n - 1 then s.user + [Success] else s.user)
    else s.(failed := s.failed + {i}, user := s.user + [Error])
  }

  function Moved(c: Call, r: Race, m: Move): Race {
    match m
    case SendNext => r.(s := Step(c, r.s, Send))
    case Load(k, ok) =>
      if k in r.s.pending then r.(loaded := r.loaded + multiset{Loaded(k, r.s.pending[k], ok)}) else r
    case Run(x) =>
      if x in r.loaded
      then Race(Closure(c, r.s, x.i, x.ok), r.loaded - multiset{x}, r.ran + multiset{x.k})
      else r
    case Delete(k) =>
      if k in r.ran then r.(s := r.s.(pending := r.s.pending - {k}), ran := r.ran - multiset{k}) else r
  }

  function RaceAfter(c: Call, moves: seq<Move>): Race {
    if moves == [] then BEGIN else Moved(c, RaceAfter(c, moves[..|moves| - 1]), moves[|moves| - 1])
  }

  /** Somebody has loaded the request and not yet deleted it. */
  ghost predicate InUse(r: Race, k: Hash) {
    k in r.ran || exists x :: x in r.loaded && x.k == k
  }

  /** The move loads a request that is in use. */
  ghost predicate LoadsAgain(r: Race, m: Move) {
    m.Load? && m.k in r.s.pending && InUse(r, m.k)
  }

  // ---------------------------------------------------------------- without second loads

  /** The state of `StoreProtocol`: a request is pending there until its closure has run. */
  ghost function Settled(r: Race): State {
    r.s.(pending := NotRun(r.s.pending, r.ran))
  }

  ghost function NotRun(pending: map<Hash, nat>, ran: multiset<Hash>): map<Hash, nat> {
    map k | k in pending && k !in ran :: pending[k]
  }

  lemma NotRunSent(pending: map<Hash, nat>, ran: multiset<Hash>, k: Hash, i: nat)
    requires k !in ran
    ensures NotRun(pending[k := i], ran) == NotRun(pending, ran)[k := i]
  {
  }

  lemma NotRunRun(pending: map<Hash, nat>, ran: multiset<Hash>, k: Hash)
    ensures NotRun(pending, ran + multiset{k}) == NotRun(pending, ran) - {k}
  {
  }

  lemma NotRunDeleted(pending: map<Hash, nat>, ran: multiset<Hash>, k: Hash)
    requires ran[k] == 1
    ensures NotRun(pending - {k}, ran - multiset{k}) == NotRun(pending, ran)
  {
    assert forall j :: j in ran - multiset{k} <==> j in ran && j != k;
  }

  ghost predicate KeySent(c: Call, next: nat, k: Hash) {
    exists j :: 0 <= j < next && j < |c.keys| && c.keys[j] == k
  }

  /** Every request in use is in use once, and in the map. */
  ghost predicate UsedOnce(c: Call, r: Race) {
    AllSent(c, r) && LoadedOnce(r)
  }

  ghost predicate AllSent(c: Call, r: Race) {
    && (forall k | k in r.s.pending :: KeySent(c, r.s.next, k))
    && (forall k | k in r.ran :: KeySent(c, r.s.next, k))
  }

  ghost predicate LoadedOnce(r: Race) {
    && (forall k | k in r.ran :: r.ran[k] == 1)
    && (forall x | x in r.loaded :: x.k in r.s.pending && r.s.pending[x.k] == x.i && x.k !in r.ran && r.loaded[x] == 1)
    && (forall x, y | x in r.loaded && y in r.loaded && x.k == y.k :: x == y)
  }

  /** The event of `StoreProtocol` that a move is. */
  ghost function EventsOf(r: Race, m: Move): seq<Event> {
    match m
    case SendNext => [Send]
    case Load(_, _) => []
    case Run(x) => if x !in r.loaded then [] else if x.ok then [Reply(x.k)] else [Expire(x.k)]
    case Delete(_) => []
  }

  /** The key of the next request is new. */
  lemma NextKeyIsNew(c: Call, r: Race)
    requires c.Valid() && AllSent(c, r) && r.s.next < c.n
    ensures c.keys[r.s.next] !in r.s.pending && c.keys[r.s.next] !in r.ran
    ensures forall k | KeySent(c, r.s.next, k) :: KeySent(c, r.s.next + 1, k)
    ensures KeySent(c, r.s.next + 1, c.keys[r.s.next])
  {
    var next := r.s.next;
    forall k | KeySent(c, next, k) ensures KeySent(c, next + 1, k) && k != c.keys[next] {
      var j :| 0 <= j < next && j < |c.keys| && c.keys[j] == k;
      assert c.keys[j] != c.keys[next] && j < next + 1;
    }
  }

  lemma SendSettles(c: Call, r: Race)
    requires c.Valid() && UsedOnce(c, r)
    ensures UsedOnce(c, Moved(c, r, SendNext)) && Settled(Moved(c, r, SendNext)) == Step(c, Settled(r), Send)
  {
    if r.s.next < c.n {
      NextKeyIsNew(c, r);
      SendOnce(c, r);
      NotRunSent(r.s.pending, r.ran, c.keys[r.s.next], r.s.next);
    }
  }

  lemma SendOnce(c: Call, r: Race)
    requires c.Valid() && UsedOnce(c, r) && r.s.next < c.n && c.keys[r.s.next] !in r.s.pending
    requires forall k | KeySent(c, r.s.next, k) :: KeySent(c, r.s.next + 1, k)
    requires KeySent(c, r.s.next + 1, c.keys[r.s.next])
    ensures UsedOnce(c, Moved(c, r, SendNext))
  {
  }

  lemma RunUses(r: Race, x: Loaded)
    requires LoadedOnce(r) && x in r.loaded
    ensures var loaded, ran := r.loaded - multiset{x}, r.ran + multiset{x.k};
            && (forall y :: y in loaded <==> y in r.loaded && y != x) && (forall y | y in loaded :: loaded[y] == 1)
            && (forall k :: k in ran <==> k in r.ran || k == x.k) && (forall k | k in ran :: ran[k] == 1)
  {
  }

  lemma RunSettles(c: Call, r: Race, x: Loaded)
    requires UsedOnce(c, r) && x in r.loaded
    ensures UsedOnce(c, Moved(c, r, Run(x)))
    ensures Settled(Moved(c, r, Run(x))) == Step(c, Settled(r), if x.ok then Reply(x.k) else Expire(x.k))
  {
    RunOnce(c, r, x);
    NotRunRun(r.s.pending, r.ran, x.k);
    LoadedIsPending(r, x);
  }

  lemma LoadedIsPending(r: Race, x: Loaded)
    requires LoadedOnce(r) && x in r.loaded
    ensures x.k in Settled(r).pending && Settled(r).pending[x.k] == x.i
  {
  }

  lemma RunOnce(c: Call, r: Race, x: Loaded)
    requires UsedOnce(c, r) && x in r.loaded
    ensures UsedOnce(c, Moved(c, r, Run(x)))
  {
    RunUses(r, x);
    var r' := Moved(c, r, Run(x));
    assert r'.s.pending == r.s.pending && r'.s.next == r.s.next;
    assert AllSent(c, r');
    forall y | y in r'.loaded ensures y.k in r'.s.pending && r'.s.pending[y.k] == y.i && y.k !in r'.ran {
      assert y in r.loaded && y != x;
    }
  }

  lemma DeleteSettles(c: Call, r: Race, k: Hash)
    requires UsedOnce(c, r) && k in r.ran
    ensures UsedOnce(c, Moved(c, r, Delete(k))) && Settled(Moved(c, r, Delete(k))) == Settled(r)
  {
    DeleteOnce(c, r, k);
    NotRunDeleted(r.s.pending, r.ran, k);
  }

  lemma DeleteOnce(c: Call, r: Race, k: Hash)
    requires UsedOnce(c, r) && k in r.ran
    ensures UsedOnce(c, Moved(c, r, Delete(k)))
  {
    assert forall j :: j in r.ran - multiset{k} <==> j in r.ran && j != k;
  }

  lemma LoadSettles(c: Call, r: Race, k: Hash, ok: bool)
    requires UsedOnce(c, r) && !LoadsAgain(r, Load(k, ok))
    ensures UsedOnce(c, Moved(c, r, Load(k, ok))) && Settled(Moved(c, r, Load(k, ok))) == Settled(r)
  {
  }

  lemma MoveSettles(c: Call, r: Race, m: Move)
    requires c.Valid() && UsedOnce(c, r) && !LoadsAgain(r, m)
    ensures UsedOnce(c, Moved(c, r, m))
    ensures Settled(Moved(c, r, m)) == StoreCalls.Steps(c, Settled(r), EventsOf(r, m))
  {
    OneStep(c, Settled(r), Send);
    match m
    case SendNext => SendSettles(c, r);
    case Load(k, ok) => LoadSettles(c, r, k, ok);
    case Run(x) =>
      if x in r.loaded {
        RunSettles(c, r, x);
        OneStep(c, Settled(r), if x.ok then Reply(x.k) else Expire(x.k));
      }
    case Delete(k) => if k in r.ran { DeleteSettles(c, r, k); }
  }

  lemma OneStep(c: Call, s: State, e: Event)
    ensures StoreCalls.Steps(c, s, [e]) == Step(c, s, e)
  {
    assert [e][..0] == [];
  }

  ghost predicate NeverAgain(c: Call, moves: seq<Move>) {
    forall t | 0 <= t < |moves| :: !LoadsAgain(RaceAfter(c, moves[..t]), moves[t])
  }

  lemma NeverAgainPrefix(c: Call, moves: seq<Move>)
    requires moves != [] && NeverAgain(c, moves)
    ensures NeverAgain(c, moves[..|moves| - 1]) && !LoadsAgain(RaceAfter(c, moves[..|moves| - 1]), moves[|moves| - 1])
  {
    var n := |moves| - 1;
    forall t | 0 <= t < n ensures !LoadsAgain(RaceAfter(c, moves[..n][..t]), moves[..n][t]) {
      assert moves[..n][..t] == moves[..t];
    }
  }

  /** The events of a run, at the times the closures run. */
  ghost function AllEvents(c: Call, moves: seq<Move>): seq<Event> {
    if moves == [] then []
    else
      var n := |moves| - 1;
      AllEvents(c, moves[..n]) + EventsOf(RaceAfter(c, moves[..n]), moves[n])
  }

  lemma {:induction false} StepsAppend(c: Call, events: seq<Event>, more: seq<Event>)
    ensures After(c, events + more) == StoreCalls.Steps(c, After(c, events), more)
  {
    if more == [] {
      assert events + more == events;
    } else {
      var n, all := |more| - 1, events + more;
      StepsAppend(c, events, more[..n]);
      assert all[..|all| - 1] == events + more[..n] && all[|all| - 1] == more[n];
    }
  }

  /** Without second loads a run is one of `StoreProtocol`. */
  lemma {:induction false} RaceIsAtomic(c: Call, moves: seq<Move>)
    requires c.Valid() && NeverAgain(c, moves)
    ensures UsedOnce(c, RaceAfter(c, moves)) && Settled(RaceAfter(c, moves)) == After(c, AllEvents(c, moves))
  {
    if moves == [] {
      assert Settled(BEGIN).pending == map[];
    } else {
      var n := |moves| - 1;
      NeverAgainPrefix(c, moves);
      RaceIsAtomic(c, moves[..n]);
      MoveSettles(c, RaceAfter(c, moves[..n]), moves[n]);
      StepsAppend(c, AllEvents(c, moves[..n]), EventsOf(RaceAfter(c, moves[..n]), moves[n]));
    }
  }

  /** So with the local node among the nodes the user is told faithfully. */
  lemma NeverAgainIsFaithful(c: Call, moves: seq<Move>)
    requires c.Valid() && c.local.Some? && c.n > 1 && NeverAgain(c, moves)
    ensures var s := RaceAfter(c, moves).s;
            && s.acked !! s.failed && Count(s.user, Success) <= 1 && Count(s.user, Error) == |s.failed|
            && (Count(s.user, Success) == 1 <==> s.acked == c.Remotes())
            && (Count(s.user, Success) == 0 || Count(s.user, Error) == 0)
  {
    RaceIsAtomic(c, moves);
    StoreReportsFaithfully(c, AllEvents(c, moves));
  }

  // ---------------------------------------------------------------- a request loaded twice

  /** Only the given requests are loaded while they are in use. */
  ghost predicate OnlyAgain(c: Call, moves: seq<Move>, twice: set<nat>) {
    forall t | 0 <= t < |moves| && LoadsAgain(RaceAfter(c, moves[..t]), moves[t]) ::
      RaceAfter(c, moves[..t]).s.pending[moves[t].k] in twice
  }

  lemma RaceSnoc(c: Call, moves: seq<Move>, m: Move, twice: set<nat>)
    requires OnlyAgain(c, moves, twice)
    requires LoadsAgain(RaceAfter(c, moves), m) ==> RaceAfter(c, moves).s.pending[m.k] in twice
    ensures RaceAfter(c, moves + [m]) == Moved(c, RaceAfter(c, moves), m) && OnlyAgain(c, moves + [m], twice)
  {
    var all := moves + [m];
    assert all[..|moves|] == moves;
    forall t | 0 <= t < |all| && LoadsAgain(RaceAfter(c, all[..t]), all[t])
      ensures RaceAfter(c, all[..t]).s.pending[all[t].k] in twice
    {
      if t < |moves| { assert all[..t] == moves[..t]; }
    }
  }

  lemma {:induction false} PendingIsRemote(c: Call, moves: seq<Move>)
    ensures forall k | k in RaceAfter(c, moves).s.pending :: c.Remote(RaceAfter(c, moves).s.pending[k])
  {
    if moves != [] { PendingIsRemote(c, moves[..|moves| - 1]); }
  }

  /** The remote nodes before `m`, other than `i`. */
  ghost function Others(c: Call, i: nat, m: nat): set<nat> {
    set j | j in c.Remotes() && j < m && j != i
  }

  lemma OthersCount(c: Call, i: nat, m: nat)
    requires c.Valid() && c.local.Some? && c.Remote(i)
    ensures |Others(c, i, m)| <= c.n - 2
    ensures m >= c.n ==> |Others(c, i, m)| == c.n - 2
  {
    RemoteCount(c);
    assert i in c.Remotes();
    SubsetSize(Others(c, i, m), c.Remotes() - {i});
    if m >= c.n { assert Others(c, i, m) == c.Remotes() - {i}; }
  }

  /** Some run, in which only the given requests are loaded while in use, leads to the state. */
  ghost predicate Reached(c: Call, r: Race, twice: set<nat>) {
    exists moves :: OnlyAgain(c, moves, twice) && RaceAfter(c, moves) == r
  }

  lemma ReachedBegin(c: Call, twice: set<nat>)
    ensures Reached(c, BEGIN, twice)
  {
    assert OnlyAgain(c, [], twice) && RaceAfter(c, []) == BEGIN;
  }

  lemma ReachedMove(c: Call, r: Race, m: Move, twice: set<nat>)
    requires Reached(c, r, twice) && (LoadsAgain(r, m) ==> r.s.pending[m.k] in twice)
    ensures Reached(c, Moved(c, r, m), twice)
  {
    var moves :| OnlyAgain(c, moves, twice) && RaceAfter(c, moves) == r;
    RaceSnoc(c, moves, m, twice);
  }

  ghost predicate Idle(r: Race) {
    r.loaded == multiset{} && r.ran == multiset{}
  }

  ghost predicate PendingAs(c: Call, r: Race, j: nat) {
    j < |c.keys| && c.keys[j] in r.s.pending && r.s.pending[c.keys[j]] == j
  }

  /** The first `m` requests are sent, and nothing else has happened. */
  ghost predicate JustSent(c: Call, r: Race, m: nat) {
    && Idle(r) && r.s.next == m && r.s.user == [] && r.s.acks == 0
    && forall j: nat | c.Remote(j) && j < m :: PendingAs(c, r, j)
  }

  /** All requests are sent, the others before `m` have been acknowledged, nothing is in use. */
  ghost predicate Ready(c: Call, r: Race, i: nat, m: nat) {
    && Idle(r) && r.s.next == c.n && r.s.user == [] && r.s.acks == |Others(c, i, m)|
    && forall j: nat | c.Remote(j) && (j >= m || j == i) :: PendingAs(c, r, j)
  }

  lemma SendOneMore(c: Call, r: Race, m: nat)
    requires c.Valid() && 1 < c.n && m < c.n && JustSent(c, r, m)
    ensures JustSent(c, Moved(c, r, SendNext), m + 1)
  {
    var r' := Moved(c, r, SendNext);
    forall j: nat | c.Remote(j) && j < m + 1 ensures PendingAs(c, r', j) {
      if j < m { assert PendingAs(c, r, j) && c.keys[j] != c.keys[m]; }
    }
  }

  lemma {:induction false} SendAll(c: Call, m: nat, twice: set<nat>) returns (r: Race)
    requires c.Valid() && c.n > 1 && m <= c.n
    ensures Reached(c, r, twice) && JustSent(c, r, m)
  {
    if m == 0 {
      r := BEGIN;
      ReachedBegin(c, twice);
    } else {
      var before := SendAll(c, m - 1, twice);
      ReachedMove(c, before, SendNext, twice);
      SendOneMore(c, before, m - 1);
      r := Moved(c, before, SendNext);
    }
  }

  /** A response is handled to its end. */
  lemma Acknowledge(c: Call, r: Race, j: nat, twice: set<nat>) returns (r': Race)
    requires Reached(c, r, twice) && Idle(r) && PendingAs(c, r, j)
    ensures Reached(c, r', twice) && Idle(r')
    ensures r'.s == Closure(c, r.s, j, true).(pending := r.s.pending - {c.keys[j]})
  {
    var k := c.keys[j];
    var x := Loaded(k, j, true);
    ReachedMove(c, r, Load(k, true), twice);
    var r1 := Moved(c, r, Load(k, true));
    assert r1 == Race(r.s, multiset{x}, multiset{});
    ReachedMove(c, r1, Run(x), twice);
    var r2 := Moved(c, r1, Run(x));
    assert r2 == Race(Closure(c, r.s, j, true), multiset{}, multiset{k});
    ReachedMove(c, r2, Delete(k), twice);
    r' := Moved(c, r2, Delete(k));
    assert r'.ran == multiset{};
  }

  lemma ReadyAfter(c: Call, r: Race, r': Race, i: nat, j: nat)
    requires c.Valid() && c.local.Some? && c.Remote(i) && c.Remote(j) && j != i && Ready(c, r, i, j) && Idle(r')
    requires r'.s == Closure(c, r.s, j, true).(pending := r.s.pending - {c.keys[j]})
    ensures Ready(c, r', i, j + 1)
  {
    assert j in c.Remotes() && Others(c, i, j + 1) == Others(c, i, j) + {j};
    OthersCount(c, i, j + 1);
    forall l: nat | c.Remote(l) && (l >= j + 1 || l == i) ensures PendingAs(c, r', l) {
      assert PendingAs(c, r, l) && c.keys[l] != c.keys[j];
    }
  }

  lemma SentIsReady(c: Call, r: Race, i: nat)
    requires JustSent(c, r, c.n)
    ensures Ready(c, r, i, 0)
  {
    assert Others(c, i, 0) == {};
  }

  lemma ReadySkips(c: Call, r: Race, i: nat, j: nat)
    requires Ready(c, r, i, j) && (!c.Remote(j) || j == i)
    ensures Ready(c, r, i, j + 1)
  {
    assert Others(c, i, j + 1) == Others(c, i, j);
  }

  lemma {:induction false} AcknowledgeOthers(c: Call, i: nat, m: nat, twice: set<nat>) returns (r: Race)
    requires c.Valid() && c.local.Some? && c.n > 1 && c.Remote(i) && m <= c.n
    ensures Reached(c, r, twice) && Ready(c, r, i, m)
  {
    if m == 0 {
      r := SendAll(c, c.n, twice);
      SentIsReady(c, r, i);
    } else {
      var j := m - 1;
      var before := AcknowledgeOthers(c, i, j, twice);
      if c.Remote(j) && j != i {
        r := Acknowledge(c, before, j, twice);
        ReadyAfter(c, before, r, i, j);
      } else {
        r := before;
        ReadySkips(c, r, i, j);
      }
    }
  }

  /** The one request that is left is loaded with its response and by the sweep, and both closures run. */
  lemma BothRun(c: Call, r: Race, i: nat) returns (r': Race)
    requires Reached(c, r, {i}) && Idle(r) && PendingAs(c, r, i) && r.s.user == [] && r.s.acks + 1 == c.n - 1
    ensures Reached(c, r', {i}) && r'.s.user == [Success, Error]
  {
    var k := c.keys[i];
    var x, y := Loaded(k, i, true), Loaded(k, i, false);
    ReachedMove(c, r, Load(k, true), {i});
    var r1 := Moved(c, r, Load(k, true));
    assert r1 == Race(r.s, multiset{x}, multiset{});
    ReachedMove(c, r1, Load(k, false), {i});
    var r2 := Moved(c, r1, Load(k, false));
    assert r2 == Race(r.s, multiset{x, y}, multiset{});
    r' := RunBoth(c, r2, x, y, {i});
  }

  lemma RunBoth(c: Call, r: Race, x: Loaded, y: Loaded, twice: set<nat>) returns (r': Race)
    requires Reached(c, r, twice) && r.loaded == multiset{x, y} && x.ok && !y.ok
    requires r.s.user == [] && r.s.acks + 1 == c.n - 1
    ensures Reached(c, r', twice) && r'.s.user == [Success, Error]
  {
    ReachedMove(c, r, Run(x), twice);
    var r1 := Moved(c, r, Run(x));
    assert r1.loaded == multiset{y} && r1.s.user == [Success];
    ReachedMove(c, r1, Run(y), twice);
    r' := Moved(c, r1, Run(y));
  }

  /** So the user is told success and then failure. */
  lemma LoadedTwiceContradicts(c: Call, i: nat) returns (moves: seq<Move>)
    requires c.Valid() && c.local.Some? && c.n > 1 && c.Remote(i)
    ensures OnlyAgain(c, moves, {i}) && RaceAfter(c, moves).s.user == [Success, Error]
  {
    var r := AcknowledgeOthers(c, i, c.n, {i});
    OthersCount(c, i, c.n);
    var r' := BothRun(c, r, i);
    moves :| OnlyAgain(c, moves, {i}) && RaceAfter(c, moves) == r';
  }

  /** In no run is the user told both. */
  ghost predicate NeverBoth(c: Call, twice: set<nat>) {
    forall moves | OnlyAgain(c, moves, twice) ::
      !(Success in RaceAfter(c, moves).s.user && Error in RaceAfter(c, moves).s.user)
  }

  /** With the local node among the nodes, the user is never told both success and failure if and
      only if no request to a remote node may be loaded while it is in use. */
  lemma NeverBothIff(c: Call, twice: set<nat>)
    requires c.Valid() && c.local.Some? && c.n > 1
    ensures NeverBoth(c, twice) <==> twice !! c.Remotes()
  {
    if i :| i in twice && i in c.Remotes() {
      var moves := LoadedTwiceContradicts(c, i);
      assert OnlyAgain(c, moves, twice);
    } else {
      forall moves | OnlyAgain(c, moves, twice)
        ensures !(Success in RaceAfter(c, moves).s.user && Error in RaceAfter(c, moves).s.user)
      {
        OthersAreNever(c, moves, twice);
        NeverAgainIsFaithful(c, moves);
        CountPositive(RaceAfter(c, moves).s.user, Success);
        CountPositive(RaceAfter(c, moves).s.user, Error);
      }
    }
  }

  lemma OthersAreNever(c: Call, moves: seq<Move>, twice: set<nat>)
    requires OnlyAgain(c, moves, twice) && twice !! c.Remotes()
    ensures NeverAgain(c, moves)
  {
    forall t | 0 <= t < |moves| ensures !LoadsAgain(RaceAfter(c, moves[..t]), moves[t]) {
      PendingIsRemote(c, moves[..t]);
    }
  }
}
