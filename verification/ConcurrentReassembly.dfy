/**
  `assemble` called by many listener goroutines at once.

  One listener handles each fragment of each message. A call is cut into the first map
  lookup, taking a packet from the pool, the load-or-store, returning the losing packet to
  the pool, each single byte of the copy, the atomic add, the read of the length it is
  compared with, the delete, and the later return of the finished packet to the pool. Runs
  interleave these steps of all listeners of all messages arbitrarily, with senders that use
  packets of the same pool; packets are recycled between messages through the pool.

  A compare is right when it finds the length of its own message. Here it is shown that every
  step keeps the invariant as long as compares are right; LateCompare says when they are.
 */
module ConcurrentReassembly {
  import opened Ids
  import opened Options
  import opened Packets
  import Sums
  import opened RoundTrip

  /** Identity of a packet object. */
  type Ref = nat

  /** The listener that received fragment `part` of message `msg`. */
  datatype Listener = Listener(msg: nat, part: nat)

  /** How far a listener has got in its call of `assemble`. */
  datatype Stage =
    | Start                              // about to load the map
    | Missed                             // nothing there: about to take a packet from the pool
    | Holding(own: Ref)                  // about to load-or-store its own packet
    | Yielding(own: Ref, shared: Ref)    // lost the race: about to put its packet back
    | Copying(p: Ref, n: nat)            // n bytes of the payload copied
    | Added(p: Ref, v: int)              // its add gave v: about to compare with the length
    | Completing(p: Ref)                 // found v equal to the length: about to delete
    | ReturnedNil                        // returned nil
    | Returned(p: Ref)                   // returned the packet, which it now owns
    | Released                           // has given the packet back to the pool

  datatype State = State(heap: map<Ref, Assembly>, table: map<Hash, Ref>, pool: multiset<Ref>,
                         stages: map<Listener, Stage>)
  {
    function At(l: Listener): Stage {
      if l in stages then stages[l] else Start
    }

    function Move(l: Listener, x: Stage): State {
      this.(stages := stages[l := x])
    }

    /** Packet `r`, now with contents `q`, goes from the pool to listener `l`. */
    function Take(l: Listener, r: Ref, q: Assembly): State {
      this.(heap := heap[r := q], pool := pool - multiset{r}).Move(l, Holding(r))
    }
  }

  /** The messages received, and the `len` fields of the packets sent meanwhile. */
  datatype Config = Config(h: Hasher, msgs: seq<Message>, sends: set<int>)
  {
    /** Multi-fragment messages of a length the header can carry, with distinct id hashes. */
    ghost predicate Valid() {
      && (forall m | 0 <= m < |msgs| :: Fits(msgs[m].data))
      && (forall m, m' | 0 <= m < m' < |msgs| :: h(msgs[m].id) != h(msgs[m'].id))
    }

    predicate Has(l: Listener) {
      l.msg < |msgs| && l.part < FragmentCount(|msgs[l.msg].data|)
    }

    function Key(m: nat): Hash
      requires m < |msgs|
    {
      h(msgs[m].id)
    }

    /** The length of the message that listener `l` has a fragment of. */
    function Length(l: Listener): nat
      requires Has(l)
    {
      |msgs[l.msg].data|
    }
  }

  predicate Fits(data: Bytes) {
    1 < FragmentCount(|data|) && |data| <= MAX_LENGTH_FIELD
  }

  // ---------------------------------------------------------------- steps

  datatype Action =
    | Load(l: Listener)
    | Get(l: Listener, r: Ref, stale: Bytes)
    | LoadOrStore(l: Listener)
    | PutBack(l: Listener)
    | CopyByte(l: Listener)
    | Add(l: Listener)
    | Compare(l: Listener)
    | Delete(l: Listener)
    | Done(l: Listener)
    | Send(r: Ref, q: Assembly)          // a sender takes `r`, fills it and gives it back

  ghost predicate Enabled(c: Config, s: State, a: Action) {
    && (!a.Send? ==> c.Has(a.l))
    && match a
       case Load(l) => s.At(l).Start?
       case Get(l, r, stale) =>
         && s.At(l).Missed? && |stale| == BUFFER_SIZE
         && (if r in s.pool then r in s.heap && s.heap[r].buf == stale else r !in s.heap)
       case LoadOrStore(l) => s.At(l).Holding?
       case PutBack(l) => s.At(l).Yielding?
       case CopyByte(l) =>
         && s.At(l).Copying? && s.At(l).p in s.heap
         && s.At(l).n < PayloadSize(|c.msgs[l.msg].data|, l.part)
         && MAX_PAYLOAD_SIZE * l.part + s.At(l).n < |s.heap[s.At(l).p].buf|
       case Add(l) =>
         && s.At(l).Copying? && s.At(l).p in s.heap
         && s.At(l).n == PayloadSize(|c.msgs[l.msg].data|, l.part)
       case Compare(l) => s.At(l).Added? && s.At(l).p in s.heap
       case Delete(l) => s.At(l).Completing?
       case Done(l) => s.At(l).Returned?
       case Send(r, q) => (r in s.pool || r !in s.heap) && |q.buf| == BUFFER_SIZE && q.len in c.sends
  }

  ghost function Step(c: Config, s: State, a: Action): State
    requires Enabled(c, s, a)
  {
    match a
    case Load(l) =>
      var k := c.Key(l.msg);
      s.Move(l, if k in s.table then Copying(s.table[k], 0) else Missed)
    case Get(l, r, stale) =>
      s.Take(l, r, NewPacket(Fragment(c.msgs[l.msg].id, c.msgs[l.msg].data, l.part), stale))
    case LoadOrStore(l) =>
      var k, own := c.Key(l.msg), s.At(l).own;
      if k in s.table then s.Move(l, Yielding(own, s.table[k]))
      else s.(table := s.table[k := own]).Move(l, Copying(own, 0))
    case PutBack(l) =>
      s.(pool := s.pool + multiset{s.At(l).own}).Move(l, Copying(s.At(l).shared, 0))
    case CopyByte(l) =>
      var Copying(p, n) := s.At(l);
      var buf := s.heap[p].buf[MAX_PAYLOAD_SIZE * l.part + n := Payload(c.msgs[l.msg].data, l.part)[n]];
      s.(heap := s.heap[p := s.heap[p].(buf := buf)]).Move(l, Copying(p, n + 1))
    case Add(l) =>
      var p := s.At(l).p;
      var v := Int32(s.heap[p].pos + PayloadSize(c.Length(l), l.part));
      s.(heap := s.heap[p := s.heap[p].(pos := v)]).Move(l, Added(p, v))
    case Compare(l) =>
      var Added(p, v) := s.At(l);
      s.Move(l, if v == s.heap[p].len then Completing(p) else ReturnedNil)
    case Delete(l) =>
      s.(table := s.table - {c.Key(l.msg)}).Move(l, Returned(s.At(l).p))
    case Done(l) =>
      s.(pool := s.pool + multiset{s.At(l).p}).Move(l, Released)
    case Send(r, q) =>
      s.(heap := s.heap[r := q], pool := if r in s.pool then s.pool else s.pool + multiset{r})
  }

  /** The compare of `l` in state `s` finds the length of its own message. */
  ghost predicate RightCompare(c: Config, s: State, l: Listener)
    requires Enabled(c, s, Compare(l))
  {
    s.At(l).v == s.heap[s.At(l).p].len <==> s.At(l).v == c.Length(l)
  }

  ghost predicate Right(c: Config, s: State, a: Action) {
    a.Compare? && Enabled(c, s, a) ==> RightCompare(c, s, a.l)
  }

  /** Nothing under reassembly and nobody started; the pool holds any recycled packets, once each. */
  ghost predicate Initial(s: State) {
    && s.table == map[] && s.stages == map[]
    && (forall r | r in s.heap :: |s.heap[r].buf| == BUFFER_SIZE)
    && (forall r | r in s.pool :: r in s.heap && s.pool[r] == 1)
  }

  // ---------------------------------------------------------------- the invariant

  predicate IsCounted(x: Stage) {
    x.Added? || x.Completing? || x.ReturnedNil? || x.Returned? || x.Released?
  }

  /** A listener whose call returns, or has returned, a packet. */
  predicate HasResult(x: Stage) {
    x.Completing? || x.Returned? || x.Released?
  }

  /** The listener that is to return the packet, known from its add on. */
  predicate IsFinisher(c: Config, s: State, l: Listener) {
    c.Has(l) && (HasResult(s.At(l)) || (s.At(l).Added? && s.At(l).v == c.Length(l)))
  }

  /** A packet nobody else may touch. */
  function Exclusive(x: Stage): Option<Ref> {
    match x
    case Holding(own) => Some(own)
    case Yielding(own, _) => Some(own)
    case Returned(p) => Some(p)
    case _ => None
  }

  ghost function Counted(c: Config, s: State, m: nat): set<nat>
    requires m < |c.msgs|
  {
    set i | 0 <= i < FragmentCount(|c.msgs[m].data|) && IsCounted(s.At(Listener(m, i)))
  }

  ghost predicate AllCounted(c: Config, s: State, m: nat)
    requires m < |c.msgs|
  {
    forall i | 0 <= i < FragmentCount(|c.msgs[m].data|) :: i in Counted(c, s, m)
  }

  ghost predicate InTable(c: Config, s: State, m: nat, p: Ref)
    requires m < |c.msgs|
  {
    c.Key(m) in s.table && s.table[c.Key(m)] == p
  }

  ghost predicate LocalInv(c: Config, s: State, l: Listener)
    requires c.Has(l)
  {
    var data := c.msgs[l.msg].data;
    match s.At(l)
    case Holding(own) => own in s.heap && s.heap[own].len == |data| && s.heap[own].pos == 0
    case Yielding(_, shared) => InTable(c, s, l.msg, shared)
    case Copying(p, n) =>
      && InTable(c, s, l.msg, p) && p in s.heap
      && n <= PayloadSize(|data|, l.part) && Filled(s.heap[p].buf, data, l.part, n)
    case Added(p, v) =>
      && p in s.heap && v <= |data|
      && (if v == |data| || c.Key(l.msg) in s.table then InTable(c, s, l.msg, p) else AllCounted(c, s, l.msg))
      && (v == |data| ==> AllCounted(c, s, l.msg))
    case Completing(p) => InTable(c, s, l.msg, p) && AllCounted(c, s, l.msg)
    case Returned(p) =>
      && c.Key(l.msg) !in s.table && AllCounted(c, s, l.msg)
      && p in s.heap && s.heap[p].len == |data| <= |s.heap[p].buf| && s.heap[p].buf[..|data|] == data
    case Released => c.Key(l.msg) !in s.table && AllCounted(c, s, l.msg)
    case _ => true
  }

  ghost predicate LocalsInv(c: Config, s: State) {
    forall l | c.Has(l) :: LocalInv(c, s, l)
  }

  ghost predicate MessageInv(c: Config, s: State, m: nat)
    requires m < |c.msgs|
  {
    var data := c.msgs[m].data;
    && (if c.Key(m) in s.table then
          var p := s.table[c.Key(m)];
          && p in s.heap && s.heap[p].len == |data|
          && s.heap[p].pos == BytesIn(|data|, Counted(c, s, m))
          && HoldsParts(s.heap[p].buf, data, Counted(c, s, m))
        else Counted(c, s, m) == {} || AllCounted(c, s, m))
    && (AllCounted(c, s, m) ==> HasFinisher(c, s, m))
  }

  ghost predicate HasFinisher(c: Config, s: State, m: nat)
    requires m < |c.msgs|
  {
    exists i :: IsFinisher(c, s, Listener(m, i))
  }

  ghost predicate MessagesInv(c: Config, s: State) {
    forall m | 0 <= m < |c.msgs| :: MessageInv(c, s, m)
  }

  ghost predicate OneFinisher(c: Config, s: State) {
    forall m, i, j | IsFinisher(c, s, Listener(m, i)) && IsFinisher(c, s, Listener(m, j)) :: i == j
  }

  ghost predicate Unmapped(s: State, r: Ref) {
    forall k | k in s.table :: s.table[k] != r
  }

  ghost predicate Owns(c: Config, s: State, l: Listener, r: Ref) {
    c.Has(l) && Exclusive(s.At(l)) == Some(r)
  }

  /** Every packet is in at most one of: the pool, the map, the hands of one listener. */
  ghost predicate Ownership(c: Config, s: State) {
    OwnedApart(c, s) && MappedApart(s) && PooledOnce(s)
  }

  ghost predicate OwnedApart(c: Config, s: State) {
    && (forall l, r | Owns(c, s, l, r) :: r in s.heap && r !in s.pool && Unmapped(s, r))
    && (forall l, l', r | Owns(c, s, l, r) && Owns(c, s, l', r) :: l == l')
  }

  ghost predicate MappedApart(s: State) {
    && (forall k | k in s.table :: s.table[k] in s.heap && s.table[k] !in s.pool)
    && (forall k, k' | k in s.table && k' in s.table && s.table[k] == s.table[k'] :: k == k')
  }

  ghost predicate PooledOnce(s: State) {
    && (forall r | r in s.pool :: r in s.heap && s.pool[r] == 1)
    && (forall r | r in s.heap :: |s.heap[r].buf| == BUFFER_SIZE)
  }

  ghost predicate Inv(c: Config, s: State) {
    LocalsInv(c, s) && MessagesInv(c, s) && OneFinisher(c, s) && Ownership(c, s)
  }

  // ---------------------------------------------------------------- steps keep the invariant

  lemma InitialInv(c: Config, s: State)
    requires c.Valid() && Initial(s)
    ensures Inv(c, s)
  {
    forall m | 0 <= m < |c.msgs| ensures Counted(c, s, m) == {} && MessageInv(c, s, m) {
      assert 0 !in Counted(c, s, m);
    }
  }

  /** Listener `l` alone moves, and stays uncounted: all counts and finishers are as before. */
  lemma QuietMove(c: Config, s: State, s': State, l: Listener)
    requires c.Has(l) && !IsCounted(s.At(l)) && !IsCounted(s'.At(l))
    requires s'.stages == s.stages[l := s'.At(l)]
    requires MessagesInv(c, s) && OneFinisher(c, s)
    ensures forall m | 0 <= m < |c.msgs| :: Counted(c, s', m) == Counted(c, s, m)
    ensures forall m | 0 <= m < |c.msgs| :: HasFinisher(c, s, m) == HasFinisher(c, s', m)
    ensures OneFinisher(c, s')
  {
  }

  /** Only the stage of `l` changes: what has to be shown is what `l` itself knows. */
  lemma StageMove(c: Config, s: State, l: Listener, x: Stage)
    requires Inv(c, s) && c.Has(l) && Exclusive(x) == None
    requires forall m | 0 <= m < |c.msgs| :: Counted(c, s.Move(l, x), m) == Counted(c, s, m)
    requires forall m | 0 <= m < |c.msgs| :: HasFinisher(c, s, m) == HasFinisher(c, s.Move(l, x), m)
    requires OneFinisher(c, s.Move(l, x)) && LocalInv(c, s.Move(l, x), l)
    ensures Inv(c, s.Move(l, x))
  {
    var s' := s.Move(l, x);
    StageOwnership(c, s, l, x);
    forall y | c.Has(y) ensures LocalInv(c, s', y) {
      if y != l { StageLocal(c, s, l, x, y); }
    }
    forall m | 0 <= m < |c.msgs| ensures MessageInv(c, s', m) {
      assert MessageInv(c, s, m);
    }
  }

  lemma StageOwnership(c: Config, s: State, l: Listener, x: Stage)
    requires Ownership(c, s) && Exclusive(x) == None
    ensures Ownership(c, s.Move(l, x))
  {
    assert forall y, r | Owns(c, s.Move(l, x), y, r) :: Owns(c, s, y, r);
  }

  lemma StageLocal(c: Config, s: State, l: Listener, x: Stage, y: Listener)
    requires LocalsInv(c, s) && c.Has(y) && y != l && Counted(c, s.Move(l, x), y.msg) == Counted(c, s, y.msg)
    ensures LocalInv(c, s.Move(l, x), y)
  {
    assert LocalInv(c, s, y);
  }

  lemma LoadKeeps(c: Config, s: State, l: Listener)
    requires c.Valid() && Inv(c, s) && Enabled(c, s, Load(l))
    ensures Inv(c, Step(c, s, Load(l)))
  {
    var s' := Step(c, s, Load(l));
    QuietMove(c, s, s', l);
    assert MessageInv(c, s, l.msg);
    StageMove(c, s, l, s'.At(l));
  }

  lemma KeysDistinct(c: Config, m: nat, m': nat)
    requires c.Valid() && m < |c.msgs| && m' < |c.msgs| && m != m'
    ensures c.Key(m) != c.Key(m')
  {
  }

  /** A packet in the pool, or a new one, is not in use. */
  lemma TakeUnused(c: Config, s: State, r: Ref)
    requires Ownership(c, s) && (r in s.pool || r !in s.heap)
    ensures Unmapped(s, r)
    ensures forall x :: !Owns(c, s, x, r)
  {
  }

  lemma TakeOwnership(c: Config, s: State, l: Listener, r: Ref, q: Assembly)
    requires Ownership(c, s) && c.Has(l) && s.At(l).Missed? && |q.buf| == BUFFER_SIZE
    requires Unmapped(s, r) && forall x :: !Owns(c, s, x, r)
    ensures Ownership(c, s.Take(l, r, q))
  {
    var s' := s.Take(l, r, q);
    forall p | p in s'.pool ensures p in s.pool && p != r {
      assert s'.pool[p] <= s.pool[p];
    }
    assert MappedApart(s') && PooledOnce(s');
    TakeOwned(c, s, l, r, q);
  }

  lemma TakeOwned(c: Config, s: State, l: Listener, r: Ref, q: Assembly)
    requires OwnedApart(c, s) && c.Has(l) && s.At(l).Missed? && Unmapped(s, r)
    requires r !in s.Take(l, r, q).pool && forall x :: !Owns(c, s, x, r)
    ensures OwnedApart(c, s.Take(l, r, q))
  {
    var s' := s.Take(l, r, q);
    assert forall x, p :: Owns(c, s', x, p) <==> if x == l then p == r else Owns(c, s, x, p);
  }

  lemma TakeLocal(c: Config, s: State, l: Listener, r: Ref, q: Assembly, x: Listener)
    requires c.Has(l) && c.Has(x) && LocalInv(c, s, x)
    requires q.len == |c.msgs[l.msg].data| && q.pos == 0
    requires Counted(c, s.Take(l, r, q), x.msg) == Counted(c, s, x.msg)
    requires Unmapped(s, r) && !Owns(c, s, x, r)
    ensures LocalInv(c, s.Take(l, r, q), x)
  {
  }

  lemma TakeMessage(c: Config, s: State, l: Listener, r: Ref, q: Assembly, m: nat)
    requires c.Has(l) && m < |c.msgs| && MessageInv(c, s, m)
    requires Counted(c, s.Take(l, r, q), m) == Counted(c, s, m)
    requires HasFinisher(c, s, m) == HasFinisher(c, s.Take(l, r, q), m)
    requires Unmapped(s, r)
    ensures MessageInv(c, s.Take(l, r, q), m)
  {
  }

  lemma TakeKeeps(c: Config, s: State, l: Listener, r: Ref, q: Assembly)
    requires Inv(c, s) && c.Has(l) && s.At(l).Missed? && |q.buf| == BUFFER_SIZE
    requires q.len == |c.msgs[l.msg].data| && q.pos == 0
    requires r in s.pool || r !in s.heap
    ensures Inv(c, s.Take(l, r, q))
  {
    var s' := s.Take(l, r, q);
    QuietMove(c, s, s', l);
    TakeUnused(c, s, r);
    TakeOwnership(c, s, l, r, q);
    forall x | c.Has(x) ensures LocalInv(c, s', x) {
      assert LocalInv(c, s, x);
      TakeLocal(c, s, l, r, q, x);
    }
    forall m | 0 <= m < |c.msgs| ensures MessageInv(c, s', m) {
      assert MessageInv(c, s, m);
      TakeMessage(c, s, l, r, q, m);
    }
  }

  lemma LoadOrStoreLocal(c: Config, s: State, l: Listener, x: Listener)
    requires c.Valid() && Enabled(c, s, LoadOrStore(l)) && c.Has(x)
    requires LocalInv(c, s, x) && LocalInv(c, s, l) && PooledOnce(s)
    requires Counted(c, Step(c, s, LoadOrStore(l)), x.msg) == Counted(c, s, x.msg)
    ensures LocalInv(c, Step(c, s, LoadOrStore(l)), x)
  {
    assert l.part !in Counted(c, s, l.msg);
    if x.msg != l.msg { KeysDistinct(c, x.msg, l.msg); }
  }

  lemma LoadOrStoreMessage(c: Config, s: State, l: Listener, m: nat)
    requires c.Valid() && Inv(c, s) && Enabled(c, s, LoadOrStore(l)) && m < |c.msgs|
    requires Counted(c, Step(c, s, LoadOrStore(l)), m) == Counted(c, s, m)
    requires HasFinisher(c, s, m) == HasFinisher(c, Step(c, s, LoadOrStore(l)), m)
    ensures MessageInv(c, Step(c, s, LoadOrStore(l)), m)
  {
    assert MessageInv(c, s, m) && LocalInv(c, s, l);
    assert l.part !in Counted(c, s, l.msg);
    if m != l.msg { KeysDistinct(c, m, l.msg); }
    Sums.SumOverNone(PayloadSizes(|c.msgs[m].data|));
  }

  lemma LoadOrStoreOwned(c: Config, s: State, l: Listener)
    requires OwnedApart(c, s) && Enabled(c, s, LoadOrStore(l))
    ensures OwnedApart(c, Step(c, s, LoadOrStore(l)))
  {
    assert Owns(c, s, l, s.At(l).own);
    var s' := Step(c, s, LoadOrStore(l));
    assert forall x, q | Owns(c, s', x, q) :: Owns(c, s, x, q) && (x == l ==> s'.table == s.table);
    assert forall x, q | Owns(c, s', x, q) :: Unmapped(s', q);
  }

  lemma LoadOrStoreOwnership(c: Config, s: State, l: Listener)
    requires Ownership(c, s) && Enabled(c, s, LoadOrStore(l))
    ensures Ownership(c, Step(c, s, LoadOrStore(l)))
  {
    LoadOrStoreOwned(c, s, l);
    assert Owns(c, s, l, s.At(l).own) && Unmapped(s, s.At(l).own);
    assert MappedApart(Step(c, s, LoadOrStore(l)));
  }

  lemma LoadOrStoreKeeps(c: Config, s: State, l: Listener)
    requires c.Valid() && Inv(c, s) && Enabled(c, s, LoadOrStore(l))
    ensures Inv(c, Step(c, s, LoadOrStore(l)))
  {
    var s' := Step(c, s, LoadOrStore(l));
    QuietMove(c, s, s', l);
    LoadOrStoreOwnership(c, s, l);
    forall x | c.Has(x) ensures LocalInv(c, s', x) {
      assert LocalInv(c, s, x) && LocalInv(c, s, l);
      LoadOrStoreLocal(c, s, l, x);
    }
    forall m | 0 <= m < |c.msgs| ensures MessageInv(c, s', m) { LoadOrStoreMessage(c, s, l, m); }
  }

  lemma PutBackOwnership(c: Config, s: State, l: Listener)
    requires Ownership(c, s) && Enabled(c, s, PutBack(l))
    ensures Ownership(c, Step(c, s, PutBack(l)))
  {
    var s' := Step(c, s, PutBack(l));
    assert Owns(c, s, l, s.At(l).own);
    assert forall x, q | Owns(c, s', x, q) :: Owns(c, s, x, q) && x != l;
  }

  lemma PutBackKeeps(c: Config, s: State, l: Listener)
    requires c.Valid() && Inv(c, s) && Enabled(c, s, PutBack(l))
    ensures Inv(c, Step(c, s, PutBack(l)))
  {
    var s' := Step(c, s, PutBack(l));
    QuietMove(c, s, s', l);
    PutBackOwnership(c, s, l);
    forall x | c.Has(x) ensures LocalInv(c, s', x) {
      assert LocalInv(c, s, x);
    }
    forall m | 0 <= m < |c.msgs| ensures MessageInv(c, s', m) {
      assert MessageInv(c, s, m);
    }
  }

  /** Writing byte `n` of part `i` extends that part and leaves every other part alone. */
  lemma FillByte(buf: Bytes, data: Bytes, i: nat, n: nat, j: nat, k: nat)
    requires i < FragmentCount(|data|) && j < FragmentCount(|data|) && |data| <= |buf|
    requires n < PayloadSize(|data|, i) && k <= PayloadSize(|data|, j) && Filled(buf, data, j, k)
    ensures var b := buf[MAX_PAYLOAD_SIZE * i + n := Payload(data, i)[n]];
            Filled(b, data, j, k) && (i == j && k == n ==> Filled(b, data, j, k + 1))
  {
  }

  lemma CopyByteLocal(c: Config, s: State, l: Listener, x: Listener)
    requires c.Valid() && Inv(c, s) && Enabled(c, s, CopyByte(l)) && c.Has(x)
    requires forall m | 0 <= m < |c.msgs| :: Counted(c, Step(c, s, CopyByte(l)), m) == Counted(c, s, m)
    ensures LocalInv(c, Step(c, s, CopyByte(l)), x)
  {
    var s' := Step(c, s, CopyByte(l));
    var Copying(p, n) := s.At(l);
    assert LocalInv(c, s, x) && LocalInv(c, s, l);
    if x.msg != l.msg { KeysDistinct(c, x.msg, l.msg); }
    if s.At(x).Copying? && s.At(x).p == p {
      FillByte(s.heap[p].buf, c.msgs[l.msg].data, l.part, n, x.part, s.At(x).n);
    }
    assert !Owns(c, s, x, p);
  }

  lemma CopyByteMessage(c: Config, s: State, l: Listener, m: nat)
    requires c.Valid() && Inv(c, s) && Enabled(c, s, CopyByte(l)) && m < |c.msgs|
    requires Counted(c, Step(c, s, CopyByte(l)), m) == Counted(c, s, m)
    requires HasFinisher(c, s, m) == HasFinisher(c, Step(c, s, CopyByte(l)), m)
    ensures MessageInv(c, Step(c, s, CopyByte(l)), m)
  {
    var s' := Step(c, s, CopyByte(l));
    var Copying(p, n) := s.At(l);
    assert MessageInv(c, s, m) && LocalInv(c, s, l);
    if m == l.msg {
      var data := c.msgs[m].data;
      forall i | i in Counted(c, s, m) && i < FragmentCount(|data|)
        ensures Filled(s'.heap[p].buf, data, i, PayloadSize(|data|, i))
      {
        FillByte(s.heap[p].buf, data, l.part, n, i, PayloadSize(|data|, i));
      }
    } else {
      KeysDistinct(c, m, l.msg);
    }
  }

  lemma CopyByteOwnership(c: Config, s: State, l: Listener)
    requires Ownership(c, s) && Enabled(c, s, CopyByte(l))
    ensures Ownership(c, Step(c, s, CopyByte(l)))
  {
    var s' := Step(c, s, CopyByte(l));
    assert forall x, q | Owns(c, s', x, q) :: Owns(c, s, x, q);
  }

  lemma CopyByteKeeps(c: Config, s: State, l: Listener)
    requires c.Valid() && Inv(c, s) && Enabled(c, s, CopyByte(l))
    ensures Inv(c, Step(c, s, CopyByte(l)))
  {
    var s' := Step(c, s, CopyByte(l));
    QuietMove(c, s, s', l);
    CopyByteOwnership(c, s, l);
    forall x | c.Has(x) ensures LocalInv(c, s', x) { CopyByteLocal(c, s, l, x); }
    forall m | 0 <= m < |c.msgs| ensures MessageInv(c, s', m) { CopyByteMessage(c, s, l, m); }
  }

  // Add: the only step that adds a listener to the counted ones.

  lemma CountedAdd(c: Config, s: State, s': State, l: Listener, m: nat)
    requires c.Has(l) && !IsCounted(s.At(l)) && IsCounted(s'.At(l)) && m < |c.msgs|
    requires s'.stages == s.stages[l := s'.At(l)]
    ensures l.part !in Counted(c, s, l.msg)
    ensures Counted(c, s', m) == if m == l.msg then Counted(c, s, m) + {l.part} else Counted(c, s, m)
  {
  }

  lemma AddOwn(c: Config, s: State, l: Listener)
    requires c.Valid() && Enabled(c, s, Add(l)) && MessageInv(c, s, l.msg) && LocalInv(c, s, l)
    ensures MessageInv(c, Step(c, s, Add(l)), l.msg)
    ensures Step(c, s, Add(l)).At(l).v <= c.Length(l)
    ensures Step(c, s, Add(l)).At(l).v == c.Length(l) <==> AllCounted(c, Step(c, s, Add(l)), l.msg)
  {
    var s' := Step(c, s, Add(l));
    CountedAdd(c, s, s', l, l.msg);
    CountPart(|c.msgs[l.msg].data|, Counted(c, s, l.msg), l.part);
    assert s'.At(l).v == c.Length(l) ==> IsFinisher(c, s', Listener(l.msg, l.part));
  }

  lemma AddOther(c: Config, s: State, l: Listener, m: nat)
    requires c.Valid() && Enabled(c, s, Add(l)) && m < |c.msgs| && m != l.msg
    requires Ownership(c, s) && MessageInv(c, s, m) && LocalInv(c, s, l)
    ensures MessageInv(c, Step(c, s, Add(l)), m)
  {
    var s' := Step(c, s, Add(l));
    CountedAdd(c, s, s', l, m);
    KeysDistinct(c, m, l.msg);
    assert forall i :: s'.At(Listener(m, i)) == s.At(Listener(m, i));
  }

  lemma AddLocalOther(c: Config, s: State, l: Listener, x: Listener)
    requires c.Valid() && Ownership(c, s) && Enabled(c, s, Add(l)) && c.Has(x) && x.msg != l.msg
    requires LocalInv(c, s, x) && LocalInv(c, s, l)
    ensures LocalInv(c, Step(c, s, Add(l)), x)
  {
    CountedAdd(c, s, Step(c, s, Add(l)), l, x.msg);
    KeysDistinct(c, x.msg, l.msg);
    assert !Owns(c, s, x, s.At(l).p);
  }

  lemma AddLocalOwn(c: Config, s: State, l: Listener, x: Listener)
    requires c.Valid() && Ownership(c, s) && Enabled(c, s, Add(l)) && c.Has(x) && x.msg == l.msg
    requires LocalInv(c, s, x) && LocalInv(c, s, l) && MessageInv(c, s, l.msg)
    ensures LocalInv(c, Step(c, s, Add(l)), x) && !IsFinisher(c, s, x)
  {
    AddOwn(c, s, l);
    CountedAdd(c, s, Step(c, s, Add(l)), l, l.msg);
    assert !Owns(c, s, x, s.At(l).p);
  }

  lemma AddLocal(c: Config, s: State, l: Listener, x: Listener)
    requires c.Valid() && Inv(c, s) && Enabled(c, s, Add(l)) && c.Has(x)
    ensures LocalInv(c, Step(c, s, Add(l)), x)
    ensures x.msg == l.msg ==> !IsFinisher(c, s, x)
  {
    assert LocalInv(c, s, x) && LocalInv(c, s, l);
    if x.msg == l.msg {
      assert MessageInv(c, s, l.msg);
      AddLocalOwn(c, s, l, x);
    } else {
      AddLocalOther(c, s, l, x);
    }
  }

  lemma AddOwnership(c: Config, s: State, l: Listener)
    requires Ownership(c, s) && Enabled(c, s, Add(l))
    ensures Ownership(c, Step(c, s, Add(l)))
  {
    var s' := Step(c, s, Add(l));
    assert forall x, q | Owns(c, s', x, q) :: Owns(c, s, x, q);
  }

  lemma AddKeeps(c: Config, s: State, l: Listener)
    requires c.Valid() && Inv(c, s) && Enabled(c, s, Add(l))
    ensures Inv(c, Step(c, s, Add(l)))
  {
    var s' := Step(c, s, Add(l));
    assert LocalInv(c, s, l);
    forall x | c.Has(x) ensures LocalInv(c, s', x) && (x.msg == l.msg ==> !IsFinisher(c, s, x)) {
      AddLocal(c, s, l, x);
    }
    forall m | 0 <= m < |c.msgs| ensures MessageInv(c, s', m) {
      assert MessageInv(c, s, m);
      if m == l.msg { AddOwn(c, s, l); } else { AddOther(c, s, l, m); }
    }
    AddOwnership(c, s, l);
  }

  // Compare, Delete and Done: the finisher stays the finisher.

  lemma CountedMove(c: Config, s: State, s': State, l: Listener)
    requires c.Has(l) && IsCounted(s.At(l)) && IsCounted(s'.At(l)) && (IsFinisher(c, s, l) <==> IsFinisher(c, s', l))
    requires s'.stages == s.stages[l := s'.At(l)]
    requires OneFinisher(c, s)
    ensures forall m | 0 <= m < |c.msgs| :: Counted(c, s', m) == Counted(c, s, m)
    ensures forall m | 0 <= m < |c.msgs| :: HasFinisher(c, s, m) == HasFinisher(c, s', m)
    ensures OneFinisher(c, s')
  {
  }

  lemma CompareKeeps(c: Config, s: State, l: Listener)
    requires c.Valid() && Inv(c, s) && Enabled(c, s, Compare(l)) && RightCompare(c, s, l)
    ensures Inv(c, Step(c, s, Compare(l)))
  {
    var s' := Step(c, s, Compare(l));
    assert LocalInv(c, s, l);
    CountedMove(c, s, s', l);
    StageMove(c, s, l, s'.At(l));
  }

  lemma DeleteLocal(c: Config, s: State, l: Listener, x: Listener)
    requires c.Valid() && Inv(c, s) && Enabled(c, s, Delete(l)) && c.Has(x)
    requires forall m | 0 <= m < |c.msgs| :: Counted(c, Step(c, s, Delete(l)), m) == Counted(c, s, m)
    ensures LocalInv(c, Step(c, s, Delete(l)), x)
  {
    var s' := Step(c, s, Delete(l));
    assert LocalInv(c, s, x) && LocalInv(c, s, l) && MessageInv(c, s, l.msg);
    if x == l {
      var p, data := s.At(l).p, c.msgs[l.msg].data;
      AllPartsAreTheData(s.heap[p].buf, data);
    } else if x.msg == l.msg {
      assert x.part in Counted(c, s, l.msg);
      assert IsFinisher(c, s, Listener(l.msg, l.part));
      assert !IsFinisher(c, s, Listener(l.msg, x.part));
    } else {
      KeysDistinct(c, x.msg, l.msg);
    }
  }

  lemma DeleteOwnership(c: Config, s: State, l: Listener)
    requires Ownership(c, s) && Enabled(c, s, Delete(l)) && LocalInv(c, s, l)
    ensures Ownership(c, Step(c, s, Delete(l)))
  {
    var s' := Step(c, s, Delete(l));
    assert forall x, q | Owns(c, s', x, q) :: if x == l then q == s.At(l).p else Owns(c, s, x, q);
  }

  lemma DeleteKeeps(c: Config, s: State, l: Listener)
    requires c.Valid() && Inv(c, s) && Enabled(c, s, Delete(l))
    ensures Inv(c, Step(c, s, Delete(l)))
  {
    var s' := Step(c, s, Delete(l));
    CountedMove(c, s, s', l);
    assert LocalInv(c, s, l);
    DeleteOwnership(c, s, l);
    forall x | c.Has(x) ensures LocalInv(c, s', x) { DeleteLocal(c, s, l, x); }
    forall m | 0 <= m < |c.msgs| ensures MessageInv(c, s', m) {
      assert MessageInv(c, s, m);
      if m != l.msg { KeysDistinct(c, m, l.msg); }
    }
  }

  lemma DoneOwnership(c: Config, s: State, l: Listener)
    requires Ownership(c, s) && Enabled(c, s, Done(l))
    ensures Ownership(c, Step(c, s, Done(l)))
  {
    var s' := Step(c, s, Done(l));
    assert Owns(c, s, l, s.At(l).p);
    assert forall x, q | Owns(c, s', x, q) :: x != l && Owns(c, s, x, q);
  }

  lemma DoneKeeps(c: Config, s: State, l: Listener)
    requires c.Valid() && Inv(c, s) && Enabled(c, s, Done(l))
    ensures Inv(c, Step(c, s, Done(l)))
  {
    var s' := Step(c, s, Done(l));
    CountedMove(c, s, s', l);
    DoneOwnership(c, s, l);
    forall x | c.Has(x) ensures LocalInv(c, s', x) {
      assert LocalInv(c, s, x);
    }
    forall m | 0 <= m < |c.msgs| ensures MessageInv(c, s', m) {
      assert MessageInv(c, s, m);
    }
  }

  lemma SendOwnership(c: Config, s: State, r: Ref, q: Assembly)
    requires Ownership(c, s) && Enabled(c, s, Send(r, q))
    ensures Ownership(c, Step(c, s, Send(r, q)))
  {
    var s' := Step(c, s, Send(r, q));
    TakeUnused(c, s, r);
    assert forall x, p :: Owns(c, s', x, p) <==> Owns(c, s, x, p);
  }

  lemma SendLocal(c: Config, s: State, r: Ref, q: Assembly, x: Listener)
    requires Enabled(c, s, Send(r, q)) && c.Has(x) && LocalInv(c, s, x)
    requires Unmapped(s, r) && !Owns(c, s, x, r)
    requires Counted(c, Step(c, s, Send(r, q)), x.msg) == Counted(c, s, x.msg)
    ensures LocalInv(c, Step(c, s, Send(r, q)), x)
  {
  }

  lemma SendMessage(c: Config, s: State, r: Ref, q: Assembly, m: nat)
    requires Enabled(c, s, Send(r, q)) && m < |c.msgs| && MessageInv(c, s, m) && Unmapped(s, r)
    requires Counted(c, Step(c, s, Send(r, q)), m) == Counted(c, s, m)
    ensures MessageInv(c, Step(c, s, Send(r, q)), m)
  {
    assert forall i :: IsFinisher(c, s, Listener(m, i)) <==> IsFinisher(c, Step(c, s, Send(r, q)), Listener(m, i));
  }

  lemma SendKeeps(c: Config, s: State, r: Ref, q: Assembly)
    requires c.Valid() && Inv(c, s) && Enabled(c, s, Send(r, q))
    ensures Inv(c, Step(c, s, Send(r, q)))
  {
    var s' := Step(c, s, Send(r, q));
    TakeUnused(c, s, r);
    SendOwnership(c, s, r, q);
    assert forall m | 0 <= m < |c.msgs| :: Counted(c, s', m) == Counted(c, s, m);
    forall x | c.Has(x) ensures LocalInv(c, s', x) { SendLocal(c, s, r, q, x); }
    forall m | 0 <= m < |c.msgs| ensures MessageInv(c, s', m) { SendMessage(c, s, r, q, m); }
  }

  lemma StepKeeps(c: Config, s: State, a: Action)
    requires c.Valid() && Inv(c, s) && Enabled(c, s, a) && Right(c, s, a)
    ensures Inv(c, Step(c, s, a))
  {
    match a
    case Load(l) => LoadKeeps(c, s, l);
    case Get(l, r, stale) =>
      NewPacketFields(c.msgs[l.msg].id, c.msgs[l.msg].data, l.part, stale);
      TakeKeeps(c, s, l, r, NewPacket(Fragment(c.msgs[l.msg].id, c.msgs[l.msg].data, l.part), stale));
    case LoadOrStore(l) => LoadOrStoreKeeps(c, s, l);
    case PutBack(l) => PutBackKeeps(c, s, l);
    case CopyByte(l) => CopyByteKeeps(c, s, l);
    case Add(l) => AddKeeps(c, s, l);
    case Compare(l) => CompareKeeps(c, s, l);
    case Delete(l) => DeleteKeeps(c, s, l);
    case Done(l) => DoneKeeps(c, s, l);
    case Send(r, q) => SendKeeps(c, s, r, q);
  }
}
