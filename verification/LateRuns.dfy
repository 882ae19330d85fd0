/**
  For which messages concurrent reassembly can go wrong at all.

  The lengths decide it: some run gives a message to two receivers if and only if the bytes
  of some but not all fragments of a message are as many as a whole other message has, or as
  the `len` of a packet that is sent meanwhile. Then the run is built step by step.
 */
module LateRuns {
  import opened Packets
  import opened Sums
  import opened RoundTrip
  import opened ConcurrentReassembly
  import opened LateCompare

  /** `v` is what the first `k` of the fragments of `n` bytes hold, or all but the first `k`. */
  predicate SplitsAt(n: nat, v: int, k: nat) {
    1 <= k < FragmentCount(n) && (v == MAX_PAYLOAD_SIZE * k || v == n - MAX_PAYLOAD_SIZE * k)
  }

  ghost predicate SomeParts(n: nat, v: int) {
    exists k :: SplitsAt(n, v, k)
  }

  /** No whole message, and no packet sent, is as long as some but not all fragments of a message. */
  ghost predicate LengthsApart(c: Config) {
    forall m, v | 0 <= m < |c.msgs| && SomeParts(|c.msgs[m].data|, v) :: Unused(c, v)
  }

  ghost predicate Unused(c: Config, v: int) {
    v !in c.sends && forall m | 0 <= m < |c.msgs| :: |c.msgs[m].data| != v
  }

  // ---------------------------------------------------------------- sums of fragments

  /** Among fragments that are all full, `k` chosen ones hold `k` times a payload. */
  lemma {:induction false} FullParts(sizes: seq<nat>, parts: set<nat>) returns (k: nat)
    requires forall i | 0 <= i < |sizes| :: sizes[i] == MAX_PAYLOAD_SIZE
    ensures k <= |sizes| && SumOver(sizes, parts) == MAX_PAYLOAD_SIZE * k
    ensures k == 0 ==> forall i | 0 <= i < |sizes| :: i !in parts
    ensures k == |sizes| ==> forall i | 0 <= i < |sizes| :: i in parts
  {
    k := 0;
    if sizes != [] {
      var n := |sizes| - 1;
      k := FullParts(sizes[..n], parts);
      if n in parts { k := k + 1; }
    }
  }

  lemma PartialSumIsSomeParts(n: nat, v: int)
    requires PartialSum(n, v) && v < n
    ensures SomeParts(n, v)
  {
    var parts: set<nat> :| SumsTo(n, parts, v);
    var last := FragmentCount(n) - 1;
    var i :| i in parts;
    var sizes := PayloadSizes(n);
    forall j | 0 <= j < last ensures sizes[..last][j] == MAX_PAYLOAD_SIZE { PayloadSizesPositive(n, j); }
    var k := FullParts(sizes[..last], parts);
    PayloadSizesPositive(n, last);
    PayloadSizesTotal(n);
    if last in parts {
      assert v == n - MAX_PAYLOAD_SIZE * (last - k);
      assert SplitsAt(n, v, last - k);
    } else {
      assert SplitsAt(n, v, k);
    }
  }

  lemma {:induction false} PrefixSum(sizes: seq<nat>, k: nat)
    requires k <= |sizes|
    ensures SumOver(sizes, Range(0, k)) == Total(sizes[..k])
  {
    if k < |sizes| {
      var n := |sizes| - 1;
      PrefixSum(sizes[..n], k);
      assert sizes[..n][..k] == sizes[..k];
    } else {
      SumOverAll(sizes, Range(0, k));
      assert sizes[..k] == sizes;
    }
  }

  lemma {:induction false} ComplementSum(sizes: seq<nat>, k: nat, c: nat)
    requires |sizes| <= c
    ensures SumOver(sizes, Range(0, k)) + SumOver(sizes, Range(k, c)) == Total(sizes)
  {
    if sizes != [] { ComplementSum(sizes[..|sizes| - 1], k, c); }
  }

  /** What the first `k` fragments hold, and the others. */
  lemma RangeSums(n: nat, k: nat)
    requires k < FragmentCount(n)
    ensures BytesIn(n, Range(0, k)) == MAX_PAYLOAD_SIZE * k
    ensures BytesIn(n, Range(k, FragmentCount(n))) == n - MAX_PAYLOAD_SIZE * k
  {
    PrefixSum(PayloadSizes(n), k);
    PayloadPrefixTotal(n, k);
    ComplementSum(PayloadSizes(n), k, FragmentCount(n));
    PayloadSizesTotal(n);
  }

  lemma AllSum(n: nat)
    ensures BytesIn(n, Range(0, FragmentCount(n))) == n
  {
    PayloadSizesTotal(n);
    SumOverAll(PayloadSizes(n), Range(0, FragmentCount(n)));
  }

  function Range(lo: nat, hi: nat): (r: set<nat>)
    ensures forall i :: i in r <==> lo <= i < hi
  {
    if lo < hi then Range(lo, hi - 1) + {hi - 1} else {}
  }

  // ---------------------------------------------------------------- apart lengths are safe

  /** What a listener has before its compare is the sum of some fragments. */
  lemma {:induction false} AddedIsPartial(c: Config, tr: Trace, n: nat, l: Listener)
    requires c.Valid() && IsRun(c, tr) && n < |tr.states| && RightBefore(c, tr, n)
    requires c.Has(l) && tr.states[n].At(l).Added?
    ensures PartialSum(c.Length(l), tr.states[n].At(l).v)
  {
    if tr.states[n - 1].At(l) != tr.states[n].At(l) {
      NewlyAddedAt(c, tr, n - 1, l);
    } else {
      AddedIsPartial(c, tr, n - 1, l);
    }
  }

  lemma NewlyAddedAt(c: Config, tr: Trace, n: nat, l: Listener)
    requires c.Valid() && IsRun(c, tr) && n < |tr.actions| && RightBefore(c, tr, n)
    requires c.Has(l) && tr.states[n + 1].At(l).Added? && tr.states[n].At(l) != tr.states[n + 1].At(l)
    ensures PartialSum(c.Length(l), tr.states[n + 1].At(l).v)
  {
    assert StepAt(c, tr, n);
    RunKeeps(c, tr, n);
    NewlyAdded(c, tr.states[n], tr.actions[n], l);
  }

  lemma NewlyAdded(c: Config, s: State, a: Action, l: Listener)
    requires c.Valid() && Inv(c, s) && Enabled(c, s, a) && c.Has(l)
    requires Step(c, s, a).At(l).Added? && s.At(l) != Step(c, s, a).At(l)
    ensures PartialSum(c.Length(l), Step(c, s, a).At(l).v)
  {
    assert LocalInv(c, s, l);
    AddedBefore(c, s, a, l);
    AddIsPartial(c, s, l);
  }

  lemma {:induction false} ApartIsNeverLate(c: Config, tr: Trace, n: nat)
    requires c.Valid() && LengthsApart(c) && IsRun(c, tr) && n < |tr.actions|
    ensures !Late(c, tr, n)
  {
    forall i | 0 <= i < n ensures !Late(c, tr, i) { ApartIsNeverLate(c, tr, i); }
    NeverLateIsRight(c, tr, n);
    assert StepAt(c, tr, n);
    if tr.actions[n].Compare? {
      var l := tr.actions[n].l;
      var Added(p, v) := tr.states[n].At(l);
      forall g: nat ensures !RetakenAt(c, tr, n, l, p, v, g) {
        if g < n && tr.states[g].At(l) == Added(p, v) && Retakes(tr.actions[g], p) { ApartIsNotRetaken(c, tr, l, g); }
      }
    }
  }

  lemma ApartIsNotRetaken(c: Config, tr: Trace, l: Listener, g: nat)
    requires c.Valid() && LengthsApart(c) && IsRun(c, tr) && g < |tr.actions| && RightBefore(c, tr, g)
    requires c.Has(l) && tr.states[g].At(l).Added? && Retakes(tr.actions[g], tr.states[g].At(l).p)
    ensures !SetsLength(c, tr.actions[g], tr.states[g].At(l).p, tr.states[g].At(l).v)
  {
    assert StepAt(c, tr, g);
    RunKeeps(c, tr, g);
    TakenIsFinished(c, tr.states[g], tr.actions[g], l);
    AddedIsPartial(c, tr, g, l);
    PartialSumIsSomeParts(c.Length(l), tr.states[g].At(l).v);
    assert Unused(c, tr.states[g].At(l).v);
  }

  // ---------------------------------------------------------------- building a run

  /** A run whose compares are all right leads to the state. */
  ghost predicate Reached(c: Config, s: State) {
    exists tr :: RightRun(c, tr, s)
  }

  ghost predicate RightRun(c: Config, tr: Trace, s: State) {
    IsRun(c, tr) && RightBefore(c, tr, |tr.actions|) && tr.Last() == s
  }

  lemma RunExtends(c: Config, tr: Trace, a: Action) returns (tr': Trace)
    requires IsRun(c, tr) && Enabled(c, tr.Last(), a)
    ensures IsRun(c, tr') && tr'.Last() == Step(c, tr.Last(), a)
    ensures tr'.actions == tr.actions + [a] && tr'.states[..|tr.states|] == tr.states
  {
    tr' := Trace(tr.states + [Step(c, tr.Last(), a)], tr.actions + [a]);
    forall i | 0 <= i < |tr'.actions| ensures StepAt(c, tr', i) {
      if i < |tr.actions| { assert StepAt(c, tr, i); }
    }
  }

  lemma ReachedStep(c: Config, s: State, a: Action)
    requires c.Valid() && Reached(c, s) && Enabled(c, s, a) && Right(c, s, a)
    ensures Reached(c, Step(c, s, a))
  {
    var tr :| RightRun(c, tr, s);
    var tr' := RunExtends(c, tr, a);
    forall i | 0 <= i < |tr'.actions| ensures Right(c, tr'.states[i], tr'.actions[i]) {
      assert tr'.states[i] == tr'.states[..|tr.states|][i];
      if i < |tr.actions| { assert Right(c, tr.states[i], tr.actions[i]); }
    }
    assert RightRun(c, tr', Step(c, s, a));
  }

  lemma ReachedInv(c: Config, s: State)
    requires c.Valid() && Reached(c, s)
    ensures Inv(c, s)
  {
    var tr :| RightRun(c, tr, s);
    RunKeeps(c, tr, |tr.actions|);
  }

  /** What the invariant says of one listener and its message. */
  lemma ReachedLocal(c: Config, s: State, l: Listener)
    requires c.Valid() && Reached(c, s) && c.Has(l)
    ensures LocalInv(c, s, l) && MessageInv(c, s, l.msg) && PooledOnce(s)
  {
    ReachedInv(c, s);
  }

  /** Exactly the listeners of `parts` of message `m` have started, and stand before their compare. */
  ghost predicate Standing(c: Config, s: State, m: nat, parts: set<nat>) {
    && m < |c.msgs|
    && Reached(c, s) && s.table.Keys <= {c.Key(m)}
    && (forall x | c.Has(x) :: if x.msg == m && x.part in parts then s.At(x).Added? else s.At(x).Start?)
  }

  /** Only `l` has moved. */
  ghost predicate OnlyMoved(s: State, s': State, l: Listener) {
    forall x :: x != l ==> s'.At(x) == s.At(x)
  }

  lemma ReachLoaded(c: Config, s: State, l: Listener) returns (s': State)
    requires c.Valid() && Reached(c, s) && c.Has(l) && s.At(l).Start?
    ensures Reached(c, s') && OnlyMoved(s, s', l) && s'.table == s.table && s'.pool == s.pool
    ensures s'.At(l) == if c.Key(l.msg) in s.table then Copying(s.table[c.Key(l.msg)], 0) else Missed
  {
    ReachedStep(c, s, Load(l));
    s' := Step(c, s, Load(l));
  }

  /** A listener that found nothing takes a packet nobody has had. */
  lemma ReachHolding(c: Config, s: State, l: Listener) returns (s': State)
    requires c.Valid() && Reached(c, s) && c.Has(l) && s.At(l).Missed?
    ensures Reached(c, s') && OnlyMoved(s, s', l) && s'.table == s.table && s'.At(l).Holding?
  {
    var r := LateCompare.Unused(s.heap.Keys);
    var get := Get(l, r, seq(BUFFER_SIZE, _ => 0));
    ReachedLocal(c, s, l);
    ReachedStep(c, s, get);
    s' := Step(c, s, get);
  }

  lemma ReachStored(c: Config, s: State, l: Listener) returns (s': State)
    requires c.Valid() && Reached(c, s) && c.Has(l) && s.At(l).Holding? && c.Key(l.msg) !in s.table
    ensures Reached(c, s') && OnlyMoved(s, s', l) && s'.table.Keys == s.table.Keys + {c.Key(l.msg)}
    ensures s'.At(l).Copying?
  {
    ReachedStep(c, s, LoadOrStore(l));
    s' := Step(c, s, LoadOrStore(l));
  }

  /** A listener that has not started gets to the point where it copies. */
  lemma ReachCopying(c: Config, s: State, l: Listener) returns (s': State)
    requires c.Valid() && Reached(c, s) && c.Has(l) && s.At(l).Start?
    ensures Reached(c, s') && OnlyMoved(s, s', l) && s'.table.Keys == s.table.Keys + {c.Key(l.msg)}
    ensures s'.At(l).Copying?
  {
    s' := ReachLoaded(c, s, l);
    if s'.At(l).Missed? {
      s' := ReachHolding(c, s', l);
      s' := ReachStored(c, s', l);
    }
  }

  /** It copies its payload. */
  lemma {:induction false} ReachCopied(c: Config, s: State, l: Listener) returns (s': State)
    requires c.Valid() && Reached(c, s) && c.Has(l) && s.At(l).Copying?
    ensures Reached(c, s') && OnlyMoved(s, s', l) && s'.table == s.table
    ensures s'.At(l) == Copying(s.At(l).p, PayloadSize(c.Length(l), l.part)) && s'.At(l).p in s'.heap
    decreases PayloadSize(c.Length(l), l.part) - s.At(l).n
  {
    ReachedLocal(c, s, l);
    if s.At(l).n < PayloadSize(c.Length(l), l.part) {
      ReachedStep(c, s, CopyByte(l));
      s' := ReachCopied(c, Step(c, s, CopyByte(l)), l);
    } else {
      s' := s;
    }
  }

  /** It adds: its sum is that of all listeners that have added. */
  lemma ReachAdded(c: Config, s: State, l: Listener) returns (s': State)
    requires c.Valid() && Reached(c, s) && c.Has(l) && Enabled(c, s, Add(l))
    ensures Reached(c, s') && OnlyMoved(s, s', l) && s'.table == s.table
    ensures s'.At(l) == Added(s.At(l).p, BytesIn(c.Length(l), Counted(c, s, l.msg) + {l.part}))
  {
    ReachedStep(c, s, Add(l));
    s' := Step(c, s, Add(l));
    ReachedLocal(c, s, l);
    AddOwn(c, s, l);
    CountedAdd(c, s, s', l, l.msg);
  }

  /** Listener `i` of message `m` gets from the start to its compare. */
  lemma DeliverOne(c: Config, s: State, m: nat, parts: set<nat>, i: nat) returns (s': State)
    requires c.Valid() && Standing(c, s, m, parts) && c.Has(Listener(m, i)) && i !in parts
    requires forall j | j in parts :: c.Has(Listener(m, j))
    ensures Standing(c, s', m, parts + {i}) && OnlyMoved(s, s', Listener(m, i))
    ensures s'.At(Listener(m, i)).v == BytesIn(|c.msgs[m].data|, parts + {i})
  {
    var l := Listener(m, i);
    var t := ReachReady(c, s, l);
    StandingCounted(c, s, m, parts, t, l);
    s' := ReachAdded(c, t, l);
  }

  lemma ReachReady(c: Config, s: State, l: Listener) returns (s': State)
    requires c.Valid() && Reached(c, s) && c.Has(l) && s.At(l).Start?
    ensures Reached(c, s') && OnlyMoved(s, s', l) && s'.table.Keys == s.table.Keys + {c.Key(l.msg)}
    ensures Enabled(c, s', Add(l))
  {
    var t := ReachCopying(c, s, l);
    s' := ReachCopied(c, t, l);
  }

  lemma StandingCounted(c: Config, s: State, m: nat, parts: set<nat>, s': State, l: Listener)
    requires Standing(c, s, m, parts) && OnlyMoved(s, s', l) && c.Has(l) && l.msg == m && l.part !in parts
    requires s'.At(l).Copying? && forall j | j in parts :: c.Has(Listener(m, j))
    ensures Counted(c, s', m) == parts
  {
  }

  /** Listeners `lo` to `hi` of message `m`, one after the other. */
  lemma {:induction false} DeliverRange(c: Config, s: State, m: nat, parts: set<nat>, lo: nat, hi: nat)
    returns (s': State)
    requires c.Valid() && Standing(c, s, m, parts) && lo <= hi <= FragmentCount(|c.msgs[m].data|)
    requires forall j | j in parts :: c.Has(Listener(m, j))
    requires forall j | lo <= j < hi :: j !in parts
    ensures Standing(c, s', m, parts + Range(lo, hi))
    ensures forall j | j in parts :: s'.At(Listener(m, j)) == s.At(Listener(m, j))
    ensures lo < hi ==> s'.At(Listener(m, hi - 1)).v == BytesIn(|c.msgs[m].data|, parts + Range(lo, hi))
    decreases hi - lo
  {
    if lo == hi {
      s' := s;
      assert parts + Range(lo, hi) == parts;
    } else {
      var t := DeliverRange(c, s, m, parts, lo, hi - 1);
      RangeGrows(parts, lo, hi);
      s' := DeliverOne(c, t, m, parts + Range(lo, hi - 1), hi - 1);
    }
  }

  lemma RangeGrows(parts: set<nat>, lo: nat, hi: nat)
    requires lo < hi
    ensures parts + Range(lo, hi - 1) + {hi - 1} == parts + Range(lo, hi)
  {
  }

  // ---------------------------------------------------------------- recycling the packet too soon

  /** With every listener of the message before its compare, listener `l` has the full sum and
      its packet. */
  ghost predicate AllStanding(c: Config, s: State, l: Listener) {
    && c.Has(l) && Standing(c, s, l.msg, Range(0, FragmentCount(c.Length(l))))
    && s.At(l).Added? && s.At(l).v == c.Length(l)
  }

  lemma OnePacketStanding(c: Config, s: State, l: Listener, x: Listener)
    requires c.Valid() && AllStanding(c, s, l) && c.Has(x) && x.msg == l.msg
    ensures InTable(c, s, l.msg, s.At(l).p) && s.At(x).Added? && s.At(x).p == s.At(l).p
    ensures s.At(l).p in s.heap && s.heap[s.At(l).p].len == c.Length(l)
  {
    ReachedLocal(c, s, l);
    ReachedLocal(c, s, x);
  }

  /** Listener `l` returns the packet and gives it back. */
  lemma ReachReleased(c: Config, s: State, l: Listener) returns (s': State)
    requires c.Valid() && AllStanding(c, s, l)
    ensures Reached(c, s') && OnlyMoved(s, s', l) && s'.At(l).Released?
    ensures s'.table == map[] && s.At(l).p in s'.pool
  {
    OnePacketStanding(c, s, l, l);
    ReachedStep(c, s, Compare(l));
    s' := Step(c, s, Compare(l));
    ReachedStep(c, s', Delete(l));
    s' := Step(c, s', Delete(l));
    ReachedStep(c, s', Done(l));
    s' := Step(c, s', Done(l));
  }

  /** Packet `p` is taken from the pool and given the length `v`; listener `x` stays where it was. */
  lemma ReachRetaken(c: Config, s: State, p: Ref, v: int, x: Listener) returns (s': State)
    requires c.Valid() && Reached(c, s) && s.table == map[] && p in s.pool && !Unused(c, v)
    requires forall l | c.Has(l) && l.msg != x.msg :: s.At(l).Start?
    requires c.Has(x) && v != c.Length(x)
    ensures Reached(c, s') && s'.At(x) == s.At(x) && p in s'.heap && s'.heap[p].len == v
  {
    ReachedLocal(c, s, x);
    if v in c.sends {
      var send := Send(p, s.heap[p].(len := v));
      ReachedStep(c, s, send);
      s' := Step(c, s, send);
    } else {
      var m :| 0 <= m < |c.msgs| && |c.msgs[m].data| == v;
      var l := Listener(m, 0);
      s' := ReachLoaded(c, s, l);
      s' := ReachTaken(c, s', l, p);
    }
  }

  lemma ReachTaken(c: Config, s: State, l: Listener, p: Ref) returns (s': State)
    requires c.Valid() && Reached(c, s) && c.Has(l) && s.At(l).Missed? && p in s.pool
    ensures Reached(c, s') && OnlyMoved(s, s', l) && p in s'.heap && s'.heap[p].len == c.Length(l)
  {
    ReachedLocal(c, s, l);
    var get := Get(l, p, s.heap[p].buf);
    NewPacketFields(c.msgs[l.msg].id, c.msgs[l.msg].data, l.part, s.heap[p].buf);
    ReachedStep(c, s, get);
    s' := Step(c, s, get);
  }

  /** The listeners of parts `lo` to `hi`, then all others, stand before their compare; the last
      of the first ones has the sum of these, the last of the others the full sum. */
  lemma ReachStanding(c: Config, m: nat, k: nat, first: bool) returns (s: State, x: Listener, l: Listener)
    requires c.Valid() && m < |c.msgs| && 1 <= k < FragmentCount(|c.msgs[m].data|)
    ensures x.msg == m && c.Has(x) && l.msg == m && AllStanding(c, s, l) && s.At(x).Added?
    ensures s.At(x).v == if first then MAX_PAYLOAD_SIZE * k else |c.msgs[m].data| - MAX_PAYLOAD_SIZE * k
  {
    var n := |c.msgs[m].data|;
    var count := FragmentCount(n);
    RangeSums(n, k);
    AllSum(n);
    assert Range(0, k) + Range(k, count) == Range(0, count) == Range(k, count) + Range(0, k);
    s := ReachIdle(c, m);
    if first {
      x, l := Listener(m, k - 1), Listener(m, count - 1);
      s := DeliverTwice(c, s, m, 0, k, k, count);
    } else {
      x, l := Listener(m, count - 1), Listener(m, k - 1);
      s := DeliverTwice(c, s, m, k, count, 0, k);
    }
  }

  lemma ReachIdle(c: Config, m: nat) returns (s: State)
    requires m < |c.msgs|
    ensures Standing(c, s, m, {})
  {
    s := State(map[], map[], multiset{}, map[]);
    assert RightRun(c, Trace([s], []), s);
  }

  lemma DeliverTwice(c: Config, s: State, m: nat, lo: nat, hi: nat, lo': nat, hi': nat) returns (s': State)
    requires c.Valid() && Standing(c, s, m, {})
    requires lo < hi <= FragmentCount(|c.msgs[m].data|) && lo' < hi' <= FragmentCount(|c.msgs[m].data|)
    requires hi <= lo' || hi' <= lo
    ensures var n := |c.msgs[m].data|;
            && Standing(c, s', m, Range(lo, hi) + Range(lo', hi'))
            && s'.At(Listener(m, hi - 1)).Added? && s'.At(Listener(m, hi' - 1)).Added?
            && s'.At(Listener(m, hi - 1)).v == BytesIn(n, Range(lo, hi))
            && s'.At(Listener(m, hi' - 1)).v == BytesIn(n, Range(lo, hi) + Range(lo', hi'))
  {
    var t := DeliverRange(c, s, m, {}, lo, hi);
    assert {} + Range(lo, hi) == Range(lo, hi);
    assert hi - 1 in Range(lo, hi);
    s' := DeliverRange(c, t, m, Range(lo, hi), lo', hi');
  }

  /** If some but not all fragments of a message have as many bytes as another message, or as a
      packet sent meanwhile has as its `len`, some run gives the message to two receivers. */
  lemma SomeRunGivesTwo(c: Config, m: nat, v: int) returns (tr: Trace)
    requires c.Valid() && m < |c.msgs| && SomeParts(|c.msgs[m].data|, v) && !Unused(c, v)
    ensures IsRun(c, tr) && !OneResult(c, tr.Last())
  {
    var n := |c.msgs[m].data|;
    var k :| SplitsAt(n, v, k);
    var s, x, l := ReachStanding(c, m, k, v == MAX_PAYLOAD_SIZE * k);
    OnePacketStanding(c, s, l, x);
    assert v < n;
    var t := ReachReleased(c, s, l);
    var u := ReachRetaken(c, t, s.At(l).p, v, x);
    ReachedInv(c, u);
    WrongGivesTwo(c, u, x);
    var tr' :| RightRun(c, tr', u);
    tr := RunExtends(c, tr', Compare(x));
  }

  // ---------------------------------------------------------------- main results

  /** In every run every message goes to one receiver, if and only if the lengths are apart. */
  lemma SafeIffLengthsApart(c: Config)
    requires c.Valid()
    ensures (forall tr, n | IsRun(c, tr) && 0 <= n < |tr.states| :: OneResult(c, tr.states[n])) <==> LengthsApart(c)
  {
    if LengthsApart(c) {
      forall tr, n | IsRun(c, tr) && 0 <= n < |tr.states| ensures OneResult(c, tr.states[n]) {
        ApartNeverLate(c, tr);
        OneResultIffNeverLate(c, tr);
      }
    } else {
      var m, v :| 0 <= m < |c.msgs| && SomeParts(|c.msgs[m].data|, v) && !Unused(c, v);
      var tr := SomeRunGivesTwo(c, m, v);
      assert !OneResult(c, tr.states[|tr.states| - 1]);
    }
  }

  lemma ApartNeverLate(c: Config, tr: Trace)
    requires c.Valid() && LengthsApart(c) && IsRun(c, tr)
    ensures NeverLate(c, tr)
  {
    forall n | 0 <= n < |tr.actions| ensures !Late(c, tr, n) { ApartIsNeverLate(c, tr, n); }
  }

  /** A message reassembled while no other is, and nothing is sent, is never at risk. */
  lemma SingleMessageIsSafe(c: Config, tr: Trace)
    requires c.Valid() && |c.msgs| <= 1 && c.sends == {} && IsRun(c, tr)
    ensures NeverLate(c, tr)
  {
    assert forall n: nat, v: int, k: nat | SplitsAt(n, v, k) :: v < n;
    ApartNeverLate(c, tr);
  }

  /** Three full fragments, and a message of two: the first two fragments of the one have as
      many bytes as the other. */
  lemma TwoOfThreeIsUnsafe(c: Config) returns (tr: Trace)
    requires c.Valid() && |c.msgs| == 2
    requires |c.msgs[0].data| == 3 * MAX_PAYLOAD_SIZE && |c.msgs[1].data| == 2 * MAX_PAYLOAD_SIZE
    ensures IsRun(c, tr) && !OneResult(c, tr.Last())
  {
    assert SplitsAt(|c.msgs[0].data|, 2 * MAX_PAYLOAD_SIZE, 2);
    tr := SomeRunGivesTwo(c, 0, 2 * MAX_PAYLOAD_SIZE);
  }
}
