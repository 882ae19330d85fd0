/**
  The routing table as a value: 256 buckets, where a node may be, and what the order of
  buckets says about closeness to a target.
 */
module Tables {
  import opened Ids
  import opened Buckets
  import BucketRuns

  /** The bucket of a target: the number of bits after the common prefix, less one. */
  function BucketId(localID: Id, targetID: Id): (b: nat)
    ensures b < KEY_BITS
  {
    var d := KEY_BITS - PrefixLen(localID, targetID);
    if d == 0 then d else d - 1
  }

  // ---------------------------------------------------------------- placement

  datatype Table = Table(local: Id, buckets: seq<BucketState>)

  predicate InPlace(local: Id, b: BucketState, k: nat) {
    ValidState(b) && forall n | n in b.active :: BucketId(local, n.id) == k
  }

  /** Every active node is in the bucket its id belongs to. */
  predicate Placed(t: Table) {
    |t.buckets| == KEY_BITS && forall k | 0 <= k < KEY_BITS :: InPlace(t.local, t.buckets[k], k)
  }

  function EmptyTable(local: Id): Table {
    Table(local, seq(KEY_BITS, _ => BucketState([], [])))
  }

  function EventId(e: BucketRuns.Event): Id {
    if e.Insert? then e.c.id else e.id
  }

  /** Every table operation goes to the bucket of the id it is about. */
  function TableStep(t: Table, e: BucketRuns.Event): Table
    requires |t.buckets| == KEY_BITS
  {
    var k := BucketId(t.local, EventId(e));
    t.(buckets := t.buckets[k := BucketRuns.Step(t.buckets[k], e)])
  }

  function TableAfter(local: Id, events: seq<BucketRuns.Event>): (t: Table)
    ensures |t.buckets| == KEY_BITS && t.local == local
  {
    if events == [] then EmptyTable(local)
    else TableStep(TableAfter(local, events[..|events| - 1]), events[|events| - 1])
  }

  lemma StepMembers(b: BucketState, e: BucketRuns.Event, n: Node)
    requires ValidState(b) && n in BucketRuns.Step(b, e).active
    ensures n.id == EventId(e) || n in b.active
  {
    match e
    case Insert(c) => WithoutMember(b.active, c.id, n);
    case Remove(id) => WithoutMember(b.active, id, n);
    case Seen(id, now) =>
      var a := BucketRuns.Step(b, e).active;
      var i :| 0 <= i < |a| && a[i] == n;
      assert b.active[i] == n || n.id == id;
  }

  lemma StepInPlace(local: Id, b: BucketState, e: BucketRuns.Event, k: nat)
    requires InPlace(local, b, k) && BucketId(local, EventId(e)) == k
    ensures InPlace(local, BucketRuns.Step(b, e), k)
  {
    match e {
      case Insert(c) => InsertedValid(b, c);
      case Remove(id) => RemovedValid(b, id);
      case Seen(id, now) => TouchedValid(b, id, now);
    }
    forall n | n in BucketRuns.Step(b, e).active ensures BucketId(local, n.id) == k {
      StepMembers(b, e, n);
    }
  }

  /** Over every run of insert, remove and seen, every active node is in its own bucket. */
  lemma {:induction false} RunPlaced(local: Id, events: seq<BucketRuns.Event>)
    ensures Placed(TableAfter(local, events))
  {
    if events != [] {
      var n := |events| - 1;
      RunPlaced(local, events[..n]);
      TableStepPlaced(TableAfter(local, events[..n]), events[n]);
    }
  }

  lemma TableStepPlaced(t: Table, e: BucketRuns.Event)
    requires Placed(t)
    ensures Placed(TableStep(t, e))
  {
    var k := BucketId(t.local, EventId(e));
    StepInPlace(t.local, t.buckets[k], e, k);
  }

  // ---------------------------------------------------------------- counting

  ghost predicate Active(t: Table, n: Node) {
    exists k :: 0 <= k < |t.buckets| && n in t.buckets[k].active
  }

  lemma ActiveInOwnBucket(t: Table, n: Node)
    requires Placed(t) && Active(t, n)
    ensures n in t.buckets[BucketId(t.local, n.id)].active
  {
  }

  /** Removing an id from the table takes exactly its node out of the active ones. */
  lemma RemovedFromTable(t: Table, id: Id, n: Node)
    requires Placed(t)
    ensures Active(TableStep(t, BucketRuns.Remove(id)), n) <==> Active(t, n) && n.id != id
  {
    var k, r := BucketId(t.local, id), TableStep(t, BucketRuns.Remove(id));
    TableStepPlaced(t, BucketRuns.Remove(id));
    RemovedExactly(t.buckets[k], id);
    if Active(r, n) { ActiveInOwnBucket(r, n); }
    if Active(t, n) { ActiveInOwnBucket(t, n); }
  }

  /** No two active nodes anywhere in the table share an id. */
  lemma ActiveIdsUnique(t: Table, n: Node, m: Node)
    requires Placed(t) && Active(t, n) && Active(t, m) && n.id == m.id
    ensures n == m
  {
  }

  ghost function IdSet(s: seq<Node>): set<Id> {
    set n | n in s :: n.id
  }

  lemma {:induction false} IdSetSize(s: seq<Node>)
    requires DistinctIds(s)
    ensures |IdSet(s)| == |s|
  {
    if s != [] {
      var n := |s| - 1;
      IdSetSize(s[..n]);
      assert s == s[..n] + [s[n]];
      assert IdSet(s) == IdSet(s[..n]) + {s[n].id};
      assert s[n].id !in IdSet(s[..n]);
    }
  }

  /** The number of active nodes in buckets lo..hi-1. */
  function Span(t: Table, lo: nat, hi: nat): nat
    requires lo <= hi <= |t.buckets|
    decreases hi - lo
  {
    if lo == hi then 0 else Span(t, lo, hi - 1) + |t.buckets[hi - 1].active|
  }

  lemma {:induction false} SpanFront(t: Table, lo: nat, hi: nat)
    requires lo < hi <= |t.buckets|
    ensures Span(t, lo, hi) == |t.buckets[lo].active| + Span(t, lo + 1, hi)
    decreases hi - lo
  {
    if lo + 1 < hi { SpanFront(t, lo, hi - 1); }
  }

  ghost function IdsIn(t: Table, lo: nat, hi: nat): set<Id>
    requires lo <= hi <= |t.buckets|
  {
    set k, n | lo <= k < hi && n in t.buckets[k].active :: n.id
  }

  /** A range of buckets holds as many ids as nodes. */
  lemma {:induction false} IdsInSize(t: Table, lo: nat, hi: nat)
    requires Placed(t) && lo <= hi <= KEY_BITS
    ensures |IdsIn(t, lo, hi)| == Span(t, lo, hi)
    decreases hi - lo
  {
    if lo < hi {
      IdsInSize(t, lo, hi - 1);
      IdsInLast(t, lo, hi);
      assert InPlace(t.local, t.buckets[hi - 1], hi - 1);
      IdSetSize(t.buckets[hi - 1].active);
    } else {
      assert IdsIn(t, lo, hi) == {};
    }
  }

  lemma IdsInLast(t: Table, lo: nat, hi: nat)
    requires Placed(t) && lo < hi <= KEY_BITS
    ensures IdsIn(t, lo, hi) == IdsIn(t, lo, hi - 1) + IdSet(t.buckets[hi - 1].active)
    ensures IdsIn(t, lo, hi - 1) !! IdSet(t.buckets[hi - 1].active)
  {
  }

  function Neighbours(t: Table): nat {
    Span(t, 0, |t.buckets|)
  }

  /** `neighbours()` counts the distinct active ids. */
  lemma NeighboursAreDistinctIds(t: Table)
    requires Placed(t)
    ensures Neighbours(t) == |IdsIn(t, 0, KEY_BITS)|
    ensures forall id :: id in IdsIn(t, 0, KEY_BITS) <==> exists n :: Active(t, n) && n.id == id
  {
    IdsInSize(t, 0, KEY_BITS);
    forall id ensures id in IdsIn(t, 0, KEY_BITS) <==> exists n :: Active(t, n) && n.id == id {
      if id in IdsIn(t, 0, KEY_BITS) {
        var k, n :| 0 <= k < KEY_BITS && n in t.buckets[k].active && n.id == id;
        assert Active(t, n);
      }
    }
  }

  // ---------------------------------------------------------------- buckets and closeness

  /** Seen from the target's own bucket: its nodes are closer to the target than all others. */
  lemma OwnBucketIsCloser(local: Id, target: Id, n: Id, m: Id)
    requires BucketId(local, n) == BucketId(local, target) != BucketId(local, m)
    ensures PrefixLen(n, target) > PrefixLen(m, target)
  {
    PrefixLenSymmetric(local, n);
    PrefixLenSymmetric(local, m);
    Ultrametric(n, local, target);
    Ultrametric(m, local, target);
  }

  /** How close a node of another bucket is to the target depends on its bucket alone: lower
      buckets all share the target's prefix with us, higher ones less the higher they are. */
  lemma OtherBucketCloseness(local: Id, target: Id, m: Id)
    requires BucketId(local, m) != BucketId(local, target)
    ensures PrefixLen(m, target) ==
            if BucketId(local, m) < BucketId(local, target) then PrefixLen(local, target)
            else KEY_BITS - 1 - BucketId(local, m)
    ensures BucketId(local, target) > 0 ==> PrefixLen(local, target) == KEY_BITS - 1 - BucketId(local, target)
  {
    PrefixLenSymmetric(local, m);
    Ultrametric(m, local, target);
  }
}
