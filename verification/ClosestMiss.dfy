/**
  `closestN` is not exact in general: around every inner bucket there is a table of two
  nodes from which it returns the further one.
 */
module ClosestMiss {
  import opened Ids
  import opened Buckets
  import BucketRuns
  import opened Tables
  import opened Scan
  import opened Closest
  import opened Refresh

  function Caller(id: Id): Contact {
    Contact(id, Address([], 0), 0, false, 0)
  }

  function Peer(id: Id): Node {
    NewNode(Caller(id), 0)
  }

  /** Two nodes, one in bucket `a` and one in bucket `b`. */
  function Pair(local: Id, a: nat, n: Node, b: nat, m: Node): Table
    requires a < KEY_BITS && b < KEY_BITS
  {
    Table(local, EmptyTable(local).buckets[a := BucketState([n], [])][b := BucketState([m], [])])
  }

  lemma ScanFindsHigher(t: Table, o: nat, m: Node)
    requires |t.buckets| == KEY_BITS && 0 < o < KEY_BITS - 1
    requires t.buckets[o].active == [] && t.buckets[o + 1].active == [m]
    ensures StopAt(t, o, 1, 1) == 2 && Low(o, 2) == o && Gathered(t, o, 2) == [m]
    ensures Span(t, o, o + 1) == 0
  {
    assert Offset(o, 0) == o && Offset(o, 1) == o + 1;
    assert Span(t, o, o + 1) == Span(t, o, o) + 0;
    assert Span(t, o, o + 2) == Span(t, o, o + 1) + 1;
    assert !Enough(t, o, 1, 1) && Enough(t, o, 1, 2);
    assert Gathered(t, o, 1) == Gathered(t, o, 0) + Visit(t, o, 0);
    assert Gathered(t, o, 2) == Gathered(t, o, 1) + Visit(t, o, 1);
  }

  /** The table after the two nodes were inserted. */
  lemma PairIsReached(local: Id, x: Id, y: Id)
    requires BucketId(local, x) != BucketId(local, y)
    ensures TableAfter(local, [BucketRuns.Insert(Caller(x)), BucketRuns.Insert(Caller(y))])
            == Pair(local, BucketId(local, x), Peer(x), BucketId(local, y), Peer(y))
  {
    var first, both := [BucketRuns.Insert(Caller(x))], [BucketRuns.Insert(Caller(x)), BucketRuns.Insert(Caller(y))];
    assert both[..1] == first && first[..0] == [];
    assert TableAfter(local, []) == EmptyTable(local);
    InsertFirst(Caller(x));
    InsertFirst(Caller(y));
  }

  lemma InsertFirst(c: Contact)
    ensures BucketRuns.Step(BucketState([], []), BucketRuns.Insert(c)) == BucketState([NewNode(c, c.now)], [])
  {
  }

  lemma PairPlaced(local: Id, a: nat, n: Node, b: nat, m: Node)
    requires a < b < KEY_BITS && n.pending == 0 && m.pending == 0
    requires BucketId(local, n.id) == a && BucketId(local, m.id) == b
    ensures Placed(Pair(local, a, n, b, m))
  {
  }

  lemma NotSufficient(t: Table, target: Id, o: nat)
    requires |t.buckets| == KEY_BITS && BucketId(t.local, target) == o > 0
    requires StopAt(t, o, 1, 1) == 2 && Low(o, 2) == o && Span(t, o, o + 1) == 0
    requires |t.buckets[o - 1].active| > 0
    ensures !LowerBucketsSuffice(t, target, 1)
  {
  }

  /** Around every inner bucket there are two nodes whose insertion leads to a table from which
      `closestN` returns the further one. */
  lemma ClosestNCanMiss(local: Id, o: nat) returns (t: Table, target: Id, r: seq<Node>, events: seq<BucketRuns.Event>)
    requires 0 < o < KEY_BITS - 1
    ensures t == TableAfter(local, events) && Placed(t) && BucketId(local, target) == o
    ensures Selected(t, target, 1, r) && !Exact(t, target, r)
  {
    target := BucketInhabited(local, o);
    var lower := BucketInhabited(local, o - 1);
    var higher := BucketInhabited(local, o + 1);
    var n, m := Peer(lower), Peer(higher);
    t := Pair(local, o - 1, n, o + 1, m);
    events := [BucketRuns.Insert(Caller(lower)), BucketRuns.Insert(Caller(higher))];
    PairIsReached(local, lower, higher);
    r := [m];
    PairPlaced(local, o - 1, n, o + 1, m);
    ScanFindsHigher(t, o, m);
    NotSufficient(t, target, o);
    assert BestOf([m], target, 1, r);
    ExactIffLowerBucketsSuffice(t, target, 1, r);
  }
}
