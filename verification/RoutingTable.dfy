/**
  The routing table as the source has it: 256 bucket objects updated in place, and the scans
  over them.
 */
module RoutingTable {
  import opened Ids
  import opened Options
  import opened Buckets
  import opened Tables
  import opened Scan
  import opened Closest
  import BucketRuns

  /** The source's `bucketID`, on the loop that computes the prefix. */
  method BucketID(localID: Id, targetID: Id) returns (b: nat)
    ensures b == BucketId(localID, targetID)
  {
    var pfx := Distance(localID, targetID);
    var d := KEY_BITS - pfx;
    if d == 0 {
      return d;
    }
    return d - 1;
  }

  /** sort.Slice by descending prefix length: some sorted permutation. */
  method SortNodes(nodes: seq<Node>, target: Id) returns (s: seq<Node>)
    ensures multiset(s) == multiset(nodes) && SortedByPrefix(s, target)
  {
    s := [];
    var i := 0;
    while i < |nodes|
      invariant 0 <= i <= |nodes|
      invariant multiset(s) == multiset(nodes[..i]) && SortedByPrefix(s, target)
    {
      s := InsertSorted(s, nodes[i], target);
      assert nodes[..i + 1] == nodes[..i] + [nodes[i]];
      i := i + 1;
    }
    assert nodes[..i] == nodes;
  }

  method InsertSorted(s: seq<Node>, n: Node, target: Id) returns (r: seq<Node>)
    requires SortedByPrefix(s, target)
    ensures multiset(r) == multiset(s + [n]) && SortedByPrefix(r, target)
  {
    var d := Distance(n.id, target);
    var k := 0;
    while k < |s|
      invariant 0 <= k <= |s|
      invariant forall j | 0 <= j < k :: Closeness(s[j], target) >= Closeness(n, target)
    {
      var dk := Distance(s[k].id, target);
      if d > dk {
        break;
      }
      k := k + 1;
    }
    r := s[..k] + [n] + s[k..];
    InsertedMultiset(s, n, k);
    InsertedSorted(s, n, k, target);
  }

  lemma InsertedMultiset(s: seq<Node>, n: Node, k: nat)
    requires k <= |s|
    ensures multiset(s[..k] + [n] + s[k..]) == multiset(s + [n])
  {
    assert s == s[..k] + s[k..];
  }

  lemma InsertedSorted(s: seq<Node>, n: Node, k: nat, target: Id)
    requires SortedByPrefix(s, target) && k <= |s|
    requires forall j | 0 <= j < k :: Closeness(s[j], target) >= Closeness(n, target)
    requires k < |s| ==> Closeness(n, target) >= Closeness(s[k], target)
    ensures SortedByPrefix(s[..k] + [n] + s[k..], target)
  {
  }

  ghost predicate Separate(buckets: seq<Bucket>) {
    forall i, j | 0 <= i < j < |buckets| :: buckets[i] != buckets[j] && buckets[i].nodes != buckets[j].nodes
  }

  ghost function Footprint(buckets: seq<Bucket>): set<object> {
    (set i | 0 <= i < |buckets| :: buckets[i] as object) + (set i | 0 <= i < |buckets| :: buckets[i].nodes as object)
  }

  ghost predicate Holds(buckets: seq<Bucket>, values: seq<BucketState>)
    reads Footprint(buckets)
  {
    |buckets| == |values| && forall i | 0 <= i < |buckets| :: buckets[i].Valid() && buckets[i].Value() == values[i]
  }

  class RoutingTable {
    const local: Id
    const buckets: seq<Bucket>
    /** The table as a value. */
    ghost var table: Table

    constructor (local: Id)
      ensures Valid() && table == EmptyTable(local)
      ensures fresh(Footprint(buckets))
    {
      this.local := local;
      var bs := NewBuckets(KEY_BITS);
      buckets := bs;
      table := EmptyTable(local);
    }

    ghost predicate Valid()
      reads this, Footprint(buckets)
    {
      && |buckets| == KEY_BITS && Separate(buckets)
      && Holds(buckets, table.buckets) && table.local == local && Placed(table)
    }

    method Insert(c: Contact)
      requires Valid()
      modifies this`table, Footprint(buckets)
      ensures Valid() && table == TableStep(old(table), BucketRuns.Insert(c))
    {
      TableStepPlaced(table, BucketRuns.Insert(c));
      var k := BucketID(local, c.id);
      assert buckets[k].Valid();
      var _ := buckets[k].Insert(c);
      assert forall i | 0 <= i < KEY_BITS && i != k :: buckets[i].Valid() && buckets[i].Value() == table.buckets[i];
      table := TableStep(table, BucketRuns.Insert(c));
    }

    method Remove(id: Id)
      requires Valid()
      modifies this`table, Footprint(buckets)
      ensures Valid() && table == TableStep(old(table), BucketRuns.Remove(id))
      ensures forall n :: Active(table, n) <==> Active(old(table), n) && n.id != id
    {
      forall n: Node ensures Active(TableStep(table, BucketRuns.Remove(id)), n) <==> Active(table, n) && n.id != id {
        RemovedFromTable(table, id, n);
      }
      RemoveInPlace(id);
    }

    method RemoveInPlace(id: Id)
      requires Valid()
      modifies this`table, Footprint(buckets)
      ensures Valid() && table == TableStep(old(table), BucketRuns.Remove(id))
    {
      TableStepPlaced(table, BucketRuns.Remove(id));
      var k := BucketID(local, id);
      assert buckets[k].Valid();
      var _ := buckets[k].Remove(id);
      assert forall i | 0 <= i < KEY_BITS && i != k :: buckets[i].Valid() && buckets[i].Value() == table.buckets[i];
      table := TableStep(table, BucketRuns.Remove(id));
    }

    /** True if the node is known, active or stashed, and then marks it as just seen. */
    method Seen(id: Id, now: int) returns (known: bool)
      requires Valid()
      modifies this`table, Footprint(buckets)
      ensures Valid() && table == TableStep(old(table), BucketRuns.Seen(id, now))
      ensures known <==> Get(old(table).buckets[BucketId(local, id)], id).Some?
    {
      TableStepPlaced(table, BucketRuns.Seen(id, now));
      var k := BucketID(local, id);
      assert buckets[k].Valid();
      known := buckets[k].Seen(id, now);
      assert forall i | 0 <= i < KEY_BITS && i != k :: buckets[i].Valid() && buckets[i].Value() == table.buckets[i];
      table := TableStep(table, BucketRuns.Seen(id, now));
    }

    method NeighbourCount() returns (n: nat)
      requires Valid()
      ensures n == Neighbours(table)
    {
      n := 0;
      var i := 0;
      while i < KEY_BITS
        invariant 0 <= i <= KEY_BITS && n == Span(table, 0, i)
      {
        assert |table.buckets[i].active| == buckets[i].size;
        n := n + buckets[i].size;
        i := i + 1;
      }
    }

    method IterateBucket(b: nat, acc: seq<Node>) returns (r: seq<Node>)
      requires Valid() && b < KEY_BITS
      ensures r == acc + table.buckets[b].active
    {
      assert buckets[b].Valid() && buckets[b].Value() == table.buckets[b];
      r := buckets[b].Iterate(acc);
    }

    /** The scan around the target's bucket: everything collected when it stops. */
    method Gather(target: Id, count: nat) returns (nodes: seq<Node>)
      requires Valid()
      ensures nodes == Collected(table, target, count)
    {
      var offset: int := BucketID(local, target);
      ghost var tr, s := ScanTrace(table, target, count);
      nodes := [];
      var i, scanned := 0, 0;
      while true
        invariant 0 <= i < s && offset == tr.offset[i] && scanned == tr.scanned[i] && nodes == tr.nodes[i]
        decreases s - i
      {
        assert Steps(table, tr, count, i, s);
        if -1 < offset < KEY_BITS {
          nodes := IterateBucket(offset, nodes);
          if |nodes| >= count {
            break;
          }
          scanned := scanned + 1;
        }
        if scanned >= KEY_BITS {
          break;
        }
        offset := NextOffset(offset, i);
        i := i + 1;
      }
    }

    /** The closest node of the first non-empty bucket the scan meets; none if the table is empty. */
    method ClosestNode(target: Id) returns (r: Option<Node>)
      requires Valid()
      ensures r.Some? ==> Selected(table, target, 1, [r.value])
      ensures r.None? ==> Neighbours(table) == 0
    {
      r := FirstFound(target);
      if r.None? { SelectedCount(table, target, 1, []); }
    }

    method BestInBucket(b: nat, target: Id) returns (r: Option<Node>)
      requires Valid() && b < KEY_BITS
      ensures r.None? <==> table.buckets[b].active == []
      ensures r.Some? ==> BestOf(table.buckets[b].active, target, 1, [r.value])
    {
      var nodes := IterateBucket(b, []);
      r := BestIn(nodes, target);
      if r.Some? { SingleIsBest(nodes, target, r.value); }
    }

    method FirstFound(target: Id) returns (r: Option<Node>)
      requires Valid()
      ensures r.Some? ==> Selected(table, target, 1, [r.value])
      ensures r.None? ==> Selected(table, target, 1, [])
    {
      var offset: int := BucketID(local, target);
      ghost var tr, s := ScanTrace(table, target, 1);
      var i, scanned := 0, 0;
      while true
        invariant 0 <= i < s && offset == tr.offset[i] && scanned == tr.scanned[i] && tr.nodes[i] == []
        decreases s - i
      {
        assert Steps(table, tr, 1, i, s);
        r := None;
        if -1 < offset < KEY_BITS {
          r := BestInBucket(offset, target);
          if r.Some? {
            FoundIsSelected(table, target, tr, i, s, r.value);
            break;
          }
          scanned := scanned + 1;
        }
        if scanned >= KEY_BITS {
          break;
        }
        offset := NextOffset(offset, i);
        i := i + 1;
      }
    }

    /** The closest known nodes to a key. */
    method ClosestN(target: Id, count: nat) returns (r: seq<Node>)
      requires Valid()
      ensures Selected(table, target, count, r)
      ensures |r| == Min(count, Neighbours(table)) && DistinctIds(r) && SortedByPrefix(r, target)
      ensures forall n | n in r :: Active(table, n)
    {
      var nodes := Gather(target, count);
      GatheredDistinct(table, BucketId(local, target), StopAt(table, BucketId(local, target), count, 1));
      var sorted := SortNodes(nodes, target);
      SortedPrefixIsBest(nodes, sorted, target, count);
      r := Truncate(sorted, count);
      SelectedCount(table, target, count, r);
    }
  }

  /** The closest of a list of nodes, as the callback of `closest` keeps track of it. */
  method BestIn(nodes: seq<Node>, target: Id) returns (cn: Option<Node>)
    ensures cn.None? <==> nodes == []
    ensures cn.Some? ==>
              cn.value in nodes && forall n | n in nodes :: Closeness(cn.value, target) >= Closeness(n, target)
  {
    var cd := 0;
    cn := None;
    var i := 0;
    while i < |nodes|
      invariant 0 <= i <= |nodes|
      invariant cn.None? ==> i == 0 && cd == 0
      invariant cn.Some? ==> cn.value in nodes && cd == Closeness(cn.value, target)
      invariant forall j | 0 <= j < i :: cd >= Closeness(nodes[j], target)
    {
      var nd := Distance(nodes[i].id, target);
      if cd == 0 || nd > cd {
        cd, cn := nd, Some(nodes[i]);
      }
      i := i + 1;
    }
  }

  lemma SingleIsBest(g: seq<Node>, target: Id, n: Node)
    requires n in g && forall m | m in g :: Closeness(n, target) >= Closeness(m, target)
    ensures BestOf(g, target, 1, [n])
  {
  }

  /** The number of buckets covered in the first `i` steps. */
  function Covered(o: nat, i: nat): nat
    requires o < KEY_BITS
  {
    if i == 0 then 0 else High(o, i) - Low(o, i)
  }

  /** One step of the scan, in the terms the loop works with. */
  lemma ScanStep(t: Table, o: nat, count: nat, i: nat)
    requires |t.buckets| == KEY_BITS && o < KEY_BITS && i < 511
    ensures Offset(o, i + 1) == if i % 2 == 0 then Offset(o, i) + i + 1 else Offset(o, i) - i - 1
    ensures var inRange := -1 < Offset(o, i) < KEY_BITS;
            && Gathered(t, o, i + 1) ==
               (if inRange then Gathered(t, o, i) + t.buckets[Offset(o, i)].active else Gathered(t, o, i))
            && Covered(o, i + 1) == Covered(o, i) + (if inRange then 1 else 0)
            && (Enough(t, o, count, i + 1) <==>
                  (inRange && |Gathered(t, o, i + 1)| >= count) || Covered(o, i + 1) >= KEY_BITS)
  {
    if i > 0 { CoverStep(o, i); }
    GatheredCount(t, o, i + 1);
  }

  /** The values of the loop variables of the scan before each step. */
  datatype Trace = Trace(offset: seq<int>, scanned: seq<int>, nodes: seq<seq<Node>>)

  /** One step of the zig-zag: up after an even step, down after an odd one. */
  function NextOffset(offset: int, i: nat): int {
    if i % 2 == 0 then offset + i + 1 else offset - i - 1
  }

  ghost predicate Steps(t: Table, tr: Trace, count: nat, i: nat, s: nat)
    requires |t.buckets| == KEY_BITS
  {
    && i + 1 < |tr.offset| && i + 1 < |tr.scanned| && i + 1 < |tr.nodes|
    && tr.offset[i + 1] == NextOffset(tr.offset[i], i)
    && var inRange := -1 < tr.offset[i] < KEY_BITS;
    && tr.nodes[i + 1] == (if inRange then tr.nodes[i] + t.buckets[tr.offset[i]].active else tr.nodes[i])
    && tr.scanned[i + 1] == tr.scanned[i] + (if inRange then 1 else 0)
    && (i + 1 == s <==> (inRange && |tr.nodes[i + 1]| >= count) || tr.scanned[i + 1] >= KEY_BITS)
  }

  /** The best of the first bucket that is not empty is what is selected. */
  lemma FoundIsSelected(t: Table, target: Id, tr: Trace, i: nat, s: nat, n: Node)
    requires |t.buckets| == KEY_BITS && Steps(t, tr, 1, i, s)
    requires s < |tr.nodes| && tr.nodes[s] == Collected(t, target, 1)
    requires tr.nodes[i] == [] && -1 < tr.offset[i] < KEY_BITS
    requires BestOf(t.buckets[tr.offset[i]].active, target, 1, [n])
    ensures i + 1 == s && Selected(t, target, 1, [n])
  {
    var active := t.buckets[tr.offset[i]].active;
    assert [] + active == active;
    assert active != [];
  }

  /** The whole run of the scan: it stops after `s` steps, and not before, with what it should collect. */
  lemma ScanTrace(t: Table, target: Id, count: nat) returns (tr: Trace, s: nat)
    requires |t.buckets| == KEY_BITS
    ensures 0 < s <= 511 && |tr.offset| == |tr.scanned| == |tr.nodes| == 512
    ensures tr.offset[0] == BucketId(t.local, target) && tr.scanned[0] == 0 && tr.nodes[0] == []
    ensures forall i | 0 <= i < s :: Steps(t, tr, count, i, s)
    ensures tr.nodes[s] == Collected(t, target, count)
  {
    var o := BucketId(t.local, target);
    s := StopAt(t, o, count, 1);
    StopsAtFirst(t, o, count, 1);
    tr := MakeTrace(t, o);
    forall i | 0 <= i < s ensures Steps(t, tr, count, i, s) {
      TraceStep(t, o, count, i, s);
    }
  }

  ghost function MakeTrace(t: Table, o: nat): Trace
    requires o < KEY_BITS
  {
    Trace(seq(512, i requires 0 <= i => Offset(o, i)), seq(512, i requires 0 <= i => Covered(o, i)),
          seq(512, i requires 0 <= i => Gathered(t, o, i)))
  }

  lemma TraceStep(t: Table, o: nat, count: nat, i: nat, s: nat)
    requires |t.buckets| == KEY_BITS && o < KEY_BITS && i < 511
    requires Enough(t, o, count, i + 1) <==> i + 1 == s
    ensures Steps(t, MakeTrace(t, o), count, i, s)
  {
    ScanStep(t, o, count, i);
  }

  method NewBuckets(n: nat) returns (buckets: seq<Bucket>)
    ensures |buckets| == n && Separate(buckets)
    ensures forall j | 0 <= j < n :: fresh(buckets[j]) && fresh(buckets[j].nodes)
    ensures Holds(buckets, seq(n, _ => BucketState([], [])))
  {
    buckets := [];
    var i := 0;
    while i < n
      invariant |buckets| == i <= n && Separate(buckets)
      invariant forall j | 0 <= j < i :: fresh(buckets[j]) && fresh(buckets[j].nodes)
      invariant forall j | 0 <= j < i :: buckets[j].Valid() && buckets[j].Value() == BucketState([], [])
    {
      var b := new Bucket();
      buckets := buckets + [b];
      i := i + 1;
    }
  }
}
