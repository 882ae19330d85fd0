/**
  The zig-zag scan of the routing table around the target's bucket: o, o+1, o-1, o+2, ...
 */
module Scan {
  import opened Ids
  import opened Buckets
  import opened Tables

  /** The bucket index the scan looks at in step `i`; it may lie outside the table. */
  function Offset(o: int, i: nat): int {
    if i == 0 then o
    else if i % 2 == 1 then Offset(o, i - 1) + i
    else Offset(o, i - 1) - i
  }

  /** The step in which the scan looks at bucket `b`. */
  function Rank(o: int, b: int): nat {
    if b > o then 2 * (b - o) - 1 else 2 * (o - b)
  }

  /** The growing alternating increments look at o, o+1, o-1, o+2, ... in turn. */
  lemma {:induction false} OffsetClosed(o: int, k: nat)
    ensures Offset(o, 2 * k) == o - k
    ensures Offset(o, 2 * k + 1) == o + k + 1
  {
    if k > 0 { OffsetClosed(o, k - 1); }
    assert (2 * k) % 2 == 0 && (2 * k + 1) % 2 == 1;
  }

  /** Every bucket is looked at in exactly one step. */
  lemma ScanIsBijective(o: int, i: nat, b: int)
    ensures Rank(o, Offset(o, i)) == i
    ensures Offset(o, Rank(o, b)) == b
  {
    OffsetClosed(o, i / 2);
    OffsetClosed(o, if b > o then b - o - 1 else o - b);
    assert i == 2 * (i / 2) || i == 2 * (i / 2) + 1;
  }

  /** After `i` steps the scan has covered the buckets Low..High-1 and no others. */
  function Low(o: nat, i: nat): (lo: nat)
    requires o < KEY_BITS && i > 0
    ensures lo <= o
  {
    if i == 1 then o
    else
      var b := Offset(o, i - 1);
      if 0 <= b < o then b else Low(o, i - 1)
  }

  function High(o: nat, i: nat): (hi: nat)
    requires o < KEY_BITS && i > 0
    ensures o < hi <= KEY_BITS
  {
    if i == 1 then o + 1
    else
      var b := Offset(o, i - 1);
      if o < b < KEY_BITS then b + 1 else High(o, i - 1)
  }

  lemma {:induction false} CoverClosed(o: nat, k: nat)
    requires o < KEY_BITS
    ensures Low(o, 2 * k + 1) == Low(o, 2 * k + 2) == (if k <= o then o - k else 0)
    ensures High(o, 2 * k + 1) == Min(KEY_BITS, o + k + 1)
    ensures High(o, 2 * k + 2) == Min(KEY_BITS, o + k + 2)
  {
    OffsetClosed(o, k);
    if k > 0 { CoverClosed(o, k - 1); }
  }

  lemma CoveredIff(o: nat, i: nat, b: nat)
    requires o < KEY_BITS && i > 0 && b < KEY_BITS
    ensures Rank(o, b) < i <==> Low(o, i) <= b < High(o, i)
  {
    var k := (i - 1) / 2;
    CoverClosed(o, k);
    assert i == 2 * k + 1 || i == 2 * k + 2;
  }

  /** The whole table is covered after at most 511 steps. */
  lemma CoversAll(o: nat)
    requires o < KEY_BITS
    ensures Low(o, 511) == 0 && High(o, 511) == KEY_BITS
  {
    CoverClosed(o, 255);
  }

  /** The nodes looked at in step `i`. */
  function Visit(t: Table, o: int, i: nat): seq<Node> {
    var b := Offset(o, i);
    if 0 <= b < |t.buckets| then t.buckets[b].active else []
  }

  /** The nodes collected in the first `i` steps. */
  function Gathered(t: Table, o: int, i: nat): seq<Node> {
    if i == 0 then [] else Gathered(t, o, i - 1) + Visit(t, o, i - 1)
  }

  /** A step inside the table extends the covered range by the bucket next to it. */
  lemma CoverStep(o: nat, i: nat)
    requires o < KEY_BITS && i > 0
    ensures Offset(o, i) != o
    ensures o < Offset(o, i) < KEY_BITS ==> High(o, i) == Offset(o, i)
    ensures 0 <= Offset(o, i) < o ==> Low(o, i) == Offset(o, i) + 1
  {
    var k := (i - 1) / 2;
    CoverClosed(o, k);
    OffsetClosed(o, k);
    OffsetClosed(o, k + 1);
    assert i == 2 * k + 1 || i == 2 * k + 2;
  }

  /** The scan collects exactly the nodes of the covered buckets. */
  lemma {:induction false} GatheredCount(t: Table, o: nat, i: nat)
    requires |t.buckets| == KEY_BITS && o < KEY_BITS && i > 0
    ensures |Gathered(t, o, i)| == Span(t, Low(o, i), High(o, i))
  {
    if i == 1 {
      assert Gathered(t, o, 1) == Gathered(t, o, 0) + Visit(t, o, 0);
      assert Span(t, o, o + 1) == Span(t, o, o) + |t.buckets[o].active|;
    } else {
      GatheredCount(t, o, i - 1);
      CoverStep(o, i - 1);
      var b := Offset(o, i - 1);
      if 0 <= b < o { SpanFront(t, b, High(o, i)); }
    }
  }

  lemma {:induction false} GatheredMember(t: Table, o: nat, i: nat, n: Node)
    requires Placed(t) && o < KEY_BITS
    ensures n in Gathered(t, o, i) <==> Active(t, n) && Rank(o, BucketId(t.local, n.id)) < i
  {
    if i > 0 {
      var before, now := Gathered(t, o, i - 1), Visit(t, o, i - 1);
      GatheredMember(t, o, i - 1, n);
      VisitMember(t, o, i - 1, n);
      assert n in before + now <==> n in before || n in now;
    }
  }

  lemma VisitMember(t: Table, o: nat, i: nat, n: Node)
    requires Placed(t) && o < KEY_BITS
    ensures n in Visit(t, o, i) <==> Active(t, n) && Rank(o, BucketId(t.local, n.id)) == i
  {
    var b := Offset(o, i);
    ScanIsBijective(o, i, BucketId(t.local, n.id));
    if n in Visit(t, o, i) {
      assert InPlace(t.local, t.buckets[b], b);
    }
    if Active(t, n) { ActiveInOwnBucket(t, n); }
  }

  lemma {:induction false} GatheredDistinct(t: Table, o: nat, i: nat)
    requires Placed(t) && o < KEY_BITS
    ensures DistinctIds(Gathered(t, o, i))
  {
    if i > 0 {
      GatheredDistinct(t, o, i - 1);
      VisitDistinct(t, o, i - 1);
      VisitApart(t, o, i - 1);
      DistinctConcat(Gathered(t, o, i - 1), Visit(t, o, i - 1), Gathered(t, o, i));
    }
  }

  lemma VisitDistinct(t: Table, o: nat, i: nat)
    requires Placed(t)
    ensures DistinctIds(Visit(t, o, i))
  {
  }

  ghost predicate Apart(s: seq<Node>, t: seq<Node>) {
    forall j, k | 0 <= j < |s| && 0 <= k < |t| :: s[j].id != t[k].id
  }

  lemma VisitApart(t: Table, o: nat, i: nat)
    requires Placed(t) && o < KEY_BITS
    ensures Apart(Gathered(t, o, i), Visit(t, o, i))
  {
    var before, now := Gathered(t, o, i), Visit(t, o, i);
    forall j, k | 0 <= j < |before| && 0 <= k < |now| ensures before[j].id != now[k].id {
      GatheredNotVisited(t, o, i, before[j], now[k]);
    }
  }

  lemma GatheredNotVisited(t: Table, o: nat, i: nat, n: Node, m: Node)
    requires Placed(t) && o < KEY_BITS && n in Gathered(t, o, i) && m in Visit(t, o, i)
    ensures n.id != m.id
  {
    GatheredMember(t, o, i, n);
    VisitMember(t, o, i, m);
  }

  lemma DistinctConcat(s: seq<Node>, t: seq<Node>, r: seq<Node>)
    requires DistinctIds(s) && DistinctIds(t) && Apart(s, t) && r == s + t
    ensures DistinctIds(r)
  {
  }

  /** A scan that has covered the table has collected every node. */
  lemma GatheredAll(t: Table, o: nat, i: nat)
    requires Placed(t) && o < KEY_BITS && i > 0 && Low(o, i) == 0 && High(o, i) == KEY_BITS
    ensures |Gathered(t, o, i)| == Neighbours(t)
    ensures forall n :: n in Gathered(t, o, i) <==> Active(t, n)
  {
    GatheredCount(t, o, i);
    forall n ensures n in Gathered(t, o, i) <==> Active(t, n) {
      GatheredMember(t, o, i, n);
      CoveredIff(o, i, BucketId(t.local, n.id));
    }
  }

  // ---------------------------------------------------------------- where the scan stops

  /** The scan may stop after `i` steps: enough nodes, or the whole table covered. */
  predicate Enough(t: Table, o: nat, count: int, i: nat)
    requires |t.buckets| == KEY_BITS && o < KEY_BITS && i > 0
  {
    || (0 <= Offset(o, i - 1) < KEY_BITS && Span(t, Low(o, i), High(o, i)) >= count)
    || (Low(o, i) == 0 && High(o, i) == KEY_BITS)
  }

  /** The number of steps the scan makes, from the sizes of the buckets alone. */
  function StopAt(t: Table, o: nat, count: int, i: nat): (s: nat)
    requires |t.buckets| == KEY_BITS && o < KEY_BITS && 0 < i <= 511
    ensures i <= s <= 511
    decreases 511 - i
  {
    if i == 511 || Enough(t, o, count, i) then i else StopAt(t, o, count, i + 1)
  }

  /** The scan stops at the first step that is enough, and there always is one. */
  lemma {:induction false} StopsAtFirst(t: Table, o: nat, count: int, i: nat)
    requires |t.buckets| == KEY_BITS && o < KEY_BITS && 0 < i <= 511
    ensures var s := StopAt(t, o, count, i);
            Enough(t, o, count, s) && forall j | i <= j < s :: !Enough(t, o, count, j)
    decreases 511 - i
  {
    CoversAll(o);
    if i < 511 && !Enough(t, o, count, i) { StopsAtFirst(t, o, count, i + 1); }
  }
}
