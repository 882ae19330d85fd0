/**
  What the scan-sort-truncate of `closestN` and the scan of `closest` select, and exactly
  when the selection is closest in the whole table.
 */
module Closest {
  import opened Ids
  import opened Sums
  import opened Buckets
  import opened Tables
  import opened Scan

  function Closeness(n: Node, target: Id): nat {
    PrefixLen(n.id, target)
  }

  ghost predicate SortedByPrefix(s: seq<Node>, target: Id) {
    forall i, j | 0 <= i < j < |s| :: Closeness(s[i], target) >= Closeness(s[j], target)
  }

  /** `r` consists of `count` of the nodes of `g`, or all if there are fewer, closest first,
      and no node left out is closer than one taken. */
  ghost predicate BestOf(g: seq<Node>, target: Id, count: nat, r: seq<Node>) {
    && |r| == Min(count, |g|) && DistinctIds(r) && SortedByPrefix(r, target)
    && (forall n | n in r :: n in g)
    && (forall n, m | n in g && n !in r && m in r :: Closeness(m, target) >= Closeness(n, target))
  }

  function Truncate(s: seq<Node>, count: nat): seq<Node> {
    if |s| < count then s else s[..count]
  }

  // ---------------------------------------------------------------- sorting and truncating

  lemma {:induction false} DistinctCount(s: seq<Node>, x: Node)
    requires DistinctIds(s)
    ensures multiset(s)[x] <= 1
  {
    if s != [] {
      var n := |s| - 1;
      DistinctCount(s[..n], x);
      assert s == s[..n] + [s[n]];
      if s[n] == x {
        assert x !in s[..n];
      }
    }
  }

  lemma RepeatedCount(s: seq<Node>, i: nat, j: nat)
    requires i < j < |s| && s[i] == s[j]
    ensures multiset(s)[s[i]] >= 2
  {
    assert s == s[..j] + [s[j]] + s[j + 1..];
    assert s[i] in s[..j];
  }

  lemma DistinctPermutation(g: seq<Node>, s: seq<Node>)
    requires DistinctIds(g) && multiset(g) == multiset(s)
    ensures DistinctIds(s)
    ensures forall n :: n in s <==> n in g
  {
    assert forall n :: n in s <==> n in multiset(s);
    assert forall n :: n in g <==> n in multiset(g);
    forall i, j | 0 <= i < j < |s| ensures s[i].id != s[j].id {
      if s[i] == s[j] {
        RepeatedCount(s, i, j);
        DistinctCount(g, s[i]);
      }
      assert s[i] in g && s[j] in g;
    }
  }

  lemma SortedPrefixIsBest(g: seq<Node>, sorted: seq<Node>, target: Id, count: nat)
    requires DistinctIds(g) && multiset(g) == multiset(sorted) && SortedByPrefix(sorted, target)
    ensures BestOf(g, target, count, Truncate(sorted, count))
  {
    DistinctPermutation(g, sorted);
    assert |g| == |multiset(g)| && |sorted| == |multiset(sorted)|;
    var r := Truncate(sorted, count);
    forall n, m | n in g && n !in r && m in r ensures Closeness(m, target) >= Closeness(n, target) {
      var i :| 0 <= i < |r| && r[i] == m;
      var k :| 0 <= k < |sorted| && sorted[k] == n;
      assert k < |r| ==> n in r;
      assert sorted[i] == m;
    }
  }

  // ---------------------------------------------------------------- counting what comes first

  lemma {:induction false} IdSetAtMost(s: seq<Node>)
    ensures |IdSet(s)| <= |s|
  {
    if s != [] {
      var n := |s| - 1;
      IdSetAtMost(s[..n]);
      assert s == s[..n] + [s[n]];
      assert IdSet(s) == IdSet(s[..n]) + {s[n].id};
    }
  }

  /** If all these ids stand in a sorted list strictly before position `j`, there are at most `j`. */
  lemma AtMostBefore(r: seq<Node>, target: Id, j: nat, ids: set<Id>)
    requires SortedByPrefix(r, target) && j < |r|
    requires forall id | id in ids ::
               exists k :: 0 <= k < |r| && r[k].id == id && Closeness(r[k], target) > Closeness(r[j], target)
    ensures |ids| <= j
  {
    forall id | id in ids ensures id in IdSet(r[..j]) {
      var k :| 0 <= k < |r| && r[k].id == id && Closeness(r[k], target) > Closeness(r[j], target);
      assert k < j;
      assert r[..j][k] in r[..j];
    }
    SubsetSize(ids, IdSet(r[..j]));
    IdSetAtMost(r[..j]);
  }

  /** Ids that are all selectable and all closer than the j-th selected node number at most `j`. */
  lemma CloserFitBefore(g: seq<Node>, target: Id, count: nat, r: seq<Node>, j: nat, ids: set<Id>)
    requires BestOf(g, target, count, r) && j < |r|
    requires forall id | id in ids ::
               exists n :: n in g && n.id == id && Closeness(n, target) > Closeness(r[j], target)
    ensures |ids| <= j
  {
    forall id | id in ids
      ensures exists k :: 0 <= k < |r| && r[k].id == id && Closeness(r[k], target) > Closeness(r[j], target)
    {
      var n :| n in g && n.id == id && Closeness(n, target) > Closeness(r[j], target);
      assert r[j] in r;
      assert n in r;
      var k :| 0 <= k < |r| && r[k] == n;
    }
    AtMostBefore(r, target, j, ids);
  }

  /** Each of the ids has a node in `g` at least as close as `c`. */
  ghost predicate Offers(g: seq<Node>, target: Id, ids: set<Id>, c: nat) {
    forall id | id in ids :: exists n :: n in g && n.id == id && Closeness(n, target) >= c
  }

  lemma AllBefore(g: seq<Node>, target: Id, count: nat, r: seq<Node>, j: nat, ids: set<Id>, c: nat)
    requires BestOf(g, target, count, r) && j < |r| && c > Closeness(r[j], target)
    requires Offers(g, target, ids, c)
    ensures |ids| <= j
  {
    forall id | id in ids
      ensures exists n :: n in g && n.id == id && Closeness(n, target) > Closeness(r[j], target)
    {
      var n :| n in g && n.id == id && Closeness(n, target) >= c;
    }
    CloserFitBefore(g, target, count, r, j, ids);
  }

  /** A list of more nodes than ids has a node with another id. */
  lemma OneOutside(r: seq<Node>, ids: set<Id>) returns (m: Node)
    requires DistinctIds(r) && |r| > |ids|
    ensures m in r && m.id !in ids
  {
    IdSetSize(r);
    if IdSet(r) <= ids { SubsetSize(IdSet(r), ids); }
    var id :| id in IdSet(r) && id !in ids;
    m :| m in r && m.id == id;
  }

  // ---------------------------------------------------------------- main results

  /** What the scan has collected when it stops. */
  function Collected(t: Table, target: Id, count: nat): seq<Node>
    requires |t.buckets| == KEY_BITS
  {
    var o := BucketId(t.local, target);
    Gathered(t, o, StopAt(t, o, count, 1))
  }

  /** `r` is a possible result of `closestN`. */
  ghost predicate Selected(t: Table, target: Id, count: nat, r: seq<Node>)
    requires |t.buckets| == KEY_BITS
  {
    BestOf(Collected(t, target, count), target, count, r)
  }

  lemma {:induction false} SpanPart(t: Table, lo: nat, hi: nat)
    requires lo <= hi <= |t.buckets|
    ensures Span(t, lo, hi) <= Neighbours(t)
  {
    SpanSplit(t, 0, lo, hi);
    SpanSplit(t, 0, hi, |t.buckets|);
  }

  lemma {:induction false} SpanSplit(t: Table, lo: nat, mid: nat, hi: nat)
    requires lo <= mid <= hi <= |t.buckets|
    ensures Span(t, lo, hi) == Span(t, lo, mid) + Span(t, mid, hi)
    decreases hi - mid
  {
    if mid < hi { SpanSplit(t, lo, mid, hi - 1); }
  }

  /** The result has min(count, neighbours()) pairwise distinct known nodes, closest first. */
  lemma SelectedCount(t: Table, target: Id, count: nat, r: seq<Node>)
    requires Placed(t) && Selected(t, target, count, r)
    ensures |r| == Min(count, Neighbours(t))
    ensures DistinctIds(r) && SortedByPrefix(r, target)
    ensures forall n | n in r :: Active(t, n)
  {
    var o := BucketId(t.local, target);
    var s := StopAt(t, o, count, 1);
    StopsAtFirst(t, o, count, 1);
    GatheredCount(t, o, s);
    SpanPart(t, Low(o, s), High(o, s));
    if Low(o, s) == 0 && High(o, s) == KEY_BITS { GatheredAll(t, o, s); }
    forall n | n in r ensures Active(t, n) { GatheredMember(t, o, s, n); }
  }

  /** The first min(count, size of the target's bucket) results are closest in the whole table:
      no node that is not among the results before it is closer. */
  lemma OwnBucketResultsAreClosest(t: Table, target: Id, count: nat, r: seq<Node>, j: nat, n: Node)
    requires Placed(t) && Selected(t, target, count, r)
    requires j < Min(count, |t.buckets[BucketId(t.local, target)].active|)
    requires Active(t, n) && n !in r[..Min(j, |r|)]
    ensures j < |r| && Closeness(r[j], target) >= Closeness(n, target)
  {
    var o := BucketId(t.local, target);
    var own := t.buckets[o].active;
    OwnFitsResult(t, target, count, r);
    var g := Collected(t, target, count);
    assert forall k | 0 <= k < j :: r[..j][k] == r[k];
    if n in g {
      CollectedIsNotCloser(g, target, count, r, j, n);
    } else if Closeness(r[j], target) < Closeness(n, target) {
      OwnCloserThan(t, target, count, n);
      assert InPlace(t.local, t.buckets[o], o);
      IdSetSize(own);
      CloserFitBefore(g, target, count, r, j, IdSet(own));
      assert false;
    }
  }

  lemma OwnFitsResult(t: Table, target: Id, count: nat, r: seq<Node>)
    requires Placed(t) && Selected(t, target, count, r)
    ensures |r| >= Min(count, |t.buckets[BucketId(t.local, target)].active|)
  {
    var o := BucketId(t.local, target);
    SelectedCount(t, target, count, r);
    SpanPart(t, o, o + 1);
    assert Span(t, o, o + 1) == Span(t, o, o) + |t.buckets[o].active|;
  }

  /** A collected node that is not among the results before the j-th is not closer than it. */
  lemma CollectedIsNotCloser(g: seq<Node>, target: Id, count: nat, r: seq<Node>, j: nat, n: Node)
    requires BestOf(g, target, count, r) && j < |r| && n in g
    requires forall k | 0 <= k < j :: r[k] != n
    ensures Closeness(r[j], target) >= Closeness(n, target)
  {
  }

  /** The target's own bucket is looked at first, and is closer than anything not looked at. */
  lemma OwnCloserThan(t: Table, target: Id, count: nat, n: Node)
    requires Placed(t) && Active(t, n) && n !in Collected(t, target, count)
    ensures BucketId(t.local, n.id) != BucketId(t.local, target)
    ensures forall x | x in t.buckets[BucketId(t.local, target)].active ::
              x in Collected(t, target, count) && Closeness(x, target) > Closeness(n, target)
  {
    var o := BucketId(t.local, target);
    var s := StopAt(t, o, count, 1);
    GatheredMember(t, o, s, n);
    forall x | x in t.buckets[o].active
      ensures x in Collected(t, target, count) && Closeness(x, target) > Closeness(n, target)
    {
      assert InPlace(t.local, t.buckets[o], o);
      assert Active(t, x);
      GatheredMember(t, o, s, x);
      OwnBucketIsCloser(t.local, target, x.id, n.id);
    }
  }

  // ---------------------------------------------------------------- when the whole result is closest

  /** No node of the table that was left out is closer than one in the result. */
  ghost predicate Exact(t: Table, target: Id, r: seq<Node>) {
    forall n, m | Active(t, n) && n !in r && m in r :: Closeness(m, target) >= Closeness(n, target)
  }

  /** From the sizes of the buckets alone: the scan stops with enough nodes in the target's
      bucket and the lower ones it has reached, or with no node in those it has not reached. */
  predicate LowerBucketsSuffice(t: Table, target: Id, count: nat)
    requires |t.buckets| == KEY_BITS
  {
    var o := BucketId(t.local, target);
    var lo := Low(o, StopAt(t, o, count, 1));
    count <= Span(t, lo, o + 1) || Span(t, 0, lo) == 0
  }

  lemma CollectedMember(t: Table, target: Id, count: nat, n: Node)
    requires Placed(t) && Active(t, n)
    ensures var o := BucketId(t.local, target);
            var s := StopAt(t, o, count, 1);
            n in Collected(t, target, count) <==> Low(o, s) <= BucketId(t.local, n.id) < High(o, s)
  {
    var o := BucketId(t.local, target);
    var s := StopAt(t, o, count, 1);
    GatheredMember(t, o, s, n);
    CoveredIff(o, s, BucketId(t.local, n.id));
  }

  lemma SpanPositive(t: Table, lo: nat, hi: nat, n: Node)
    requires Placed(t) && lo <= hi <= KEY_BITS
    requires Active(t, n) && lo <= BucketId(t.local, n.id) < hi
    ensures Span(t, lo, hi) > 0
  {
  }

  /** With nothing in the unreached lower buckets, everything not looked at is further away. */
  lemma UnreachedIsFurther(t: Table, target: Id, count: nat, n: Node, m: Node)
    requires Placed(t) && Active(t, n) && Active(t, m)
    requires n !in Collected(t, target, count) && m in Collected(t, target, count)
    requires var o := BucketId(t.local, target); Span(t, 0, Low(o, StopAt(t, o, count, 1))) == 0
    ensures Closeness(m, target) >= Closeness(n, target)
  {
    var o := BucketId(t.local, target);
    var s := StopAt(t, o, count, 1);
    CollectedMember(t, target, count, n);
    CollectedMember(t, target, count, m);
    var b, b' := BucketId(t.local, m.id), BucketId(t.local, n.id);
    if b' < Low(o, s) { SpanPositive(t, 0, Low(o, s), n); }
    OtherBucketCloseness(t.local, target, n.id);
    if b == o {
      OwnBucketIsCloser(t.local, target, m.id, n.id);
    } else {
      OtherBucketCloseness(t.local, target, m.id);
    }
  }

  /** The nodes in the target's bucket and the lower ones reached are at least as close as
      anything not looked at. */
  lemma LowerAreCloser(t: Table, target: Id, count: nat, lo: nat, id: Id, n: Node)
    requires Placed(t) && Active(t, n) && n !in Collected(t, target, count)
    requires var o := BucketId(t.local, target); lo == Low(o, StopAt(t, o, count, 1))
    requires id in IdsIn(t, lo, BucketId(t.local, target) + 1)
    ensures exists x :: x in Collected(t, target, count) && x.id == id && Closeness(x, target) >= Closeness(n, target)
  {
    var o := BucketId(t.local, target);
    var k, x :| lo <= k < o + 1 && x in t.buckets[k].active && x.id == id;
    assert InPlace(t.local, t.buckets[k], k);
    assert Active(t, x);
    CollectedMember(t, target, count, x);
    CollectedMember(t, target, count, n);
    OtherBucketCloseness(t.local, target, n.id);
    if k == o {
      OwnBucketIsCloser(t.local, target, x.id, n.id);
    } else {
      OtherBucketCloseness(t.local, target, x.id);
    }
  }

  /** If a node never looked at is closer than the j-th result, the nodes of the target's
      bucket and the lower ones reached all come before it. */
  lemma LowerFitBefore(t: Table, target: Id, count: nat, lo: nat, r: seq<Node>, n: Node, j: nat)
    requires Placed(t) && Selected(t, target, count, r) && j < |r|
    requires var o := BucketId(t.local, target); lo == Low(o, StopAt(t, o, count, 1))
    requires Active(t, n) && n !in Collected(t, target, count) && Closeness(r[j], target) < Closeness(n, target)
    ensures Span(t, lo, BucketId(t.local, target) + 1) <= j
  {
    var ids := LowerAreInReach(t, target, count, lo, n);
    AllBefore(Collected(t, target, count), target, count, r, j, ids, Closeness(n, target));
  }

  lemma LowerAreInReach(t: Table, target: Id, count: nat, lo: nat, n: Node) returns (ids: set<Id>)
    requires Placed(t) && Active(t, n) && n !in Collected(t, target, count)
    requires var o := BucketId(t.local, target); lo == Low(o, StopAt(t, o, count, 1))
    ensures |ids| == Span(t, lo, BucketId(t.local, target) + 1)
    ensures Offers(Collected(t, target, count), target, ids, Closeness(n, target))
  {
    ids := IdsIn(t, lo, BucketId(t.local, target) + 1);
    IdsInSize(t, lo, BucketId(t.local, target) + 1);
    forall id | id in ids
      ensures exists x :: x in Collected(t, target, count) && x.id == id && Closeness(x, target) >= Closeness(n, target)
    {
      LowerAreCloser(t, target, count, lo, id, n);
    }
  }

  lemma EnoughIsExact(t: Table, target: Id, count: nat, r: seq<Node>, n: Node, j: nat)
    requires Placed(t) && Selected(t, target, count, r) && Active(t, n) && n !in r && j < |r|
    requires var o := BucketId(t.local, target); count <= Span(t, Low(o, StopAt(t, o, count, 1)), o + 1)
    ensures Closeness(r[j], target) >= Closeness(n, target)
  {
    assert r[j] in r;
    if n !in Collected(t, target, count) && Closeness(r[j], target) < Closeness(n, target) {
      var o := BucketId(t.local, target);
      LowerFitBefore(t, target, count, Low(o, StopAt(t, o, count, 1)), r, n, j);
      assert false;
    }
  }

  lemma SufficientIsExact(t: Table, target: Id, count: nat, r: seq<Node>)
    requires Placed(t) && Selected(t, target, count, r) && LowerBucketsSuffice(t, target, count)
    ensures Exact(t, target, r)
  {
    var o := BucketId(t.local, target);
    var lo := Low(o, StopAt(t, o, count, 1));
    forall n, m | Active(t, n) && n !in r && m in r ensures Closeness(m, target) >= Closeness(n, target) {
      var j :| 0 <= j < |r| && r[j] == m;
      if count <= Span(t, lo, o + 1) {
        EnoughIsExact(t, target, count, r, n, j);
      } else if n !in Collected(t, target, count) {
        SelectedCount(t, target, count, r);
        UnreachedIsFurther(t, target, count, n, m);
      }
    }
  }

  /** When the lower buckets reached do not suffice, the scan stopped with enough nodes. */
  lemma ResultIsFull(t: Table, target: Id, count: nat, r: seq<Node>)
    requires Placed(t) && Selected(t, target, count, r) && !LowerBucketsSuffice(t, target, count)
    ensures |r| == count && DistinctIds(r) && forall n | n in r :: Active(t, n)
  {
    var o := BucketId(t.local, target);
    var s := StopAt(t, o, count, 1);
    SelectedCount(t, target, count, r);
    StopsAtFirst(t, o, count, 1);
    SpanPart(t, Low(o, s), High(o, s));
  }

  /** Fewer ids are in the lower buckets reached than were asked for. */
  lemma LowerAreTooFew(t: Table, target: Id, count: nat) returns (lo: nat, ids: set<Id>)
    requires Placed(t) && !LowerBucketsSuffice(t, target, count)
    ensures var o := BucketId(t.local, target);
            lo == Low(o, StopAt(t, o, count, 1)) && ids == IdsIn(t, lo, o + 1) && |ids| < count
  {
    var o := BucketId(t.local, target);
    lo := Low(o, StopAt(t, o, count, 1));
    ids := IdsIn(t, lo, o + 1);
    IdsInSize(t, lo, o + 1);
  }

  /** Then a node of a higher bucket is returned. */
  lemma HigherIsReturned(t: Table, target: Id, count: nat, r: seq<Node>) returns (m: Node)
    requires Placed(t) && Selected(t, target, count, r) && !LowerBucketsSuffice(t, target, count)
    ensures m in r && Active(t, m) && BucketId(t.local, m.id) > BucketId(t.local, target)
  {
    var lo, ids := LowerAreTooFew(t, target, count);
    ResultIsFull(t, target, count, r);
    m := OneOutside(r, ids);
    NotLowerIsHigher(t, target, count, r, m, lo);
  }

  lemma NotLowerIsHigher(t: Table, target: Id, count: nat, r: seq<Node>, m: Node, lo: nat)
    requires Placed(t) && Selected(t, target, count, r) && m in r && Active(t, m)
    requires var o := BucketId(t.local, target); lo == Low(o, StopAt(t, o, count, 1))
    requires m.id !in IdsIn(t, lo, BucketId(t.local, target) + 1)
    ensures BucketId(t.local, m.id) > BucketId(t.local, target)
  {
    CollectedMember(t, target, count, m);
    ActiveInOwnBucket(t, m);
  }

  lemma UnreachedNode(t: Table, hi: nat) returns (n: Node)
    requires Placed(t) && hi <= KEY_BITS && Span(t, 0, hi) > 0
    ensures Active(t, n) && BucketId(t.local, n.id) < hi
  {
    IdsInSize(t, 0, hi);
    if IdsIn(t, 0, hi) == {} { assert false; }
    var id :| id in IdsIn(t, 0, hi);
    var k;
    k, n :| 0 <= k < hi && n in t.buckets[k].active && n.id == id;
    assert InPlace(t.local, t.buckets[k], k);
  }

  /** And a node of a lower bucket that was not reached is closer, and left out. */
  lemma CloserIsMissed(t: Table, target: Id, count: nat, r: seq<Node>) returns (n: Node, m: Node)
    requires Placed(t) && Selected(t, target, count, r) && !LowerBucketsSuffice(t, target, count)
    ensures Active(t, n) && n !in r && m in r && Closeness(m, target) < Closeness(n, target)
  {
    var o := BucketId(t.local, target);
    m := HigherIsReturned(t, target, count, r);
    n := UnreachedNode(t, Low(o, StopAt(t, o, count, 1)));
    CollectedMember(t, target, count, n);
    OtherBucketCloseness(t.local, target, n.id);
    OtherBucketCloseness(t.local, target, m.id);
  }

  /** `closestN` returns the closest nodes of the whole table if and only if, with the buckets
      it reached, the target's own and the lower ones suffice. */
  lemma ExactIffLowerBucketsSuffice(t: Table, target: Id, count: nat, r: seq<Node>)
    requires Placed(t) && Selected(t, target, count, r)
    ensures Exact(t, target, r) <==> LowerBucketsSuffice(t, target, count)
  {
    if LowerBucketsSuffice(t, target, count) {
      SufficientIsExact(t, target, count, r);
    } else {
      var n, m := CloserIsMissed(t, target, count, r);
    }
  }

  /** `closest` returns the closest node of the whole table if and only if the same holds for a
      count of one; in particular whenever the target's bucket is not empty. */
  lemma ClosestExactIff(t: Table, target: Id, r: Node)
    requires Placed(t) && Selected(t, target, 1, [r])
    ensures (forall n | Active(t, n) :: Closeness(r, target) >= Closeness(n, target))
            <==> LowerBucketsSuffice(t, target, 1)
    ensures t.buckets[BucketId(t.local, target)].active != [] ==> LowerBucketsSuffice(t, target, 1)
  {
    ExactIffLowerBucketsSuffice(t, target, 1, [r]);
    assert r in [r];
    var o := BucketId(t.local, target);
    var lo := Low(o, StopAt(t, o, 1, 1));
    SpanSplit(t, lo, o, o + 1);
    assert Span(t, o, o + 1) == Span(t, o, o) + |t.buckets[o].active|;
  }
}
