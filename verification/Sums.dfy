/**
  Sums over a selected part of a sequence of sizes. Reassembly counts the bytes of the
  fragments that have arrived, and a journey counts the values of the batches that have;
  both detect completion by comparing such a sum with the total.
 */
module Sums {

  /** The sum of those `sizes[i]` with `i in chosen`. */
  function SumOver(sizes: seq<nat>, chosen: set<nat>): (s: nat)
  {
    if sizes == [] then 0
    else
      var n := |sizes| - 1;
      SumOver(sizes[..n], chosen) + if n in chosen then sizes[n] else 0
  }

  function Total(sizes: seq<nat>): nat {
    if sizes == [] then 0 else Total(sizes[..|sizes| - 1]) + sizes[|sizes| - 1]
  }

  lemma {:induction false} SumOverNone(sizes: seq<nat>)
    ensures SumOver(sizes, {}) == 0
  {
    if sizes != [] { SumOverNone(sizes[..|sizes| - 1]); }
  }

  lemma {:induction false} SumOverAgree(sizes: seq<nat>, c: set<nat>, d: set<nat>)
    requires forall i | 0 <= i < |sizes| :: i in c <==> i in d
    ensures SumOver(sizes, c) == SumOver(sizes, d)
  {
    if sizes != [] { SumOverAgree(sizes[..|sizes| - 1], c, d); }
  }

  lemma {:induction false} SumOverAdd(sizes: seq<nat>, chosen: set<nat>, x: nat)
    requires x < |sizes| && x !in chosen
    ensures SumOver(sizes, chosen + {x}) == SumOver(sizes, chosen) + sizes[x]
  {
    var n := |sizes| - 1;
    if x < n {
      SumOverAdd(sizes[..n], chosen, x);
    } else {
      SumOverAgree(sizes[..n], chosen + {x}, chosen);
    }
  }

  lemma {:induction false} SumOverAll(sizes: seq<nat>, chosen: set<nat>)
    requires forall i | 0 <= i < |sizes| :: i in chosen
    ensures SumOver(sizes, chosen) == Total(sizes)
  {
    if sizes != [] { SumOverAll(sizes[..|sizes| - 1], chosen); }
  }

  /** Leaving `x` out leaves at least `sizes[x]` uncounted. */
  lemma {:induction false} SumOverMissing(sizes: seq<nat>, chosen: set<nat>, x: nat)
    requires x < |sizes| && x !in chosen
    ensures SumOver(sizes, chosen) + sizes[x] <= Total(sizes)
  {
    var n := |sizes| - 1;
    if x < n {
      SumOverMissing(sizes[..n], chosen, x);
    } else {
      SumOverAtMost(sizes[..n], chosen);
    }
  }

  lemma {:induction false} SumOverAtMost(sizes: seq<nat>, chosen: set<nat>)
    ensures SumOver(sizes, chosen) <= Total(sizes)
  {
    if sizes != [] { SumOverAtMost(sizes[..|sizes| - 1], chosen); }
  }

  /** With positive sizes the sum reaches the total exactly when everything is chosen. */
  lemma SumReachesTotal(sizes: seq<nat>, chosen: set<nat>)
    requires forall i | 0 <= i < |sizes| :: sizes[i] > 0
    ensures SumOver(sizes, chosen) == Total(sizes) <==> forall i | 0 <= i < |sizes| :: i in chosen
  {
    if forall i | 0 <= i < |sizes| :: i in chosen {
      SumOverAll(sizes, chosen);
    } else {
      var x :| 0 <= x < |sizes| && x !in chosen;
      SumOverMissing(sizes, chosen, x);
    }
  }

  /** A part has at most as many members, and as many only if it is everything. */
  lemma {:induction false} SubsetSize<T>(a: set<T>, b: set<T>)
    requires a <= b
    ensures |a| <= |b|
    ensures |a| == |b| ==> a == b
  {
    if b != {} {
      var x :| x in b;
      SubsetSize(a - {x}, b - {x});
    }
  }
}
