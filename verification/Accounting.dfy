/**
  The responder's batches meet the journey's outstanding counts.
 */
module Accounting {
  import opened Ids
  import opened Sums
  import opened Packets
  import opened RoundTrip
  import opened Batching
  import opened Journeys
  import opened JourneyRuns

  /** A node that holds the key, and the values it holds for it. */
  datatype Responder = Responder(id: Bytes, values: seq<Value>)

  function Lengths(batches: seq<seq<Value>>): seq<nat> {
    seq(|batches|, b requires 0 <= b < |batches| => |batches[b]|)
  }

  function BatchSizes(r: Responder): seq<nat> {
    Lengths(Batches(r.values))
  }

  lemma {:induction false} FlattenLength(batches: seq<seq<Value>>)
    ensures |Flatten(batches)| == Total(Lengths(batches))
  {
    if batches != [] {
      FlattenLength(batches[1..]);
      assert Lengths(batches) == [|batches[0]|] + Lengths(batches[1..]);
      TotalCons(|batches[0]|, Lengths(batches[1..]));
    }
  }

  lemma {:induction false} TotalCons(n: nat, sizes: seq<nat>)
    ensures Total([n] + sizes) == n + Total(sizes)
  {
    if sizes == [] {
      assert [n] + sizes == [n];
      assert Total([n]) == Total([n][..0]) + n;
    } else {
      var k := |sizes| - 1;
      TotalCons(n, sizes[..k]);
      assert ([n] + sizes)[..k + 1] == [n] + sizes[..k];
    }
  }

  /** The batches are non-empty and their lengths sum to the announced total. */
  lemma AnnouncedTotal(r: Responder)
    ensures Total(BatchSizes(r)) == |r.values|
    ensures forall b | 0 <= b < |BatchSizes(r)| :: BatchSizes(r)[b] > 0
  {
    BatchesAre(r.values);
    FlattenLength(Batches(r.values));
    forall b | 0 <= b < |BatchSizes(r)| ensures BatchSizes(r)[b] > 0 {
      assert Tight(Batches(r.values)[b]);
    }
  }

  // ---------------------------------------------------------------- runs

  /** A batch of a responder is handled, or any other operation of the journey happens. */
  datatype Happening = Batch(i: nat, b: nat) | Other(e: Event)

  ghost predicate Leaves(e: Event) {
    !e.AddOutstanding? && !e.RemoveOutstanding?
  }

  /** Every responder has its own hash, and every happening is possible. */
  ghost predicate Plausible(h: Hasher, rs: seq<Responder>, hs: seq<Happening>) {
    && (forall i, j | 0 <= i < j < |rs| :: h(rs[i].id) != h(rs[j].id))
    && (forall x | x in hs :: if x.Batch? then x.i < |rs| && x.b < |Batches(rs[x.i].values)| else Leaves(x.e))
    && (forall t, u | 0 <= t < u < |hs| && hs[t].Batch? :: hs[t] != hs[u])
  }

  ghost function Handle(h: Hasher, rs: seq<Responder>, s: JourneyState, x: Happening): JourneyState {
    match x
    case Batch(i, b) =>
      if i < |rs| && b < |Batches(rs[i].values)| then
        var t := AddOutstandingState(h, s, rs[i].id, |rs[i].values|);
        RemoveOutstandingState(h, t, rs[i].id, |Batches(rs[i].values)[b]|)
      else s
    case Other(e) => Step(h, s, e)
  }

  ghost function Outcome(h: Hasher, rs: seq<Responder>, s: JourneyState, hs: seq<Happening>): JourneyState {
    if hs == [] then s else Handle(h, rs, Outcome(h, rs, s, hs[..|hs| - 1]), hs[|hs| - 1])
  }

  /** The batches of responder `i` handled so far. */
  ghost function Got(hs: seq<Happening>, i: nat): set<nat> {
    set x | x in hs && x.Batch? && x.i == i :: x.b
  }

  /** The values of responder `i` still missing. */
  ghost function Missing(rs: seq<Responder>, hs: seq<Happening>, i: nat): int
    requires i < |rs|
  {
    |rs[i].values| - SumOver(BatchSizes(rs[i]), Got(hs, i))
  }

  /** Exactly the responders that have answered have an entry, and it is what they still owe. */
  ghost predicate Balanced(h: Hasher, rs: seq<Responder>, s: JourneyState, hs: seq<Happening>) {
    && (forall i | 0 <= i < |rs| :: Entry(h, rs, s, hs, i))
    && (forall k | k in s.outstanding :: exists i :: 0 <= i < |rs| && h(rs[i].id) == k)
  }

  lemma GotExtend(hs: seq<Happening>, i: nat)
    requires hs != []
    ensures var x := hs[|hs| - 1];
            Got(hs, i) == Got(hs[..|hs| - 1], i) + if x.Batch? && x.i == i then {x.b} else {}
  {
  }

  lemma FirstTime(h: Hasher, rs: seq<Responder>, hs: seq<Happening>)
    requires Plausible(h, rs, hs) && hs != [] && hs[|hs| - 1].Batch?
    ensures hs[|hs| - 1].b !in Got(hs[..|hs| - 1], hs[|hs| - 1].i)
  {
  }

  lemma PlausiblePrefix(h: Hasher, rs: seq<Responder>, hs: seq<Happening>)
    requires Plausible(h, rs, hs) && hs != []
    ensures Plausible(h, rs, hs[..|hs| - 1])
  {
  }

  lemma OutstandingUnchanged(h: Hasher, s: JourneyState, e: Event)
    requires Leaves(e)
    ensures Step(h, s, e).outstanding == s.outstanding
  {
    if e.Add? { AddNodesFrame(h, s, e.nodes); }
  }

  ghost predicate Entry(h: Hasher, rs: seq<Responder>, s: JourneyState, hs: seq<Happening>, i: nat)
    requires i < |rs|
  {
    if Got(hs, i) == {} then h(rs[i].id) !in s.outstanding
    else h(rs[i].id) in s.outstanding && s.outstanding[h(rs[i].id)] == Missing(rs, hs, i)
  }

  lemma BatchOwnEntry(h: Hasher, rs: seq<Responder>, s: JourneyState, hs: seq<Happening>, i: nat, b: nat)
    requires Plausible(h, rs, hs) && hs != [] && hs[|hs| - 1] == Batch(i, b)
    requires i < |rs| && b < |Batches(rs[i].values)| && Entry(h, rs, s, hs[..|hs| - 1], i)
    ensures Entry(h, rs, Handle(h, rs, s, Batch(i, b)), hs, i)
  {
    FirstTime(h, rs, hs);
    GotExtend(hs, i);
    SumOverAdd(BatchSizes(rs[i]), Got(hs[..|hs| - 1], i), b);
    SumOverNone(BatchSizes(rs[i]));
  }

  lemma BatchBalances(h: Hasher, rs: seq<Responder>, s: JourneyState, hs: seq<Happening>, i: nat, b: nat)
    requires Plausible(h, rs, hs) && hs != [] && hs[|hs| - 1] == Batch(i, b)
    requires i < |rs| && b < |Batches(rs[i].values)| && Balanced(h, rs, s, hs[..|hs| - 1])
    ensures Balanced(h, rs, Handle(h, rs, s, Batch(i, b)), hs)
  {
    var s' := Handle(h, rs, s, Batch(i, b));
    forall j | 0 <= j < |rs| ensures Entry(h, rs, s', hs, j) {
      assert Entry(h, rs, s, hs[..|hs| - 1], j);
      if j == i {
        BatchOwnEntry(h, rs, s, hs, i, b);
      } else {
        GotExtend(hs, j);
        assert Got(hs, j) == Got(hs[..|hs| - 1], j);
        assert h(rs[i].id) != h(rs[j].id);
      }
    }
  }

  lemma {:induction false} RunBalances(h: Hasher, rs: seq<Responder>, s: JourneyState, hs: seq<Happening>)
    requires Plausible(h, rs, hs) && s.outstanding == map[]
    ensures Balanced(h, rs, Outcome(h, rs, s, hs), hs)
  {
    if hs != [] {
      var n := |hs| - 1;
      PlausiblePrefix(h, rs, hs);
      RunBalances(h, rs, s, hs[..n]);
      HandleBalances(h, rs, Outcome(h, rs, s, hs[..n]), hs);
    }
  }

  lemma HandleBalances(h: Hasher, rs: seq<Responder>, t: JourneyState, hs: seq<Happening>)
    requires Plausible(h, rs, hs) && hs != [] && Balanced(h, rs, t, hs[..|hs| - 1])
    ensures Balanced(h, rs, Handle(h, rs, t, hs[|hs| - 1]), hs)
  {
    var n := |hs| - 1;
    assert hs[n] in hs;
    if hs[n].Batch? {
      BatchBalances(h, rs, t, hs, hs[n].i, hs[n].b);
    } else {
      OutstandingUnchanged(h, t, hs[n].e);
      forall i | 0 <= i < |rs| ensures Entry(h, rs, Step(h, t, hs[n].e), hs, i) {
        assert Entry(h, rs, t, hs[..n], i);
        GotExtend(hs, i);
        assert Got(hs, i) == Got(hs[..n], i);
      }
    }
  }

  // ---------------------------------------------------------------- main results

  lemma MissingFacts(rs: seq<Responder>, hs: seq<Happening>, i: nat)
    requires i < |rs|
    ensures Missing(rs, hs, i) >= 0
    ensures Missing(rs, hs, i) == 0 <==> forall b | 0 <= b < |Batches(rs[i].values)| :: b in Got(hs, i)
  {
    AnnouncedTotal(rs[i]);
    SumOverAtMost(BatchSizes(rs[i]), Got(hs, i));
    SumReachesTotal(BatchSizes(rs[i]), Got(hs, i));
  }

  /** In every interleaving, the count kept for a responder that has answered is the number of
      its values still missing: never negative, and zero exactly when all its batches are in. */
  lemma OutstandingIsMissing(h: Hasher, rs: seq<Responder>, s: JourneyState, hs: seq<Happening>, i: nat)
    requires Plausible(h, rs, hs) && s.outstanding == map[]
    requires i < |rs| && Got(hs, i) != {}
    ensures var t, k := Outcome(h, rs, s, hs), h(rs[i].id);
            && k in t.outstanding && t.outstanding[k] == Missing(rs, hs, i) >= 0
            && (t.outstanding[k] == 0 <==> forall b | 0 <= b < |Batches(rs[i].values)| :: b in Got(hs, i))
  {
    RunBalances(h, rs, s, hs);
    assert Entry(h, rs, Outcome(h, rs, s, hs), hs, i);
    MissingFacts(rs, hs, i);
  }

  lemma {:induction false} SumOfNaturals(m: map<Hash, int>, k: Hash)
    requires k in m && forall j | j in m :: m[j] >= 0
    ensures SumValues(m) >= m[k]
    decreases |m|
  {
    SumValuesAny(m, k);
    SumNonNegative(m - {k});
  }

  lemma {:induction false} SumNonNegative(m: map<Hash, int>)
    requires forall j | j in m :: m[j] >= 0
    ensures SumValues(m) >= 0
    decreases |m|
  {
    if m != map[] {
      var k :| k in m && SumValues(m) == m[k] + SumValues(m - {k});
      SumNonNegative(m - {k});
    }
  }

  /** An unforced `finish` cannot succeed while a responder that has answered still has a batch
      on the way. */
  lemma NoFinishWhileBatchMissing(h: Hasher, rs: seq<Responder>, s: JourneyState, hs: seq<Happening>, i: nat, b: nat)
    requires Plausible(h, rs, hs) && s.outstanding == map[]
    requires i < |rs| && Got(hs, i) != {} && b < |Batches(rs[i].values)| && b !in Got(hs, i)
    ensures !CanFinish(Outcome(h, rs, s, hs), false)
  {
    RunBalances(h, rs, s, hs);
    if CanFinish(Outcome(h, rs, s, hs), false) { AllGot(h, rs, Outcome(h, rs, s, hs), hs, i, b); }
  }

  /** With nothing outstanding in sum, every batch of a responder that has answered is in. */
  lemma AllGot(h: Hasher, rs: seq<Responder>, t: JourneyState, hs: seq<Happening>, i: nat, b: nat)
    requires Balanced(h, rs, t, hs) && SumValues(t.outstanding) <= 0
    requires i < |rs| && Got(hs, i) != {} && b < |Batches(rs[i].values)|
    ensures b in Got(hs, i)
  {
    forall j | j in t.outstanding ensures t.outstanding[j] >= 0 {
      var x :| 0 <= x < |rs| && h(rs[x].id) == j;
      assert Entry(h, rs, t, hs, x);
      MissingFacts(rs, hs, x);
    }
    assert Entry(h, rs, t, hs, i);
    SumOfNaturals(t.outstanding, h(rs[i].id));
    MissingFacts(rs, hs, i);
  }

  // ---------------------------------------------------------------- batches that are too large

  /** An event of `n` bytes whose fragments have all arrived, once each. */
  ghost predicate Delivered(h: Hasher, id: Id, event: Bytes, arrivals: seq<Arrival>, n: nat) {
    && |event| == n <= MAX_FRAGMENTED && ValidArrivals(arrivals)
    && OnceEach(h, id, event, arrivals) && Complete(id, event, arrivals)
  }

  lemma BatchArrivesIff(h: Hasher, vs: seq<Value>, b: seq<Value>, overhead: nat,
                        id: Id, event: Bytes, arrivals: seq<Arrival>)
    requires b in Batches(vs) && Delivered(h, id, event, arrivals, Size(b) + overhead)
    ensures Returned(h, map[], id, event, arrivals) <==> Size(b) + overhead <= MAX_LENGTH_FIELD
  {
    BatchesAre(vs);
    assert Tight(b);
    ReturnedIffLengthFits(h, map[], id, event, arrivals);
  }

  /** Every batch of values of up to `bound` bytes reaches the requester, in an event with `overhead`
      bytes besides the values. */
  ghost predicate AllArrive(h: Hasher, bound: nat, overhead: nat) {
    forall vs, b, id, event, arrivals | Bounded(vs, bound) && b in Batches(vs)
                                        && Delivered(h, id, event, arrivals, Size(b) + overhead) ::
      Returned(h, map[], id, event, arrivals)
  }

  lemma SmallBatchesArrive(h: Hasher, bound: nat, overhead: nat)
    requires bound < MIN_VALUE_SIZE || LargestBatch(bound) + overhead <= MAX_LENGTH_FIELD
    ensures AllArrive(h, bound, overhead)
  {
    BatchesFitIff(bound, overhead, MAX_LENGTH_FIELD);
    forall vs, b, id, event, arrivals | Bounded(vs, bound) && b in Batches(vs)
                                        && Delivered(h, id, event, arrivals, Size(b) + overhead)
      ensures Returned(h, map[], id, event, arrivals)
    {
      BatchArrivesIff(h, vs, b, overhead, id, event, arrivals);
    }
  }

  /** The fragments of an event in order. */
  lemma DeliveredInOrder(h: Hasher, id: Id, event: Bytes) returns (arrivals: seq<Arrival>)
    requires |event| <= MAX_FRAGMENTED
    ensures Delivered(h, id, event, arrivals, |event|)
  {
    var n, stale := FragmentCount(|event|), seq(BUFFER_SIZE, _ => 0);
    arrivals := seq(n, i requires 0 <= i < n => Arrival(Fragment(id, event, i), stale));
    forall i | 0 <= i < n
      ensures WellFormed(arrivals[i].frame) && arrivals[i].frame in Fragments(id, event)
      ensures Arrived(arrivals, Fragment(id, event, i))
    {
      FragmentWellFormed(id, event, i);
      assert Fragments(id, event)[i] == arrivals[i].frame;
    }
    forall t, u | 0 <= t < u < n && arrivals[t].frame == arrivals[u].frame ensures false {
      FragmentsDistinct(id, event, t, u);
    }
  }

  /** A list whose one batch is too long for the length field but can be sent. */
  lemma TooLarge(bound: nat, overhead: nat) returns (b: seq<Value>)
    requires bound >= MIN_VALUE_SIZE && LargestBatch(bound) + overhead > MAX_LENGTH_FIELD
    requires LargestBatch(MIN_VALUE_SIZE + 1) + overhead <= MAX_FRAGMENTED
    ensures Bounded(b, bound) && Batches(b) == [b] && MAX_LENGTH_FIELD < Size(b) + overhead <= MAX_FRAGMENTED
  {
    if bound == MIN_VALUE_SIZE {
      b := FillingEmpty();
    } else {
      var room := MAX_LENGTH_FIELD - MAX_EVENT_SIZE + 1 - overhead;
      b := Filling(if room < MIN_VALUE_SIZE then MIN_VALUE_SIZE else room + 1, bound);
    }
  }

  lemma LargeBatchIsLost(h: Hasher, bound: nat, overhead: nat)
    requires bound >= MIN_VALUE_SIZE && LargestBatch(bound) + overhead > MAX_LENGTH_FIELD
    requires LargestBatch(MIN_VALUE_SIZE + 1) + overhead <= MAX_FRAGMENTED
    ensures !AllArrive(h, bound, overhead)
  {
    var b := TooLarge(bound, overhead);
    var id: Id, event: Bytes := seq(KEY_BYTES, _ => 0), seq(Size(b) + overhead, _ => 0);
    var arrivals := DeliveredInOrder(h, id, event);
    assert b in Batches(b);
    BatchArrivesIff(h, b, b, overhead, id, event, arrivals);
  }

  /** A batch is closed only after the value that fills it. So every batch reaches the requester if
      and only if the largest one and the event's overhead fit the length field: for values that may
      be other than empty, if a value and the overhead have at most 512 bytes together. */
  lemma AllArriveIff(h: Hasher, bound: nat, overhead: nat)
    requires LargestBatch(MIN_VALUE_SIZE + 1) + overhead <= MAX_FRAGMENTED
    ensures AllArrive(h, bound, overhead)
            <==> bound < MIN_VALUE_SIZE || LargestBatch(bound) + overhead <= MAX_LENGTH_FIELD
    ensures bound > MIN_VALUE_SIZE ==> (AllArrive(h, bound, overhead) <==> bound + overhead <= 512)
  {
    if bound < MIN_VALUE_SIZE || LargestBatch(bound) + overhead <= MAX_LENGTH_FIELD {
      SmallBatchesArrive(h, bound, overhead);
    } else {
      LargeBatchIsLost(h, bound, overhead);
    }
  }
}
