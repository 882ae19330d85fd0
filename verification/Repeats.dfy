/**
  What comes out of `assemble` when fragments of a message may arrive any number of times, and
  for messages of any length that can be sent. Completion is detected by counting bytes since
  the packet was taken from the pool, against a length field of 16 bits.
 */
module Repeats {
  import opened Ids
  import opened Options
  import opened Sums
  import opened Packets
  import opened RoundTrip

  /** The length that the header of a message of `n` bytes announces. */
  function LengthField(n: nat): nat {
    n % 65536
  }

  predicate AreParts(n: nat, parts: seq<nat>) {
    forall j | 0 <= j < |parts| :: parts[j] < FragmentCount(n)
  }

  /** The bytes of the parts, each as often as it occurs. */
  function ByteCount(n: nat, parts: seq<nat>): nat
    requires AreParts(n, parts)
  {
    if parts == [] then 0
    else
      var k := |parts| - 1;
      ByteCount(n, parts[..k]) + PayloadSize(n, parts[k])
  }

  /** The byte count, of 32 bits, equals the announced length. */
  predicate Reaches(n: nat, parts: seq<nat>)
    requires AreParts(n, parts)
  {
    Int32(ByteCount(n, parts)) == LengthField(n)
  }

  /** A buffer that held `base` after the given parts of the data were written to it. */
  function Overlay(base: Bytes, data: Bytes, parts: seq<nat>): (b: Bytes)
    ensures |b| == |base|
  {
    seq(|base|, k requires 0 <= k < |base| => if k < |data| && k / MAX_PAYLOAD_SIZE in parts then data[k] else base[k])
  }

  /** The packet of a message: the parts added since it was taken from the pool, and what its
      buffer held then. No parts: the message has no packet. */
  datatype Entry = Entry(parts: seq<nat>, base: Bytes)
  {
    function Add(i: nat, stale: Bytes): Entry {
      Entry(parts + [i], if parts == [] then stale else base)
    }
  }

  /** What is returned when the last part of the entry has just been added. */
  function Counted(data: Bytes, e: Entry): Option<Bytes>
    requires AreParts(|data|, e.parts) && |e.base| == BUFFER_SIZE
  {
    if Reaches(|data|, e.parts) then Some(Overlay(e.base, data, e.parts)[..LengthField(|data|)]) else None
  }

  // ---------------------------------------------------------------- one call

  ghost predicate Counting(h: Hasher, m: Reassembly, id: Id, data: Bytes, e: Entry) {
    && AreParts(|data|, e.parts)
    && if e.parts == [] then h(id) !in m
       else h(id) in m && Counts(m[h(id)], data, e)
  }

  ghost predicate Counts(p: Assembly, data: Bytes, e: Entry)
    requires AreParts(|data|, e.parts)
  {
    && |e.base| == BUFFER_SIZE && p.buf == Overlay(e.base, data, e.parts)
    && p.len == LengthField(|data|) && p.pos == Int32(ByteCount(|data|, e.parts))
  }

  lemma OverlayPart(base: Bytes, data: Bytes, parts: seq<nat>, i: nat)
    requires i < FragmentCount(|data|)
    ensures Splice(Overlay(base, data, parts), MAX_PAYLOAD_SIZE * i, Payload(data, i)) ==
            Overlay(base, data, parts + [i])
  {
    forall k | 0 <= k < |base|
      ensures MAX_PAYLOAD_SIZE * i <= k < MAX_PAYLOAD_SIZE * i + PayloadSize(|data|, i)
              <==> k < |data| && k / MAX_PAYLOAD_SIZE == i
    {
    }
  }

  lemma AddCounts(p: Assembly, id: Id, data: Bytes, e: Entry, i: nat)
    requires |data| <= MAX_FRAGMENTED && FragmentCount(|data|) > 1 && i < FragmentCount(|data|)
    requires AreParts(|data|, e.parts) && Counts(p, data, e)
    ensures WellFormed(Fragment(id, data, i)) && Fragment(id, data, i)[KEY_BYTES + 1] != 1
    ensures AreParts(|data|, e.parts + [i])
    ensures Counts(AddFragment(p, Fragment(id, data, i)), data, Entry(e.parts + [i], e.base))
  {
    FragmentWellFormed(id, data, i);
    FragmentFields(id, data, i);
    OverlayPart(e.base, data, e.parts, i);
    assert (e.parts + [i])[..|e.parts|] == e.parts;
    Int32Adds(ByteCount(|data|, e.parts), PayloadSize(|data|, i));
  }

  lemma Int32Adds(x: int, y: int)
    ensures Int32(Int32(x) + y) == Int32(x + y)
  {
  }

  lemma NewPacketCounts(id: Id, data: Bytes, i: nat, stale: Bytes)
    requires |data| <= MAX_FRAGMENTED && i < FragmentCount(|data|) && |stale| == BUFFER_SIZE
    ensures Counts(NewPacket(Fragment(id, data, i), stale), data, Entry([], stale))
  {
    FragmentLengthField(id, data, i);
    OverlayNone(stale, data);
    Int32Small(0);
    assert ByteCount(|data|, []) == 0;
  }

  lemma Int32NonNegative(x: int)
    requires 0 <= x < 0x1_0000_0000 && Int32(x) >= 0
    ensures Int32(x) == x
  {
  }

  lemma OverlayNone(base: Bytes, data: Bytes)
    ensures Overlay(base, data, []) == base
  {
  }

  /** One fragment arrives, new or not. */
  lemma DeliverCounted(h: Hasher, m: Reassembly, id: Id, data: Bytes, e: Entry, i: nat, stale: Bytes)
    requires |data| <= MAX_FRAGMENTED && FragmentCount(|data|) > 1 && i < FragmentCount(|data|)
    requires ValidReassembly(m) && |stale| == BUFFER_SIZE && Counting(h, m, id, data, e)
    ensures WellFormed(Fragment(id, data, i))
    ensures var (m', out) := Deliver(h, m, Fragment(id, data, i), stale);
            var e' := e.Add(i, stale);
            && AreParts(|data|, e'.parts) && |e'.base| == BUFFER_SIZE
            && out == Counted(data, e')
            && Counting(h, m', id, data, if Reaches(|data|, e'.parts) then Entry([], []) else e')
  {
    var f := Fragment(id, data, i);
    FragmentFields(id, data, i);
    var p := if h(id) in m then m[h(id)] else NewPacket(f, stale);
    if e.parts == [] { NewPacketCounts(id, data, i, stale); }
    AddCounts(p, id, data, Entry(e.parts, if e.parts == [] then stale else e.base), i);
  }

  // ---------------------------------------------------------------- a whole run

  /** Every arrival is foreign or a fragment of the message. */
  ghost predicate AnyTimes(h: Hasher, id: Id, data: Bytes, arrivals: seq<Arrival>) {
    forall t | 0 <= t < |arrivals| :: Foreign(h, id, arrivals[t].frame) || arrivals[t].frame in Fragments(id, data)
  }

  /** The part that a fragment carries. */
  function PartOf(f: Bytes): nat {
    if |f| > KEY_BYTES && f[KEY_BYTES] > 0 then f[KEY_BYTES] - 1 else 0
  }

  /** The packet of the message after a run: it is given up when its count reaches the length. */
  ghost function EntryAfter(h: Hasher, id: Id, data: Bytes, arrivals: seq<Arrival>): Entry {
    if arrivals == [] then Entry([], [])
    else
      var n := |arrivals| - 1;
      var e := EntryAfter(h, id, data, arrivals[..n]);
      if Foreign(h, id, arrivals[n].frame) then e
      else
        var e' := e.Add(PartOf(arrivals[n].frame), arrivals[n].stale);
        if AreParts(|data|, e'.parts) && Reaches(|data|, e'.parts) then Entry([], []) else e'
  }

  lemma {:induction false} RunCounts(h: Hasher, m: Reassembly, id: Id, data: Bytes, arrivals: seq<Arrival>, t: nat)
    requires |data| <= MAX_FRAGMENTED && FragmentCount(|data|) > 1
    requires ValidReassembly(m) && ValidArrivals(arrivals) && h(id) !in m
    requires AnyTimes(h, id, data, arrivals) && t <= |arrivals|
    ensures Counting(h, After(h, m, arrivals[..t]), id, data, EntryAfter(h, id, data, arrivals[..t]))
  {
    if t > 0 {
      RunCounts(h, m, id, data, arrivals, t - 1);
      assert arrivals[..t][..t - 1] == arrivals[..t - 1];
      StepCounts(h, After(h, m, arrivals[..t - 1]), id, data, arrivals, t - 1);
    }
  }

  lemma PartOfFragment(id: Id, data: Bytes, f: Bytes)
    requires |data| <= MAX_FRAGMENTED && f in Fragments(id, data)
    ensures PartOf(f) < FragmentCount(|data|) && f == Fragment(id, data, PartOf(f))
  {
    var i :| 0 <= i < FragmentCount(|data|) && f == Fragments(id, data)[i];
    FragmentWellFormed(id, data, i);
  }

  lemma StepCounts(h: Hasher, m: Reassembly, id: Id, data: Bytes, arrivals: seq<Arrival>, t: nat)
    requires |data| <= MAX_FRAGMENTED && FragmentCount(|data|) > 1
    requires ValidReassembly(m) && ValidArrivals(arrivals)
    requires AnyTimes(h, id, data, arrivals) && t < |arrivals|
    requires Counting(h, m, id, data, EntryAfter(h, id, data, arrivals[..t]))
    ensures var m' := Deliver(h, m, arrivals[t].frame, arrivals[t].stale).0;
            Counting(h, m', id, data, EntryAfter(h, id, data, arrivals[..t + 1]))
  {
    var f := arrivals[t].frame;
    assert arrivals[..t + 1][..t] == arrivals[..t];
    if !Foreign(h, id, f) {
      PartOfFragment(id, data, f);
      DeliverCounted(h, m, id, data, EntryAfter(h, id, data, arrivals[..t]), PartOf(f), arrivals[t].stale);
    }
  }

  /** A call of `assemble` returns a packet exactly when the bytes of the parts added since the
      packet was taken, repeats included, reach the announced length. It then returns that many
      bytes: those of the parts added, and elsewhere what the buffer held before. */
  lemma OutputIsCounted(h: Hasher, m: Reassembly, id: Id, data: Bytes, arrivals: seq<Arrival>, t: nat)
    requires |data| <= MAX_FRAGMENTED && FragmentCount(|data|) > 1
    requires ValidReassembly(m) && ValidArrivals(arrivals) && h(id) !in m
    requires AnyTimes(h, id, data, arrivals) && t < |arrivals| && !Foreign(h, id, arrivals[t].frame)
    ensures var e := EntryAfter(h, id, data, arrivals[..t]).Add(PartOf(arrivals[t].frame), arrivals[t].stale);
            && AreParts(|data|, e.parts) && |e.base| == BUFFER_SIZE
            && Output(h, m, arrivals, t) == Counted(data, e)
  {
    RunCounts(h, m, id, data, arrivals, t);
    PartOfFragment(id, data, arrivals[t].frame);
    DeliverCounted(h, After(h, m, arrivals[..t]), id, data, EntryAfter(h, id, data, arrivals[..t]),
                   PartOf(arrivals[t].frame), arrivals[t].stale);
  }

  // ---------------------------------------------------------------- when the result is the message

  /** Every byte of the data was written, or was there before. */
  ghost predicate Covers(base: Bytes, data: Bytes, parts: seq<nat>)
    requires |data| <= |base|
  {
    forall k | 0 <= k < |data| :: k / MAX_PAYLOAD_SIZE in parts || base[k] == data[k]
  }

  lemma OverlayIsDataIff(base: Bytes, data: Bytes, parts: seq<nat>)
    requires |data| <= |base|
    ensures Overlay(base, data, parts)[..|data|] == data <==> Covers(base, data, parts)
  {
    var o := Overlay(base, data, parts)[..|data|];
    if o == data {
      forall k | 0 <= k < |data| ensures k / MAX_PAYLOAD_SIZE in parts || base[k] == data[k] {
        assert o[k] == data[k];
      }
    }
  }

  /** What a message that fits its length field is returned as, whatever was repeated. */
  lemma OutputIsDataIff(h: Hasher, m: Reassembly, id: Id, data: Bytes, arrivals: seq<Arrival>, t: nat)
    requires |data| <= MAX_LENGTH_FIELD && FragmentCount(|data|) > 1
    requires ValidReassembly(m) && ValidArrivals(arrivals) && h(id) !in m
    requires AnyTimes(h, id, data, arrivals) && t < |arrivals| && !Foreign(h, id, arrivals[t].frame)
    ensures var e := EntryAfter(h, id, data, arrivals[..t]).Add(PartOf(arrivals[t].frame), arrivals[t].stale);
            && AreParts(|data|, e.parts) && |e.base| == BUFFER_SIZE
            && (Output(h, m, arrivals, t) == Some(data) <==> Reaches(|data|, e.parts) && Covers(e.base, data, e.parts))
  {
    var e := EntryAfter(h, id, data, arrivals[..t]).Add(PartOf(arrivals[t].frame), arrivals[t].stale);
    OutputIsCounted(h, m, id, data, arrivals, t);
    CountedIsDataIff(data, e);
  }

  lemma CountedIsDataIff(data: Bytes, e: Entry)
    requires |data| <= MAX_LENGTH_FIELD && AreParts(|data|, e.parts) && |e.base| == BUFFER_SIZE
    ensures Counted(data, e) == Some(data) <==> Reaches(|data|, e.parts) && Covers(e.base, data, e.parts)
  {
    OverlayIsDataIff(e.base, data, e.parts);
  }

  predicate AllParts(n: nat, parts: seq<nat>) {
    forall i | 0 <= i < FragmentCount(n) :: i in parts
  }

  predicate NoRepeats(parts: seq<nat>) {
    forall j, k | 0 <= j < k < |parts| :: parts[j] != parts[k]
  }

  /** The data is covered whatever the buffer held exactly when every part has been added. */
  lemma CoveredIffAllParts(data: Bytes, parts: seq<nat>)
    requires |data| <= BUFFER_SIZE
    ensures (forall base: Bytes | |base| == BUFFER_SIZE :: Covers(base, data, parts)) <==> AllParts(|data|, parts)
  {
    var other: Bytes := seq(BUFFER_SIZE, k => if 0 <= k < |data| && data[k] == 0 then 1 else 0);
    if Covers(other, data, parts) {
      forall i | 0 <= i < FragmentCount(|data|) ensures i in parts {
        assert (MAX_PAYLOAD_SIZE * i) / MAX_PAYLOAD_SIZE == i && MAX_PAYLOAD_SIZE * i < |data|;
      }
    }
  }

  /** The set of the parts has as many bytes as the list exactly when nothing is repeated. */
  lemma {:induction false} CountRepeats(n: nat, parts: seq<nat>)
    requires AreParts(n, parts)
    ensures BytesIn(n, PartSet(parts)) <= ByteCount(n, parts)
    ensures BytesIn(n, PartSet(parts)) == ByteCount(n, parts) <==> NoRepeats(parts)
  {
    if parts == [] {
      SumOverNone(PayloadSizes(n));
      assert PartSet(parts) == {};
    } else {
      var k := |parts| - 1;
      var rest, i := parts[..k], parts[k];
      CountRepeats(n, rest);
      PayloadSizesPositive(n, i);
      assert PartSet(parts) == PartSet(rest) + {i};
      if i in rest {
        assert PartSet(parts) == PartSet(rest);
      } else {
        SumOverAdd(PayloadSizes(n), PartSet(rest), i);
      }
      RepeatLast(parts);
    }
  }

  lemma RepeatLast(parts: seq<nat>)
    requires parts != []
    ensures var k := |parts| - 1; NoRepeats(parts) <==> NoRepeats(parts[..k]) && parts[k] !in parts[..k]
  {
  }

  function PartSet(parts: seq<nat>): (s: set<nat>)
    ensures forall i: nat :: i in s <==> i in parts
  {
    set i | i in parts
  }

  /** A message that is complete by its count is the original, whatever the buffer held before,
      exactly when every part has been added; and that, unless the 32-bit count has wrapped around,
      exactly when no part was repeated. */
  lemma CompleteIsDataIffNoRepeats(data: Bytes, parts: seq<nat>)
    requires |data| <= MAX_LENGTH_FIELD && AreParts(|data|, parts) && Reaches(|data|, parts)
    ensures (forall base: Bytes | |base| == BUFFER_SIZE :: Covers(base, data, parts)) <==> AllParts(|data|, parts)
    ensures ByteCount(|data|, parts) < 0x1_0000_0000 ==> (AllParts(|data|, parts) <==> NoRepeats(parts))
  {
    var n := |data|;
    CoveredIffAllParts(data, parts);
    if ByteCount(n, parts) < 0x1_0000_0000 {
      Int32NonNegative(ByteCount(n, parts));
      CountRepeats(n, parts);
      AllPartsIffTotal(n, parts);
    }
  }

  lemma AllPartsIffTotal(n: nat, parts: seq<nat>)
    ensures BytesIn(n, PartSet(parts)) <= n
    ensures BytesIn(n, PartSet(parts)) == n <==> AllParts(n, parts)
  {
    var s := PartSet(parts);
    assert forall i: nat | i < FragmentCount(n) :: i in s <==> i in parts;
    PayloadSizesTotal(n);
    forall j | 0 <= j < FragmentCount(n) ensures PayloadSizes(n)[j] > 0 { PayloadSizesPositive(n, j); }
    SumReachesTotal(PayloadSizes(n), s);
    SumOverAtMost(PayloadSizes(n), s);
  }

  // ---------------------------------------------------------------- two inputs

  /** A fragment of a message of two full fragments, delivered twice, completes it with whatever
      the buffer held before. */
  lemma DuplicateReturnsStale(h: Hasher, id: Id, data: Bytes, stale: Bytes)
    requires |data| == 2 * MAX_PAYLOAD_SIZE && |stale| == BUFFER_SIZE
    ensures var a := Arrival(Fragment(id, data, 0), stale);
            && ValidArrivals([a, a])
            && Output(h, map[], [a, a], 1) == Some(Overlay(stale, data, [0, 0])[..|data|])
  {
    var a := Arrival(Fragment(id, data, 0), stale);
    FragmentArrives(h, id, data, 0, stale);
    FirstEntry(h, id, data, a);
    assert [a, a][..1] == [a];
    TwiceReaches(data, stale);
    SecondOutput(h, id, data, stale, [a, a]);
  }

  lemma SecondOutput(h: Hasher, id: Id, data: Bytes, stale: Bytes, arrivals: seq<Arrival>)
    requires 1 < FragmentCount(|data|) && |data| <= MAX_FRAGMENTED && |arrivals| == 2 && |stale| == BUFFER_SIZE
    requires ValidArrivals(arrivals) && AnyTimes(h, id, data, arrivals)
    requires EntryAfter(h, id, data, arrivals[..1]) == Entry([0], stale)
    requires !Foreign(h, id, arrivals[1].frame) && PartOf(arrivals[1].frame) == 0
    ensures AreParts(|data|, [0, 0]) && Output(h, map[], arrivals, 1) == Counted(data, Entry([0, 0], stale))
  {
    OutputIsCounted(h, map[], id, data, arrivals, 1);
    assert Entry([0], stale).Add(0, arrivals[1].stale) == Entry([0, 0], stale);
  }

  lemma TwiceReaches(data: Bytes, base: Bytes)
    requires |data| == 2 * MAX_PAYLOAD_SIZE && |base| == BUFFER_SIZE
    ensures AreParts(|data|, [0, 0])
    ensures Counted(data, Entry([0, 0], base)) == Some(Overlay(base, data, [0, 0])[..|data|])
  {
    assert [0] + [0] == [0, 0];
    CountOne(|data|, 0);
    CountMore(|data|, [0], 0);
    Int32Small(|data|);
  }

  lemma FragmentArrives(h: Hasher, id: Id, data: Bytes, i: nat, stale: Bytes)
    requires |data| <= MAX_FRAGMENTED && i < FragmentCount(|data|) && |stale| == BUFFER_SIZE
    ensures var a := Arrival(Fragment(id, data, i), stale);
            && ValidArrivals([a]) && ValidArrivals([a, a])
            && AnyTimes(h, id, data, [a]) && AnyTimes(h, id, data, [a, a])
            && !Foreign(h, id, a.frame) && PartOf(a.frame) == i
  {
    FragmentWellFormed(id, data, i);
    FragmentFields(id, data, i);
    FragmentIn(id, data, i);
  }

  lemma CountOne(n: nat, i: nat)
    requires i < FragmentCount(n)
    ensures AreParts(n, [i]) && ByteCount(n, [i]) == PayloadSize(n, i)
  {
    assert [i][..0] == [] && ByteCount(n, []) == 0;
  }

  lemma CountMore(n: nat, parts: seq<nat>, i: nat)
    requires AreParts(n, parts) && i < FragmentCount(n)
    ensures AreParts(n, parts + [i]) && ByteCount(n, parts + [i]) == ByteCount(n, parts) + PayloadSize(n, i)
  {
    assert (parts + [i])[..|parts|] == parts;
  }

  lemma FirstEntry(h: Hasher, id: Id, data: Bytes, a: Arrival)
    requires MAX_PAYLOAD_SIZE < |data| <= MAX_LENGTH_FIELD && a.frame == Fragment(id, data, 0)
    ensures EntryAfter(h, id, data, [a]) == Entry([0], a.stale)
  {
    FragmentWellFormed(id, data, 0);
    FragmentFields(id, data, 0);
    EntryOfOne(h, id, data, a);
    OneOfMore(|data|);
  }

  lemma OneOfMore(n: nat)
    requires MAX_PAYLOAD_SIZE < n <= MAX_LENGTH_FIELD
    ensures AreParts(n, [0]) && !Reaches(n, [0])
  {
    CountOne(n, 0);
    Int32Small(MAX_PAYLOAD_SIZE);
  }

  lemma EntryOfOne(h: Hasher, id: Id, data: Bytes, a: Arrival)
    requires !Foreign(h, id, a.frame)
    ensures var p := [PartOf(a.frame)];
            EntryAfter(h, id, data, [a]) ==
            if AreParts(|data|, p) && Reaches(|data|, p) then Entry([], []) else Entry(p, a.stale)
  {
    assert [a][..0] == [] && EntryAfter(h, id, data, []) == Entry([], []);
    assert Entry([], []).Add(PartOf(a.frame), a.stale) == Entry([PartOf(a.frame)], a.stale);
  }

  lemma FragmentIn(id: Id, data: Bytes, i: nat)
    requires i < FragmentCount(|data|)
    ensures Fragment(id, data, i) in Fragments(id, data)
  {
    assert Fragments(id, data)[i] == Fragment(id, data, i);
  }

  /** The second fragment of a message of 65536 bytes and one payload, arriving first, is taken
      for all of it. */
  lemma OversizeReturnsStale(h: Hasher, id: Id, data: Bytes, stale: Bytes)
    requires |data| == 65536 + MAX_PAYLOAD_SIZE && |stale| == BUFFER_SIZE
    ensures var a := Arrival(Fragment(id, data, 1), stale);
            && ValidArrivals([a]) && OnceEach(h, id, data, [a])
            && Output(h, map[], [a], 0) == Some(stale[..MAX_PAYLOAD_SIZE])
  {
    var a := Arrival(Fragment(id, data, 1), stale);
    FragmentArrives(h, id, data, 1, stale);
    assert [a][..0] == [] && EntryAfter(h, id, data, []) == Entry([], []);
    OutputIsCounted(h, map[], id, data, [a], 0);
    assert Entry([], []).Add(1, stale) == Entry([1], stale);
    OnceReaches(data, stale);
  }

  lemma OnceReaches(data: Bytes, base: Bytes)
    requires |data| == 65536 + MAX_PAYLOAD_SIZE && |base| == BUFFER_SIZE
    ensures AreParts(|data|, [1]) && Counted(data, Entry([1], base)) == Some(base[..MAX_PAYLOAD_SIZE])
  {
    CountOne(|data|, 1);
    Int32Small(MAX_PAYLOAD_SIZE);
    SecondOnly(base, data);
  }

  lemma SecondOnly(base: Bytes, data: Bytes)
    requires |base| >= MAX_PAYLOAD_SIZE
    ensures Overlay(base, data, [1])[..MAX_PAYLOAD_SIZE] == base[..MAX_PAYLOAD_SIZE]
  {
  }
}
