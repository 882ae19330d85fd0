/**
  What comes out of `assemble` when the fragments of a message arrive once each, in any
  order, mixed with any other traffic whose ids hash differently.
 */
module RoundTrip {
  import opened Ids
  import opened Options
  import opened Sums
  import opened Packets

  /** A received frame and the contents of the pooled buffer it would be given. */
  datatype Arrival = Arrival(frame: Bytes, stale: Bytes)

  predicate ValidArrivals(arrivals: seq<Arrival>) {
    forall a | a in arrivals :: WellFormed(a.frame) && |a.stale| == BUFFER_SIZE
  }

  /** The reassembly map after a run of arrivals. */
  function After(h: Hasher, m: Reassembly, arrivals: seq<Arrival>): (r: Reassembly)
    requires ValidReassembly(m) && ValidArrivals(arrivals)
    ensures ValidReassembly(r)
  {
    if arrivals == [] then m
    else
      var n := |arrivals| - 1;
      Deliver(h, After(h, m, arrivals[..n]), arrivals[n].frame, arrivals[n].stale).0
  }

  /** What the t-th call of `assemble` in the run returns. */
  function Output(h: Hasher, m: Reassembly, arrivals: seq<Arrival>, t: nat): Option<Bytes>
    requires ValidReassembly(m) && ValidArrivals(arrivals) && t < |arrivals|
  {
    Deliver(h, After(h, m, arrivals[..t]), arrivals[t].frame, arrivals[t].stale).1
  }

  // ---------------------------------------------------------------- one message among others

  ghost predicate Foreign(h: Hasher, id: Id, frame: Bytes) {
    |frame| >= PACKET_HEADER_SIZE && h(frame[..KEY_BYTES]) != h(id)
  }

  /** Every arrival is foreign or a fragment of the message, and no fragment arrives twice. */
  ghost predicate OnceEach(h: Hasher, id: Id, data: Bytes, arrivals: seq<Arrival>) {
    && (forall t | 0 <= t < |arrivals| ::
          Foreign(h, id, arrivals[t].frame) || arrivals[t].frame in Fragments(id, data))
    && (forall t, u | 0 <= t < u < |arrivals| && arrivals[t].frame == arrivals[u].frame ::
          Foreign(h, id, arrivals[t].frame))
  }

  /** The parts of the message among the arrivals. */
  ghost function Delivered(id: Id, data: Bytes, arrivals: seq<Arrival>): set<nat> {
    set i | 0 <= i < FragmentCount(|data|) && Arrived(arrivals, Fragment(id, data, i))
  }

  ghost predicate Arrived(arrivals: seq<Arrival>, frame: Bytes) {
    exists t :: 0 <= t < |arrivals| && arrivals[t].frame == frame
  }

  ghost predicate Complete(id: Id, data: Bytes, arrivals: seq<Arrival>) {
    forall i | 0 <= i < FragmentCount(|data|) :: i in Delivered(id, data, arrivals)
  }

  lemma FragmentLengthField(id: Id, data: Bytes, i: nat)
    requires i < FragmentCount(|data|)
    ensures FrameLength(Fragment(id, data, i)) == |data| % 65536
    ensures |data| <= MAX_LENGTH_FIELD ==> FrameLength(Fragment(id, data, i)) == |data|
  {
    var f, e := Fragment(id, data, i), LittleEndian16(|data|);
    assert f[KEY_BYTES + 2] == e[0] && f[KEY_BYTES + 3] == e[1];
    LittleEndian16RoundTrip(|data|);
  }

  lemma FragmentWellFormed(id: Id, data: Bytes, i: nat)
    requires |data| <= MAX_FRAGMENTED && i < FragmentCount(|data|)
    ensures WellFormed(Fragment(id, data, i))
    ensures Fragment(id, data, i)[KEY_BYTES] == i + 1
    ensures Fragment(id, data, i)[KEY_BYTES + 1] == FragmentCount(|data|)
  {
  }

  lemma FragmentsDistinct(id: Id, data: Bytes, i: nat, j: nat)
    requires |data| <= MAX_FRAGMENTED
    requires i < FragmentCount(|data|) && j < FragmentCount(|data|)
    requires Fragment(id, data, i) == Fragment(id, data, j)
    ensures i == j
  {
    FragmentWellFormed(id, data, i);
    FragmentWellFormed(id, data, j);
  }

  // ---------------------------------------------------------------- the invariant of a run

  /** The first `n` bytes of part `i` are in the buffer. */
  ghost predicate Filled(buf: Bytes, data: Bytes, i: nat, n: nat)
  {
    && MAX_PAYLOAD_SIZE * i + n <= |data| <= |buf|
    && forall k | MAX_PAYLOAD_SIZE * i <= k < MAX_PAYLOAD_SIZE * i + n :: buf[k] == data[k]
  }

  ghost predicate HoldsParts(buf: Bytes, data: Bytes, parts: set<nat>) {
    forall i | i in parts && i < FragmentCount(|data|) :: Filled(buf, data, i, PayloadSize(|data|, i))
  }

  /** A packet that has received exactly the parts in `parts`. */
  ghost predicate Partial(p: Assembly, data: Bytes, parts: set<nat>) {
    && |p.buf| == BUFFER_SIZE && p.len == |data| <= MAX_LENGTH_FIELD
    && p.pos == BytesIn(|data|, parts)
    && HoldsParts(p.buf, data, parts)
  }

  ghost predicate Tracked(h: Hasher, m: Reassembly, id: Id, data: Bytes, parts: set<nat>) {
    if h(id) in m
    then
      && FragmentCount(|data|) > 1 && Partial(m[h(id)], data, parts)
      && exists i :: i < FragmentCount(|data|) && i !in parts
    else parts == {} || forall i | 0 <= i < FragmentCount(|data|) :: i in parts
  }

  /** Adding a missing part to a partial packet. */
  lemma AddPart(p: Assembly, id: Id, data: Bytes, parts: set<nat>, i: nat)
    requires Partial(p, data, parts)
    requires FragmentCount(|data|) > 1 && i < FragmentCount(|data|) && i !in parts
    ensures WellFormed(Fragment(id, data, i)) && Fragment(id, data, i)[KEY_BYTES + 1] != 1
    ensures var q := AddFragment(p, Fragment(id, data, i));
            && Partial(q, data, parts + {i})
            && (q.pos == q.len <==> forall j | 0 <= j < FragmentCount(|data|) :: j in parts + {i})
  {
    FragmentFields(id, data, i);
    FragmentWellFormed(id, data, i);
    CountPart(|data|, parts, i);
    Int32Small(p.pos + PayloadSize(|data|, i));
    SpliceParts(p.buf, data, parts, i);
  }

  lemma SpliceParts(buf: Bytes, data: Bytes, parts: set<nat>, i: nat)
    requires |data| <= |buf| && i < FragmentCount(|data|) && HoldsParts(buf, data, parts)
    ensures HoldsParts(Splice(buf, MAX_PAYLOAD_SIZE * i, Payload(data, i)), data, parts + {i})
  {
  }

  /** When every part is in place the data is. */
  lemma AllPartsAreTheData(buf: Bytes, data: Bytes)
    requires |data| <= |buf|
    requires forall i | 0 <= i < FragmentCount(|data|) :: Filled(buf, data, i, PayloadSize(|data|, i))
    ensures buf[..|data|] == data
  {
    forall k | 0 <= k < |data| ensures buf[k] == data[k] {
      var i := k / MAX_PAYLOAD_SIZE;
      assert Filled(buf, data, i, PayloadSize(|data|, i));
    }
  }

  /** A fragment of the message arrives for the first time. */
  lemma DeliverPart(h: Hasher, m: Reassembly, id: Id, data: Bytes, parts: set<nat>, i: nat, stale: Bytes)
    requires 1 <= |data| <= MAX_LENGTH_FIELD && ValidReassembly(m) && |stale| == BUFFER_SIZE
    requires i < FragmentCount(|data|) && i !in parts && Tracked(h, m, id, data, parts)
    ensures WellFormed(Fragment(id, data, i))
    ensures var (m', out) := Deliver(h, m, Fragment(id, data, i), stale);
            && Tracked(h, m', id, data, parts + {i})
            && out == if forall j | 0 <= j < FragmentCount(|data|) :: j in parts + {i} then Some(data) else None
  {
    FragmentWellFormed(id, data, i);
    if FragmentCount(|data|) == 1 {
      DeliverOnly(h, m, id, data, parts, stale);
    } else if h(id) in m {
      DeliverPartTo(h, m, m[h(id)], id, data, parts, i, stale);
    } else {
      NewPacketPartial(id, data, i, stale);
      DeliverPartTo(h, m, NewPacket(Fragment(id, data, i), stale), id, data, parts, i, stale);
    }
  }

  lemma NewPacketFields(id: Id, data: Bytes, i: nat, stale: Bytes)
    requires |data| <= MAX_LENGTH_FIELD && i < FragmentCount(|data|)
    ensures var q := NewPacket(Fragment(id, data, i), stale);
            q.buf == stale && q.len == |data| && q.pos == 0
  {
    FragmentLengthField(id, data, i);
  }

  lemma NewPacketPartial(id: Id, data: Bytes, i: nat, stale: Bytes)
    requires |data| <= MAX_LENGTH_FIELD && i < FragmentCount(|data|) && |stale| == BUFFER_SIZE
    ensures Partial(NewPacket(Fragment(id, data, i), stale), data, {})
  {
    NewPacketFields(id, data, i, stale);
    SumOverNone(PayloadSizes(|data|));
  }

  lemma DeliverOnly(h: Hasher, m: Reassembly, id: Id, data: Bytes, parts: set<nat>, stale: Bytes)
    requires FragmentCount(|data|) == 1 && ValidReassembly(m) && |stale| == BUFFER_SIZE
    requires Tracked(h, m, id, data, parts) && 0 !in parts && WellFormed(Fragment(id, data, 0))
    ensures Deliver(h, m, Fragment(id, data, 0), stale) == (m, Some(data))
    ensures Tracked(h, m, id, data, parts + {0})
  {
    FragmentWellFormed(id, data, 0);
    FragmentFields(id, data, 0);
    assert Payload(data, 0) == data;
  }

  lemma DeliverPartTo(h: Hasher, m: Reassembly, p: Assembly, id: Id, data: Bytes, parts: set<nat>, i: nat, stale: Bytes)
    requires 1 <= |data| <= MAX_LENGTH_FIELD && ValidReassembly(m) && |stale| == BUFFER_SIZE
    requires 1 < FragmentCount(|data|) && i < FragmentCount(|data|) && i !in parts && Partial(p, data, parts)
    requires WellFormed(Fragment(id, data, i))
    requires var f := Fragment(id, data, i);
             p == if h(id) in m then m[h(id)] else NewPacket(f, stale)
    ensures var (m', out) := Deliver(h, m, Fragment(id, data, i), stale);
            && Tracked(h, m', id, data, parts + {i})
            && out == if forall j | 0 <= j < FragmentCount(|data|) :: j in parts + {i} then Some(data) else None
  {
    FragmentFields(id, data, i);
    AddPart(p, id, data, parts, i);
    var q := AddFragment(p, Fragment(id, data, i));
    if q.pos == q.len {
      AllPartsAreTheData(q.buf, data);
    }
  }

  lemma DeliverForeign(h: Hasher, m: Reassembly, id: Id, data: Bytes, parts: set<nat>, f: Bytes, stale: Bytes)
    requires ValidReassembly(m) && WellFormed(f) && |stale| == BUFFER_SIZE
    requires Foreign(h, id, f) && Tracked(h, m, id, data, parts)
    ensures Tracked(h, Deliver(h, m, f, stale).0, id, data, parts)
  {
  }

  lemma DeliveredExtend(h: Hasher, id: Id, data: Bytes, arrivals: seq<Arrival>, t: nat, i: nat)
    requires |data| <= MAX_FRAGMENTED && OnceEach(h, id, data, arrivals)
    requires t < |arrivals| && i < FragmentCount(|data|)
    requires arrivals[t].frame == Fragment(id, data, i)
    ensures i !in Delivered(id, data, arrivals[..t])
    ensures Delivered(id, data, arrivals[..t + 1]) == Delivered(id, data, arrivals[..t]) + {i}
  {
    FragmentFields(id, data, i);
    forall j | 0 <= j < FragmentCount(|data|)
      ensures Arrived(arrivals[..t + 1], Fragment(id, data, j))
              <==> Arrived(arrivals[..t], Fragment(id, data, j)) || j == i
    {
      ArrivedExtend(arrivals, t, Fragment(id, data, j));
      if arrivals[t].frame == Fragment(id, data, j) { FragmentsDistinct(id, data, i, j); }
    }
  }

  lemma ArrivedExtend(arrivals: seq<Arrival>, t: nat, frame: Bytes)
    requires t < |arrivals|
    ensures Arrived(arrivals[..t + 1], frame) <==> Arrived(arrivals[..t], frame) || arrivals[t].frame == frame
  {
  }

  lemma DeliveredForeign(h: Hasher, id: Id, data: Bytes, arrivals: seq<Arrival>, t: nat)
    requires t < |arrivals| && Foreign(h, id, arrivals[t].frame)
    ensures Delivered(id, data, arrivals[..t + 1]) == Delivered(id, data, arrivals[..t])
  {
    forall j | 0 <= j < FragmentCount(|data|)
      ensures Arrived(arrivals[..t + 1], Fragment(id, data, j)) <==> Arrived(arrivals[..t], Fragment(id, data, j))
    {
      FragmentFields(id, data, j);
      ArrivedExtend(arrivals, t, Fragment(id, data, j));
    }
  }

  lemma StepTracks(h: Hasher, m: Reassembly, id: Id, data: Bytes, arrivals: seq<Arrival>, t: nat)
    requires 1 <= |data| <= MAX_LENGTH_FIELD
    requires ValidReassembly(m) && ValidArrivals(arrivals)
    requires OnceEach(h, id, data, arrivals) && t < |arrivals|
    requires Tracked(h, m, id, data, Delivered(id, data, arrivals[..t]))
    ensures var m' := Deliver(h, m, arrivals[t].frame, arrivals[t].stale).0;
            Tracked(h, m', id, data, Delivered(id, data, arrivals[..t + 1]))
  {
    var f, parts := arrivals[t].frame, Delivered(id, data, arrivals[..t]);
    if Foreign(h, id, f) {
      DeliverForeign(h, m, id, data, parts, f, arrivals[t].stale);
      DeliveredForeign(h, id, data, arrivals, t);
    } else {
      var i :| 0 <= i < FragmentCount(|data|) && f == Fragments(id, data)[i];
      DeliveredExtend(h, id, data, arrivals, t, i);
      DeliverPart(h, m, id, data, parts, i, arrivals[t].stale);
    }
  }

  lemma {:induction false} RunTracks(h: Hasher, m: Reassembly, id: Id, data: Bytes, arrivals: seq<Arrival>, t: nat)
    requires 1 <= |data| <= MAX_LENGTH_FIELD
    requires ValidReassembly(m) && ValidArrivals(arrivals) && h(id) !in m
    requires OnceEach(h, id, data, arrivals) && t <= |arrivals|
    ensures Tracked(h, After(h, m, arrivals[..t]), id, data, Delivered(id, data, arrivals[..t]))
  {
    if t > 0 {
      RunTracks(h, m, id, data, arrivals, t - 1);
      assert arrivals[..t][..t - 1] == arrivals[..t - 1];
      StepTracks(h, After(h, m, arrivals[..t - 1]), id, data, arrivals, t - 1);
    }
  }

  // ---------------------------------------------------------------- main results

  /** Every call of `assemble` on a fragment of the message returns nil, except the one that
      delivers the last missing fragment, which returns exactly the original data. */
  lemma ReassemblyRoundTrip(h: Hasher, m: Reassembly, id: Id, data: Bytes, arrivals: seq<Arrival>, t: nat)
    requires 1 <= |data| <= MAX_LENGTH_FIELD
    requires ValidReassembly(m) && ValidArrivals(arrivals) && h(id) !in m
    requires OnceEach(h, id, data, arrivals)
    requires t < |arrivals| && !Foreign(h, id, arrivals[t].frame)
    ensures Output(h, m, arrivals, t) ==
            if Complete(id, data, arrivals[..t + 1]) then Some(data) else None
  {
    RunTracks(h, m, id, data, arrivals, t);
    var i :| 0 <= i < FragmentCount(|data|) && arrivals[t].frame == Fragments(id, data)[i];
    DeliveredExtend(h, id, data, arrivals, t, i);
    DeliverPart(h, After(h, m, arrivals[..t]), id, data, Delivered(id, data, arrivals[..t]), i, arrivals[t].stale);
  }

  /** A message whose length does not fit the 16-bit header field is never returned. */
  lemma OversizeNeverReturned(h: Hasher, m: Reassembly, id: Id, data: Bytes, arrivals: seq<Arrival>, t: nat)
    requires MAX_LENGTH_FIELD < |data| <= MAX_FRAGMENTED
    requires ValidReassembly(m) && ValidArrivals(arrivals)
    requires t < |arrivals| && arrivals[t].frame in Fragments(id, data)
    ensures Output(h, m, arrivals, t) != Some(data)
  {
  }

  ghost predicate Returned(h: Hasher, m: Reassembly, id: Id, data: Bytes, arrivals: seq<Arrival>)
    requires ValidReassembly(m) && ValidArrivals(arrivals)
  {
    exists t :: 0 <= t < |arrivals| && arrivals[t].frame in Fragments(id, data)
                && Output(h, m, arrivals, t) == Some(data)
  }

  /** Once all fragments have arrived, once each, the data has been returned if and only if
      there was a fragment to send and the length fits the header's 16-bit field. */
  lemma ReturnedIffLengthFits(h: Hasher, m: Reassembly, id: Id, data: Bytes, arrivals: seq<Arrival>)
    requires |data| <= MAX_FRAGMENTED
    requires ValidReassembly(m) && ValidArrivals(arrivals) && h(id) !in m
    requires OnceEach(h, id, data, arrivals) && Complete(id, data, arrivals)
    ensures Returned(h, m, id, data, arrivals) <==> 1 <= |data| <= MAX_LENGTH_FIELD
  {
    if 1 <= |data| <= MAX_LENGTH_FIELD {
      ReturnedIfLengthFits(h, m, id, data, arrivals);
    } else {
      forall t | 0 <= t < |arrivals| && arrivals[t].frame in Fragments(id, data)
        ensures Output(h, m, arrivals, t) != Some(data)
      {
        OversizeNeverReturned(h, m, id, data, arrivals, t);
      }
    }
  }

  lemma ReturnedIfLengthFits(h: Hasher, m: Reassembly, id: Id, data: Bytes, arrivals: seq<Arrival>)
    requires 1 <= |data| <= MAX_LENGTH_FIELD
    requires ValidReassembly(m) && ValidArrivals(arrivals) && h(id) !in m
    requires OnceEach(h, id, data, arrivals) && Complete(id, data, arrivals)
    ensures Returned(h, m, id, data, arrivals)
  {
    var t := LastPart(h, id, data, arrivals);
    ReassemblyRoundTrip(h, m, id, data, arrivals, t);
    assert arrivals[t].frame in Fragments(id, data);
  }

  /** The arrival that completes the message. */
  lemma LastPart(h: Hasher, id: Id, data: Bytes, arrivals: seq<Arrival>) returns (t: nat)
    requires 1 <= |data| && OnceEach(h, id, data, arrivals) && Complete(id, data, arrivals)
    ensures t < |arrivals| && !Foreign(h, id, arrivals[t].frame)
    ensures Complete(id, data, arrivals[..t + 1])
  {
    var n := |arrivals|;
    assert arrivals[..n] == arrivals;
    assert 0 in Delivered(id, data, arrivals);
    while Foreign(h, id, arrivals[n - 1].frame)
      invariant 0 < n <= |arrivals| && Complete(id, data, arrivals[..n])
      decreases n
    {
      DeliveredForeign(h, id, data, arrivals, n - 1);
      n := n - 1;
      assert 0 in Delivered(id, data, arrivals[..n]);
    }
    t := n - 1;
  }
}
