/**
  The fragment format and its value-level meaning: what `fragment` lays out, what one call
  of `assemble` does to the reassembly map.
 */
module Packets {
  import opened Ids
  import opened Options
  import opened Sums

  const PACKET_HEADER_SIZE := KEY_BYTES + 4
  const MAX_PACKET_SIZE := 1472
  const MAX_PAYLOAD_SIZE := MAX_PACKET_SIZE - PACKET_HEADER_SIZE
  /** Length of a pooled buffer, `1<<17-1`. */
  const BUFFER_SIZE := 131071
  /** Beyond 89 fragments `fragment` slices past the end of a pooled buffer. */
  const MAX_FRAGMENTED := 89 * MAX_PAYLOAD_SIZE
  /** The length field of the header has 16 bits. */
  const MAX_LENGTH_FIELD := 65535

  type Hash = nat
  type Hasher = Bytes -> Hash

  // ---------------------------------------------------------------- the format

  /** The number of payloads of MAX_PAYLOAD_SIZE bytes needed for `n` bytes. */
  function FragmentCount(n: nat): nat {
    (n + MAX_PAYLOAD_SIZE - 1) / MAX_PAYLOAD_SIZE
  }

  function PayloadSize(n: nat, i: nat): nat
    requires i < FragmentCount(n)
  {
    Min(MAX_PAYLOAD_SIZE, n - MAX_PAYLOAD_SIZE * i)
  }

  function Payload(data: Bytes, i: nat): (p: Bytes)
    requires i < FragmentCount(|data|)
    ensures |p| == PayloadSize(|data|, i)
  {
    data[MAX_PAYLOAD_SIZE * i..MAX_PAYLOAD_SIZE * i + PayloadSize(|data|, i)]
  }

  function PayloadSizes(n: nat): seq<nat> {
    seq(FragmentCount(n), i requires 0 <= i < FragmentCount(n) => PayloadSize(n, i))
  }

  /** Go's byte(n): the value modulo 256. */
  function ToByte(n: nat): Byte {
    n % 256
  }

  function LittleEndian16(n: nat): Bytes {
    [ToByte(n), ToByte(n / 256)]
  }

  function FromLittleEndian16(lo: Byte, hi: Byte): (n: nat)
    ensures n <= MAX_LENGTH_FIELD
  {
    lo + 256 * hi
  }

  /** The 16-bit field truncates. */
  lemma LittleEndian16RoundTrip(n: nat)
    ensures var e := LittleEndian16(n); FromLittleEndian16(e[0], e[1]) == n % 65536
  {
    var high := n / 256;
    assert n == 65536 * (high / 256) + (256 * (high % 256) + n % 256);
  }

  /** What a sender hands over: an event's bytes under the id of the request. */
  datatype Message = Message(id: Id, data: Bytes)

  /** Header `id | part | total | length` followed by the payload. */
  function Fragment(id: Id, data: Bytes, i: nat): (f: Bytes)
    requires i < FragmentCount(|data|)
    ensures |f| == PACKET_HEADER_SIZE + PayloadSize(|data|, i)
  {
    id + [ToByte(i + 1), ToByte(FragmentCount(|data|))] + LittleEndian16(|data|) + Payload(data, i)
  }

  function Fragments(id: Id, data: Bytes): (fs: seq<Bytes>)
    ensures |fs| == FragmentCount(|data|)
  {
    seq(FragmentCount(|data|), i requires 0 <= i < FragmentCount(|data|) => Fragment(id, data, i))
  }

  lemma FragmentFields(id: Id, data: Bytes, i: nat)
    requires i < FragmentCount(|data|)
    ensures var f := Fragment(id, data, i);
            && f[..KEY_BYTES] == id
            && f[KEY_BYTES] == ToByte(i + 1)
            && f[KEY_BYTES + 1] == ToByte(FragmentCount(|data|))
            && f[KEY_BYTES + 2..PACKET_HEADER_SIZE] == LittleEndian16(|data|)
            && f[PACKET_HEADER_SIZE..] == Payload(data, i)
  {
  }

  /** The bytes after the id: the number of the fragment from one, how many there are, and the length
      of the message, low byte first; each truncated to its field. */
  lemma HeaderBytes(id: Id, data: Bytes, i: nat)
    requires i < FragmentCount(|data|)
    ensures Fragment(id, data, i)[KEY_BYTES..PACKET_HEADER_SIZE]
            == [(i + 1) % 256, FragmentCount(|data|) % 256, |data| % 256, |data| / 256 % 256]
  {
    FragmentFields(id, data, i);
    var f := Fragment(id, data, i);
    assert f[KEY_BYTES..PACKET_HEADER_SIZE] == [f[KEY_BYTES], f[KEY_BYTES + 1]] + f[KEY_BYTES + 2..PACKET_HEADER_SIZE];
  }

  lemma PayloadSizesPositive(n: nat, i: nat)
    requires i < FragmentCount(n)
    ensures PayloadSize(n, i) > 0
    ensures i + 1 < FragmentCount(n) ==> PayloadSize(n, i) == MAX_PAYLOAD_SIZE
    ensures i + 1 == FragmentCount(n) ==> MAX_PAYLOAD_SIZE * i + PayloadSize(n, i) == n
  {
  }

  /** The payloads partition the data. */
  lemma PayloadSizesTotal(n: nat)
    ensures Total(PayloadSizes(n)) == n
  {
    var c := FragmentCount(n);
    if c > 0 {
      PayloadPrefixTotal(n, c - 1);
      PayloadSizesPositive(n, c - 1);
      assert PayloadSizes(n)[..c - 1] == PayloadSizes(n)[..|PayloadSizes(n)| - 1];
    }
  }

  lemma {:induction false} PayloadPrefixTotal(n: nat, k: nat)
    requires k < FragmentCount(n)
    ensures Total(PayloadSizes(n)[..k]) == MAX_PAYLOAD_SIZE * k
  {
    if k > 0 {
      PayloadPrefixTotal(n, k - 1);
      assert PayloadSizes(n)[..k][..k - 1] == PayloadSizes(n)[..k - 1];
    }
  }

  /** The bytes of the fragments in `parts`. */
  ghost function BytesIn(n: nat, parts: set<nat>): nat {
    SumOver(PayloadSizes(n), parts)
  }

  /** Counting one more fragment reaches the total exactly when it was the last one missing. */
  lemma CountPart(n: nat, parts: set<nat>, i: nat)
    requires i < FragmentCount(n) && i !in parts
    ensures BytesIn(n, parts + {i}) == BytesIn(n, parts) + PayloadSize(n, i) <= n
    ensures BytesIn(n, parts + {i}) == n <==> forall j | 0 <= j < FragmentCount(n) :: j in parts + {i}
  {
    var sizes := PayloadSizes(n);
    SumOverAdd(sizes, parts, i);
    SumOverAtMost(sizes, parts + {i});
    PayloadSizesTotal(n);
    forall j | 0 <= j < |sizes| ensures sizes[j] > 0 { PayloadSizesPositive(n, j); }
    SumReachesTotal(sizes, parts + {i});
  }

  // ---------------------------------------------------------------- reassembly on values

  /** A packet under reassembly. */
  datatype Assembly = Assembly(buf: Bytes, frg: int, len: int, pos: int)

  /** Go's copy into a slice: what does not fit is dropped. */
  function Splice(s: Bytes, at: nat, src: Bytes): (r: Bytes)
    ensures |r| == |s|
    ensures forall j | 0 <= j < |s| :: r[j] == if at <= j < at + |src| then src[j - at] else s[j]
  {
    seq(|s|, j requires 0 <= j < |s| => if at <= j < at + |src| then src[j - at] else s[j])
  }

  function Int32(n: int): int {
    (n + 0x8000_0000) % 0x1_0000_0000 - 0x8000_0000
  }

  lemma Int32Small(x: int)
    requires -0x8000_0000 <= x < 0x8000_0000
    ensures Int32(x) == x
  {
  }

  /** What the code needs of a received frame so as not to index out of range. */
  predicate WellFormed(f: Bytes) {
    && |f| >= PACKET_HEADER_SIZE
    && (f[KEY_BYTES + 1] != 1 ==> 1 <= f[KEY_BYTES] && MAX_PAYLOAD_SIZE * (f[KEY_BYTES] - 1) <= BUFFER_SIZE)
  }

  function FrameLength(f: Bytes): nat
    requires |f| >= PACKET_HEADER_SIZE
  {
    FromLittleEndian16(f[KEY_BYTES + 2], f[KEY_BYTES + 3])
  }

  function AddFragment(p: Assembly, f: Bytes): Assembly
    requires WellFormed(f) && f[KEY_BYTES + 1] != 1
  {
    var data := f[PACKET_HEADER_SIZE..];
    p.(buf := Splice(p.buf, MAX_PAYLOAD_SIZE * (f[KEY_BYTES] - 1), data), pos := Int32(p.pos + |data|))
  }

  /** A packet taken from the pool on the arrival of a frame: old contents, new header fields. */
  function NewPacket(f: Bytes, stale: Bytes): Assembly
    requires |f| >= PACKET_HEADER_SIZE
  {
    Assembly(stale, f[KEY_BYTES + 1], FrameLength(f), 0)
  }

  type Reassembly = map<Hash, Assembly>

  /** Every packet in the map has a pooled buffer and a length read from a header. */
  predicate ValidReassembly(m: Reassembly) {
    forall k | k in m :: |m[k].buf| == BUFFER_SIZE && 0 <= m[k].len <= MAX_LENGTH_FIELD
  }

  /** A packet that has just been added to leaves the map when it is complete. */
  function Settle(m: Reassembly, k: Hash, q: Assembly): (Reassembly, Option<Assembly>) {
    if q.pos == q.len then (m - {k}, Some(q)) else (m[k := q], None)
  }

  lemma SettleOverwrites(m: Reassembly, k: Hash, p: Assembly, q: Assembly)
    ensures Settle(m[k := p], k, q) == Settle(m, k, q)
  {
    assert m[k := p] - {k} == m - {k};
    assert m[k := p][k := q] == m[k := q];
  }

  /** One call of `assemble`: the new map, and the data returned if the packet is complete.
      `stale` is what a buffer fresh from the pool happens to hold. */
  function Deliver(h: Hasher, m: Reassembly, f: Bytes, stale: Bytes): (r: (Reassembly, Option<Bytes>))
    requires WellFormed(f) && |stale| == BUFFER_SIZE && ValidReassembly(m)
    ensures ValidReassembly(r.0)
  {
    if f[KEY_BYTES + 1] == 1 then
      (m, Some(f[PACKET_HEADER_SIZE..]))
    else
      var k := h(f[..KEY_BYTES]);
      var p := if k in m then m[k] else NewPacket(f, stale);
      var (m', done) := Settle(m, k, AddFragment(p, f));
      (m', if done.Some? then Some(done.value.buf[..done.value.len]) else None)
  }
}
