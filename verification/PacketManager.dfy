/**
  The packet buffers and the packet manager as the source has them: buffers written in
  place and recycled through a pool. Each method is tied to the value-level format and
  to `Packets.Deliver`.
 */
module PacketManager {
  import opened Ids
  import opened Options
  import opened Packets

  /** Go's `copy(dst[at:], src)`. */
  method Copy(dst: array<Byte>, at: nat, src: Bytes)
    requires at <= dst.Length
    modifies dst
    ensures dst[..] == Splice(old(dst[..]), at, src)
  {
    var n := Min(|src|, dst.Length - at);
    var i := 0;
    while i < n
      invariant 0 <= i <= n
      invariant forall j | 0 <= j < dst.Length :: dst[j] == if at <= j < at + i then src[j - at] else old(dst[j])
    {
      dst[at + i] := src[i];
      i := i + 1;
    }
  }

  class Packet {
    const buf: array<Byte>
    var frg: int
    var len: int
    var pos: int

    constructor Pooled()
      ensures fresh(buf) && buf.Length == BUFFER_SIZE
    {
      buf := new Byte[BUFFER_SIZE];
    }

    /** The packet returned for an unfragmented event. */
    constructor Unfragmented(data: Bytes)
      ensures fresh(buf) && buf[..] == data && len == |data|
    {
      buf := new Byte[|data|](i requires 0 <= i < |data| => data[i]);
      len := |data|;
    }

    /** Header fields of a packet about to be reassembled; the buffer keeps its old contents. */
    method Reset(f: Bytes)
      requires |f| >= PACKET_HEADER_SIZE
      modifies this
      ensures Value() == NewPacket(f, old(buf[..]))
    {
      frg := f[KEY_BYTES + 1];
      len := FrameLength(f);
      pos := 0;
    }

    ghost function Value(): Assembly
      reads this, buf
    {
      Assembly(buf[..], frg, len, pos)
    }

    /** The next piece of at most MAX_PACKET_SIZE bytes to transmit, nil when none is left. */
    method Next() returns (f: Option<Bytes>)
      requires 0 <= pos && len <= buf.Length
      modifies this`pos
      ensures old(pos) >= len ==> f.None? && pos == old(pos)
      ensures old(pos) < len ==>
                pos == Min(old(pos) + MAX_PACKET_SIZE, len) && f == Some(buf[old(pos)..pos])
    {
      if pos >= len {
        return None;
      }
      var ps := MAX_PACKET_SIZE;
      if pos + ps > len {
        ps := len - pos;
      }
      pos := pos + ps;
      return Some(buf[pos - ps..pos]);
    }

    /** Copies the fragment into place and counts its bytes. */
    method Add(f: Bytes) returns (complete: bool)
      requires WellFormed(f) && f[KEY_BYTES + 1] != 1 && buf.Length == BUFFER_SIZE
      modifies this`pos, buf
      ensures Value() == AddFragment(old(Value()), f)
      ensures complete <==> pos == len
    {
      var offset := f[KEY_BYTES] - 1;
      var data := f[PACKET_HEADER_SIZE..];
      Copy(buf, MAX_PAYLOAD_SIZE * offset, data);
      pos := Int32(pos + |data|);
      complete := pos == len;
    }

    method Data() returns (d: Bytes)
      requires 0 <= len <= buf.Length
      ensures d == Value().buf[..len]
    {
      d := buf[..len];
    }
  }

  /** The fragments of the message lie in the buffer one after the other. */
  ghost predicate LaidOut(buf: Bytes, id: Id, data: Bytes, n: nat)
  {
    && n <= FragmentCount(|data|) && MAX_PACKET_SIZE * n <= |buf|
    && forall j | 0 <= j < n ::
         buf[MAX_PACKET_SIZE * j..FragmentEnd(|data|, j)] == Fragment(id, data, j)
  }

  function FragmentEnd(n: nat, i: nat): nat
    requires i < FragmentCount(n)
  {
    MAX_PACKET_SIZE * i + PACKET_HEADER_SIZE + PayloadSize(n, i)
  }

  /** The body of the source's layout loop: header and payload of fragment `i`. */
  method WriteFragment(buf: array<Byte>, id: Id, data: Bytes, i: nat, frg: nat)
    requires i < FragmentCount(|data|) == frg && MAX_PACKET_SIZE * (i + 1) <= buf.Length
    modifies buf
    ensures buf[MAX_PACKET_SIZE * i..FragmentEnd(|data|, i)] == Fragment(id, data, i)
    ensures buf[..MAX_PACKET_SIZE * i] == old(buf[..MAX_PACKET_SIZE * i])
  {
    var offset := MAX_PACKET_SIZE * i;
    WriteHeader(buf, offset, id, i + 1, frg, |data|);
    ghost var mid := buf[..];
    var rest := data[i * MAX_PAYLOAD_SIZE..Min(|data|, (i + 1) * MAX_PAYLOAD_SIZE)];
    assert rest == Payload(data, i);
    Copy(buf, offset + PACKET_HEADER_SIZE, rest);
    FragmentWritten(mid, buf[..], id, data, i);
  }

  lemma FragmentWritten(mid: Bytes, after: Bytes, id: Id, data: Bytes, i: nat)
    requires i < FragmentCount(|data|) && MAX_PACKET_SIZE * (i + 1) <= |mid|
    requires mid[MAX_PACKET_SIZE * i..MAX_PACKET_SIZE * i + PACKET_HEADER_SIZE]
             == id + [ToByte(i + 1), ToByte(FragmentCount(|data|))] + LittleEndian16(|data|)
    requires after == Splice(mid, MAX_PACKET_SIZE * i + PACKET_HEADER_SIZE, Payload(data, i))
    ensures after[MAX_PACKET_SIZE * i..FragmentEnd(|data|, i)] == Fragment(id, data, i)
    ensures after[..MAX_PACKET_SIZE * i] == mid[..MAX_PACKET_SIZE * i]
  {
  }

  method WriteHeader(buf: array<Byte>, offset: nat, id: Id, part: nat, frg: nat, n: nat)
    requires offset + PACKET_HEADER_SIZE <= buf.Length
    modifies buf
    ensures buf[offset..offset + PACKET_HEADER_SIZE] == id + [ToByte(part), ToByte(frg)] + LittleEndian16(n)
    ensures buf[..offset] == old(buf[..offset])
  {
    Copy(buf, offset, id);
    buf[offset + KEY_BYTES] := ToByte(part);
    buf[offset + KEY_BYTES + 1] := ToByte(frg);
    Copy(buf, offset + KEY_BYTES + 2, LittleEndian16(n));
  }

  lemma LaidOutExtend(before: Bytes, after: Bytes, id: Id, data: Bytes, i: nat)
    requires LaidOut(before, id, data, i) && i < FragmentCount(|data|)
    requires MAX_PACKET_SIZE * (i + 1) <= |after| == |before|
    requires after[..MAX_PACKET_SIZE * i] == before[..MAX_PACKET_SIZE * i]
    requires after[MAX_PACKET_SIZE * i..FragmentEnd(|data|, i)] == Fragment(id, data, i)
    ensures LaidOut(after, id, data, i + 1)
  {
    forall j | 0 <= j < i
      ensures after[MAX_PACKET_SIZE * j..FragmentEnd(|data|, j)] == Fragment(id, data, j)
    {
      var lo, hi := MAX_PACKET_SIZE * j, FragmentEnd(|data|, j);
      SliceOfPrefix(before, after, lo, hi, MAX_PACKET_SIZE * i);
      assert before[lo..hi] == Fragment(id, data, j);
    }
  }

  lemma SliceOfPrefix(s: Bytes, t: Bytes, lo: nat, hi: nat, n: nat)
    requires lo <= hi <= n <= |s| && n <= |t| && s[..n] == t[..n]
    ensures s[lo..hi] == t[lo..hi]
  {
    assert s[lo..hi] == s[..n][lo..hi] && t[lo..hi] == t[..n][lo..hi];
  }

  /** The source's count of fragments is the rounded-up quotient, and fragment `i` starts
      before the end of the layout exactly when there is a fragment `i`. */
  lemma LayoutArithmetic(n: nat, i: nat)
    requires n <= MAX_FRAGMENTED && i <= FragmentCount(n)
    ensures FragmentCount(n) == n / MAX_PAYLOAD_SIZE - 1 + 2 - if n % MAX_PAYLOAD_SIZE == 0 then 1 else 0
    ensures MAX_PACKET_SIZE * i < n + PACKET_HEADER_SIZE * FragmentCount(n) <==> i < FragmentCount(n)
    ensures MAX_PACKET_SIZE * FragmentCount(n) <= BUFFER_SIZE
    ensures n + PACKET_HEADER_SIZE * FragmentCount(n) <= BUFFER_SIZE
  {
  }

  /** Reading the buffer in pieces of MAX_PACKET_SIZE up to `len` yields `frames`. */
  ghost predicate ReadsAs(buf: Bytes, len: int, frames: seq<Bytes>) {
    && 0 <= len <= |buf| && len <= MAX_PACKET_SIZE * |frames|
    && forall i | 0 <= i < |frames| ::
         MAX_PACKET_SIZE * i < len && buf[MAX_PACKET_SIZE * i..Min(MAX_PACKET_SIZE * (i + 1), len)] == frames[i]
  }

  /** The layout of `fragment` is what `next` hands out, fragment by fragment. */
  lemma LaidOutReads(buf: Bytes, id: Id, data: Bytes)
    requires |data| <= MAX_FRAGMENTED && |buf| == BUFFER_SIZE
    requires LaidOut(buf, id, data, FragmentCount(|data|))
    ensures ReadsAs(buf, |data| + PACKET_HEADER_SIZE * FragmentCount(|data|), Fragments(id, data))
  {
    LayoutArithmetic(|data|, FragmentCount(|data|));
    forall i | 0 <= i < FragmentCount(|data|)
      ensures var len := |data| + PACKET_HEADER_SIZE * FragmentCount(|data|);
              && MAX_PACKET_SIZE * i < len
              && buf[MAX_PACKET_SIZE * i..Min(MAX_PACKET_SIZE * (i + 1), len)] == Fragments(id, data)[i]
    {
      LayoutArithmetic(|data|, i);
      PieceEnd(|data|, i);
    }
  }

  lemma PieceEnd(n: nat, i: nat)
    requires i < FragmentCount(n)
    ensures FragmentEnd(n, i) == Min(MAX_PACKET_SIZE * (i + 1), n + PACKET_HEADER_SIZE * FragmentCount(n))
  {
  }

  /** The source's `fragment` on the buffer it was given. */
  method LayOut(p: Packet, id: Id, data: Bytes)
    requires |data| <= MAX_FRAGMENTED && p.buf.Length == BUFFER_SIZE
    modifies p, p.buf
    ensures p.pos == 0 && p.frg == FragmentCount(|data|)
    ensures ReadsAs(p.buf[..], p.len, Fragments(id, data))
  {
    LayoutArithmetic(|data|, 0);
    p.frg := |data| / MAX_PAYLOAD_SIZE - 1 + 2;
    if |data| % MAX_PAYLOAD_SIZE == 0 {
      p.frg := p.frg - 1;
    }
    p.len := |data| + p.frg * PACKET_HEADER_SIZE;
    p.pos := 0;
    LayOutAll(p.buf, id, data, p.frg, p.len);
    LaidOutReads(p.buf[..], id, data);
  }

  method LayOutAll(buf: array<Byte>, id: Id, data: Bytes, frg: nat, len: nat)
    requires |data| <= MAX_FRAGMENTED && buf.Length == BUFFER_SIZE
    requires frg == FragmentCount(|data|) && len == |data| + PACKET_HEADER_SIZE * frg
    modifies buf
    ensures LaidOut(buf[..], id, data, frg)
  {
    var i, offset := 0, 0;
    while offset < len
      invariant 0 <= i <= frg && offset == MAX_PACKET_SIZE * i
      invariant LaidOut(buf[..], id, data, i)
    {
      LayoutArithmetic(|data|, i);
      ghost var before := buf[..];
      WriteFragment(buf, id, data, i, frg);
      LaidOutExtend(before, buf[..], id, data, i);
      offset := offset + MAX_PACKET_SIZE;
      i := i + 1;
    }
    LayoutArithmetic(|data|, i);
  }

  ghost function Result(r: Packet?): Option<Assembly>
    reads r, if r == null then {} else {r.buf}
  {
    if r == null then None else Some(r.Value())
  }

  class Manager {
    const hash: Hasher
    var packets: map<Hash, Packet>
    var pool: set<Packet>
    /** Which packet a buffer belongs to, and which key a packet is filed under. */
    ghost var owner: map<array<Byte>, Packet>
    ghost var filed: map<Packet, Hash>

    constructor (hash: Hasher)
      ensures Valid() && this.hash == hash && packets == map[] && pool == {}
    {
      this.hash := hash;
      packets := map[];
      pool := {};
      owner := map[];
      filed := map[];
    }

    ghost predicate Owned(p: Packet)
      reads this
    {
      p.buf in owner && owner[p.buf] == p && p.buf.Length == BUFFER_SIZE
    }

    /** Pooled and mapped packets are different objects with buffers of their own. */
    ghost predicate Valid()
      reads this, packets.Values
    {
      && (forall p | p in pool :: Owned(p))
      && (forall k | k in packets :: Owned(packets[k]) && packets[k] !in pool)
      && (forall k | k in packets :: packets[k] in filed && filed[packets[k]] == k)
      && (forall k | k in packets :: 0 <= packets[k].len <= MAX_LENGTH_FIELD)
    }

    /** The map of packets under reassembly. */
    ghost function Model(): (m: Reassembly)
      requires Valid()
      reads this, packets.Values, owner.Keys
      ensures ValidReassembly(m)
    {
      map k | k in packets :: packets[k].Value()
    }

    /** The packet is neither pooled nor under reassembly. */
    ghost predicate Outside(p: Packet)
      reads this
    {
      p !in pool && p !in packets.Values
    }

    /** The packet can be given back: it is nobody else's, and its buffer its own or too short for the pool. */
    ghost predicate Recyclable(p: Packet)
      reads this
    {
      Outside(p) && (p.buf.Length < BUFFER_SIZE || Owned(p))
    }

    /** sync.Pool's Get: any pooled packet, or a new one. */
    method Get() returns (p: Packet)
      requires Valid()
      modifies this`pool, this`owner
      ensures Valid() && Outside(p) && Owned(p) && Model() == old(Model())
      ensures p in old(pool) || (fresh(p) && fresh(p.buf))
      ensures pool == old(pool) - {p}
      ensures owner.Keys == old(owner.Keys) + {p.buf}
    {
      assert forall k | k in packets :: packets[k] in packets.Values;
      if * {
        if q :| q in pool {
          p := q;
          pool := pool - {q};
          return;
        }
      }
      p := Allocate();
    }

    /** The pool's New: a packet with a buffer of its own. */
    method Allocate() returns (p: Packet)
      requires Valid()
      modifies this`owner
      ensures Valid() && Outside(p) && Owned(p) && Model() == old(Model())
      ensures fresh(p) && fresh(p.buf) && owner.Keys == old(owner.Keys) + {p.buf}
    {
      assert forall k | k in packets :: packets[k] in packets.Values;
      p := new Packet.Pooled();
      owner := owner[p.buf := p];
    }

    /** Lays the message out as fragments in a buffer from the pool. */
    method Fragment(id: Id, data: Bytes) returns (p: Packet)
      requires Valid() && |data| <= MAX_FRAGMENTED
      modifies this`pool, this`owner, pool, owner.Keys
      ensures Valid() && Outside(p) && Owned(p) && Model() == old(Model())
      ensures p in old(pool) || (fresh(p) && fresh(p.buf))
      ensures p.pos == 0 && p.frg == FragmentCount(|data|)
      ensures ReadsAs(p.buf[..], p.len, Fragments(id, data))
    {
      p := Get();
      LayOut(p, id, data);
    }

    /** Files a packet from the pool under key `k` for frame `f`. */
    method Create(k: Hash, f: Bytes) returns (ghost stale: Bytes)
      requires Valid() && k !in packets && |f| >= PACKET_HEADER_SIZE
      modifies this, pool
      ensures Valid() && |stale| == BUFFER_SIZE && k in packets
      ensures packets[k] in old(pool) || (fresh(packets[k]) && fresh(packets[k].buf))
      ensures owner.Keys == old(owner.Keys) + {packets[k].buf}
      ensures Model() == old(Model())[k := NewPacket(f, stale)]
    {
      var p := Get();
      stale := p.buf[..];
      p.Reset(f);
      assert forall j | j in packets :: packets[j] in packets.Values;
      assert Model() == old(Model());
      File(k, p);
    }

    method File(k: Hash, p: Packet)
      requires Valid() && k !in packets && Outside(p) && Owned(p) && 0 <= p.len <= MAX_LENGTH_FIELD
      modifies this`packets, this`filed
      ensures Valid() && k in packets && packets[k] == p
      ensures Model() == old(Model())[k := p.Value()]
    {
      assert forall j | j in packets :: packets[j] in packets.Values;
      packets := packets[k := p];
      filed := filed[p := k];
    }

    /** Adds a frame to the packet under key `k`; nothing else under reassembly changes. */
    method AddTo(k: Hash, f: Bytes) returns (complete: bool)
      requires Valid() && k in packets && WellFormed(f) && f[KEY_BYTES + 1] != 1
      modifies packets[k], packets[k].buf
      ensures Valid() && Model() == old(Model())[k := AddFragment(old(Model())[k], f)]
      ensures complete <==> Model()[k].pos == Model()[k].len
    {
      complete := packets[k].Add(f);
      assert forall j | j in packets && j != k :: packets[j].Value() == old(packets[j].Value());
    }

    /** Adds the frame and, when that completes the packet, takes it out of the map. */
    method Finish(k: Hash, f: Bytes) returns (r: Packet?)
      requires Valid() && k in packets && WellFormed(f) && f[KEY_BYTES + 1] != 1
      modifies this`packets, packets[k], packets[k].buf
      ensures Valid() && (r != null ==> Outside(r) && Owned(r) && 0 <= r.len <= r.buf.Length)
      ensures (Model(), Result(r)) == Settle(old(Model()), k, AddFragment(old(Model())[k], f))
    {
      var complete := AddTo(k, f);
      if complete {
        SettleOverwrites(old(Model()), k, Model()[k], Model()[k]);
        r := Remove(k);
      } else {
        r := null;
      }
    }

    method Remove(k: Hash) returns (r: Packet)
      requires Valid() && k in packets
      modifies this`packets
      ensures Valid() && Model() == old(Model()) - {k}
      ensures Outside(r) && Owned(r) && r.Value() == old(Model())[k]
    {
      r := packets[k];
      packets := packets - {k};
    }

    /** Handles one received frame: the completed packet, or null while fragments are missing.
        `stale` is what the buffer taken from the pool held, if one was taken. */
    method Assemble(f: Bytes) returns (r: Packet?, ghost stale: Bytes)
      requires Valid() && WellFormed(f)
      modifies this, pool, packets.Values, owner.Keys
      ensures Valid() && |stale| == BUFFER_SIZE
      ensures r != null ==> Outside(r) && 0 <= r.len <= r.buf.Length
      ensures r != null && |f| <= BUFFER_SIZE ==> Recyclable(r)
      ensures (Model(), if r == null then None else Some(r.Value().buf[..r.len]))
              == Deliver(hash, old(Model()), f, stale)
    {
      if f[KEY_BYTES + 1] == 1 {
        stale := seq(BUFFER_SIZE, _ => 0);
        r := new Packet.Unfragmented(f[PACKET_HEADER_SIZE..]);
        assert r.buf[..][..r.len] == f[PACKET_HEADER_SIZE..];
        return;
      }
      var k := hash(f[..KEY_BYTES]);
      if k in packets {
        stale := seq(BUFFER_SIZE, _ => 0);
        r := Finish(k, f);
      } else {
        r, stale := AssembleNew(k, f);
      }
    }

    /** The first fragment of a packet. */
    method AssembleNew(k: Hash, f: Bytes) returns (r: Packet?, ghost stale: Bytes)
      requires Valid() && k !in packets && WellFormed(f) && f[KEY_BYTES + 1] != 1
      modifies this, pool, owner.Keys
      ensures Valid() && |stale| == BUFFER_SIZE && (r != null ==> Outside(r) && Owned(r) && 0 <= r.len <= r.buf.Length)
      ensures (Model(), Result(r)) == Settle(old(Model()), k, AddFragment(NewPacket(f, stale), f))
    {
      stale := Create(k, f);
      r := Finish(k, f);
      SettleOverwrites(old(Model()), k, NewPacket(f, stale), AddFragment(NewPacket(f, stale), f));
    }

    /** Returns a packet with a full-size buffer to the pool. */
    method Done(p: Packet)
      requires Valid() && Recyclable(p)
      modifies this`pool
      ensures Valid() && Model() == old(Model())
      ensures pool == if p.buf.Length < BUFFER_SIZE then old(pool) else old(pool) + {p}
    {
      assert forall k | k in packets :: packets[k] in packets.Values;
      if p.buf.Length < BUFFER_SIZE {
        return;
      }
      pool := pool + {p};
    }

    /** The data of a packet, which is then given back. */
    method Take(r: Packet) returns (d: Option<Bytes>)
      requires Valid() && Recyclable(r) && 0 <= r.len <= r.buf.Length
      modifies this`pool
      ensures Valid() && Model() == old(Model()) && d == Some(r.Value().buf[..r.len])
    {
      var data := r.Data();
      d := Some(data);
      Done(r);
    }

    /** What a listener does with a frame, which its read buffer bounds: assemble, read the data
        and give the packet back. */
    method Receive(f: Bytes) returns (d: Option<Bytes>, ghost stale: Bytes)
      requires Valid() && WellFormed(f) && |f| <= BUFFER_SIZE
      modifies this, pool, packets.Values, owner.Keys
      ensures Valid() && |stale| == BUFFER_SIZE
      ensures (Model(), d) == Deliver(hash, old(Model()), f, stale)
    {
      var r;
      r, stale := Assemble(f);
      if r == null {
        d := None;
      } else {
        d := Take(r);
      }
    }
  }
}
