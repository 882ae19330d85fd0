/**
  Node ids and keys, the common-prefix measure every routing decision rests on, and the
  facts about it that the rest of the model uses.

  `PrefixLen` is the reference definition: the index of the first bit in which two ids
  differ. `Distance` is the byte-wise loop of the source, proved to compute it.
 */
module Ids {

  const KEY_BITS := 256
  const KEY_BYTES := 32

  type Byte = x: int | 0 <= x < 256
  type Bytes = seq<Byte>
  type Id = s: Bytes | |s| == KEY_BYTES witness seq(KEY_BYTES, _ => 0)

  /** A peer as the routing table and the journey hold it. */
  datatype Node = Node(id: Id, address: Address, seen: int, pending: int, latency: int,
                       failCount: int, testMode: bool)

  datatype Address = Address(ip: Bytes, port: nat)

  // ---------------------------------------------------------------- bits

  /** The i-th bit, from the most significant one, of a number of `w` bits. */
  predicate BitAt(x: nat, w: nat, i: int) {
    0 <= i < w && if i == w - 1 then x % 2 == 1 else BitAt(x / 2, w - 1, i)
  }

  predicate ByteBit(x: Byte, i: int) {
    BitAt(x, 8, i)
  }

  predicate Bit(a: Id, k: int) {
    0 <= k < KEY_BITS && ByteBit(a[k / 8], k % 8)
  }

  /** Bitwise exclusive or of two numbers of `w` bits. */
  function XorBits(x: nat, y: nat, w: nat): nat {
    if w == 0 then 0
    else 2 * XorBits(x / 2, y / 2, w - 1) + if x % 2 == y % 2 then 0 else 1
  }

  function XorByte(x: Byte, y: Byte): Byte {
    XorBitsRange(x, y, 8);
    XorBits(x, y, 8)
  }

  function Pow2(w: nat): nat {
    if w == 0 then 1 else 2 * Pow2(w - 1)
  }

  lemma {:induction false} XorBitsRange(x: nat, y: nat, w: nat)
    ensures XorBits(x, y, w) < Pow2(w)
    ensures w == 8 ==> Pow2(w) == 256
  {
    if w > 0 { XorBitsRange(x / 2, y / 2, w - 1); }
    if w == 8 { assert Pow2(2) == 4 && Pow2(4) == 16 && Pow2(6) == 64; }
  }

  lemma {:induction false} XorBitsAt(x: nat, y: nat, w: nat, i: nat)
    requires i < w
    ensures BitAt(XorBits(x, y, w), w, i) <==> BitAt(x, w, i) != BitAt(y, w, i)
  {
    if i < w - 1 { XorBitsAt(x / 2, y / 2, w - 1, i); }
  }

  lemma {:induction false} XorBitsZero(x: nat, y: nat, w: nat)
    requires x < Pow2(w) && y < Pow2(w)
    ensures XorBits(x, y, w) == 0 <==> x == y
  {
    if w > 0 { XorBitsZero(x / 2, y / 2, w - 1); }
  }

  lemma XorBit(x: Byte, y: Byte, i: nat)
    requires i < 8
    ensures ByteBit(XorByte(x, y), i) <==> ByteBit(x, i) != ByteBit(y, i)
  {
    XorBitsAt(x, y, 8, i);
  }

  lemma XorZero(x: Byte, y: Byte)
    ensures XorByte(x, y) == 0 <==> x == y
  {
    XorBitsRange(x, y, 8);
    XorBitsZero(x, y, 8);
  }

  /** The number of zero bits before the first one bit of a number of `w` bits. */
  function LeadingZeros(d: nat, w: nat): (z: nat)
    ensures z <= w
  {
    if d == 0 || w == 0 then w else LeadingZeros(d / 2, w - 1)
  }

  /** math/bits.LeadingZeros8. */
  function LeadingZeros8(d: Byte): nat {
    LeadingZeros(d, 8)
  }

  lemma {:induction false} LeadingZerosBits(d: nat, w: nat, i: nat)
    requires d < Pow2(w)
    ensures i < LeadingZeros(d, w) ==> !BitAt(d, w, i)
    ensures i == LeadingZeros(d, w) < w ==> BitAt(d, w, i)
    ensures LeadingZeros(d, w) == w <==> d == 0
  {
    if w > 0 { LeadingZerosBits(d / 2, w - 1, i); }
  }

  ghost predicate DifferFirstAt(x: Byte, y: Byte, z: nat) {
    && z < 8 && ByteBit(x, z) != ByteBit(y, z)
    && forall k | 0 <= k < z :: ByteBit(x, k) == ByteBit(y, k)
  }

  lemma FirstDifferenceInByte(x: Byte, y: Byte)
    requires x != y
    ensures DifferFirstAt(x, y, LeadingZeros8(XorByte(x, y)))
  {
    XorZero(x, y);
    XorBitsRange(x, y, 8);
    var d := XorByte(x, y);
    var z := LeadingZeros8(d);
    LeadingZerosBits(d, 8, z);
    forall k | 0 <= k <= z ensures ByteBit(x, k) == ByteBit(y, k) <==> k < z {
      XorBit(x, y, k);
      LeadingZerosBits(d, 8, k);
    }
  }

  lemma {:induction false} MoreLeadingZerosIsSmaller(a: nat, b: nat, w: nat)
    requires LeadingZeros(a, w) > LeadingZeros(b, w)
    ensures a < b
  {
    if a > 0 { MoreLeadingZerosIsSmaller(a / 2, b / 2, w - 1); }
  }

  // ---------------------------------------------------------------- prefix length

  /** The first bit at or after `k` in which `a` and `b` differ, or KEY_BITS. */
  function PrefixFrom(a: Id, b: Id, k: nat): (p: nat)
    requires k <= KEY_BITS
    ensures p <= KEY_BITS
    decreases KEY_BITS - k
  {
    if k == KEY_BITS || Bit(a, k) != Bit(b, k) then k else PrefixFrom(a, b, k + 1)
  }

  /** The number of leading bits `a` and `b` share. */
  function PrefixLen(a: Id, b: Id): (p: nat)
    ensures p <= KEY_BITS
  {
    PrefixFrom(a, b, 0)
  }

  lemma {:induction false} PrefixFromSpec(a: Id, b: Id, k: nat)
    requires k <= KEY_BITS
    ensures var p := PrefixFrom(a, b, k);
            && k <= p
            && (forall j | k <= j < p :: Bit(a, j) == Bit(b, j))
            && (p < KEY_BITS ==> Bit(a, p) != Bit(b, p))
    decreases KEY_BITS - k
  {
    if k < KEY_BITS && Bit(a, k) == Bit(b, k) { PrefixFromSpec(a, b, k + 1); }
  }

  /** All bits before the prefix length agree and the bit at it differs; and that determines it. */
  lemma PrefixLenSpec(a: Id, b: Id)
    ensures forall j | 0 <= j < PrefixLen(a, b) :: Bit(a, j) == Bit(b, j)
    ensures PrefixLen(a, b) < KEY_BITS ==> Bit(a, PrefixLen(a, b)) != Bit(b, PrefixLen(a, b))
  {
    PrefixFromSpec(a, b, 0);
  }

  lemma PrefixLenUnique(a: Id, b: Id, p: nat)
    requires p <= KEY_BITS
    requires forall j | 0 <= j < p :: Bit(a, j) == Bit(b, j)
    requires p < KEY_BITS ==> Bit(a, p) != Bit(b, p)
    ensures PrefixLen(a, b) == p
  {
    PrefixLenSpec(a, b);
    var q := PrefixLen(a, b);
    assert p < q ==> Bit(a, p) == Bit(b, p);
    assert q < p ==> Bit(a, q) == Bit(b, q);
  }

  /** If the bytes before `i` agree, so do all bits before `8 * i`. */
  lemma EqualBytesEqualBits(a: Id, b: Id, i: nat, k: nat)
    requires i <= KEY_BYTES && k < 8 * i
    requires forall j | 0 <= j < i :: a[j] == b[j]
    ensures Bit(a, k) == Bit(b, k)
  {
  }

  /** Where the first differing byte is `i`, the prefix ends inside that byte. */
  lemma PrefixEndsInByte(a: Id, b: Id, i: nat)
    requires i < KEY_BYTES
    requires forall j | 0 <= j < i :: a[j] == b[j]
    requires a[i] != b[i]
    ensures PrefixLen(a, b) == 8 * i + LeadingZeros8(XorByte(a[i], b[i]))
  {
    FirstDifferenceInByte(a[i], b[i]);
    PrefixEndsAt(a, b, i, LeadingZeros8(XorByte(a[i], b[i])));
  }

  lemma PrefixEndsAt(a: Id, b: Id, i: nat, z: nat)
    requires i < KEY_BYTES
    requires forall j | 0 <= j < i :: a[j] == b[j]
    requires DifferFirstAt(a[i], b[i], z)
    ensures PrefixLen(a, b) == 8 * i + z
  {
    forall k | 0 <= k < 8 * i + z ensures Bit(a, k) == Bit(b, k) {
      if k < 8 * i {
        EqualBytesEqualBits(a, b, i, k);
      } else {
        BitInByte(a, i, k - 8 * i);
        BitInByte(b, i, k - 8 * i);
      }
    }
    BitInByte(a, i, z);
    BitInByte(b, i, z);
    PrefixLenUnique(a, b, 8 * i + z);
  }

  lemma BitInByte(a: Id, i: nat, k: nat)
    requires i < KEY_BYTES && k < 8
    ensures Bit(a, 8 * i + k) == ByteBit(a[i], k)
  {
  }

  /** The source's `distance`: the loop over bytes computes the first differing bit. */
  method Distance(localID: Id, targetID: Id) returns (pfx: nat)
    ensures pfx == PrefixLen(localID, targetID)
  {
    pfx := 0;
    var i := 0;
    while i < KEY_BYTES
      invariant 0 <= i <= KEY_BYTES
      invariant pfx == 8 * i
      invariant forall j | 0 <= j < i :: localID[j] == targetID[j]
    {
      var d := XorByte(localID[i], targetID[i]);
      XorZero(localID[i], targetID[i]);
      if d == 0 {
        pfx := pfx + 8;
      } else {
        PrefixEndsInByte(localID, targetID, i);
        pfx := pfx + LeadingZeros8(d);
        return;
      }
      i := i + 1;
    }
    forall k | 0 <= k < KEY_BITS ensures Bit(localID, k) == Bit(targetID, k) {
      EqualBytesEqualBits(localID, targetID, KEY_BYTES, k);
    }
    PrefixLenUnique(localID, targetID, KEY_BITS);
  }

  // ---------------------------------------------------------------- the ultrametric

  lemma PrefixLenSymmetric(a: Id, b: Id)
    ensures PrefixLen(a, b) == PrefixLen(b, a)
  {
    PrefixLenSpec(a, b);
    PrefixLenUnique(b, a, PrefixLen(a, b));
  }

  lemma PrefixLenFullIffEqual(a: Id, b: Id)
    ensures PrefixLen(a, b) == KEY_BITS <==> a == b
  {
    if a == b {
      PrefixLenUnique(a, b, KEY_BITS);
    } else {
      var i := FirstDifferentByte(a, b);
      PrefixEndsInByte(a, b, i);
      FirstDifferenceInByte(a[i], b[i]);
    }
  }

  lemma FirstDifferentByte(a: Id, b: Id) returns (i: nat)
    requires a != b
    ensures i < KEY_BYTES && a[i] != b[i]
    ensures forall j | 0 <= j < i :: a[j] == b[j]
  {
    i := 0;
    while a[i] == b[i]
      invariant i < KEY_BYTES
      invariant forall j | 0 <= j < i :: a[j] == b[j]
      decreases KEY_BYTES - i
    {
      assert i == KEY_BYTES - 1 ==> a == b;
      i := i + 1;
    }
  }

  /** Prefix length is an ultrametric, and the inequality is tight when the two legs differ.
      When they are equal and not full, the third side is strictly longer: ids are binary. */
  lemma Ultrametric(a: Id, b: Id, c: Id)
    ensures PrefixLen(a, c) >= Min(PrefixLen(a, b), PrefixLen(b, c))
    ensures PrefixLen(a, b) != PrefixLen(b, c)
            ==> PrefixLen(a, c) == Min(PrefixLen(a, b), PrefixLen(b, c))
    ensures PrefixLen(a, b) == PrefixLen(b, c) < KEY_BITS ==> PrefixLen(a, c) > PrefixLen(a, b)
  {
    PrefixLenSpec(a, b);
    PrefixLenSpec(b, c);
    PrefixLenSpec(a, c);
    var p, q, r := PrefixLen(a, b), PrefixLen(b, c), PrefixLen(a, c);
    var m := Min(p, q);
    assert r < m ==> Bit(a, r) == Bit(b, r) && Bit(b, r) == Bit(c, r);
    assert m < r ==> Bit(a, m) == Bit(c, m);
  }

  function Min(x: int, y: int): int {
    if x <= y then x else y
  }

  // ---------------------------------------------------------------- the XOR metric

  function Xor(a: Id, b: Id): Id {
    seq(KEY_BYTES, i requires 0 <= i < KEY_BYTES => XorByte(a[i], b[i]))
  }

  /** A byte string read as a big-endian integer. */
  function BigEndian(s: Bytes): (n: nat)
    ensures n < Pow256(|s|)
  {
    if s == [] then 0 else BigEndian(s[..|s| - 1]) * 256 + s[|s| - 1]
  }

  function Pow256(n: nat): (p: nat)
    ensures p > 0
  {
    if n == 0 then 1 else 256 * Pow256(n - 1)
  }

  /** A string that is smaller at the first byte where two strings differ is a smaller integer. */
  lemma {:induction false} LexicographicIsNumeric(s: Bytes, t: Bytes, i: nat)
    requires |s| == |t| && i < |s|
    requires s[..i] == t[..i] && s[i] < t[i]
    ensures BigEndian(s) < BigEndian(t)
  {
    var n := |s| - 1;
    if i < n {
      assert s[..n][..i] == s[..i] && t[..n][..i] == t[..i];
      LexicographicIsNumeric(s[..n], t[..n], i);
    } else {
      assert s[..n] == t[..n];
    }
  }

  /** A longer common prefix with `t` means a strictly smaller XOR distance to `t`. */
  lemma PrefixRefinesXor(a: Id, b: Id, t: Id)
    requires PrefixLen(a, t) > PrefixLen(b, t)
    ensures BigEndian(Xor(a, t)) < BigEndian(Xor(b, t))
  {
    PrefixLenFullIffEqual(b, t);
    var i := FirstDifferentByte(b, t);
    PrefixEndsInByte(b, t, i);
    AgreesThroughByte(a, t, i);
    MoreLeadingZerosInByte(a, b, t, i);
    MoreLeadingZerosIsSmaller(XorByte(a[i], t[i]), XorByte(b[i], t[i]), 8);
    XorOfEqualBytes(a, t, i);
    XorOfEqualBytes(b, t, i);
    LexicographicIsNumeric(Xor(a, t), Xor(b, t), i);
  }

  /** Ids sharing more than `8 * i` bits share their first `i` bytes. */
  lemma AgreesThroughByte(a: Id, t: Id, i: nat)
    requires i < KEY_BYTES && PrefixLen(a, t) >= 8 * i
    ensures forall j | 0 <= j < i :: a[j] == t[j]
  {
    if a != t {
      var j := FirstDifferentByte(a, t);
      PrefixEndsInByte(a, t, j);
      FirstDifferenceInByte(a[j], t[j]);
    }
  }

  lemma MoreLeadingZerosInByte(a: Id, b: Id, t: Id, i: nat)
    requires i < KEY_BYTES && b[i] != t[i]
    requires forall j | 0 <= j < i :: a[j] == t[j]
    requires PrefixLen(a, t) > PrefixLen(b, t) == 8 * i + LeadingZeros8(XorByte(b[i], t[i]))
    ensures LeadingZeros8(XorByte(a[i], t[i])) > LeadingZeros8(XorByte(b[i], t[i]))
  {
    FirstDifferenceInByte(b[i], t[i]);
    if a[i] == t[i] {
      XorZero(a[i], t[i]);
    } else {
      PrefixEndsInByte(a, t, i);
    }
  }

  lemma XorOfEqualBytes(a: Id, t: Id, i: nat)
    requires i <= KEY_BYTES
    requires forall j | 0 <= j < i :: a[j] == t[j]
    ensures Xor(a, t)[..i] == seq(i, _ => 0)
  {
    forall j | 0 <= j < i ensures Xor(a, t)[j] == 0 {
      XorZero(a[j], t[j]);
    }
  }
}
