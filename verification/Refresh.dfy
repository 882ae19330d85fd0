/**
  The ids a bucket refresh looks up.
 */
module Refresh {
  import opened Ids
  import opened Tables

  lemma {:induction false} PowerBit(w: nat, k: nat, i: nat)
    requires k < w && i < w
    ensures BitAt(Pow2(w - 1 - k), w, i) <==> i == k
  {
    if k < w - 1 {
      assert Pow2(w - 1 - k) == 2 * Pow2(w - 2 - k);
      if i < w - 1 { PowerBit(w - 1, k, i); }
    } else if i < w - 1 {
      ZeroBit(w - 1, i);
    }
  }

  lemma {:induction false} ZeroBit(w: nat, i: nat)
    ensures !BitAt(0, w, i)
  {
    if i < w - 1 { ZeroBit(w - 1, i); }
  }

  lemma {:induction false} Pow2Grows(k: nat, w: nat)
    requires k <= w
    ensures Pow2(k) <= Pow2(w)
  {
    if k < w { Pow2Grows(k, w - 1); }
  }

  /** `1 << (7 - bit)` */
  function FlipMask(bit: nat): Byte
    requires bit < 8
  {
    Pow2Grows(7 - bit, 7);
    XorBitsRange(0, 0, 8);
    Pow2(7 - bit)
  }

  /** Flipping one bit of a byte makes that the first difference. */
  lemma FlipDiffersAt(x: Byte, bit: nat)
    requires bit < 8
    ensures DifferFirstAt(x, XorByte(x, FlipMask(bit)), bit)
  {
    forall k | 0 <= k < 8 ensures ByteBit(XorByte(x, FlipMask(bit)), k) == ByteBit(x, k) <==> k != bit {
      XorBit(x, FlipMask(bit), k);
      PowerBit(8, bit, k);
    }
  }

  /** The source's `generateRandomIDInBucket`: the local id with one bit flipped and every
      byte after that one random. It shares exactly `bucketIndex` leading bits with the local id. */
  method GenerateRandomIDInBucket(local: Id, bucketIndex: nat, random: seq<Byte>) returns (r: Id)
    requires bucketIndex < KEY_BITS && |random| == KEY_BYTES
    ensures PrefixLen(local, r) == bucketIndex
    ensures forall i | bucketIndex / 8 < i < KEY_BYTES :: r[i] == random[i]
  {
    var id := new Byte[KEY_BYTES](i requires 0 <= i < KEY_BYTES => local[i]);
    var byteIndex := bucketIndex / 8;
    var bitIndex := bucketIndex % 8;
    id[byteIndex] := XorByte(id[byteIndex], FlipMask(bitIndex));
    var i := byteIndex + 1;
    while i < KEY_BYTES
      invariant byteIndex < i <= KEY_BYTES
      invariant forall j | 0 <= j < byteIndex :: id[j] == local[j]
      invariant id[byteIndex] == XorByte(local[byteIndex], FlipMask(bitIndex))
      invariant forall j | byteIndex < j < i :: id[j] == random[j]
    {
      id[i] := random[i];
      i := i + 1;
    }
    r := id[..];
    FlipDiffersAt(local[byteIndex], bitIndex);
    PrefixEndsAt(local, r, byteIndex, bitIndex);
  }

  /** So a refresh of a bucket never looks up an id of that bucket: the id belongs to the
      mirrored one, and no bucket is its own mirror image. */
  lemma RefreshMissesItsBucket(local: Id, bucketIndex: nat, r: Id)
    requires bucketIndex < KEY_BITS && PrefixLen(local, r) == bucketIndex
    ensures BucketId(local, r) == KEY_BITS - 1 - bucketIndex
    ensures BucketId(local, r) != bucketIndex
  {
  }

  /** Every bucket has an id that belongs to it. */
  lemma BucketInhabited(local: Id, b: nat) returns (id: Id)
    requires b < KEY_BITS
    ensures BucketId(local, id) == b
  {
    var k := KEY_BITS - 1 - b;
    id := local[k / 8 := XorByte(local[k / 8], FlipMask(k % 8))];
    FlipDiffersAt(local[k / 8], k % 8);
    PrefixEndsAt(local, id, k / 8, k % 8);
  }
}
