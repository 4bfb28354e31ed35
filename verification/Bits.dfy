// Single bits of bytes, and bitmaps held in byte arrays.

module Bits {

  /** `b & (1 << o)`, the same test as `(b >> o) & 1`. */
  predicate Bit(b: bv8, o: nat)
    requires o < 8
  {
    b & ((1 as bv8) << o) != 0
  }

  /** Bit k of a bitmap. */
  predicate BitOf(bs: seq<bv8>, k: nat)
    requires k / 8 < |bs|
  {
    Bit(bs[k / 8], k % 8)
  }

  lemma Shifted(b: bv8, o: nat)
    requires o < 8
    ensures ((b >> o) & 1 != 0) == Bit(b, o)
  {
    EachBit(o);
  }

  lemma EachBit(o: nat)
    requires o < 8
    ensures o == 0 || o == 1 || o == 2 || o == 3 || o == 4 || o == 5 || o == 6 || o == 7
  {
  }

  lemma SetBit(b: bv8, o: nat, p: nat)
    requires o < 8 && p < 8
    ensures Bit(b | ((1 as bv8) << o), p) <==> p == o || Bit(b, p)
  {
    EachBit(o);
    EachBit(p);
  }

  lemma NoBits(p: nat)
    requires p < 8
    ensures !Bit(0, p)
  {
    EachBit(p);
  }

  lemma AllBits(b: bv8, p: nat)
    requires p < 8 && b == 0xFF
    ensures Bit(b, p)
  {
    EachBit(p);
  }

  /** The bitmap with bit k set. */
  function SetIn(bs: seq<bv8>, k: nat): seq<bv8>
    requires k / 8 < |bs|
  {
    bs[k / 8 := bs[k / 8] | ((1 as bv8) << (k % 8))]
  }

  lemma SetInBits(bs: seq<bv8>, k: nat, p: nat)
    requires k / 8 < |bs| && p / 8 < |bs|
    ensures BitOf(SetIn(bs, k), p) <==> p == k || BitOf(bs, p)
  {
    SetBit(bs[k / 8], k % 8, p % 8);
  }
}
