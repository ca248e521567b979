/** Rounding up to a power of two on a 64-bit word (bson/bson-types.h). */
module BsonTypes {
  import Endian

  const TOP_BIT: bv64 := 0x8000_0000_0000_0000

  function Bit(k: bv64): bv64
    requires k < 64
  {
    1 << k
  }

  function Bit32(k: bv32): bv32
    requires k < 32
  {
    1 << k
  }

  ghost predicate PowerOfTwo(x: bv64) {
    exists k: bv64 :: k < 64 && x == Bit(k)
  }

  /** `r` is the smallest power of two that is not below `v`. */
  ghost predicate LeastPowerOfTwo(r: bv64, v: bv64) {
    && PowerOfTwo(r) && v <= r
    && forall k: bv64 :: k < 64 && v <= Bit(k) ==> r <= Bit(k)
  }

  /** `r` is what rounding `v` up has to give: zero stands for a power that the word cannot hold. */
  ghost predicate Rounded(r: bv64, v: bv64) {
    if 1 <= v <= TOP_BIT then LeastPowerOfTwo(r, v) else r == 0
  }

  // The assignments `v |= v >> k` of the source.
  function Smear1(v: bv64): bv64 { v | (v >> 1) }

  function Smear2(v: bv64): bv64 { v | (v >> 2) }

  function Smear4(v: bv64): bv64 { v | (v >> 4) }

  function Smear8(v: bv64): bv64 { v | (v >> 8) }

  function Smear16(v: bv64): bv64 { v | (v >> 16) }

  function Smear32(v: bv64): bv64 { v | (v >> 32) }

  /** Copies every set bit of `u` into all lower positions. */
  function Smear(u: bv64): bv64 {
    Smear32(Smear16(Smear8(Smear4(Smear2(Smear1(u))))))
  }

  function RoundUp(v: bv64): bv64 {
    Smear(v - 1) + 1
  }

  predicate IsPowerOfTwo(v: bv32) {
    v != 0 && (v & (v - 1)) == 0
  }

  // ---------- Single bits ----------

  /** A word with exactly one bit set shares none with its predecessor. */
  predicate SingleBit(x: bv64) {
    x != 0 && x & (x - 1) == 0
  }

  lemma BitIsSingle(k: bv64)
    requires k < 64
    ensures SingleBit(Bit(k))
  {
  }

  /** Conversely the index of a single bit is found by binary search. */
  lemma IndexOfSingleBit(x: bv64) returns (k: bv64)
    requires SingleBit(x)
    ensures k < 64 && x == Bit(k)
  {
    k := (if x & 0xffff_ffff_0000_0000 != 0 then 32 else 0)
         | (if x & 0xffff_0000_ffff_0000 != 0 then 16 else 0)
         | (if x & 0xff00_ff00_ff00_ff00 != 0 then 8 else 0)
         | (if x & 0xf0f0_f0f0_f0f0_f0f0 != 0 then 4 else 0)
         | (if x & 0xcccc_cccc_cccc_cccc != 0 then 2 else 0)
         | (if x & 0xaaaa_aaaa_aaaa_aaaa != 0 then 1 else 0);
  }

  lemma SingleBitExact(x: bv64)
    ensures SingleBit(x) <==> PowerOfTwo(x)
  {
    if SingleBit(x) {
      var _ := IndexOfSingleBit(x);
    }
    if PowerOfTwo(x) {
      var k: bv64 :| k < 64 && x == Bit(k);
      BitIsSingle(k);
    }
  }

  lemma Bit32IsSingle(k: bv32)
    requires k < 32
    ensures IsPowerOfTwo(Bit32(k))
  {
  }

  lemma IndexOfSingleBit32(x: bv32) returns (k: bv32)
    requires IsPowerOfTwo(x)
    ensures k < 32 && x == Bit32(k)
  {
    k := (if x & 0xffff_0000 != 0 then 16 else 0)
         | (if x & 0xff00_ff00 != 0 then 8 else 0)
         | (if x & 0xf0f0_f0f0 != 0 then 4 else 0)
         | (if x & 0xcccc_cccc != 0 then 2 else 0)
         | (if x & 0xaaaa_aaaa != 0 then 1 else 0);
  }

  /** The test accepts exactly the 32-bit powers of two. */
  lemma IsPowerOfTwoExact(v: bv32)
    ensures IsPowerOfTwo(v) <==> exists k: bv32 :: k < 32 && v == Bit32(k)
  {
    if IsPowerOfTwo(v) {
      var _ := IndexOfSingleBit32(v);
    }
    if k: bv32 :| k < 32 && v == Bit32(k) {
      Bit32IsSingle(k);
    }
  }

  // ---------- Smearing ----------

  lemma SmearFills(u: bv64)
    ensures Smear(u) == Smear(u) | (Smear(u) >> 1)
  {
  }

  /** The successor of a word whose set bits are its lowest ones is a single bit. */
  lemma SuccessorSingle(w: bv64)
    requires w == w | (w >> 1) && w + 1 != 0
    ensures SingleBit(w + 1)
  {
  }

  lemma SmearOfSmall(v: bv64)
    requires 1 <= v <= TOP_BIT
    ensures Smear(v - 1) + 1 != 0 && v <= Smear(v - 1) + 1
  {
  }

  lemma SmearOfLarge(v: bv64)
    requires v == 0 || v > TOP_BIT
    ensures Smear(v - 1) + 1 == 0
  {
  }

  lemma PredecessorClear(v: bv64, p: bv64)
    requires SingleBit(p) && 1 <= v <= p
    ensures (v - 1) & p == 0
  {
  }

  lemma SmearStaysBelow(v: bv64, p: bv64)
    requires SingleBit(p) && 1 <= v <= p && (v - 1) & p == 0
    ensures Smear(v - 1) + 1 <= p
  {
  }

  lemma RoundUpAtMost(v: bv64, p: bv64)
    requires SingleBit(p) && 1 <= v <= p
    ensures RoundUp(v) <= p
  {
    PredecessorClear(v, p);
    SmearStaysBelow(v, p);
  }

  lemma RoundUpSingle(v: bv64)
    requires 1 <= v <= TOP_BIT
    ensures SingleBit(RoundUp(v)) && v <= RoundUp(v)
  {
    SmearOfSmall(v);
    SmearFills(v - 1);
    SuccessorSingle(Smear(v - 1));
  }

  lemma RoundUpLeast(v: bv64)
    requires 1 <= v <= TOP_BIT
    ensures LeastPowerOfTwo(RoundUp(v), v)
  {
    RoundUpSingle(v);
    SingleBitExact(RoundUp(v));
    forall k: bv64 | k < 64 && v <= Bit(k)
      ensures RoundUp(v) <= Bit(k)
    {
      BitIsSingle(k);
      RoundUpAtMost(v, Bit(k));
    }
  }

  /** Rounding gives the least power of two not below the argument, or zero when the word has none. */
  lemma RoundUpMeaning(v: bv64)
    ensures Rounded(RoundUp(v), v)
  {
    if 1 <= v <= TOP_BIT {
      RoundUpLeast(v);
    } else {
      SmearOfLarge(v);
    }
  }

  /** The update in place, one assignment a line as in the source. */
  method NextPowerOfTwo(size: bv64) returns (v: bv64)
    ensures v == RoundUp(size)
    ensures Rounded(v, size)
  {
    v := size - 1;
    v := v | (v >> 1);
    v := v | (v >> 2);
    v := v | (v >> 4);
    v := v | (v >> 8);
    v := v | (v >> 16);
    v := v | (v >> 32);
    v := v + 1;
    RoundUpMeaning(size);
  }

  // ---------- What follows for callers ----------

  lemma AtMostSingle(u: bv64, v: bv64, p: bv64)
    requires SingleBit(p) && u <= v <= p
    ensures u <= p
  {
  }

  lemma HalfOfSingle(p: bv64)
    requires SingleBit(p)
    ensures p >> 1 < p && (p >> 1 == 0 || SingleBit(p >> 1)) && p <= TOP_BIT
  {
  }

  lemma RoundUpMonotoneAboveZero(u: bv64, v: bv64)
    requires 1 <= u <= v <= TOP_BIT
    ensures RoundUp(u) <= RoundUp(v)
  {
    RoundUpSingle(v);
    AtMostSingle(u, v, RoundUp(v));
    RoundUpAtMost(u, RoundUp(v));
  }

  lemma RoundUpOfZero()
    ensures RoundUp(0) == 0
  {
  }

  lemma RoundUpMonotone(u: bv64, v: bv64)
    requires u <= v <= TOP_BIT
    ensures RoundUp(u) <= RoundUp(v)
  {
    if u == 0 {
      RoundUpOfZero();
    } else {
      RoundUpMonotoneAboveZero(u, v);
    }
  }

  lemma RoundUpOfSingle(p: bv64)
    requires SingleBit(p)
    ensures RoundUp(p) == p
  {
    HalfOfSingle(p);
    RoundUpSingle(p);
    RoundUpAtMost(p, p);
  }

  lemma RoundUpFixed(v: bv64)
    requires 1 <= v <= TOP_BIT
    ensures RoundUp(v) == v <==> PowerOfTwo(v)
    ensures RoundUp(RoundUp(v)) == RoundUp(v)
  {
    RoundUpSingle(v);
    SingleBitExact(v);
    RoundUpOfSingle(RoundUp(v));
    if SingleBit(v) {
      RoundUpOfSingle(v);
    }
  }

  lemma RoundUpLessThanDouble(v: bv64)
    requires 1 <= v <= TOP_BIT
    ensures RoundUp(v) >> 1 < v
  {
    RoundUpSingle(v);
    var r := RoundUp(v);
    var half := r >> 1;
    HalfOfSingle(r);
    if v <= half {
      RoundUpAtMost(v, half);
    }
  }

  /** The 32-bit test accepts a rounded value exactly for arguments from 1 to 2^31: above that the set bit is cut
   * off, or rounding already gave zero. */
  lemma RoundUpAcceptedIff(v: bv64)
    ensures IsPowerOfTwo(Endian.Low(RoundUp(v))) <==> 1 <= v <= 0x8000_0000
  {
  }
}
