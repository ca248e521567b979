/** The inline field decoders of the BSON iterator (bson/bson-iter.h). They do not validate: the caller guarantees that
 * the field is inside the buffer. */
module Iter {
  import opened MachineInt
  import opened Endian

  /** The part of `bson_iter_t` the decoders use: the document and the offset of the current value. */
  datatype Iterator = Iterator(raw: seq<bv8>, d1: nat)

  predicate Holds(iter: Iterator, size: nat) {
    iter.d1 + size <= |iter.raw|
  }

  class Decimal128 {
    var low: bv64
    var high: bv64
  }

  class TimeVal {
    var tvSec: int
    var tvUsec: int
  }

  // ---------- The decoders ----------

  /** Copying a word into a signed variable of its size keeps the bits, so it reduces the number to the signed range. */
  function Int32Unsafe(order: ByteOrder, iter: Iterator): int
    requires Holds(iter, 4)
  {
    var raw := Load32(order, iter.raw[iter.d1..iter.d1 + 4]);
    var native := Le32(order, raw);
    Wrap(W32, Number32(native))
  }

  function Int64Unsafe(order: ByteOrder, iter: Iterator): int
    requires Holds(iter, 8)
  {
    var raw := Load64(order, iter.raw[iter.d1..iter.d1 + 8]);
    var native := Le64(order, raw);
    Wrap(W64, Number64(native))
  }

  function Utf8LenUnsafe(order: ByteOrder, iter: Iterator): int
    requires Holds(iter, 4)
  {
    var len := Int32Unsafe(order, iter);
    if len <= 0 then 0 else len - 1
  }

  method Decimal128Unsafe(order: ByteOrder, iter: Iterator, dec: Decimal128)
    requires Holds(iter, 16)
    modifies dec
    ensures Number64(dec.low) == LeValue(iter.raw[iter.d1..iter.d1 + 8])
    ensures Number64(dec.high) == LeValue(iter.raw[iter.d1 + 8..iter.d1 + 16])
  {
    var lowLe := Load64(order, iter.raw[iter.d1..iter.d1 + 8]);
    var highLe := Load64(order, iter.raw[iter.d1 + 8..iter.d1 + 16]);
    dec.low := Le64(order, lowLe);
    dec.high := Le64(order, highLe);
    ReadPortably64(order, iter.raw[iter.d1..iter.d1 + 8]);
    ReadPortably64(order, iter.raw[iter.d1 + 8..iter.d1 + 16]);
  }

  /** On Windows the seconds go through a 32-bit `long`; elsewhere `time_t` has 64 bits. */
  function TimevalSeconds(windows: bool, value: int): int {
    if windows then Wrap(W32, TruncDiv(value, 1000)) else TruncDiv(value, 1000)
  }

  function TimeTUnsafe(order: ByteOrder, iter: Iterator): int
    requires Holds(iter, 8)
  {
    TruncDiv(Int64Unsafe(order, iter), 1000)
  }

  // ---------- Integers ----------

  lemma Int32IsSignedValue(order: ByteOrder, iter: Iterator)
    requires Holds(iter, 4)
    ensures Int32Unsafe(order, iter) == Wrap(W32, LeValue(iter.raw[iter.d1..iter.d1 + 4]))
  {
    ReadPortably32(order, iter.raw[iter.d1..iter.d1 + 4]);
  }

  lemma Int64IsSignedValue(order: ByteOrder, iter: Iterator)
    requires Holds(iter, 8)
    ensures Int64Unsafe(order, iter) == Wrap(W64, LeValue(iter.raw[iter.d1..iter.d1 + 8]))
  {
    ReadPortably64(order, iter.raw[iter.d1..iter.d1 + 8]);
  }

  lemma Powers()
    ensures Pow256(4) == Modulus(W32) && Pow256(8) == Modulus(W64)
  {
    assert Pow256(2) == 0x1_0000;
    assert Pow256(3) == 0x100_0000;
    assert Pow256(5) == 0x100_0000_0000;
    assert Pow256(6) == 0x1_0000_0000_0000;
    assert Pow256(7) == 0x100_0000_0000_0000;
  }

  lemma DecodeEncoded(w: Width, n: nat, x: int)
    requires Pow256(n) == Modulus(w)
    ensures Fits(w, x) ==> Wrap(w, LeValue(LeBytes(n, x))) == x
  {
    var q := LeValueOfLeBytes(n, x);
    if Fits(w, x) {
      WrapShift(w, x, -q);
    }
  }

  lemma EncodeDecoded(w: Width, bytes: seq<bv8>)
    requires Pow256(|bytes|) == Modulus(w)
    ensures LeBytes(|bytes|, Wrap(w, LeValue(bytes))) == bytes
  {
    var q := WrapOffset(w, LeValue(bytes));
    assert Wrap(w, LeValue(bytes)) == LeValue(bytes) + -q * Pow256(|bytes|);
    LeBytesOfLeValue(bytes, -q);
  }

  /** Decoding is the inverse of writing a signed number as its little-endian two's complement bytes: in one direction
   * for every number of the type, in the other for every four bytes at the iterator's offset. Both hold under both byte
   * orders. */
  lemma Int32Bijection(order: ByteOrder, iter: Iterator, x: int)
    requires Holds(iter, 4)
    ensures var field, decoded := iter.raw[iter.d1..iter.d1 + 4], Int32Unsafe(order, iter);
            && (Fits(W32, x) && field == LeBytes(4, x) ==> decoded == x)
            && Fits(W32, decoded) && LeBytes(4, decoded) == field
  {
    Int32IsSignedValue(order, iter);
    Powers();
    DecodeEncoded(W32, 4, x);
    EncodeDecoded(W32, iter.raw[iter.d1..iter.d1 + 4]);
  }

  lemma Int64Bijection(order: ByteOrder, iter: Iterator, x: int)
    requires Holds(iter, 8)
    ensures var field, decoded := iter.raw[iter.d1..iter.d1 + 8], Int64Unsafe(order, iter);
            && (Fits(W64, x) && field == LeBytes(8, x) ==> decoded == x)
            && Fits(W64, decoded) && LeBytes(8, decoded) == field
  {
    Int64IsSignedValue(order, iter);
    Powers();
    DecodeEncoded(W64, 8, x);
    EncodeDecoded(W64, iter.raw[iter.d1..iter.d1 + 8]);
  }

  // ---------- Strings ----------

  /** A BSON string stores its length with the terminator; the decoder recovers the length without it for every length
   * the format can store. A stored length that is not positive counts as an empty string, so the result is never
   * negative and always leaves room for the terminator. */
  lemma Utf8LenMeaning(order: ByteOrder, iter: Iterator, length: nat)
    requires Holds(iter, 4)
    ensures var field, decoded := iter.raw[iter.d1..iter.d1 + 4], Utf8LenUnsafe(order, iter);
            && (length < I32_MAX && field == LeBytes(4, length + 1) ==> decoded == length)
            && 0 <= decoded < I32_MAX
            && (decoded > 0 ==> field == LeBytes(4, decoded + 1))
  {
    Int32Bijection(order, iter, length + 1);
  }

  // ---------- Times ----------

  /** Splitting milliseconds loses nothing where `time_t` has 64 bits. On Windows that holds exactly while the whole
   * seconds fit 32 bits, that is within about 68 years of the epoch. In every case the microseconds are a whole number
   * of milliseconds, less than a second, on the same side of zero as the value. Where the seconds do not fit, Windows
   * keeps their low 32 bits, as a signed number. */
  lemma TimevalSplit(windows: bool, value: int)
    ensures var usec := TruncMod(value, 1000) * 1000;
            && (TimevalSeconds(windows, value) * 1_000_000 + usec == value * 1000
                <==> !windows || -2_147_483_648_999 <= value <= 2_147_483_647_999)
            && -1_000_000 < usec < 1_000_000 && usec % 1000 == 0
            && (value > 0 ==> usec >= 0) && (value < 0 ==> usec <= 0)
    ensures Fits(W32, TimevalSeconds(true, value))
    ensures (TimevalSeconds(false, value) - TimevalSeconds(true, value)) % 0x1_0000_0000 == 0
  {
    TruncDivBounds(value, 1000);
    var seconds := TruncDiv(value, 1000);
    assert Fits(W32, seconds) <==> -2_147_483_648_999 <= value <= 2_147_483_647_999;
    assert Wrap(W32, seconds) == seconds <==> Fits(W32, seconds);
  }

  method TimevalUnsafe(windows: bool, order: ByteOrder, iter: Iterator, tv: TimeVal)
    requires Holds(iter, 8)
    modifies tv
    ensures tv.tvSec == TimevalSeconds(windows, Int64Unsafe(order, iter))
    ensures tv.tvUsec == TruncMod(Int64Unsafe(order, iter), 1000) * 1000
    ensures var value := Int64Unsafe(order, iter);
            && (tv.tvSec * 1_000_000 + tv.tvUsec == value * 1000
                <==> !windows || -2_147_483_648_999 <= value <= 2_147_483_647_999)
            && -1_000_000 < tv.tvUsec < 1_000_000 && tv.tvUsec % 1000 == 0
            && (value > 0 ==> tv.tvUsec >= 0) && (value < 0 ==> tv.tvUsec <= 0)
    ensures windows ==>
              Fits(W32, tv.tvSec) && (TimeTUnsafe(order, iter) - tv.tvSec) % 0x1_0000_0000 == 0
  {
    var value := Int64Unsafe(order, iter);
    if windows {
      tv.tvSec := Wrap(W32, TruncDiv(value, 1000));
    } else {
      tv.tvSec := TruncDiv(value, 1000);
    }
    tv.tvUsec := TruncMod(value, 1000) * 1000;
    TimevalSplit(windows, value);
  }

  /** The two time decoders agree on the seconds, except on Windows outside the 32-bit range. */
  lemma TimeDecodersAgree(windows: bool, order: ByteOrder, iter: Iterator)
    requires Holds(iter, 8)
    ensures TimeTUnsafe(order, iter) == TimevalSeconds(windows, Int64Unsafe(order, iter))
       <==> !windows || Fits(W32, TimeTUnsafe(order, iter))
  {
  }
}
