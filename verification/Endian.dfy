/** Byte order: the fallback swaps, the conversion macros under both configurations, and native loads and stores
 * (bson/bson-endian.h). A native load is what `memcpy` into an integer variable does. */
module Endian {

  datatype ByteOrder = LittleEndian | BigEndian

  // ---------- Numbers as byte strings ----------

  /** The number whose base-256 digits are `bytes`, least significant first. */
  function LeValue(bytes: seq<bv8>): nat {
    if bytes == [] then 0 else bytes[0] as nat + 0x100 * LeValue(bytes[1..])
  }

  /** The number whose base-256 digits are `bytes`, most significant first. */
  function BeValue(bytes: seq<bv8>): nat {
    if bytes == [] then 0 else 0x100 * BeValue(bytes[..|bytes| - 1]) + bytes[|bytes| - 1] as nat
  }

  function Reversed(bytes: seq<bv8>): (r: seq<bv8>)
    ensures |r| == |bytes|
    ensures forall i :: 0 <= i < |bytes| ==> r[i] == bytes[|bytes| - 1 - i]
  {
    if bytes == [] then [] else [bytes[|bytes| - 1]] + Reversed(bytes[..|bytes| - 1])
  }

  lemma {:induction false} BeIsLeReversed(bytes: seq<bv8>)
    ensures BeValue(bytes) == LeValue(Reversed(bytes))
  {
    if bytes != [] {
      BeIsLeReversed(bytes[..|bytes| - 1]);
      assert Reversed(bytes)[1..] == Reversed(bytes[..|bytes| - 1]);
    }
  }

  function Nibbles(high: bv4, low: bv4): bv8 {
    (low as bv8) | ((high as bv8) << 4)
  }

  /** The byte with value `x`. */
  function ByteOf(x: int): bv8
    requires 0 <= x < 0x100
  {
    Nibbles((x / 0x10) as bv4, (x % 0x10) as bv4)
  }

  lemma NibbleValue(x: int)
    requires 0 <= x < 0x10
    ensures (x as bv4) as int == x
  {
  }

  lemma NibblesValue(high: bv4, low: bv4)
    ensures Nibbles(high, low) as int == 0x10 * (high as int) + low as int
  {
  }

  lemma SameByte(a: bv8, b: bv8)
    requires a as int == b as int
    ensures a == b
  {
  }

  lemma ByteOfValue(x: int)
    requires 0 <= x < 0x100
    ensures ByteOf(x) as int == x
  {
    NibbleValue(x / 0x10);
    NibbleValue(x % 0x10);
    NibblesValue((x / 0x10) as bv4, (x % 0x10) as bv4);
  }

  lemma ValueOfByte(b: bv8)
    ensures 0 <= b as int < 0x100 && ByteOf(b as int) == b
  {
    ByteOfValue(b as int);
    SameByte(ByteOf(b as int), b);
  }

  /** The `n` low base-256 digits of `x`, least significant first; of a negative `x`, its two's complement. */
  function LeBytes(n: nat, x: int): (bytes: seq<bv8>)
    ensures |bytes| == n
  {
    if n == 0 then [] else [ByteOf(x % 0x100)] + LeBytes(n - 1, x / 0x100)
  }

  function Pow256(n: nat): (p: nat)
    ensures p > 0
  {
    if n == 0 then 1 else 0x100 * Pow256(n - 1)
  }

  lemma {:induction false} LeValueBound(bytes: seq<bv8>)
    ensures LeValue(bytes) < Pow256(|bytes|)
  {
    if bytes != [] {
      LeValueBound(bytes[1..]);
    }
  }

  lemma MulPow(q: int, n: nat)
    requires n > 0
    ensures q * Pow256(n) == 0x100 * (q * Pow256(n - 1))
  {
  }

  lemma LeValueCons(b: bv8, rest: seq<bv8>)
    ensures LeValue([b] + rest) == b as nat + 0x100 * LeValue(rest)
  {
    assert ([b] + rest)[1..] == rest;
  }

  /** The number a digit string was taken from is its value, up to a multiple of the power of 256. */
  lemma {:induction false} LeValueOfLeBytes(n: nat, x: int) returns (q: int)
    ensures x == LeValue(LeBytes(n, x)) + q * Pow256(n)
  {
    if n == 0 {
      q := x;
    } else {
      ByteOfValue(x % 0x100);
      LeValueCons(ByteOf(x % 0x100), LeBytes(n - 1, x / 0x100));
      q := LeValueOfLeBytes(n - 1, x / 0x100);
      MulPow(q, n);
    }
  }

  lemma LeBytesStep(n: nat, b: bv8, tail: int)
    ensures LeBytes(n + 1, b as int + 0x100 * tail) == [b] + LeBytes(n, tail)
  {
    ValueOfByte(b);
    var x := b as int + 0x100 * tail;
    assert x % 0x100 == b as int && x / 0x100 == tail;
  }

  /** The value of a digit string, and anything that differs from it by such a multiple, gives back the digits. */
  lemma {:induction false} LeBytesOfLeValue(bytes: seq<bv8>, q: int)
    ensures LeBytes(|bytes|, LeValue(bytes) + q * Pow256(|bytes|)) == bytes
  {
    if bytes != [] {
      var n, rest := |bytes| - 1, bytes[1..];
      MulPow(q, n + 1);
      LeBytesOfLeValue(rest, q);
      LeBytesStep(n, bytes[0], LeValue(rest) + q * Pow256(n));
      assert bytes == [bytes[0]] + rest;
    }
  }

  // ---------- Words as digit strings ----------

  function Word16(a: bv8, b: bv8): bv16 {
    (a as bv16) | ((b as bv16) << 8)
  }

  function Word32(a: bv8, b: bv8, c: bv8, d: bv8): bv32 {
    (a as bv32) | ((b as bv32) << 8) | ((c as bv32) << 16) | ((d as bv32) << 24)
  }

  function Word64(low: bv32, high: bv32): bv64 {
    (low as bv64) | ((high as bv64) << 32)
  }

  function Low(v: bv64): bv32 {
    (v & 0xffff_ffff) as bv32
  }

  function High(v: bv64): bv32 {
    (v >> 32) as bv32
  }

  /** The base-256 digits of a word, least significant first. */
  function Digits16(v: bv16): (digits: seq<bv8>)
    ensures |digits| == 2
  {
    [(v & 0xff) as bv8, (v >> 8) as bv8]
  }

  function Digits32(v: bv32): (digits: seq<bv8>)
    ensures |digits| == 4
  {
    [(v & 0xff) as bv8, ((v >> 8) & 0xff) as bv8, ((v >> 16) & 0xff) as bv8, ((v >> 24) & 0xff) as bv8]
  }

  function Digits64(v: bv64): (digits: seq<bv8>)
    ensures |digits| == 8
  {
    Digits32(Low(v)) + Digits32(High(v))
  }

  /** The unsigned number a word denotes. */
  function Number16(v: bv16): nat {
    LeValue(Digits16(v))
  }

  function Number32(v: bv32): nat {
    LeValue(Digits32(v))
  }

  function Number64(v: bv64): nat {
    LeValue(Digits64(v))
  }

  // ---------- Native loads ----------

  function Load16(order: ByteOrder, mem: seq<bv8>): bv16
    requires |mem| == 2
  {
    match order
    case LittleEndian => Word16(mem[0], mem[1])
    case BigEndian => Word16(mem[1], mem[0])
  }

  function Load32(order: ByteOrder, mem: seq<bv8>): bv32
    requires |mem| == 4
  {
    match order
    case LittleEndian => Word32(mem[0], mem[1], mem[2], mem[3])
    case BigEndian => Word32(mem[3], mem[2], mem[1], mem[0])
  }

  function Load64(order: ByteOrder, mem: seq<bv8>): bv64
    requires |mem| == 8
  {
    match order
    case LittleEndian => Word64(Load32(order, mem[..4]), Load32(order, mem[4..]))
    case BigEndian => Word64(Load32(order, mem[4..]), Load32(order, mem[..4]))
  }

  // ---------- The fallback swaps ----------

  function Swap16(v: bv16): bv16 {
    ((v & 0x00ff) << 8) | ((v & 0xff00) >> 8)
  }

  function Swap32(v: bv32): bv32 {
    ((v & 0x0000_00ff) << 24) | ((v & 0x0000_ff00) << 8) | ((v & 0x00ff_0000) >> 8) | ((v & 0xff00_0000) >> 24)
  }

  function Swap64(v: bv64): bv64 {
    ((v & 0x0000_0000_0000_00ff) << 56) | ((v & 0x0000_0000_0000_ff00) << 40)
    | ((v & 0x0000_0000_00ff_0000) << 24) | ((v & 0x0000_0000_ff00_0000) << 8)
    | ((v & 0x0000_00ff_0000_0000) >> 8) | ((v & 0x0000_ff00_0000_0000) >> 24)
    | ((v & 0x00ff_0000_0000_0000) >> 40) | ((v & 0xff00_0000_0000_0000) >> 56)
  }

  // ---------- The conversion macros; each TO form is defined as its FROM form is ----------

  function Le16(order: ByteOrder, v: bv16): bv16 {
    if order == LittleEndian then v else Swap16(v)
  }

  function Be16(order: ByteOrder, v: bv16): bv16 {
    if order == LittleEndian then Swap16(v) else v
  }

  function Le32(order: ByteOrder, v: bv32): bv32 {
    if order == LittleEndian then v else Swap32(v)
  }

  function Be32(order: ByteOrder, v: bv32): bv32 {
    if order == LittleEndian then Swap32(v) else v
  }

  function Le64(order: ByteOrder, v: bv64): bv64 {
    if order == LittleEndian then v else Swap64(v)
  }

  function Be64(order: ByteOrder, v: bv64): bv64 {
    if order == LittleEndian then Swap64(v) else v
  }

  // ---------- Loads and digits ----------

  lemma WordDigits32(a: bv8, b: bv8, c: bv8, d: bv8)
    ensures Digits32(Word32(a, b, c, d)) == [a, b, c, d]
  {
  }

  lemma WordHalves64(low: bv32, high: bv32)
    ensures Low(Word64(low, high)) == low && High(Word64(low, high)) == high
  {
  }

  lemma WordDigits16(a: bv8, b: bv8)
    ensures Digits16(Word16(a, b)) == [a, b]
  {
  }

  lemma ReversedTwo(mem: seq<bv8>)
    requires |mem| == 2
    ensures [mem[0], mem[1]] == mem && [mem[1], mem[0]] == Reversed(mem)
  {
  }

  lemma LoadDigits16(mem: seq<bv8>)
    requires |mem| == 2
    ensures Digits16(Load16(LittleEndian, mem)) == mem
    ensures Digits16(Load16(BigEndian, mem)) == Reversed(mem)
  {
    WordDigits16(mem[0], mem[1]);
    WordDigits16(mem[1], mem[0]);
    ReversedTwo(mem);
  }

  lemma ReversedFour(mem: seq<bv8>)
    requires |mem| == 4
    ensures [mem[0], mem[1], mem[2], mem[3]] == mem && [mem[3], mem[2], mem[1], mem[0]] == Reversed(mem)
  {
    var r := Reversed(mem);
    assert r[0] == mem[3] && r[1] == mem[2] && r[2] == mem[1] && r[3] == mem[0];
  }

  lemma ReversedConcat(xs: seq<bv8>, ys: seq<bv8>)
    ensures Reversed(xs + ys) == Reversed(ys) + Reversed(xs)
  {
  }

  /** A little-endian load has the bytes as its digits, a big-endian one has them in reverse. */
  lemma LoadDigits32(mem: seq<bv8>)
    requires |mem| == 4
    ensures Digits32(Load32(LittleEndian, mem)) == mem
    ensures Digits32(Load32(BigEndian, mem)) == Reversed(mem)
  {
    WordDigits32(mem[0], mem[1], mem[2], mem[3]);
    WordDigits32(mem[3], mem[2], mem[1], mem[0]);
    ReversedFour(mem);
  }

  lemma LoadDigits64(mem: seq<bv8>)
    requires |mem| == 8
    ensures Digits64(Load64(LittleEndian, mem)) == mem
    ensures Digits64(Load64(BigEndian, mem)) == Reversed(mem)
  {
    var first, last := mem[..4], mem[4..];
    LoadDigits32(first);
    LoadDigits32(last);
    WordHalves64(Load32(LittleEndian, first), Load32(LittleEndian, last));
    WordHalves64(Load32(BigEndian, last), Load32(BigEndian, first));
    ReversedConcat(first, last);
    assert mem == first + last;
  }

  // ---------- What the swaps do ----------

  lemma SwapWord32(v: bv32)
    ensures Swap32(v) == Word32(((v >> 24) & 0xff) as bv8, ((v >> 16) & 0xff) as bv8, ((v >> 8) & 0xff) as bv8,
                                (v & 0xff) as bv8)
  {
  }

  /** The 64-bit swap exchanges the 32-bit halves and swaps each. */
  lemma Swap64Halves(v: bv64)
    ensures Swap64(v) == Word64(Swap32(High(v)), Swap32(Low(v)))
  {
  }

  lemma SwapWord16(v: bv16)
    ensures Swap16(v) == Word16((v >> 8) as bv8, (v & 0xff) as bv8)
  {
  }

  lemma SwapReverses16(v: bv16)
    ensures Digits16(Swap16(v)) == Reversed(Digits16(v))
  {
    SwapWord16(v);
    var ds := Digits16(v);
    WordDigits16(ds[1], ds[0]);
    ReversedTwo(ds);
  }

  lemma SwapReverses32(v: bv32)
    ensures Digits32(Swap32(v)) == Reversed(Digits32(v))
  {
    SwapWord32(v);
    var ds := Digits32(v);
    WordDigits32(ds[3], ds[2], ds[1], ds[0]);
    ReversedFour(ds);
  }

  /** A swap reverses the digits, so as a number it is what the bytes mean in the other order. */
  lemma SwapReverses64(v: bv64)
    ensures Digits64(Swap64(v)) == Reversed(Digits64(v))
    ensures Number64(Swap64(v)) == BeValue(Digits64(v))
  {
    Swap64Halves(v);
    WordHalves64(Swap32(High(v)), Swap32(Low(v)));
    SwapReverses32(Low(v));
    SwapReverses32(High(v));
    ReversedConcat(Digits32(Low(v)), Digits32(High(v)));
    BeIsLeReversed(Digits64(v));
  }

  lemma Swap16Twice(v: bv16)
    ensures Swap16(Swap16(v)) == v
  {
  }

  lemma Swap32Twice(v: bv32)
    ensures Swap32(Swap32(v)) == v
  {
  }

  lemma WordOfHalves(v: bv64)
    ensures Word64(Low(v), High(v)) == v
  {
  }

  lemma Swap64Twice(v: bv64)
    ensures Swap64(Swap64(v)) == v
  {
    Swap64Halves(v);
    WordHalves64(Swap32(High(v)), Swap32(Low(v)));
    Swap64Halves(Swap64(v));
    Swap32Twice(Low(v));
    Swap32Twice(High(v));
    WordOfHalves(v);
  }

  /** Converting to an external order and back changes nothing, under both configurations. */
  lemma ConversionsRoundTrip(order: ByteOrder, v: bv16, w: bv32, x: bv64)
    ensures Le16(order, Le16(order, v)) == v && Be16(order, Be16(order, v)) == v
    ensures Le32(order, Le32(order, w)) == w && Be32(order, Be32(order, w)) == w
    ensures Le64(order, Le64(order, x)) == x && Be64(order, Be64(order, x)) == x
  {
    Swap16Twice(v);
    Swap32Twice(w);
    Swap64Twice(x);
  }

  // ---------- Portable reads ----------

  lemma {:induction false} ReversedTwice(bytes: seq<bv8>)
    ensures Reversed(Reversed(bytes)) == bytes
  {
  }

  lemma ReadPortably16(order: ByteOrder, mem: seq<bv8>)
    requires |mem| == 2
    ensures Number16(Le16(order, Load16(order, mem))) == LeValue(mem)
    ensures Number16(Be16(order, Load16(order, mem))) == BeValue(mem)
  {
    LoadDigits16(mem);
    SwapReverses16(Load16(order, mem));
    ReversedTwice(mem);
    BeIsLeReversed(mem);
  }

  /** Loading natively and converting from an external order reads the bytes in that order: the number is the same
   * whichever byte order the program is compiled for. */
  lemma ReadPortably32(order: ByteOrder, mem: seq<bv8>)
    requires |mem| == 4
    ensures Number32(Le32(order, Load32(order, mem))) == LeValue(mem)
    ensures Number32(Be32(order, Load32(order, mem))) == BeValue(mem)
  {
    LoadDigits32(mem);
    SwapReverses32(Load32(order, mem));
    ReversedTwice(mem);
    BeIsLeReversed(mem);
  }

  lemma ReadPortably64(order: ByteOrder, mem: seq<bv8>)
    requires |mem| == 8
    ensures Number64(Le64(order, Load64(order, mem))) == LeValue(mem)
    ensures Number64(Be64(order, Load64(order, mem))) == BeValue(mem)
  {
    LoadDigits64(mem);
    SwapReverses64(Load64(order, mem));
    ReversedTwice(mem);
    BeIsLeReversed(mem);
  }

  lemma LoadOfDigits16(v: bv16)
    ensures Load16(LittleEndian, Digits16(v)) == v
  {
  }

  lemma LoadOfDigits32(v: bv32)
    ensures Load32(LittleEndian, Digits32(v)) == v
  {
  }

  lemma LoadOfDigits64(v: bv64)
    ensures Load64(LittleEndian, Digits64(v)) == v
  {
    LoadOfDigits32(Low(v));
    LoadOfDigits32(High(v));
    WordOfHalves(v);
    assert Digits64(v)[..4] == Digits32(Low(v)) && Digits64(v)[4..] == Digits32(High(v));
  }

  // ---------- Words as integers ----------

  lemma Join16(low: bv8, high: bv8)
    ensures ((low as bv16) | ((high as bv16) << 8)) as int == low as int + 0x100 * (high as int)
  {
  }

  lemma Join32(low: bv16, high: bv16)
    ensures ((low as bv32) | ((high as bv32) << 16)) as int == low as int + 0x1_0000 * (high as int)
  {
  }

  lemma Join64(low: bv32, high: bv32)
    ensures ((low as bv64) | ((high as bv64) << 32)) as int == low as int + 0x1_0000_0000 * (high as int)
  {
  }

  lemma Word16Value(a: bv8, b: bv8)
    ensures Word16(a, b) as int == a as int + 0x100 * (b as int)
  {
    Join16(a, b);
    assert Word16(a, b) == (a as bv16) | ((b as bv16) << 8);
  }

  lemma Word32Halves(a: bv8, b: bv8, c: bv8, d: bv8)
    ensures Word32(a, b, c, d) == (Word16(a, b) as bv32) | ((Word16(c, d) as bv32) << 16)
  {
  }

  lemma Word32Value(a: bv8, b: bv8, c: bv8, d: bv8)
    ensures Word32(a, b, c, d) as int
         == a as int + 0x100 * (b as int) + 0x1_0000 * (c as int) + 0x100_0000 * (d as int)
  {
    Word32Halves(a, b, c, d);
    Join32(Word16(a, b), Word16(c, d));
    Word16Value(a, b);
    Word16Value(c, d);
  }

  lemma Word64Value(low: bv32, high: bv32)
    ensures Word64(low, high) as int == low as int + 0x1_0000_0000 * (high as int)
  {
    Join64(low, high);
    assert Word64(low, high) == (low as bv64) | ((high as bv64) << 32);
  }

  lemma HalvesValue(v: bv64)
    ensures v as int == Low(v) as int + 0x1_0000_0000 * (High(v) as int)
  {
    var w := Word64(Low(v), High(v));
    WordOfHalves(v);
    Word64Value(Low(v), High(v));
    assert v == w;
  }

  lemma LeValueOne(a: bv8)
    ensures LeValue([a]) == a as int
  {
    assert [a] == [a] + [];
    LeValueCons(a, []);
  }

  lemma LeValueTwo(a: bv8, b: bv8)
    ensures LeValue([a, b]) == a as int + 0x100 * (b as int)
  {
    assert [a, b] == [a] + [b];
    LeValueCons(a, [b]);
    LeValueOne(b);
  }

  lemma LeValueFour(a: bv8, b: bv8, c: bv8, d: bv8)
    ensures LeValue([a, b, c, d]) == a as int + 0x100 * (b as int) + 0x1_0000 * (c as int) + 0x100_0000 * (d as int)
  {
    assert [a, b, c, d] == [a] + [b, c, d] && [b, c, d] == [b] + [c, d];
    LeValueCons(a, [b, c, d]);
    LeValueCons(b, [c, d]);
    LeValueTwo(c, d);
  }

  lemma {:induction false} LeValueConcat(x: seq<bv8>, y: seq<bv8>)
    ensures LeValue(x + y) == LeValue(x) + LeValue(y) * Pow256(|x|)
  {
    if x == [] {
      assert x + y == y;
    } else {
      LeValueConcat(x[1..], y);
      MulPow(LeValue(y), |x|);
      assert x + y == [x[0]] + (x[1..] + y);
      LeValueCons(x[0], x[1..] + y);
    }
  }

  lemma PowFour()
    ensures Pow256(4) == 0x1_0000_0000
  {
    assert Pow256(2) == 0x1_0000;
    assert Pow256(3) == 0x100_0000;
  }

  lemma LeValueHalves(x: seq<bv8>, y: seq<bv8>)
    requires |x| == 4
    ensures LeValue(x + y) == LeValue(x) + 0x1_0000_0000 * LeValue(y)
  {
    LeValueConcat(x, y);
    PowFour();
    assert LeValue(y) * Pow256(4) == LeValue(y) * 0x1_0000_0000;
  }

  /** The number of a word's digits is the unsigned integer that the word is. */
  lemma Number16Exact(v: bv16)
    ensures Number16(v) == v as int
  {
    var ds := Digits16(v);
    LoadOfDigits16(v);
    Word16Value(ds[0], ds[1]);
    LeValueTwo(ds[0], ds[1]);
  }

  lemma Number32Exact(v: bv32)
    ensures Number32(v) == v as int
  {
    var ds := Digits32(v);
    LoadOfDigits32(v);
    Word32Value(ds[0], ds[1], ds[2], ds[3]);
    LeValueFour(ds[0], ds[1], ds[2], ds[3]);
  }

  lemma Number64Exact(v: bv64)
    ensures Number64(v) == v as int
  {
    Number32Exact(Low(v));
    Number32Exact(High(v));
    LeValueHalves(Digits32(Low(v)), Digits32(High(v)));
    HalvesValue(v);
  }

  lemma SameDigits(x: seq<bv8>, y: seq<bv8>)
    requires |x| == |y| && LeValue(x) == LeValue(y)
    ensures x == y
  {
    LeBytesOfLeValue(x, 0);
    LeBytesOfLeValue(y, 0);
  }

  /** So no two words denote the same number. */
  lemma NumbersDistinct(t: bv16, u: bv16, v: bv32, w: bv32, x: bv64, y: bv64)
    ensures Number16(t) == Number16(u) ==> t == u
    ensures Number32(v) == Number32(w) ==> v == w
    ensures Number64(x) == Number64(y) ==> x == y
  {
    if Number16(t) == Number16(u) {
      SameDigits(Digits16(t), Digits16(u));
      LoadOfDigits16(t);
      LoadOfDigits16(u);
    }
    if Number32(v) == Number32(w) {
      SameDigits(Digits32(v), Digits32(w));
      LoadOfDigits32(v);
      LoadOfDigits32(w);
    }
    if Number64(x) == Number64(y) {
      SameDigits(Digits64(x), Digits64(y));
      LoadOfDigits64(x);
      LoadOfDigits64(y);
    }
  }
}
