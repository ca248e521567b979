/** ObjectIds: order, creation time, hash and hexadecimal form (bson/bson-oid.h). */
module Oid {
  import opened MachineInt
  import opened Endian

  const OID_SIZE: nat := 12

  // ---------- Order ----------

  /** What `memcmp` decides, as a sign. */
  function Compare(x: seq<bv8>, y: seq<bv8>): int
    requires |x| == |y|
  {
    if x == [] then 0
    else if x[0] as int < y[0] as int then -1
    else if x[0] as int > y[0] as int then 1
    else Compare(x[1..], y[1..])
  }

  predicate EqualUnsafe(x: seq<bv8>, y: seq<bv8>)
    requires |x| == |y|
  {
    Compare(x, y) == 0
  }

  lemma {:induction false} BeValueBound(bytes: seq<bv8>)
    ensures BeValue(bytes) < Pow256(|bytes|)
  {
    if bytes != [] {
      BeValueBound(bytes[..|bytes| - 1]);
    }
  }

  lemma {:induction false} BeValueFirst(bytes: seq<bv8>)
    requires |bytes| > 0
    ensures BeValue(bytes) == (bytes[0] as int) * Pow256(|bytes| - 1) + BeValue(bytes[1..])
  {
    var n := |bytes| - 1;
    if n > 0 {
      var front, rest := bytes[..n], bytes[1..];
      BeValueFirst(front);
      assert front[1..] == rest[..n - 1];
      MulPow(bytes[0] as int, n);
    } else {
      assert bytes[..0] == [] == bytes[1..];
    }
  }

  lemma FirstDecides(a: int, b: int, p: nat, v: nat, w: nat)
    requires a < b && v < p
    ensures a * p + v < b * p + w
  {
    var d := b - a - 1;
    MulDistributes(a + 1, d, p);
    MulDistributes(a, 1, p);
    assert d * p >= 0;
  }

  /** Byte-wise comparison is comparison of the big-endian numbers, for byte strings of any common length. */
  lemma {:induction false} CompareIsNumeric(x: seq<bv8>, y: seq<bv8>)
    requires |x| == |y|
    ensures Compare(x, y) == Sign(BeValue(x) - BeValue(y))
  {
    if x != [] {
      var p := Pow256(|x| - 1);
      BeValueFirst(x);
      BeValueFirst(y);
      BeValueBound(x[1..]);
      BeValueBound(y[1..]);
      if x[0] as int < y[0] as int {
        FirstDecides(x[0] as int, y[0] as int, p, BeValue(x[1..]), BeValue(y[1..]));
      } else if x[0] as int > y[0] as int {
        FirstDecides(y[0] as int, x[0] as int, p, BeValue(y[1..]), BeValue(x[1..]));
      } else {
        CompareIsNumeric(x[1..], y[1..]);
      }
    }
  }

  lemma {:induction false} EqualBytes(x: seq<bv8>, y: seq<bv8>)
    requires |x| == |y|
    ensures Compare(x, y) == 0 <==> x == y
  {
    if x != [] {
      EqualBytes(x[1..], y[1..]);
      assert x == [x[0]] + x[1..] && y == [y[0]] + y[1..];
      if x[0] as int == y[0] as int {
        SameByte(x[0], y[0]);
      }
    }
  }

  /** It is a total order in which only equal byte strings compare equal. */
  lemma CompareTotalOrder(x: seq<bv8>, y: seq<bv8>, z: seq<bv8>)
    requires |x| == |y| == |z|
    ensures Compare(x, y) == -Compare(y, x)
    ensures EqualUnsafe(x, y) <==> x == y
    ensures Compare(x, y) <= 0 && Compare(y, z) <= 0 ==> Compare(x, z) <= 0
  {
    CompareIsNumeric(x, y);
    CompareIsNumeric(y, x);
    CompareIsNumeric(y, z);
    CompareIsNumeric(x, z);
    EqualBytes(x, y);
  }

  // ---------- Creation time ----------

  function GetTimeTUnsafe(order: ByteOrder, oid: seq<bv8>): int
    requires |oid| == OID_SIZE
  {
    var t := Load32(order, oid[..4]);
    Number32(Be32(order, t))
  }

  /** The time is the big-endian number in the first four bytes, whatever the machine's byte order. */
  lemma TimeIsBigEndianPrefix(order: ByteOrder, oid: seq<bv8>)
    requires |oid| == OID_SIZE
    ensures GetTimeTUnsafe(order, oid) == BeValue(oid[..4])
    ensures 0 <= GetTimeTUnsafe(order, oid) <= U32_MAX
  {
    ReadPortably32(order, oid[..4]);
    BeValueBound(oid[..4]);
    assert Pow256(2) == 0x1_0000;
  }

  lemma {:induction false} CompareSplit(x: seq<bv8>, y: seq<bv8>, n: nat)
    requires |x| == |y| && n <= |x|
    ensures Compare(x, y) == if Compare(x[..n], y[..n]) != 0 then Compare(x[..n], y[..n]) else Compare(x[n..], y[n..])
  {
    if n > 0 {
      CompareSplit(x[1..], y[1..], n - 1);
      assert x[..n][1..] == x[1..][..n - 1] && y[..n][1..] == y[1..][..n - 1];
      assert x[1..][n - 1..] == x[n..] && y[1..][n - 1..] == y[n..];
    } else {
      assert x[..0] == [] && x[0..] == x && y[0..] == y;
    }
  }

  /** Sorting ObjectIds sorts them by creation time: an earlier one never has a later time, and an earlier time always
   * comes first, even if the two times were read on machines of different byte order. */
  lemma OrderRespectsTime(order: ByteOrder, order': ByteOrder, x: seq<bv8>, y: seq<bv8>)
    requires |x| == |y| == OID_SIZE
    ensures Compare(x, y) <= 0 ==> GetTimeTUnsafe(order, x) <= GetTimeTUnsafe(order', y)
    ensures GetTimeTUnsafe(order, x) < GetTimeTUnsafe(order', y) ==> Compare(x, y) < 0
    ensures GetTimeTUnsafe(order, x) == GetTimeTUnsafe(order', y) ==> Compare(x, y) == Compare(x[4..], y[4..])
  {
    TimeIsBigEndianPrefix(order, x);
    TimeIsBigEndianPrefix(order', y);
    CompareSplit(x, y, 4);
    CompareIsNumeric(x[..4], y[..4]);
  }

  // ---------- Hash ----------

  /** The loop's step on an unreduced number. */
  function HashStep(hash: int, b: bv8): U32 {
    (33 * hash + b as int) % 0x1_0000_0000
  }

  function HashFrom(hash: U32, bytes: seq<bv8>): U32 {
    if bytes == [] then hash else HashStep(HashFrom(hash, bytes[..|bytes| - 1]), bytes[|bytes| - 1])
  }

  function HashOf(bytes: seq<bv8>): U32 {
    HashFrom(5381, bytes)
  }

  lemma ReduceSum(x: int, y: int)
    ensures (x % 0x1_0000_0000 + y) % 0x1_0000_0000 == (x + y) % 0x1_0000_0000
  {
    var z := x % 0x1_0000_0000 + y;
    ModUnique(x + y, 0x1_0000_0000, x / 0x1_0000_0000 + z / 0x1_0000_0000, z % 0x1_0000_0000);
  }

  /** Reducing after every operation, as unsigned arithmetic does, is reducing once. */
  lemma HashStepValue(hash: U32, b: bv8)
    ensures (((hash * 32) % 0x1_0000_0000 + hash) % 0x1_0000_0000 + b as int) % 0x1_0000_0000 == HashStep(hash, b)
  {
    ReduceSum(hash * 32, hash);
    ReduceSum((hash * 32) % 0x1_0000_0000 + hash, b as int);
    ReduceSum(hash * 32, hash + b as int);
  }

  /** The hash as one number: the bytes are the digits of a base-33 numeral that starts with 5381. */
  function Numeral33(bytes: seq<bv8>): int {
    if bytes == [] then 5381 else 33 * Numeral33(bytes[..|bytes| - 1]) + bytes[|bytes| - 1] as int
  }

  lemma ReduceStep(h: int, b: int)
    ensures (33 * (h % 0x1_0000_0000) + b) % 0x1_0000_0000 == (33 * h + b) % 0x1_0000_0000
  {
    var k := h / 0x1_0000_0000;
    var r := 33 * (h % 0x1_0000_0000) + b;
    assert 33 * h + b == r + 33 * k * 0x1_0000_0000;
    ModUnique(33 * h + b, 0x1_0000_0000, r / 0x1_0000_0000 + 33 * k, r % 0x1_0000_0000);
  }

  lemma {:induction false} HashIsNumeral(bytes: seq<bv8>)
    ensures HashOf(bytes) == Numeral33(bytes) % 0x1_0000_0000
  {
    if bytes != [] {
      var front, b := bytes[..|bytes| - 1], bytes[|bytes| - 1];
      HashIsNumeral(front);
      ReduceStep(Numeral33(front), b as int);
    }
  }

  lemma {:induction false} HashConcat(hash: U32, x: seq<bv8>, y: seq<bv8>)
    ensures HashFrom(hash, x + y) == HashFrom(HashFrom(hash, x), y)
  {
    if y == [] {
      assert x + y == x;
    } else {
      var n := |y| - 1;
      assert (x + y)[..|x| + n] == x + y[..n];
      HashConcat(hash, x, y[..n]);
    }
  }

  /** 33 is invertible modulo 2^32, so a step loses nothing of the hash before it. */
  lemma HashStepInjective(h: U32, g: U32, b: bv8)
    ensures HashStep(h, b) == HashStep(g, b) ==> h == g
  {
    if HashStep(h, b) == HashStep(g, b) {
      var d := h - g;
      var k := (33 * h + b as int) / 0x1_0000_0000 - (33 * g + b as int) / 0x1_0000_0000;
      assert 33 * d == k * 0x1_0000_0000;
      assert d == 0x1_0000_0000 * (1_041_204_193 * k - 8 * d);
    }
  }

  lemma {:induction false} HashFromInjective(h: U32, g: U32, bytes: seq<bv8>)
    ensures HashFrom(h, bytes) == HashFrom(g, bytes) <==> h == g
  {
    if bytes != [] {
      var front, b := bytes[..|bytes| - 1], bytes[|bytes| - 1];
      HashFromInjective(h, g, front);
      HashStepInjective(HashFrom(h, front), HashFrom(g, front), b);
    }
  }

  lemma HashOne(h: U32, a: bv8)
    ensures HashFrom(h, [a]) == HashStep(h, a)
  {
    assert [a][..0] == [];
  }

  lemma TwoSteps(h: U32, a: bv8, b: bv8)
    ensures HashFrom(h, [a, b]) == (1089 * h + (33 * (a as int) + b as int)) % 0x1_0000_0000
  {
    HashOne(h, a);
    assert [a, b][..1] == [a];
    ReduceStep(33 * h + a as int, b as int);
  }

  lemma TwoStepsDistinct(h: int, u: int, v: int)
    requires 0 <= u < 0x1_0000 && 0 <= v < 0x1_0000
    ensures (1089 * h + u) % 0x1_0000_0000 == (1089 * h + v) % 0x1_0000_0000 <==> u == v
  {
  }

  /** Two ObjectIds that differ in one byte, or in two adjacent ones, collide exactly when 33 times the difference of
   * the first byte makes up for that of the second. */
  lemma AdjacentBytesCollideIff(front: seq<bv8>, a: bv8, b: bv8, a': bv8, b': bv8, back: seq<bv8>)
    ensures HashOf(front + [a, b] + back) == HashOf(front + [a', b'] + back)
       <==> 33 * (a as int) + b as int == 33 * (a' as int) + b' as int
  {
    var h := HashOf(front);
    HashConcat(5381, front + [a, b], back);
    HashConcat(5381, front + [a', b'], back);
    HashConcat(5381, front, [a, b]);
    HashConcat(5381, front, [a', b']);
    HashFromInjective(HashFrom(h, [a, b]), HashFrom(h, [a', b']), back);
    TwoSteps(h, a, b);
    TwoSteps(h, a', b');
    TwoStepsDistinct(h, 33 * (a as int) + b as int, 33 * (a' as int) + b' as int);
  }

  lemma ReducedDistinct(c: int, u: int, v: int)
    requires 0 <= u < 0x100 && 0 <= v < 0x100 && u != v
    ensures (c + u) % 0x1_0000_0000 != (c + v) % 0x1_0000_0000
  {
  }

  lemma OneStepDistinct(h: U32, a: bv8, b: bv8)
    requires a != b
    ensures HashFrom(h, [a]) != HashFrom(h, [b])
  {
    HashOne(h, a);
    HashOne(h, b);
    if a as int == b as int {
      SameByte(a, b);
    }
    ReducedDistinct(33 * h, a as int, b as int);
  }

  /** So changing any single byte always changes the hash. */
  lemma SingleByteDetected(x: seq<bv8>, y: seq<bv8>, i: nat)
    requires |x| == |y| == OID_SIZE && i < OID_SIZE
    requires x[..i] == y[..i] && x[i + 1..] == y[i + 1..] && x[i] != y[i]
    ensures HashOf(x) != HashOf(y)
  {
    assert x == x[..i] + [x[i]] + x[i + 1..] && y == y[..i] + [y[i]] + y[i + 1..];
    HashConcat(5381, x[..i] + [x[i]], x[i + 1..]);
    HashConcat(5381, y[..i] + [y[i]], y[i + 1..]);
    HashConcat(5381, x[..i], [x[i]]);
    HashConcat(5381, y[..i], [y[i]]);
    var h := HashOf(x[..i]);
    HashFromInjective(HashFrom(h, [x[i]]), HashFrom(h, [y[i]]), x[i + 1..]);
    OneStepDistinct(h, x[i], y[i]);
  }

  // ---------- Hexadecimal ----------

  function ParseHexChar(hex: char): bv8 {
    match hex
    case '0' => 0
    case '1' => 1
    case '2' => 2
    case '3' => 3
    case '4' => 4
    case '5' => 5
    case '6' => 6
    case '7' => 7
    case '8' => 8
    case '9' => 9
    case 'a' => 0xa
    case 'A' => 0xa
    case 'b' => 0xb
    case 'B' => 0xb
    case 'c' => 0xc
    case 'C' => 0xc
    case 'd' => 0xd
    case 'D' => 0xd
    case 'e' => 0xe
    case 'E' => 0xe
    case 'f' => 0xf
    case 'F' => 0xf
    case _ => 0
  }

  function DecodePair(high: char, low: char): bv8 {
    (ParseHexChar(high) << 4) | ParseHexChar(low)
  }

  function DecodeHex(str: string): (bytes: seq<bv8>)
    requires |str| == 24
    ensures |bytes| == OID_SIZE
    ensures forall i :: 0 <= i < OID_SIZE ==> bytes[i] == DecodePair(str[2 * i], str[2 * i + 1])
  {
    seq(OID_SIZE, i requires 0 <= i < OID_SIZE => DecodePair(str[2 * i], str[2 * i + 1]))
  }

  /** The digit with value `n`, in either letter case. */
  function HexDigit(n: bv8, upper: bool): char
    requires n < 0x10
  {
    if upper then "0123456789ABCDEF"[n as int] else "0123456789abcdef"[n as int]
  }

  /** The `k`-th half byte of a byte string, high half first. */
  function HalfByte(bytes: seq<bv8>, k: nat): (n: bv8)
    requires k < 2 * |bytes|
    ensures n < 0x10
  {
    if k % 2 == 0 then bytes[k / 2] >> 4 else bytes[k / 2] & 0xf
  }

  /** The hexadecimal form of an ObjectId; `upper` chooses the case of each digit. */
  function Render(bytes: seq<bv8>, upper: nat -> bool): (str: string)
    requires |bytes| == OID_SIZE
    ensures |str| == 24
    ensures forall k :: 0 <= k < 24 ==> str[k] == HexDigit(HalfByte(bytes, k), upper(k))
  {
    seq(24, k requires 0 <= k < 24 => HexDigit(HalfByte(bytes, k), upper(k)))
  }

  /** A character as the decoder takes it: letters in lower case, anything that is not a digit as zero. */
  function Canonical(c: char): char {
    if '0' <= c <= '9' || 'a' <= c <= 'f' then c
    else if 'A' <= c <= 'F' then c + 32 as char
    else '0'
  }

  function CanonicalString(str: string): (canonical: string)
    ensures |canonical| == |str|
    ensures forall k :: 0 <= k < |str| ==> canonical[k] == Canonical(str[k])
  {
    seq(|str|, k requires 0 <= k < |str| => Canonical(str[k]))
  }

  lemma ParseDigit(n: bv8, upper: bool)
    requires n < 0x10
    ensures ParseHexChar(HexDigit(n, upper)) == n
  {
  }

  lemma DigitOfParsed(c: char)
    ensures ParseHexChar(c) < 0x10 && HexDigit(ParseHexChar(c), false) == Canonical(c)
  {
  }

  lemma PairOfHalves(b: bv8)
    ensures ((b >> 4) << 4) | (b & 0xf) == b && (b >> 4) < 0x10 && (b & 0xf) < 0x10
  {
  }

  lemma HalvesOfPair(high: bv8, low: bv8)
    requires high < 0x10 && low < 0x10
    ensures ((high << 4) | low) >> 4 == high && ((high << 4) | low) & 0xf == low
  {
  }

  lemma DecodeOneRendered(b: bv8, upper: bool, upper': bool)
    ensures b >> 4 < 0x10 && b & 0xf < 0x10
    ensures DecodePair(HexDigit(b >> 4, upper), HexDigit(b & 0xf, upper')) == b
  {
    PairOfHalves(b);
    ParseDigit(b >> 4, upper);
    ParseDigit(b & 0xf, upper');
  }

  /** Decoding undoes printing, in any mixture of cases. */
  lemma DecodeRendered(bytes: seq<bv8>, upper: nat -> bool)
    requires |bytes| == OID_SIZE
    ensures DecodeHex(Render(bytes, upper)) == bytes
  {
    var str := Render(bytes, upper);
    forall i | 0 <= i < OID_SIZE
      ensures DecodePair(str[2 * i], str[2 * i + 1]) == bytes[i]
    {
      DecodeOneRendered(bytes[i], upper(2 * i), upper(2 * i + 1));
    }
  }

  lemma RenderOneDecoded(high: char, low: char)
    ensures DecodePair(high, low) >> 4 < 0x10 && HexDigit(DecodePair(high, low) >> 4, false) == Canonical(high)
    ensures DecodePair(high, low) & 0xf < 0x10 && HexDigit(DecodePair(high, low) & 0xf, false) == Canonical(low)
  {
    DigitOfParsed(high);
    DigitOfParsed(low);
    HalvesOfPair(ParseHexChar(high), ParseHexChar(low));
  }

  /** Printing what was decoded gives the canonical form of the text: lower-case digits, with everything that is not a
   * hexadecimal digit read as zero. */
  lemma RenderDecoded(str: string)
    requires |str| == 24
    ensures Render(DecodeHex(str), _ => false) == CanonicalString(str)
  {
    forall k | 0 <= k < 24
      ensures Render(DecodeHex(str), _ => false)[k] == Canonical(str[k])
    {
      var i := k / 2;
      RenderOneDecoded(str[2 * i], str[2 * i + 1]);
      assert k == 2 * i || k == 2 * i + 1;
    }
  }

  lemma CanonicalSameDecoding(c: char)
    ensures ParseHexChar(Canonical(c)) == ParseHexChar(c)
  {
  }

  /** The canonical form of a text decodes as the text does. */
  lemma CanonicalDecodesAlike(str: string)
    requires |str| == 24
    ensures DecodeHex(CanonicalString(str)) == DecodeHex(str)
  {
    forall i | 0 <= i < OID_SIZE
      ensures DecodeHex(CanonicalString(str))[i] == DecodeHex(str)[i]
    {
      CanonicalSameDecoding(str[2 * i]);
      CanonicalSameDecoding(str[2 * i + 1]);
    }
  }

  /** Two texts decode alike exactly when they agree up to case and up to characters that are not hexadecimal digits;
   * for texts of hexadecimal digits, exactly when they agree up to case. */
  lemma DecodeEqualIff(s: string, t: string)
    requires |s| == |t| == 24
    ensures DecodeHex(s) == DecodeHex(t) <==> CanonicalString(s) == CanonicalString(t)
  {
    RenderDecoded(s);
    RenderDecoded(t);
    DecodeRendered(DecodeHex(s), _ => false);
    DecodeRendered(DecodeHex(t), _ => false);
  }

  /** What a character is worth as a hexadecimal digit; a character that is none counts as zero. */
  function HexValue(c: char): nat {
    if '0' <= c <= '9' then c as int - '0' as int
    else if 'a' <= c <= 'f' then c as int - 'a' as int + 10
    else if 'A' <= c <= 'F' then c as int - 'A' as int + 10
    else 0
  }

  /** The number that a text writes in hexadecimal. */
  function HexNumeral(str: string): nat {
    if str == [] then 0 else 16 * HexNumeral(str[..|str| - 1]) + HexValue(str[|str| - 1])
  }

  lemma ParseIsHexValue(c: char)
    ensures ParseHexChar(c) as int == HexValue(c)
  {
  }

  lemma PairValue(high: bv8, low: bv8)
    requires high < 0x10 && low < 0x10
    ensures ((high << 4) | low) as int == 0x10 * (high as int) + low as int
  {
  }

  lemma DecodePairValue(high: char, low: char)
    ensures DecodePair(high, low) as int == 16 * HexValue(high) + HexValue(low)
  {
    ParseIsHexValue(high);
    ParseIsHexValue(low);
    DigitOfParsed(high);
    DigitOfParsed(low);
    PairValue(ParseHexChar(high), ParseHexChar(low));
  }

  lemma {:induction false} DecodePrefix(str: string, n: nat)
    requires |str| == 24 && n <= OID_SIZE
    ensures BeValue(DecodeHex(str)[..n]) == HexNumeral(str[..2 * n])
  {
    if n > 0 {
      var bytes := DecodeHex(str);
      DecodePrefix(str, n - 1);
      DecodePairValue(str[2 * n - 2], str[2 * n - 1]);
      assert bytes[..n][..n - 1] == bytes[..n - 1];
      assert str[..2 * n][..2 * n - 1] == str[..2 * n - 1] && str[..2 * n - 1][..2 * n - 2] == str[..2 * (n - 1)];
    }
  }

  /** The decoded bytes, as one big-endian number, are the number the text writes. */
  lemma DecodeIsNumeral(str: string)
    requires |str| == 24
    ensures BeValue(DecodeHex(str)) == HexNumeral(str)
  {
    DecodePrefix(str, OID_SIZE);
    assert DecodeHex(str)[..OID_SIZE] == DecodeHex(str) && str[..24] == str;
  }

  // ---------- The loops ----------

  class ObjectId {
    const bytes: array<bv8>

    ghost predicate Valid() {
      bytes.Length == OID_SIZE
    }

    constructor ()
      ensures Valid() && fresh(bytes)
    {
      bytes := new bv8[OID_SIZE];
    }

    /** Only the first 24 characters are read; the caller guarantees that they exist. */
    method InitFromStringUnsafe(str: string)
      requires Valid() && |str| >= 24
      modifies bytes
      ensures bytes[..] == DecodeHex(str[..24])
    {
      var i := 0;
      while i < 12
        invariant 0 <= i <= 12
        invariant forall j :: 0 <= j < i ==> bytes[j] == DecodePair(str[2 * j], str[2 * j + 1])
      {
        bytes[i] := (ParseHexChar(str[2 * i]) << 4) | ParseHexChar(str[2 * i + 1]);
        i := i + 1;
      }
      assert forall j :: 0 <= j < 12 ==> bytes[..][j] == DecodeHex(str[..24])[j];
    }

    method HashUnsafe() returns (hash: U32)
      requires Valid()
      ensures hash == HashOf(bytes[..])
    {
      hash := 5381;
      var i := 0;
      while i < OID_SIZE
        invariant 0 <= i <= OID_SIZE
        invariant hash == HashOf(bytes[..i])
      {
        hash := (((hash * 32) % 0x1_0000_0000 + hash) % 0x1_0000_0000 + bytes[i] as int) % 0x1_0000_0000;
        assert bytes[..i + 1][..i] == bytes[..i];
        HashStepValue(HashOf(bytes[..i]), bytes[i]);
        i := i + 1;
      }
      assert bytes[..OID_SIZE] == bytes[..];
    }
  }
}
