/** Fixed-width two's complement integers on top of Dafny's unbounded `int`, and C's truncating division. */
module MachineInt {

  const I32_MAX: int := 0x7fff_ffff
  const U32_MAX: int := 0xffff_ffff
  const I64_MIN: int := -0x8000_0000_0000_0000
  const I64_MAX: int := 0x7fff_ffff_ffff_ffff
  const U64_MAX: int := 0xffff_ffff_ffff_ffff

  type I64 = x: int | I64_MIN <= x <= I64_MAX
  type U64 = x: int | 0 <= x <= U64_MAX
  type U32 = x: int | 0 <= x <= U32_MAX

  /** The widths for which the source instantiates its integer templates. */
  datatype Width = W8 | W16 | W32 | W64

  /** Number of distinct values of a width. */
  function Modulus(w: Width): (m: int)
    ensures m > 0 && m % 2 == 0
  {
    match w
    case W8 => 0x100
    case W16 => 0x1_0000
    case W32 => 0x1_0000_0000
    case W64 => 0x1_0000_0000_0000_0000
  }

  /** `x` is a value of the signed type of width `w`. */
  predicate Fits(w: Width, x: int) {
    -Modulus(w) / 2 <= x < Modulus(w) / 2
  }

  /** A remainder is determined by any decomposition into a multiple and a small rest. */
  lemma ModUnique(a: int, m: int, q: int, r: int)
    requires m > 0 && 0 <= r < m && a == q * m + r
    ensures a % m == r && a / m == q
  {
    var d := a / m - q;
    assert d * m == r - a % m;
    assert d > 0 ==> d * m >= m;
    assert d < 0 ==> d * m <= -m;
  }

  /** The signed value of width `w` that `x` is reduced to. */
  function Wrap(w: Width, x: int): (r: int)
    ensures Fits(w, r)
    ensures Fits(w, x) ==> r == x
  {
    match w
    case W8 => (x + 0x80) % 0x100 - 0x80
    case W16 => (x + 0x8000) % 0x1_0000 - 0x8000
    case W32 => (x + 0x8000_0000) % 0x1_0000_0000 - 0x8000_0000
    case W64 => (x + 0x8000_0000_0000_0000) % 0x1_0000_0000_0000_0000 - 0x8000_0000_0000_0000
  }

  /** Reduction changes a value by a whole number of moduli. */
  lemma WrapOffset(w: Width, x: int) returns (k: int)
    ensures x == Wrap(w, x) + k * Modulus(w)
  {
    k := (x + Modulus(w) / 2) / Modulus(w);
  }

  /** Reduction picks the only representable value that differs by a whole number of moduli. */
  lemma WrapUnique(w: Width, x: int, k: int, r: int)
    requires Fits(w, r) && x == r + k * Modulus(w)
    ensures Wrap(w, x) == r
  {
    var m := Modulus(w);
    ModUnique(x + m / 2, m, k, r + m / 2);
  }

  lemma MulDistributes(j: int, k: int, m: int)
    ensures (j + k) * m == j * m + k * m
    ensures (j - k) * m == j * m - k * m
  {
  }

  /** Whole moduli vanish. */
  lemma WrapShift(w: Width, x: int, k: int)
    ensures Wrap(w, x + k * Modulus(w)) == Wrap(w, x)
  {
    var j := WrapOffset(w, x);
    MulDistributes(j, k, Modulus(w));
    WrapUnique(w, x + k * Modulus(w), j + k, Wrap(w, x));
  }

  /** Reducing early or late makes no difference to a sum. */
  lemma WrapAdd(w: Width, x: int, y: int)
    ensures Wrap(w, Wrap(w, x) + y) == Wrap(w, x + y)
  {
    var k := WrapOffset(w, x);
    WrapShift(w, Wrap(w, x) + y, k);
  }

  /** Sums of congruent values are congruent. */
  lemma WrapSum(w: Width, x: int, x': int, y: int, y': int)
    requires Wrap(w, x) == Wrap(w, x') && Wrap(w, y) == Wrap(w, y')
    ensures Wrap(w, x + y) == Wrap(w, x' + y')
  {
    WrapAdd(w, x, y);
    WrapAdd(w, x', y);
    WrapAdd(w, y, x');
    WrapAdd(w, y', x');
  }

  /** A common summand can be dropped. */
  lemma WrapCancel(w: Width, p: int, x: int, y: int)
    requires Wrap(w, p + x) == Wrap(w, p + y)
    ensures Wrap(w, x) == Wrap(w, y)
  {
    WrapSum(w, p + x, p + y, -p, -p);
  }

  /** A 64-bit reduction is invisible after a 32-bit one. */
  lemma WrapNarrow(x: int)
    ensures Wrap(W32, Wrap(W64, x)) == Wrap(W32, x)
  {
    var j := WrapOffset(W64, x);
    var k := WrapOffset(W32, x);
    WrapUnique(W32, Wrap(W64, x), k - j * 0x1_0000_0000, Wrap(W32, x));
  }

  /** Two values reduce to the same one exactly when a whole number of moduli lies between them. */
  lemma WrapEqualIff(w: Width, x: int, y: int)
    ensures Wrap(w, x) == Wrap(w, y) <==> (y - x) % Modulus(w) == 0
  {
    var m := Modulus(w);
    if Wrap(w, x) == Wrap(w, y) {
      var j := WrapOffset(w, x);
      var k := WrapOffset(w, y);
      MulDistributes(k, j, m);
      ModUnique(y - x, m, k - j, 0);
    }
    if (y - x) % m == 0 {
      WrapShift(w, x, (y - x) / m);
    }
  }

  function Abs(x: int): (r: nat)
    ensures r == x || r == -x
  {
    if x < 0 then -x else x
  }

  /** C's integer division: the quotient is rounded towards zero. */
  function TruncDiv(a: int, b: int): (q: int)
    requires b != 0
  {
    if (a >= 0) == (b > 0) then Abs(a) / Abs(b) else -(Abs(a) / Abs(b))
  }

  /** C's remainder: it takes the sign of the dividend. */
  function TruncMod(a: int, b: int): (m: int)
    requires b != 0
  {
    a - TruncDiv(a, b) * b
  }

  /** The defining property of truncation, which determines quotient and remainder. */
  lemma TruncDivBounds(a: int, b: int)
    requires b != 0
    ensures a == TruncDiv(a, b) * b + TruncMod(a, b)
    ensures Abs(TruncMod(a, b)) < Abs(b)
    ensures a > 0 ==> TruncMod(a, b) >= 0
    ensures a < 0 ==> TruncMod(a, b) <= 0
  {
    var q, m := Abs(a) / Abs(b), Abs(a) % Abs(b);
    assert Abs(a) == q * Abs(b) + m;
    assert -q * b == q * -b == -(q * b);
  }

  /** The int64 value nearest to `x`. */
  function Clamp(x: int): (r: I64)
    ensures I64_MIN <= x <= I64_MAX ==> r == x
    ensures x < I64_MIN ==> r == I64_MIN
    ensures x > I64_MAX ==> r == I64_MAX
  {
    if x < I64_MIN then I64_MIN else if x > I64_MAX then I64_MAX else x
  }

  function Sign(x: int): (s: int)
    ensures -1 <= s <= 1 && (s > 0 <==> x > 0) && (s < 0 <==> x < 0)
  {
    if x < 0 then -1 else if x > 0 then 1 else 0
  }
}
