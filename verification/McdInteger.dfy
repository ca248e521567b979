/** Overflow predicates for int64 arithmetic, decided without overflowing (mongoc/mcd-integer.h).
 *
 * Every intermediate result is typed `I64`, so the verifier checks that no step of the decision itself overflows,
 * and `TruncDiv`'s precondition that no division is by zero. */
module McdInteger {
  import opened MachineInt

  lemma MulMonotone(q: nat, c: int, d: int)
    requires c <= d
    ensures q * c <= q * d
  {
    assert q * (d - c) >= 0;
  }

  lemma QuotientShrinks(n: nat, d: nat)
    requires d > 0
    ensures 0 <= n / d <= n
    ensures d > 1 ==> 2 * (n / d) <= n
  {
    MulMonotone(n / d, 1, d);
    if d > 1 {
      MulMonotone(n / d, 2, d);
    }
  }

  lemma QuotientFits(a: I64, b: I64)
    requires b != 0
    requires a == I64_MIN ==> b != -1
    ensures Fits(W64, TruncDiv(a, b))
  {
    QuotientShrinks(Abs(a), Abs(b));
  }

  function Quotient(a: I64, b: I64): (q: I64)
    requires b != 0
    requires a == I64_MIN ==> b != -1
  {
    QuotientFits(a, b);
    TruncDiv(a, b)
  }

  predicate MulWouldOverflow(left: I64, right: I64) {
    if right == -1 then
      left == I64_MIN
    else if right == 0 then
      false
    else if left > 0 then
      if right > 0 then
        var maxFac := Quotient(I64_MAX, right);
        left > maxFac
      else
        var minFac := Quotient(I64_MIN, left);
        right < minFac
    else if right > 0 then
      var minFac := Quotient(I64_MIN, right);
      left < minFac
    else if left == 0 then
      false
    else
      var maxFac := Quotient(I64_MAX, left);
      right < maxFac
  }

  predicate AddWouldOverflow(left: I64, right: I64) {
    if right < 0 then
      var legroom: I64 := I64_MIN - right;
      left < legroom
    else if right > 0 then
      var headroom: I64 := I64_MAX - right;
      left > headroom
    else
      false
  }

  predicate SubWouldOverflow(left: I64, right: I64) {
    if right > 0 then
      var negated: I64 := -right;
      AddWouldOverflow(left, negated)
    else if right < 0 then
      if left > 0 then
        var negated: I64 := -left;
        AddWouldOverflow(negated, right)
      else
        false
    else
      false
  }

  /** For positive `b`, comparing with a truncated quotient is comparing products. */
  lemma QuotientThreshold(a: nat, b: nat, x: int)
    requires b > 0
    ensures x > a / b <==> x * b > a
  {
    var q := a / b;
    assert a == q * b + a % b;
    if x > q {
      assert x * b >= (q + 1) * b == q * b + b;
    } else {
      assert x * b <= q * b;
    }
  }

  /** The multiplication check is exact on all pairs of int64 values. */
  lemma MulWouldOverflowExact(left: I64, right: I64)
    ensures MulWouldOverflow(left, right) <==> !Fits(W64, left * right)
  {
    var l: int, r: int := left, right;
    if right == -1 || right == 0 {
    } else if left > 0 && right > 0 {
      QuotientThreshold(I64_MAX, right, left);
      assert left * right > 0;
    } else if left > 0 {
      QuotientThreshold(-I64_MIN, left, -r);
      assert (-r) * left == -(left * right);
      assert left * right < 0;
    } else if right > 0 {
      QuotientThreshold(-I64_MIN, right, -l);
      assert (-l) * right == -(left * right);
      assert left * right <= 0;
    } else if left == 0 {
    } else {
      QuotientThreshold(I64_MAX, -l, -r);
      assert (-r) * (-l) == left * right;
      assert left * right > 0;
    }
  }

  /** The addition check is exact on all pairs of int64 values. */
  lemma AddWouldOverflowExact(left: I64, right: I64)
    ensures AddWouldOverflow(left, right) <==> !Fits(W64, left + right)
  {
  }

  /** What the subtraction check decides: it reports every overflow below the minimum, but above the maximum only
   * from one past the first overflowing difference. */
  lemma SubWouldOverflowCharacterised(left: I64, right: I64)
    ensures SubWouldOverflow(left, right) <==> left - right < I64_MIN || left - right > I64_MAX + 1
  {
  }

  /** Hence it meets its documented meaning exactly off the line where the difference is 2^63. */
  lemma SubWouldOverflowExactIff(left: I64, right: I64)
    ensures (SubWouldOverflow(left, right) <==> !Fits(W64, left - right)) <==> left - right != I64_MAX + 1
  {
  }

  /** The failing line is inhabited at every `left` from 0 to the maximum, by exactly one `right`. */
  lemma SubMissesOverflow(left: I64)
    ensures left >= 0 ==>
              var right: I64 := left - I64_MAX - 1;
              !SubWouldOverflow(left, right) && !Fits(W64, left - right)
    ensures forall right: I64 :: !SubWouldOverflow(left, right) && !Fits(W64, left - right)
              <==> left >= 0 && right == left - I64_MAX - 1
  {
    forall right: I64
      ensures !SubWouldOverflow(left, right) && !Fits(W64, left - right)
              <==> left >= 0 && right == left - I64_MAX - 1
    {
      SubWouldOverflowCharacterised(left, right);
    }
  }
}
