/** Integer comparison across signedness and range checks (bson/bson-cmp.h), after [utility.intcmp] of ISO C++20. */
module Cmp {
  import opened MachineInt

  /** `(uint64_t) t` */
  function ToU64(t: I64): U64 {
    t % 0x1_0000_0000_0000_0000
  }

  // The suffix gives the signedness of the two operands.

  predicate EqualSs(t: I64, u: I64) { t == u }

  predicate EqualUu(t: U64, u: U64) { t == u }

  predicate EqualSu(t: I64, u: U64) { if t < 0 then false else ToU64(t) == u }

  predicate EqualUs(t: U64, u: I64) { if u < 0 then false else t == ToU64(u) }

  predicate NotEqualSs(t: I64, u: I64) { !EqualSs(t, u) }

  predicate NotEqualUu(t: U64, u: U64) { !EqualUu(t, u) }

  predicate NotEqualSu(t: I64, u: U64) { !EqualSu(t, u) }

  predicate NotEqualUs(t: U64, u: I64) { !EqualUs(t, u) }

  predicate LessSs(t: I64, u: I64) { t < u }

  predicate LessUu(t: U64, u: U64) { t < u }

  predicate LessSu(t: I64, u: U64) { if t < 0 then true else ToU64(t) < u }

  predicate LessUs(t: U64, u: I64) { if u < 0 then false else t < ToU64(u) }

  predicate GreaterSs(t: I64, u: I64) { LessSs(u, t) }

  predicate GreaterUu(t: U64, u: U64) { LessUu(u, t) }

  predicate GreaterSu(t: I64, u: U64) { LessUs(u, t) }

  predicate GreaterUs(t: U64, u: I64) { LessSu(u, t) }

  predicate LessEqualSs(t: I64, u: I64) { !GreaterSs(t, u) }

  predicate LessEqualUu(t: U64, u: U64) { !GreaterUu(t, u) }

  predicate LessEqualSu(t: I64, u: U64) { !GreaterSu(t, u) }

  predicate LessEqualUs(t: U64, u: I64) { !GreaterUs(t, u) }

  predicate GreaterEqualSs(t: I64, u: I64) { !LessSs(t, u) }

  predicate GreaterEqualUu(t: U64, u: U64) { !LessUu(t, u) }

  predicate GreaterEqualSu(t: I64, u: U64) { !LessSu(t, u) }

  predicate GreaterEqualUs(t: U64, u: I64) { !LessUs(t, u) }

  // ---------- Range checks, for a target type given by its limits ----------

  predicate InRangeOfSignedFromSigned(min: I64, max: I64, value: I64) {
    GreaterEqualSs(value, min) && LessEqualSs(value, max)
  }

  predicate InRangeOfSignedFromUnsigned(min: I64, max: I64, value: U64) {
    GreaterEqualUs(value, min) && LessEqualUs(value, max)
  }

  predicate InRangeOfUnsignedFromSigned(max: U64, value: I64) {
    GreaterEqualSu(value, 0) && LessEqualSu(value, max)
  }

  predicate InRangeOfUnsignedFromUnsigned(max: U64, value: U64) {
    LessEqualUu(value, max)
  }

  // ---------- Agreement with the order of the integers ----------

  datatype Operand = Signed(s: I64) | Unsigned(u: U64)

  function Value(x: Operand): int {
    match x
    case Signed(s) => s
    case Unsigned(u) => u
  }

  /** The member of each family that fits the operands. */
  predicate Equal(x: Operand, y: Operand) {
    match (x, y)
    case (Signed(t), Signed(u)) => EqualSs(t, u)
    case (Unsigned(t), Unsigned(u)) => EqualUu(t, u)
    case (Signed(t), Unsigned(u)) => EqualSu(t, u)
    case (Unsigned(t), Signed(u)) => EqualUs(t, u)
  }

  predicate NotEqual(x: Operand, y: Operand) {
    match (x, y)
    case (Signed(t), Signed(u)) => NotEqualSs(t, u)
    case (Unsigned(t), Unsigned(u)) => NotEqualUu(t, u)
    case (Signed(t), Unsigned(u)) => NotEqualSu(t, u)
    case (Unsigned(t), Signed(u)) => NotEqualUs(t, u)
  }

  predicate Less(x: Operand, y: Operand) {
    match (x, y)
    case (Signed(t), Signed(u)) => LessSs(t, u)
    case (Unsigned(t), Unsigned(u)) => LessUu(t, u)
    case (Signed(t), Unsigned(u)) => LessSu(t, u)
    case (Unsigned(t), Signed(u)) => LessUs(t, u)
  }

  predicate Greater(x: Operand, y: Operand) {
    match (x, y)
    case (Signed(t), Signed(u)) => GreaterSs(t, u)
    case (Unsigned(t), Unsigned(u)) => GreaterUu(t, u)
    case (Signed(t), Unsigned(u)) => GreaterSu(t, u)
    case (Unsigned(t), Signed(u)) => GreaterUs(t, u)
  }

  predicate LessEqual(x: Operand, y: Operand) {
    match (x, y)
    case (Signed(t), Signed(u)) => LessEqualSs(t, u)
    case (Unsigned(t), Unsigned(u)) => LessEqualUu(t, u)
    case (Signed(t), Unsigned(u)) => LessEqualSu(t, u)
    case (Unsigned(t), Signed(u)) => LessEqualUs(t, u)
  }

  predicate GreaterEqual(x: Operand, y: Operand) {
    match (x, y)
    case (Signed(t), Signed(u)) => GreaterEqualSs(t, u)
    case (Unsigned(t), Unsigned(u)) => GreaterEqualUu(t, u)
    case (Signed(t), Unsigned(u)) => GreaterEqualSu(t, u)
    case (Unsigned(t), Signed(u)) => GreaterEqualUs(t, u)
  }

  /** Every comparison is that of the integers the operands denote. */
  lemma ComparisonsExact(x: Operand, y: Operand)
    ensures Equal(x, y) <==> Value(x) == Value(y)
    ensures NotEqual(x, y) <==> Value(x) != Value(y)
    ensures Less(x, y) <==> Value(x) < Value(y)
    ensures Greater(x, y) <==> Value(x) > Value(y)
    ensures LessEqual(x, y) <==> Value(x) <= Value(y)
    ensures GreaterEqual(x, y) <==> Value(x) >= Value(y)
  {
  }

  predicate OrderedAt(xs: seq<Operand>, i: nat)
    requires i + 1 < |xs|
  {
    LessEqual(xs[i], xs[i + 1])
  }

  predicate Chain(xs: seq<Operand>) {
    forall i: nat :: i + 1 < |xs| ==> OrderedAt(xs, i)
  }

  lemma {:induction false} ChainValues(xs: seq<Operand>, a: nat, b: nat)
    requires Chain(xs) && a <= b < |xs|
    ensures Value(xs[a]) <= Value(xs[b])
  {
    if a < b {
      ChainValues(xs, a, b - 1);
      assert OrderedAt(xs, b - 1);
      ComparisonsExact(xs[b - 1], xs[b]);
    }
  }

  /** Along any chain of operands of either signedness, comparing neighbours compares the ends; one strict step makes
   * the whole chain strict. */
  lemma ChainsOrdered(xs: seq<Operand>, i: nat)
    requires Chain(xs) && i + 1 < |xs|
    ensures LessEqual(xs[0], xs[|xs| - 1])
    ensures Less(xs[i], xs[i + 1]) ==> Less(xs[0], xs[|xs| - 1])
  {
    ChainValues(xs, 0, i);
    ChainValues(xs, i, i + 1);
    ChainValues(xs, i + 1, |xs| - 1);
    ComparisonsExact(xs[i], xs[i + 1]);
    ComparisonsExact(xs[0], xs[|xs| - 1]);
  }

  /** Every range check accepts exactly the values of the target type, for every width and both signednesses of the
   * value. */
  lemma RangeChecksExact(w: Width, s: I64, u: U64)
    ensures var min, max, umax := -Modulus(w) / 2, Modulus(w) / 2 - 1, Modulus(w) - 1;
            && (InRangeOfSignedFromSigned(min, max, s) <==> Fits(w, s))
            && (InRangeOfSignedFromUnsigned(min, max, u) <==> Fits(w, u))
            && (InRangeOfUnsignedFromSigned(umax, s) <==> 0 <= s < Modulus(w))
            && (InRangeOfUnsignedFromUnsigned(umax, u) <==> u < Modulus(w))
  {
    ComparisonsExact(Unsigned(u), Signed(-Modulus(w) / 2));
    ComparisonsExact(Unsigned(u), Signed(Modulus(w) / 2 - 1));
    ComparisonsExact(Signed(s), Unsigned(0));
    ComparisonsExact(Signed(s), Unsigned(Modulus(w) - 1));
  }
}
