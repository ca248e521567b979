/** Atomic operations on one shared word (bson/bson-atomic.h), and what holds of every run of them.
 *
 * Steps are sequentially consistent: a run by any number of threads is the sequence of their operations in the order
 * in which they take effect, so a theorem about all sequences is one about all interleavings. Signed words are reduced
 * to their width as the compiler's fetch-and-add does. A pointer is a 64-bit word whose null value is `NULL`. */
module Atomic {
  import opened MachineInt

  const NULL: int := 0

  /** The families of compiler built-ins the header selects between. */
  datatype Platform = Gnu | Msvc | LegacyGcc

  datatype Op =
    | FetchAdd(addend: int)
    | FetchSub(subtrahend: int)
    | Fetch
    | Exchange(stored: int)
    | CasStrong(expected: int, desired: int)
    /** `spurious` is the platform's choice to fail although the comparison succeeds. */
    | CasWeak(expected: int, desired: int, spurious: bool)

  /** The content an operation leaves behind. Every operation returns the content it found. */
  function After(w: Width, op: Op, content: int): int {
    match op
    case FetchAdd(addend) => Wrap(w, content + addend)
    case FetchSub(subtrahend) => Wrap(w, content - subtrahend)
    case Fetch => content
    case Exchange(stored) => stored
    case CasStrong(expected, desired) => if content == expected then desired else content
    case CasWeak(expected, desired, spurious) => if content == expected && !spurious then desired else content
  }

  /** All operands are values of the word's type. */
  predicate WellTyped(w: Width, op: Op) {
    match op
    case FetchAdd(addend) => Fits(w, addend)
    case FetchSub(subtrahend) => Fits(w, subtrahend)
    case Fetch => true
    case Exchange(stored) => Fits(w, stored)
    case CasStrong(expected, desired) => Fits(w, expected) && Fits(w, desired)
    case CasWeak(expected, desired, _) => Fits(w, expected) && Fits(w, desired)
  }

  /** A shared word. */
  class Location {
    const width: Width
    var content: int

    ghost predicate Valid()
      reads this
    {
      Fits(width, content)
    }

    constructor (width: Width, content: int)
      requires Fits(width, content)
      ensures Valid() && this.width == width && this.content == content
    {
      this.width, this.content := width, content;
    }
  }

  // ---------- The operations ----------

  lemma NegatedAddSubtracts(w: Width, subtrahend: int, content: int)
    ensures After(w, FetchAdd(Wrap(w, -subtrahend)), content) == After(w, FetchSub(subtrahend), content)
  {
    WrapAdd(w, -subtrahend, content);
  }

  method FetchAddAt(a: Location, addend: int) returns (prior: int)
    requires a.Valid() && WellTyped(a.width, FetchAdd(addend))
    modifies a
    ensures a.Valid()
    ensures prior == old(a.content) && a.content == After(a.width, FetchAdd(addend), old(a.content))
  {
    prior := a.content;
    a.content := Wrap(a.width, prior + addend);
  }

  method FetchSubAt(platform: Platform, a: Location, subtrahend: int) returns (prior: int)
    requires a.Valid() && WellTyped(a.width, FetchSub(subtrahend))
    modifies a
    ensures a.Valid()
    ensures prior == old(a.content) && a.content == After(a.width, FetchSub(subtrahend), old(a.content))
  {
    if platform == Msvc {
      NegatedAddSubtracts(a.width, subtrahend, a.content);
      prior := FetchAddAt(a, Wrap(a.width, -subtrahend));
    } else {
      prior := a.content;
      a.content := Wrap(a.width, prior - subtrahend);
    }
  }

  method FetchAt(platform: Platform, a: Location) returns (value: int)
    requires a.Valid()
    modifies a
    ensures a.Valid()
    ensures value == old(a.content) && a.content == After(a.width, Fetch, old(a.content))
  {
    if platform == Msvc {
      value := FetchAddAt(a, 0);
    } else {
      value := a.content;
    }
  }

  method ExchangeAt(a: Location, value: int) returns (prior: int)
    requires a.Valid() && WellTyped(a.width, Exchange(value))
    modifies a
    ensures a.Valid()
    ensures prior == old(a.content) && a.content == After(a.width, Exchange(value), old(a.content))
  {
    prior := a.content;
    a.content := value;
  }

  method CompareExchangeStrong(a: Location, expected: int, newValue: int) returns (actual: int)
    requires a.Valid() && WellTyped(a.width, CasStrong(expected, newValue))
    modifies a
    ensures a.Valid()
    ensures actual == old(a.content) && a.content == After(a.width, CasStrong(expected, newValue), old(a.content))
  {
    actual := expected;
    if a.content == actual {
      a.content := newValue;
    } else {
      actual := a.content;
    }
  }

  method CompareExchangeWeak(a: Location, expected: int, newValue: int, spurious: bool) returns (actual: int)
    requires a.Valid() && WellTyped(a.width, CasWeak(expected, newValue, spurious))
    modifies a
    ensures a.Valid()
    ensures actual == old(a.content)
    ensures a.content == After(a.width, CasWeak(expected, newValue, spurious), old(a.content))
  {
    actual := expected;
    if a.content == actual && !spurious {
      a.content := newValue;
    } else {
      actual := a.content;
    }
  }

  /** The pointer load is a strong compare-exchange of null for null; it reads like a plain load and writes nothing. */
  method PtrFetch(ptr: Location) returns (value: int)
    requires ptr.Valid() && ptr.width == W64
    modifies ptr
    ensures ptr.Valid()
    ensures value == old(ptr.content) && ptr.content == old(ptr.content)
  {
    value := CompareExchangeStrong(ptr, NULL, NULL);
  }

  // ---------- Runs ----------

  /** The content after a run. */
  function Final(w: Width, ops: seq<Op>, init: int): int {
    if ops == [] then init else After(w, ops[|ops| - 1], Final(w, ops[..|ops| - 1], init))
  }

  /** The value returned to the `k`-th operation of a run: the content it finds. */
  function Return(w: Width, ops: seq<Op>, init: int, k: nat): int
    requires k < |ops|
  {
    Final(w, ops[..k], init)
  }

  function Returns(w: Width, ops: seq<Op>, init: int): (rs: seq<int>)
    ensures |rs| == |ops|
    ensures forall k :: 0 <= k < |ops| ==> rs[k] == Return(w, ops, init, k)
  {
    seq(|ops|, k requires 0 <= k < |ops| => Return(w, ops, init, k))
  }

  lemma ReturnsSnoc(w: Width, ops: seq<Op>, op: Op, init: int)
    ensures Returns(w, ops + [op], init) == Returns(w, ops, init) + [Final(w, ops, init)]
    ensures Final(w, ops + [op], init) == After(w, op, Final(w, ops, init))
  {
    assert (ops + [op])[..|ops|] == ops;
    forall k | 0 <= k < |ops|
      ensures Return(w, ops + [op], init, k) == Return(w, ops, init, k)
    {
      assert (ops + [op])[..k] == ops[..k];
    }
  }

  // ---------- Conservation of values ----------

  /** The operation stored a value when it found `content`. */
  predicate Stores(op: Op, content: int) {
    match op
    case Fetch => false
    case CasStrong(expected, _) => content == expected
    case CasWeak(expected, _, spurious) => content == expected && !spurious
    case _ => true
  }

  /** Values removed from the word by the storing operations of a run, each as returned to its caller. */
  ghost function Taken(w: Width, ops: seq<Op>, init: int): multiset<int> {
    if ops == [] then multiset{}
    else
      var front, op := ops[..|ops| - 1], ops[|ops| - 1];
      var found := Final(w, front, init);
      Taken(w, front, init) + if Stores(op, found) then multiset{found} else multiset{}
  }

  /** Values put into the word by the storing operations of a run. */
  ghost function Put(w: Width, ops: seq<Op>, init: int): multiset<int> {
    if ops == [] then multiset{}
    else
      var front, op := ops[..|ops| - 1], ops[|ops| - 1];
      var found := Final(w, front, init);
      Put(w, front, init) + if Stores(op, found) then multiset{After(w, op, found)} else multiset{}
  }

  /** In every run of any operations, no value is lost or duplicated: what was taken out, together with what is left,
   * is what was there at first together with what was put in. */
  lemma {:induction false} ValuesConserved(w: Width, ops: seq<Op>, init: int)
    ensures Taken(w, ops, init) + multiset{Final(w, ops, init)} == multiset{init} + Put(w, ops, init)
  {
    if ops != [] {
      var front, op := ops[..|ops| - 1], ops[|ops| - 1];
      ValuesConserved(w, front, init);
      var found := Final(w, front, init);
      if Stores(op, found) {
        calc {
          Taken(w, ops, init) + multiset{Final(w, ops, init)};
          (Taken(w, front, init) + multiset{found}) + multiset{After(w, op, found)};
          (multiset{init} + Put(w, front, init)) + multiset{After(w, op, found)};
          multiset{init} + Put(w, ops, init);
        }
      } else {
        assert After(w, op, found) == found;
        assert Taken(w, ops, init) == Taken(w, front, init) && Put(w, ops, init) == Put(w, front, init);
      }
    }
  }

  function ExchangeRun(values: seq<int>): (ops: seq<Op>) {
    seq(|values|, k requires 0 <= k < |values| => Exchange(values[k]))
  }

  /** For a run of exchanges, stated on the returned values themselves. */
  lemma {:induction false} ExchangesConserve(w: Width, values: seq<int>, init: int)
    ensures multiset(Returns(w, ExchangeRun(values), init)) + multiset{Final(w, ExchangeRun(values), init)}
         == multiset{init} + multiset(values)
  {
    if values != [] {
      var front, v := values[..|values| - 1], values[|values| - 1];
      assert values == front + [v];
      assert ExchangeRun(values) == ExchangeRun(front) + [Exchange(v)];
      ReturnsSnoc(w, ExchangeRun(front), Exchange(v), init);
      ExchangesConserve(w, front, init);
    }
  }

  // ---------- Counting ----------

  /** What an operation adds to the word, when it is one that only counts. */
  predicate Counts(op: Op) {
    op.FetchAdd? || op.FetchSub? || op.Fetch?
  }

  function Amount(op: Op): int
    requires Counts(op)
  {
    match op
    case FetchAdd(addend) => addend
    case FetchSub(subtrahend) => -subtrahend
    case Fetch => 0
  }

  ghost predicate CountingRun(ops: seq<Op>) {
    forall k :: 0 <= k < |ops| ==> Counts(ops[k])
  }

  ghost function Total(ops: seq<Op>): int
    requires CountingRun(ops)
  {
    if ops == [] then 0 else Total(ops[..|ops| - 1]) + Amount(ops[|ops| - 1])
  }

  lemma CountingStep(w: Width, op: Op, content: int, sum: int)
    requires Counts(op) && content == Wrap(w, sum)
    ensures After(w, op, content) == Wrap(w, sum + Amount(op))
  {
    WrapAdd(w, sum, Amount(op));
  }

  /** The final value of a counting run is the initial one plus everything added, reduced to the width. */
  lemma {:induction false} CountingFinal(w: Width, ops: seq<Op>, init: int)
    requires CountingRun(ops) && Fits(w, init)
    ensures Final(w, ops, init) == Wrap(w, init + Total(ops))
  {
    if ops != [] {
      var front, op := ops[..|ops| - 1], ops[|ops| - 1];
      CountingFinal(w, front, init);
      CountingStep(w, op, Final(w, front, init), init + Total(front));
    }
  }

  /** Each counting operation returns the prefix sum at its place in the order. */
  lemma CountingReturns(w: Width, ops: seq<Op>, init: int, k: nat)
    requires CountingRun(ops) && Fits(w, init) && k < |ops|
    ensures Return(w, ops, init, k) == Wrap(w, init + Total(ops[..k]))
  {
    CountingFinal(w, ops[..k], init);
  }

  /** Taking one operation out of a run takes its amount out of the total. */
  lemma {:induction false} TotalWithout(ops: seq<Op>, k: nat)
    requires CountingRun(ops) && k < |ops|
    ensures Total(ops) == Total(ops[..k] + ops[k + 1..]) + Amount(ops[k])
  {
    var last := |ops| - 1;
    if k == last {
      assert ops[..k] + ops[k + 1..] == ops[..last];
    } else {
      var front := ops[..last];
      TotalWithout(front, k);
      var rest := ops[..k] + ops[k + 1..];
      assert rest[|rest| - 1] == ops[last];
      assert rest[..|rest| - 1] == front[..k] + front[k + 1..];
    }
  }

  lemma SplitAt(ops: seq<Op>, k: nat)
    requires k < |ops|
    ensures multiset(ops) == multiset(ops[..k] + ops[k + 1..]) + multiset{ops[k]}
  {
    assert ops == ops[..k] + [ops[k]] + ops[k + 1..];
  }

  lemma SameWithout<T>(a: multiset<T>, b: multiset<T>, x: T)
    requires a + multiset{x} == b + multiset{x}
    ensures a == b
  {
    assert a == (a + multiset{x}) - multiset{x};
    assert b == (b + multiset{x}) - multiset{x};
  }

  lemma {:induction false} TotalOfPermutation(ops: seq<Op>, ops': seq<Op>)
    requires CountingRun(ops) && CountingRun(ops') && multiset(ops) == multiset(ops')
    ensures Total(ops) == Total(ops')
  {
    if ops == [] {
      assert |multiset(ops')| == 0;
    } else {
      var last := |ops| - 1;
      assert ops[..last] + ops[last + 1..] == ops[..last];
      SplitAt(ops, last);
      assert ops[last] in multiset(ops');
      var k :| 0 <= k < |ops'| && ops'[k] == ops[last];
      SplitAt(ops', k);
      TotalWithout(ops', k);
      SameWithout(multiset(ops[..last]), multiset(ops'[..k] + ops'[k + 1..]), ops[last]);
      TotalOfPermutation(ops[..last], ops'[..k] + ops'[k + 1..]);
    }
  }

  /** However the scheduler orders the same counting operations, the word ends with the same value. */
  lemma CountingOrderIrrelevant(w: Width, ops: seq<Op>, ops': seq<Op>, init: int)
    requires CountingRun(ops) && CountingRun(ops') && multiset(ops) == multiset(ops') && Fits(w, init)
    ensures Final(w, ops, init) == Final(w, ops', init)
  {
    TotalOfPermutation(ops, ops');
    CountingFinal(w, ops, init);
    CountingFinal(w, ops', init);
  }

  lemma {:induction false} TotalOfOnes(ops: seq<Op>)
    requires forall k :: 0 <= k < |ops| ==> ops[k] == FetchAdd(1)
    ensures CountingRun(ops) && Total(ops) == |ops|
  {
    if ops != [] {
      TotalOfOnes(ops[..|ops| - 1]);
    }
  }

  lemma TicketNumber(w: Width, ops: seq<Op>, init: int, k: nat)
    requires forall j :: 0 <= j < |ops| ==> ops[j] == FetchAdd(1)
    requires Fits(w, init) && k < |ops|
    ensures Return(w, ops, init, k) == Wrap(w, init + k)
  {
    TotalOfOnes(ops[..k]);
    CountingFinal(w, ops[..k], init);
  }

  /** Fetch-and-increment hands out the same number twice exactly when a whole number of cycles of the width lies
   * between; so the numbers are distinct until a cycle has been used up. */
  lemma TicketsDistinct(w: Width, ops: seq<Op>, init: int, i: nat, j: nat)
    requires forall k :: 0 <= k < |ops| ==> ops[k] == FetchAdd(1)
    requires Fits(w, init) && i <= j < |ops|
    ensures Return(w, ops, init, i) == Return(w, ops, init, j) <==> (j - i) % Modulus(w) == 0
  {
    TicketNumber(w, ops, init, i);
    TicketNumber(w, ops, init, j);
    WrapEqualIff(w, init + i, init + j);
  }

  // ---------- Compare-exchange ----------

  /** In any run, the caller of a strong compare-exchange that asks for a change learns from the returned value whether
   * it was made. With the weak form a change implies that return; the converse holds exactly when it did not fail
   * spuriously on a match. */
  lemma CasReturnMeaning(w: Width, ops: seq<Op>, init: int, k: nat)
    requires k < |ops| && (ops[k].CasStrong? || ops[k].CasWeak?)
    ensures var op, found, left := ops[k], Return(w, ops, init, k), Final(w, ops[..k + 1], init);
            && (left != found ==> found == op.expected && left == op.desired)
            && (op.CasStrong? && op.desired != op.expected ==> (found == op.expected <==> left != found))
            && (op.CasWeak? && op.desired != op.expected ==>
                  ((found == op.expected <==> left != found) <==> !(op.spurious && found == op.expected)))
  {
    assert ops[..k + 1][..k] == ops[..k];
  }

  ghost predicate StrongRun(ops: seq<Op>) {
    forall k :: 0 <= k < |ops| ==> ops[k].CasStrong?
  }

  /** The values that the callers who were returned what they expected believe to have replaced. */
  ghost function Replaced(ops: seq<Op>, actuals: seq<int>): multiset<int>
    requires |ops| == |actuals| && StrongRun(ops)
  {
    if ops == [] then multiset{}
    else
      var n := |ops| - 1;
      Replaced(ops[..n], actuals[..n])
      + if actuals[n] == ops[n].expected then multiset{ops[n].expected} else multiset{}
  }

  /** The values that these callers believe to have stored. */
  ghost function Installed(ops: seq<Op>, actuals: seq<int>): multiset<int>
    requires |ops| == |actuals| && StrongRun(ops)
  {
    if ops == [] then multiset{}
    else
      var n := |ops| - 1;
      Installed(ops[..n], actuals[..n])
      + if actuals[n] == ops[n].expected then multiset{ops[n].desired} else multiset{}
  }

  /** What the callers conclude from the returned values alone adds up: in every run of strong compare-exchanges, the
   * values replaced and the final content are the initial content and the values installed. */
  lemma {:induction false} StrongRunConserves(w: Width, ops: seq<Op>, init: int)
    requires StrongRun(ops)
    ensures Replaced(ops, Returns(w, ops, init)) + multiset{Final(w, ops, init)}
         == multiset{init} + Installed(ops, Returns(w, ops, init))
  {
    if ops != [] {
      var n := |ops| - 1;
      var front := ops[..n];
      assert ops == front + [ops[n]];
      ReturnsSnoc(w, front, ops[n], init);
      StrongRunConserves(w, front, init);
      var actuals, before, found := Returns(w, ops, init), Returns(w, front, init), Final(w, front, init);
      assert actuals[..n] == before && actuals[n] == found;
      if found == ops[n].expected {
        assert Replaced(ops, actuals) == Replaced(front, before) + multiset{found};
        assert Installed(ops, actuals) == Installed(front, before) + multiset{ops[n].desired};
      } else {
        assert Replaced(ops, actuals) == Replaced(front, before);
        assert Installed(ops, actuals) == Installed(front, before);
      }
    }
  }

  /** A caller of the weak form cannot tell a store from a spurious failure by the returned value. */
  lemma WeakReturnAmbiguous(w: Width, e: int, d: int)
    requires d != e
    ensures var stored, failed := [CasWeak(e, d, false)], [CasWeak(e, d, true)];
            Returns(w, stored, e) == Returns(w, failed, e) && Final(w, stored, e) != Final(w, failed, e)
  {
    assert [CasWeak(e, d, false)][..0] == [] == [CasWeak(e, d, true)][..0];
  }

  /** Between operations `i` and `j` of the run, nothing puts `e` into a word that holds something else. */
  ghost predicate NotRestored(w: Width, ops: seq<Op>, init: int, e: int, i: nat, j: nat)
    requires j <= |ops|
  {
    forall k: nat :: i < k < j && Return(w, ops, init, k) != e ==> Final(w, ops[..k + 1], init) != e
  }

  lemma {:induction false} StaysAway(w: Width, ops: seq<Op>, init: int, e: int, i: nat, j: nat)
    requires i < j <= |ops| && NotRestored(w, ops, init, e, i, j)
    requires Final(w, ops[..i + 1], init) != e
    ensures Final(w, ops[..j], init) != e
    decreases j - i
  {
    if i + 1 < j {
      StaysAway(w, ops, init, e, i, j - 1);
      assert Return(w, ops, init, j - 1) != e;
    }
  }

  /** Of two compare-exchanges that expect `e`, the first of which replaces it by something else, at most one stores
   * unless the run puts `e` back in between; so at most one strong one is told that it succeeded, and if the first
   * operation of the run is such a strong one on a word holding `e`, it is that one. */
  lemma CasWinnerUnique(w: Width, ops: seq<Op>, init: int, e: int, i: nat, j: nat)
    requires i < j < |ops| && NotRestored(w, ops, init, e, i, j)
    requires ops[i].CasStrong? || ops[i].CasWeak?
    requires ops[j].CasStrong? || ops[j].CasWeak?
    requires ops[i].expected == e == ops[j].expected && ops[i].desired != e
    ensures !(Stores(ops[i], Return(w, ops, init, i)) && Stores(ops[j], Return(w, ops, init, j)))
    ensures ops[i].CasStrong? && Return(w, ops, init, i) == e ==> Return(w, ops, init, j) != e
    ensures i == 0 && ops[0].CasStrong? && init == e ==> Return(w, ops, init, 0) == e && Return(w, ops, init, j) != e
  {
    assert ops[..i + 1][..i] == ops[..i];
    if Stores(ops[i], Return(w, ops, init, i)) {
      StaysAway(w, ops, init, e, i, j);
    }
  }

  // ---------- Platforms ----------

  /** How MSVC, which has no subtract or load intrinsic, performs an operation. */
  function OnMsvc(w: Width, op: Op): Op {
    match op
    case FetchSub(subtrahend) => FetchAdd(Wrap(w, -subtrahend))
    case Fetch => FetchAdd(0)
    case _ => op
  }

  lemma LoweredStep(w: Width, op: Op, content: int)
    requires WellTyped(w, op) && Fits(w, content)
    ensures Fits(w, After(w, op, content))
    ensures After(w, OnMsvc(w, op), content) == After(w, op, content)
  {
    if op.FetchSub? {
      NegatedAddSubtracts(w, op.subtrahend, content);
    }
  }

  function LoweredRun(w: Width, ops: seq<Op>): seq<Op> {
    seq(|ops|, k requires 0 <= k < |ops| => OnMsvc(w, ops[k]))
  }

  /** Replacing operations by their MSVC forms changes nothing any thread can see: same returns, same final word.
   * This includes subtracting the minimum value, whose negation is not representable. */
  lemma {:induction false} LoweringRefines(w: Width, ops: seq<Op>, init: int)
    requires Fits(w, init) && forall k :: 0 <= k < |ops| ==> WellTyped(w, ops[k])
    ensures Fits(w, Final(w, ops, init))
    ensures |LoweredRun(w, ops)| == |ops|
    ensures forall k :: 0 <= k < |ops| ==> !LoweredRun(w, ops)[k].FetchSub? && !LoweredRun(w, ops)[k].Fetch?
    ensures Final(w, LoweredRun(w, ops), init) == Final(w, ops, init)
    ensures Returns(w, LoweredRun(w, ops), init) == Returns(w, ops, init)
  {
    if ops != [] {
      var front, op := ops[..|ops| - 1], ops[|ops| - 1];
      assert ops == front + [op];
      assert LoweredRun(w, ops) == LoweredRun(w, front) + [OnMsvc(w, op)];
      LoweringRefines(w, front, init);
      ReturnsSnoc(w, front, op, init);
      ReturnsSnoc(w, LoweredRun(w, front), OnMsvc(w, op), init);
      LoweredStep(w, op, Final(w, front, init));
    }
  }

  /** Replace every pointer load of a run by the compare-exchange that implements it. */
  function PtrLoadsAsCas(ops: seq<Op>): seq<Op> {
    seq(|ops|, k requires 0 <= k < |ops| => if ops[k] == Fetch then CasStrong(NULL, NULL) else ops[k])
  }

  /** The implementation of the pointer load refines a plain load in every run. */
  lemma {:induction false} PtrFetchRefinesLoad(w: Width, ops: seq<Op>, init: int)
    ensures |PtrLoadsAsCas(ops)| == |ops|
    ensures forall k :: 0 <= k < |ops| ==>
              PtrLoadsAsCas(ops)[k] == if ops[k].Fetch? then CasStrong(0, 0) else ops[k]
    ensures Final(w, PtrLoadsAsCas(ops), init) == Final(w, ops, init)
    ensures Returns(w, PtrLoadsAsCas(ops), init) == Returns(w, ops, init)
  {
    if ops != [] {
      var front, op := ops[..|ops| - 1], ops[|ops| - 1];
      var op' := if op == Fetch then CasStrong(NULL, NULL) else op;
      assert ops == front + [op];
      assert PtrLoadsAsCas(ops) == PtrLoadsAsCas(front) + [op'];
      PtrFetchRefinesLoad(w, front, init);
      ReturnsSnoc(w, front, op, init);
      ReturnsSnoc(w, PtrLoadsAsCas(front), op', init);
    }
  }
}
