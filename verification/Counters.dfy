/** Striped statistics counters as the calls of one thread (mongoc/mongoc-counters-private.h).
 *
 * A counter is one int64 slot per CPU; the slots of up to eight counters share each CPU's cache line. */
module Counters {
  import opened MachineInt
  import opened Atomic

  const SLOTS_PER_CACHELINE: nat := 8

  function Sum(xs: seq<int>): int {
    if xs == [] then 0 else xs[0] + Sum(xs[1..])
  }

  lemma {:induction false} SumConcat(xs: seq<int>, ys: seq<int>)
    ensures Sum(xs + ys) == Sum(xs) + Sum(ys)
  {
    if xs == [] {
      assert xs + ys == ys;
    } else {
      assert (xs + ys)[1..] == xs[1..] + ys;
      SumConcat(xs[1..], ys);
    }
  }

  lemma SumTake(xs: seq<int>, i: nat)
    requires i < |xs|
    ensures Sum(xs[..i + 1]) == Sum(xs[..i]) + xs[i]
  {
    assert xs[..i + 1] == xs[..i] + [xs[i]];
    SumConcat(xs[..i], [xs[i]]);
  }

  lemma SumDrop(xs: seq<int>, i: nat)
    requires i < |xs|
    ensures Sum(xs[i..]) == xs[i] + Sum(xs[i + 1..])
  {
    assert xs[i..][1..] == xs[i + 1..];
  }

  lemma SumUpdate(xs: seq<int>, i: nat, x: int)
    requires i < |xs|
    ensures Sum(xs[i := x]) == Sum(xs) - xs[i] + x
  {
    assert xs == xs[..i] + xs[i..];
    assert xs[i := x] == xs[..i] + ([x] + xs[i + 1..]);
    SumConcat(xs[..i], xs[i..]);
    SumConcat(xs[..i], [x] + xs[i + 1..]);
    SumDrop(xs, i);
  }

  lemma {:induction false} SumOfZeros(xs: seq<int>)
    requires forall i :: 0 <= i < |xs| ==> xs[i] == 0
    ensures Sum(xs) == 0
  {
    if xs != [] {
      SumOfZeros(xs[1..]);
    }
  }

  /** `_sum += value` on an int32 accumulator and an int64 value: the addition is in 64 bits, the assignment in 32. */
  function Accumulate(sum: int, value: int): (r: int)
    ensures Fits(W32, r)
  {
    Wrap(W32, Wrap(W64, sum + value))
  }

  /** If the accumulator is congruent to a total before a step, it is afterwards. */
  lemma AccumulateExact(sum: int, total: int, value: int)
    requires sum == Wrap(W32, total)
    ensures Accumulate(sum, value) == Wrap(W32, total + value)
  {
    WrapNarrow(sum + value);
    WrapAdd(W32, total, value);
  }

  /** The words behind a sequence of locations. */
  ghost function Contents(cells: seq<Location>): (xs: seq<int>)
    reads cells
    ensures |xs| == |cells| && forall i :: 0 <= i < |cells| ==> xs[i] == cells[i].content
  {
    if cells == [] then [] else [cells[0].content] + Contents(cells[1..])
  }

  /** The memory a group of counters shares: a row of eight words for every CPU, no word used twice. */
  class Segment {
    const rows: seq<seq<Location>>

    ghost predicate WellFormed() {
      && |rows| > 0
      && (forall c :: 0 <= c < |rows| ==> |rows[c]| == SLOTS_PER_CACHELINE)
      && (forall c, k :: 0 <= c < |rows| && 0 <= k < SLOTS_PER_CACHELINE ==> rows[c][k].width == W64)
      && (forall c, k, c', k' ::
            && 0 <= c < |rows| && 0 <= k < SLOTS_PER_CACHELINE
            && 0 <= c' < |rows| && 0 <= k' < SLOTS_PER_CACHELINE
            && (c != c' || k != k')
            ==> rows[c][k] != rows[c'][k'])
    }

    constructor (rows: seq<seq<Location>>)
      ensures this.rows == rows
    {
      this.rows := rows;
    }
  }

  class Counter {
    const cpus: Segment
    const ident: nat

    constructor (cpus: Segment, ident: nat)
      ensures this.cpus == cpus && this.ident == ident
    {
      this.cpus, this.ident := cpus, ident;
    }

    ghost predicate WellFormed() {
      cpus.WellFormed()
    }

    function CpuCount(): nat {
      |cpus.rows|
    }

    function Slot(cpu: nat): Location
      requires WellFormed() && cpu < CpuCount()
    {
      cpus.rows[cpu][ident % SLOTS_PER_CACHELINE]
    }

    /** The words of this counter, one per CPU. */
    function Slots(): (cells: seq<Location>)
      requires WellFormed()
      ensures |cells| == |cpus.rows|
      ensures forall i :: 0 <= i < |cells| ==> cells[i] == cpus.rows[i][ident % 8]
      ensures forall i, j :: 0 <= i < j < |cells| ==> cells[i] != cells[j]
    {
      seq(CpuCount(), i requires 0 <= i < CpuCount() => Slot(i))
    }

    ghost predicate Valid()
      requires WellFormed()
      reads Slots()
    {
      forall i :: 0 <= i < |Slots()| ==> Slots()[i].Valid()
    }

    /** What the words of this counter hold. */
    ghost function Values(): (xs: seq<int>)
      requires WellFormed()
      reads Slots()
      ensures |xs| == |cpus.rows|
      ensures forall c :: 0 <= c < |xs| ==> xs[c] == cpus.rows[c][ident % 8].content
    {
      Contents(Slots())
    }

    /** No word is a slot of both counters. */
    ghost predicate Beside(other: Counter) {
      && WellFormed() && other.WellFormed()
      && forall i, j :: 0 <= i < CpuCount() && 0 <= j < other.CpuCount() ==> Slot(i) != other.Slot(j)
    }

    /** `cpu` is what the scheduler reports at the time of the call. */
    method Add(cpu: nat, val: I64)
      requires WellFormed() && Valid() && cpu < |cpus.rows|
      modifies Slot(cpu)
      ensures Valid()
      ensures Values() == old(Values())[cpu := Wrap(W64, old(Values())[cpu] + val)]
      ensures forall c :: 0 <= c < |cpus.rows| ==>
                cpus.rows[c][ident % 8].content
                == if c == cpu then Wrap(W64, old(cpus.rows[c][ident % 8].content) + val)
                   else old(cpus.rows[c][ident % 8].content)
      ensures forall other: Counter :: old(allocated(other)) && Beside(other) ==> other.Values() == old(other.Values())
    {
      var counter := Slots()[cpu];
      var _ := FetchAddAt(counter, val);
    }

    method Inc(cpu: nat)
      requires WellFormed() && Valid() && cpu < |cpus.rows|
      modifies Slot(cpu)
      ensures Valid()
      ensures Values() == old(Values())[cpu := Wrap(W64, old(Values())[cpu] + 1)]
      ensures forall other: Counter :: old(allocated(other)) && Beside(other) ==> other.Values() == old(other.Values())
    {
      Add(cpu, 1);
    }

    method Dec(cpu: nat)
      requires WellFormed() && Valid() && cpu < |cpus.rows|
      modifies Slot(cpu)
      ensures Valid()
      ensures Values() == old(Values())[cpu := Wrap(W64, old(Values())[cpu] - 1)]
      ensures forall other: Counter :: old(allocated(other)) && Beside(other) ==> other.Values() == old(other.Values())
    {
      Add(cpu, -1);
    }

    method Reset()
      requires WellFormed() && Valid()
      modifies Slots()
      ensures Valid()
      ensures forall c :: 0 <= c < |cpus.rows| ==> cpus.rows[c][ident % 8].content == 0
      ensures Sum(Values()) == 0
      ensures forall other: Counter :: old(allocated(other)) && Beside(other) ==> other.Values() == old(other.Values())
    {
      var i := 0;
      while i < CpuCount()
        invariant 0 <= i <= CpuCount()
        invariant Valid()
        invariant forall c :: 0 <= c < i ==> Slots()[c].content == 0
      {
        var counter := Slots()[i];
        var _ := ExchangeAt(counter, 0);
        i := i + 1;
      }
      SumOfZeros(Values());
    }

    /** Every partial sum is cut down to 32 bits, yet the result is the whole total cut down once. */
    method Count(platform: Platform) returns (sum: int)
      requires WellFormed() && Valid()
      modifies Slots()
      ensures Valid() && Values() == old(Values())
      ensures |Values()| == |cpus.rows|
      ensures forall c :: 0 <= c < |cpus.rows| ==> Values()[c] == cpus.rows[c][ident % 8].content
      ensures sum == Wrap(W32, Sum(Values()))
      ensures sum == Sum(Values()) <==> Fits(W32, Sum(Values()))
      ensures forall other: Counter :: old(allocated(other)) && Beside(other) ==> other.Values() == old(other.Values())
    {
      sum := 0;
      var i := 0;
      ghost var values := Values();
      while i < CpuCount()
        invariant 0 <= i <= CpuCount()
        invariant Valid() && Values() == values
        invariant sum == Wrap(W32, Sum(values[..i]))
      {
        var counter := Slots()[i];
        var value := FetchAt(platform, counter);
        AccumulateExact(sum, Sum(values[..i]), value);
        SumTake(values, i);
        sum := Accumulate(sum, value);
        i := i + 1;
      }
      assert values[..i] == values;
    }
  }

  /** Two counters on one segment share words exactly when their identifiers agree modulo eight; then they share all
   * of them. */
  lemma SegmentMatesIndependent(a: Counter, b: Counter)
    requires a.cpus == b.cpus && a.WellFormed()
    ensures a.ident % SLOTS_PER_CACHELINE == b.ident % SLOTS_PER_CACHELINE ==> a.Slots() == b.Slots()
    ensures a.Beside(b) <==> a.ident % SLOTS_PER_CACHELINE != b.ident % SLOTS_PER_CACHELINE
  {
    if a.ident % SLOTS_PER_CACHELINE == b.ident % SLOTS_PER_CACHELINE {
      assert a.Slot(0) == b.Slot(0);
    }
  }

  /** Counters on segments with no word in common share no slot. */
  lemma SegmentsApartIndependent(a: Counter, b: Counter)
    requires a.WellFormed() && b.WellFormed()
    requires forall c, k, c', k' ::
               0 <= c < |a.cpus.rows| && 0 <= k < SLOTS_PER_CACHELINE
               && 0 <= c' < |b.cpus.rows| && 0 <= k' < SLOTS_PER_CACHELINE
               ==> a.cpus.rows[c][k] != b.cpus.rows[c'][k']
    ensures a.Beside(b)
  {
  }
}
