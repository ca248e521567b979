/** One striped counter used by any number of threads at once (mongoc/mongoc-counters-private.h).
 *
 * A step is one atomic operation of one thread, or the call or return of a function. `count` and `reset` visit the
 * slots one at a time, so other threads' steps fall between theirs. A run lists the events in the order in which they
 * take effect, so what is proved of every run holds of every interleaving. */
module CounterRuns {
  import opened MachineInt
  import Atomic
  import opened Counters

  /** Where a thread is. A scan keeps the 32-bit sum of the slots before `next`; a sweep has cleared them. */
  datatype Thread =
    | Idle
    | Scanning(next: nat, sum: int)
    | Sweeping(next: nat)

  datatype State = State(slots: seq<int>, threads: seq<Thread>)

  /** `Add` carries the CPU that the scheduler reported to the calling thread. */
  datatype Event =
    | Add(tid: nat, cpu: nat, val: int)
    | StartCount(tid: nat)
    | ReadSlot(tid: nat)
    | FinishCount(tid: nat)
    | StartReset(tid: nat)
    | ClearSlot(tid: nat)
    | FinishReset(tid: nat)

  predicate Enabled(s: State, e: Event) {
    && e.tid < |s.threads|
    && var thread := s.threads[e.tid];
       match e
       case Add(_, cpu, val) => thread.Idle? && cpu < |s.slots| && Fits(W64, val)
       case StartCount(_) => thread.Idle?
       case ReadSlot(_) => thread.Scanning? && thread.next < |s.slots|
       case FinishCount(_) => thread.Scanning? && thread.next == |s.slots|
       case StartReset(_) => thread.Idle?
       case ClearSlot(_) => thread.Sweeping? && thread.next < |s.slots|
       case FinishReset(_) => thread.Sweeping? && thread.next == |s.slots|
  }

  function Next(s: State, e: Event): State
    requires Enabled(s, e)
  {
    var thread := s.threads[e.tid];
    match e
    case Add(_, cpu, val) =>
      s.(slots := s.slots[cpu := Atomic.After(W64, Atomic.FetchAdd(val), s.slots[cpu])])
    case StartCount(t) =>
      s.(threads := s.threads[t := Scanning(0, 0)])
    case ReadSlot(t) =>
      s.(threads := s.threads[t := Scanning(thread.next + 1, Accumulate(thread.sum, s.slots[thread.next]))])
    case FinishCount(t) =>
      s.(threads := s.threads[t := Idle])
    case StartReset(t) =>
      s.(threads := s.threads[t := Sweeping(0)])
    case ClearSlot(t) =>
      State(s.slots[thread.next := Atomic.After(W64, Atomic.Exchange(0), s.slots[thread.next])],
            s.threads[t := Sweeping(thread.next + 1)])
    case FinishReset(t) =>
      s.(threads := s.threads[t := Idle])
  }

  /** All slots hold int64 values. */
  predicate AllFit(s: State) {
    forall i :: 0 <= i < |s.slots| ==> Fits(W64, s.slots[i])
  }

  /** The states before, between and after a sequence of events. */
  datatype Run = Run(states: seq<State>, events: seq<Event>) {

    predicate StepAt(k: nat)
      requires k < |events| && |states| == |events| + 1
    {
      Enabled(states[k], events[k]) && states[k + 1] == Next(states[k], events[k])
    }

    predicate Valid() {
      && |states| == |events| + 1
      && AllFit(states[0])
      && forall k: nat :: k < |events| ==> StepAt(k)
    }

    /** The total of the slots after the first `k` events. */
    function Total(k: nat): int
      requires k < |states|
    {
      Sum(states[k].slots)
    }
  }

  // ---------- What one event does to the memory ----------

  /** The slot an event changes and by how much; a cleared slot loses what the exchange returned. */
  datatype Effect = NoEffect | Changes(slot: nat, amount: int)

  function EffectOf(s: State, e: Event): Effect {
    if !Enabled(s, e) then NoEffect
    else
      match e
      case Add(_, cpu, val) => Changes(cpu, val)
      case ClearSlot(t) => Changes(s.threads[t].next, -s.slots[s.threads[t].next])
      case _ => NoEffect
  }

  /** The amount an event changes the slots from `lo` up to `hi` by. */
  function AmountIn(s: State, e: Event, lo: nat, hi: nat): int {
    match EffectOf(s, e)
    case Changes(slot, amount) => if lo <= slot < hi then amount else 0
    case NoEffect => 0
  }

  function AddedBy(e: Event): int {
    if e.Add? then e.val else 0
  }

  /** What an exchange of `reset` takes out and throws away. */
  function DiscardedBy(s: State, e: Event): int {
    if e.ClearSlot? && Enabled(s, e) then s.slots[s.threads[e.tid].next] else 0
  }

  lemma SlotsAfter(s: State, e: Event)
    requires Enabled(s, e) && AllFit(s)
    ensures var eff := EffectOf(s, e);
            && (eff.NoEffect? ==> Next(s, e).slots == s.slots)
            && (eff.Changes? ==> eff.slot < |s.slots|
                                 && Next(s, e).slots == s.slots[eff.slot := Wrap(W64, s.slots[eff.slot] + eff.amount)])
    ensures AllFit(Next(s, e)) && |Next(s, e).slots| == |s.slots| && |Next(s, e).threads| == |s.threads|
  {
  }

  lemma OthersKeepThread(s: State, e: Event, t: nat)
    requires Enabled(s, e) && t < |s.threads| && e.tid != t
    ensures Next(s, e).threads[t] == s.threads[t]
  {
  }

  lemma RangeUpdate(xs: seq<int>, j: nat, d: int, lo: nat, hi: nat) returns (q: int)
    requires j < |xs| && lo <= hi <= |xs|
    ensures var xs' := xs[j := Wrap(W64, xs[j] + d)];
            Sum(xs'[lo..hi]) == Sum(xs[lo..hi]) + (if lo <= j < hi then d else 0) + q * Modulus(W64)
  {
    var x := Wrap(W64, xs[j] + d);
    if lo <= j < hi {
      assert xs[j := x][lo..hi] == xs[lo..hi][j - lo := x];
      SumUpdate(xs[lo..hi], j - lo, x);
      q := WrapOffset(W64, xs[j] + d);
      q := -q;
    } else {
      assert xs[j := x][lo..hi] == xs[lo..hi];
      q := 0;
    }
  }

  /** A step changes the sum over any range of slots by its amount in the range, up to a multiple of 2^64. */
  lemma RangeStep(s: State, e: Event, lo: nat, hi: nat) returns (q: int)
    requires Enabled(s, e) && AllFit(s) && lo <= hi <= |s.slots| == |Next(s, e).slots|
    ensures Sum(Next(s, e).slots[lo..hi]) == Sum(s.slots[lo..hi]) + AmountIn(s, e, lo, hi) + q * Modulus(W64)
  {
    SlotsAfter(s, e);
    var eff := EffectOf(s, e);
    q := 0;
    if eff.Changes? {
      q := RangeUpdate(s.slots, eff.slot, eff.amount, lo, hi);
    }
  }

  lemma {:induction false} Shape(run: Run, k: nat)
    requires run.Valid() && k < |run.states|
    ensures AllFit(run.states[k])
    ensures |run.states[k].slots| == |run.states[0].slots| && |run.states[k].threads| == |run.states[0].threads|
  {
    if k > 0 {
      Shape(run, k - 1);
      assert run.StepAt(k - 1);
      SlotsAfter(run.states[k - 1], run.events[k - 1]);
    }
  }

  // ---------- Conservation ----------

  /** Everything added by `Add` events from event `a` up to event `b`, as a number without bounds. */
  function Added(run: Run, a: nat, b: nat): int
    requires b <= |run.events|
  {
    if b <= a then 0 else Added(run, a, b - 1) + AddedBy(run.events[b - 1])
  }

  /** Everything that the exchanges of resets took out. */
  function Discarded(run: Run, a: nat, b: nat): int
    requires b <= |run.events| < |run.states|
  {
    if b <= a then 0 else Discarded(run, a, b - 1) + DiscardedBy(run.states[b - 1], run.events[b - 1])
  }

  lemma TotalStep(s: State, e: Event) returns (q: int)
    requires Enabled(s, e) && AllFit(s)
    ensures Sum(Next(s, e).slots) + DiscardedBy(s, e) == Sum(s.slots) + AddedBy(e) + q * Modulus(W64)
  {
    SlotsAfter(s, e);
    var n := |s.slots|;
    q := RangeStep(s, e, 0, n);
    assert s.slots[0..n] == s.slots && Next(s, e).slots[0..n] == Next(s, e).slots;
  }

  lemma LedgerStep(run: Run, k: nat) returns (q: int)
    requires run.Valid() && k < |run.events|
    ensures run.Total(k + 1) + DiscardedBy(run.states[k], run.events[k])
         == run.Total(k) + AddedBy(run.events[k]) + q * Modulus(W64)
  {
    assert run.StepAt(k);
    Shape(run, k);
    q := TotalStep(run.states[k], run.events[k]);
  }

  lemma {:induction false} Ledger(run: Run, a: nat, b: nat) returns (q: int)
    requires run.Valid() && a <= b <= |run.events|
    ensures run.Total(b) + Discarded(run, a, b) == run.Total(a) + Added(run, a, b) + q * Modulus(W64)
  {
    q := 0;
    if a < b {
      q := Ledger(run, a, b - 1);
      var step := LedgerStep(run, b - 1);
      q := q + step;
    }
  }

  /** Conservation between any two points of any run: what the slots hold, together with what resets discarded, is
   * what they held at first together with everything added, up to 2^64. No update is lost or counted twice. */
  lemma NothingLost(run: Run, a: nat, b: nat)
    requires run.Valid() && a <= b <= |run.events|
    ensures Wrap(W64, run.Total(b) + Discarded(run, a, b)) == Wrap(W64, run.Total(a) + Added(run, a, b))
  {
    var q := Ledger(run, a, b);
    WrapShift(W64, run.Total(a) + Added(run, a, b), q);
  }

  // ---------- What a scan sees ----------

  /** Event `a` calls `count` on thread `t`, which has not returned before event `k`. */
  predicate Counting(run: Run, t: nat, a: nat, k: nat) {
    && run.Valid() && a < k <= |run.events|
    && run.events[a] == StartCount(t)
    && forall j :: a < j < k ==> run.events[j] != FinishCount(t)
  }

  predicate InScan(s: State, t: nat) {
    && t < |s.threads| && s.threads[t].Scanning?
    && s.threads[t].next <= |s.slots| && Fits(W32, s.threads[t].sum)
  }

  /** The sum a scan has so far together with all it has yet to read. */
  function Accounted(s: State, t: nat): int
    requires InScan(s, t)
  {
    s.threads[t].sum + Sum(s.slots[s.threads[t].next..])
  }

  /** The amount of an event that lands on a slot which the scan of `t` has not read yet. */
  function SeenOf(s: State, e: Event, t: nat): int {
    if InScan(s, t) then AmountIn(s, e, s.threads[t].next, |s.slots|) else 0
  }

  function Seen(run: Run, t: nat, a: nat, b: nat): int
    requires b <= |run.events| < |run.states|
  {
    if b <= a then 0 else Seen(run, t, a, b - 1) + SeenOf(run.states[b - 1], run.events[b - 1], t)
  }

  lemma ScanOwnStep(s: State, e: Event, t: nat) returns (q: int)
    requires InScan(s, t) && Enabled(s, e) && e.tid == t && e != FinishCount(t)
    ensures InScan(Next(s, e), t) && SeenOf(s, e, t) == 0
    ensures Accounted(Next(s, e), t) == Accounted(s, t) + q * Modulus(W32)
  {
    var i, sum := s.threads[t].next, s.threads[t].sum;
    assert e == ReadSlot(t);
    SumDrop(s.slots, i);
    WrapNarrow(sum + s.slots[i]);
    q := WrapOffset(W32, sum + s.slots[i]);
    q := -q;
  }

  lemma AheadStep(s: State, e: Event, i: nat) returns (q: int)
    requires Enabled(s, e) && AllFit(s) && i <= |s.slots|
    ensures |Next(s, e).slots| == |s.slots|
    ensures Sum(Next(s, e).slots[i..]) == Sum(s.slots[i..]) + AmountIn(s, e, i, |s.slots|) + q * Modulus(W32)
  {
    SlotsAfter(s, e);
    var xs, xs', n := s.slots, Next(s, e).slots, |s.slots|;
    assert xs[i..n] == xs[i..] && xs'[i..n] == xs'[i..];
    var q64 := RangeStep(s, e, i, n);
    q := q64 * 0x1_0000_0000;
  }

  lemma ScanOtherStep(s: State, e: Event, t: nat) returns (q: int)
    requires InScan(s, t) && AllFit(s) && Enabled(s, e) && e.tid != t
    ensures InScan(Next(s, e), t)
    ensures Accounted(Next(s, e), t) == Accounted(s, t) + SeenOf(s, e, t) + q * Modulus(W32)
  {
    OthersKeepThread(s, e, t);
    SlotsAfter(s, e);
    q := AheadStep(s, e, s.threads[t].next);
  }

  lemma ScanStep(s: State, e: Event, t: nat) returns (q: int)
    requires InScan(s, t) && AllFit(s) && Enabled(s, e) && e != FinishCount(t)
    ensures InScan(Next(s, e), t)
    ensures Accounted(Next(s, e), t) == Accounted(s, t) + SeenOf(s, e, t) + q * Modulus(W32)
  {
    if e.tid == t {
      q := ScanOwnStep(s, e, t);
    } else {
      q := ScanOtherStep(s, e, t);
    }
  }

  lemma ScanStarts(run: Run, t: nat, a: nat)
    requires Counting(run, t, a, a + 1)
    ensures InScan(run.states[a + 1], t) && Accounted(run.states[a + 1], t) == run.Total(a)
  {
    assert run.StepAt(a);
    assert run.states[a].slots[0..] == run.states[a].slots;
  }

  lemma ScanContinues(run: Run, t: nat, k: nat) returns (q: int)
    requires run.Valid() && k < |run.events| && InScan(run.states[k], t) && run.events[k] != FinishCount(t)
    ensures InScan(run.states[k + 1], t)
    ensures Accounted(run.states[k + 1], t)
         == Accounted(run.states[k], t) + SeenOf(run.states[k], run.events[k], t) + q * Modulus(W32)
  {
    assert run.StepAt(k);
    Shape(run, k);
    q := ScanStep(run.states[k], run.events[k], t);
  }

  /** The invariant of a scan in every run: its sum so far, together with the slots it has yet to read, accounts for
   * the total at its call and for exactly those updates that landed ahead of it, up to a multiple of 2^32. */
  lemma {:induction false} ScanInvariant(run: Run, t: nat, a: nat, k: nat) returns (q: int)
    requires Counting(run, t, a, k)
    ensures InScan(run.states[k], t)
    ensures Accounted(run.states[k], t) == run.Total(a) + Seen(run, t, a + 1, k) + q * Modulus(W32)
  {
    if k == a + 1 {
      ScanStarts(run, t, a);
      q := 0;
    } else {
      q := ScanInvariant(run, t, a, k - 1);
      var step := ScanContinues(run, t, k - 1);
      q := q + step;
    }
  }

  /** Event `a` calls `count` on thread `t`, and event `b` returns from it what the accumulator then holds, `r`. */
  predicate CountCall(run: Run, t: nat, a: nat, b: nat, r: int) {
    && Counting(run, t, a, b) && b < |run.events| && run.events[b] == FinishCount(t)
    && t < |run.states[b].threads| && run.states[b].threads[t].Scanning? && run.states[b].threads[t].sum == r
  }

  /** Every return from a `count` in any run is covered by what is proved of calls: it ends a call, and it returns. */
  lemma EveryReturnIsCall(run: Run, t: nat, a: nat, b: nat)
    requires Counting(run, t, a, b) && b < |run.events| && run.events[b] == FinishCount(t)
    ensures t < |run.states[b].threads| && run.states[b].threads[t].Scanning?
    ensures CountCall(run, t, a, b, run.states[b].threads[t].sum)
  {
    var _ := ScanInvariant(run, t, a, b);
  }

  /** What `count` returns in any run whatever: the total when it was called plus the updates that landed ahead of it,
   * cut down to 32 bits. */
  lemma CountResult(run: Run, t: nat, a: nat, b: nat, r: int)
    requires CountCall(run, t, a, b, r)
    ensures r == Wrap(W32, run.Total(a) + Seen(run, t, a + 1, b))
  {
    var q := ScanInvariant(run, t, a, b);
    assert run.StepAt(b);
    assert run.states[b].slots[|run.states[b].slots|..] == [];
    WrapUnique(W32, run.Total(a) + Seen(run, t, a + 1, b), -q, r);
  }

  lemma {:induction false} NothingSeen(run: Run, t: nat, a: nat, b: nat)
    requires run.Valid() && b <= |run.events|
    requires forall k :: a <= k < b ==> !run.events[k].Add? && !run.events[k].ClearSlot?
    ensures Seen(run, t, a, b) == 0
  {
    if a < b {
      NothingSeen(run, t, a, b - 1);
    }
  }

  /** Undisturbed by updates, it returns what the call of a single thread does. */
  lemma QuietCount(run: Run, t: nat, a: nat, b: nat, r: int)
    requires CountCall(run, t, a, b, r)
    requires forall k :: a < k < b ==> !run.events[k].Add? && !run.events[k].ClearSlot?
    ensures r == Wrap(W32, run.Total(a))
  {
    CountResult(run, t, a, b, r);
    NothingSeen(run, t, a + 1, b);
  }

  /** That is the true total exactly when the total is an int32 value. */
  lemma QuietCountExactIff(run: Run, t: nat, a: nat, b: nat, r: int)
    requires CountCall(run, t, a, b, r)
    requires forall k :: a < k < b ==> !run.events[k].Add? && !run.events[k].ClearSlot?
    ensures r == run.Total(a) <==> Fits(W32, run.Total(a))
  {
    QuietCount(run, t, a, b, r);
  }

  // ---------- Counters that go up and down ----------

  function RaisedBy(e: Event): nat {
    if AddedBy(e) > 0 then AddedBy(e) else 0
  }

  function LoweredBy(e: Event): nat {
    if AddedBy(e) < 0 then -AddedBy(e) else 0
  }

  /** The positive amounts added from event `a` up to event `b`. */
  function Raised(run: Run, a: nat, b: nat): nat
    requires b <= |run.events|
  {
    if b <= a then 0 else Raised(run, a, b - 1) + RaisedBy(run.events[b - 1])
  }

  /** The negative ones, as a positive number. */
  function Lowered(run: Run, a: nat, b: nat): nat
    requires b <= |run.events|
  {
    if b <= a then 0 else Lowered(run, a, b - 1) + LoweredBy(run.events[b - 1])
  }

  lemma {:induction false} SeenWithinSwings(run: Run, t: nat, a: nat, b: nat)
    requires run.Valid() && a < b <= |run.events|
    requires forall k :: a <= k < b ==> !run.events[k].ClearSlot?
    ensures 0 - Lowered(run, a, b) <= Seen(run, t, a + 1, b) <= Raised(run, a, b)
  {
    if a + 1 < b {
      SeenWithinSwings(run, t, a, b - 1);
    }
  }

  /** Of a counter that goes up and down, such as the number of active cursors, `count` is off the total at its call by
   * no more than all that is taken away, or all that is added, before it returns. */
  lemma CountWithinSwings(run: Run, t: nat, a: nat, b: nat, r: int)
    requires CountCall(run, t, a, b, r) && forall k :: a <= k < b ==> !run.events[k].ClearSlot?
    requires Fits(W32, run.Total(a) - Lowered(run, a, b)) && Fits(W32, run.Total(a) + Raised(run, a, b))
    ensures run.Total(a) - Lowered(run, a, b) <= r <= run.Total(a) + Raised(run, a, b)
  {
    CountResult(run, t, a, b, r);
    SeenWithinSwings(run, t, a, b);
  }

  // ---------- Counters that only grow ----------

  /** From event `a` up to event `b` no thread resets the counter and no amount is negative. */
  predicate OnlyGrowth(run: Run, a: nat, b: nat) {
    forall k :: a <= k < b && k < |run.events| ==> !run.events[k].ClearSlot? && AddedBy(run.events[k]) >= 0
  }

  lemma {:induction false} SeenPartOfAdded(run: Run, t: nat, a: nat, b: nat)
    requires run.Valid() && b <= |run.events| && OnlyGrowth(run, a, b)
    ensures 0 <= Seen(run, t, a, b) <= Added(run, a, b)
  {
    if a < b {
      SeenPartOfAdded(run, t, a, b - 1);
    }
  }

  lemma {:induction false} AddedSplit(run: Run, a: nat, m: nat, b: nat)
    requires a <= m <= b <= |run.events|
    ensures Added(run, a, b) == Added(run, a, m) + Added(run, m, b)
  {
    if m < b {
      AddedSplit(run, a, m, b - 1);
    }
  }

  /** While a counter only grows, `count` returns something between the total at its call and that total plus all that
   * is added before it returns, whatever the other threads do, as long as both are int32 values. */
  lemma CountWithinAdditions(run: Run, t: nat, a: nat, b: nat, r: int)
    requires CountCall(run, t, a, b, r) && OnlyGrowth(run, a, b)
    requires Fits(W32, run.Total(a)) && Fits(W32, run.Total(a) + Added(run, a, b))
    ensures run.Total(a) <= r <= run.Total(a) + Added(run, a, b)
  {
    CountResult(run, t, a, b, r);
    SeenPartOfAdded(run, t, a + 1, b);
    AddedSplit(run, a, a + 1, b);
  }

  /** An addition, if event `k` is one, stays within 64 bits in its slot. */
  predicate AddFitsAt(run: Run, k: nat)
    requires k < |run.events| < |run.states|
  {
    var s, e := run.states[k], run.events[k];
    e.Add? ==> e.cpu < |s.slots| && Fits(W64, s.slots[e.cpu] + e.val)
  }

  /** No atomic addition from event `a` up to event `b` wraps around. */
  predicate NoSlotOverflow(run: Run, a: nat, b: nat)
    requires b <= |run.events| < |run.states|
  {
    forall k: nat :: a <= k < b ==> AddFitsAt(run, k)
  }

  lemma TotalStepExact(run: Run, k: nat)
    requires run.Valid() && k < |run.events| && AddFitsAt(run, k) && !run.events[k].ClearSlot?
    ensures run.Total(k + 1) == run.Total(k) + AddedBy(run.events[k])
  {
    assert run.StepAt(k);
    var s, e := run.states[k], run.events[k];
    if e.Add? {
      SumUpdate(s.slots, e.cpu, s.slots[e.cpu] + e.val);
    }
  }

  /** Then, without resets, the slots gain exactly what is added. */
  lemma {:induction false} TotalTracksAdditions(run: Run, a: nat, b: nat)
    requires run.Valid() && a <= b <= |run.events| && NoSlotOverflow(run, a, b)
    requires forall k :: a <= k < b ==> !run.events[k].ClearSlot?
    ensures run.Total(b) == run.Total(a) + Added(run, a, b)
  {
    if a < b {
      assert AddFitsAt(run, b - 1);
      assert forall k: nat :: a <= k < b - 1 ==> AddFitsAt(run, k);
      TotalTracksAdditions(run, a, b - 1);
      TotalStepExact(run, b - 1);
    }
  }

  lemma {:induction false} AdditionsNotNegative(run: Run, a: nat, b: nat)
    requires b <= |run.events| && forall j :: a <= j < b ==> AddedBy(run.events[j]) >= 0
    ensures Added(run, a, b) >= 0
  {
    if a < b {
      AdditionsNotNegative(run, a, b - 1);
    }
  }

  lemma TotalNotLess(run: Run, a: nat, b: nat)
    requires run.Valid() && a <= b <= |run.events| && NoSlotOverflow(run, a, b) && OnlyGrowth(run, a, b)
    ensures run.Total(a) <= run.Total(b)
  {
    TotalTracksAdditions(run, a, b);
    AdditionsNotNegative(run, a, b);
  }

  /** In every run of any number of threads: while no thread resets, all amounts are non-negative and no slot
   * overflows, the value returned by a `count` lies between the totals at its call and at its return. */
  lemma CountBetweenTotals(run: Run, t: nat, a: nat, b: nat, r: int)
    requires CountCall(run, t, a, b, r) && OnlyGrowth(run, a, b) && NoSlotOverflow(run, a, b)
    requires Fits(W32, run.Total(a)) && Fits(W32, run.Total(b))
    ensures run.Total(a) <= r <= run.Total(b)
  {
    TotalTracksAdditions(run, a, b);
    CountWithinAdditions(run, t, a, b, r);
  }

  /** Hence two counts, one after the other, never go down, by whichever threads and with any steps between. */
  lemma LaterCountNotLess(run: Run, t: nat, a: nat, b: nat, r: int, t': nat, a': nat, b': nat, r': int)
    requires CountCall(run, t, a, b, r) && CountCall(run, t', a', b', r') && b <= a'
    requires OnlyGrowth(run, a, b') && NoSlotOverflow(run, a, b')
    requires Fits(W32, run.Total(a)) && Fits(W32, run.Total(b'))
    ensures r <= r'
  {
    assert forall k: nat :: a <= k < b' ==> AddFitsAt(run, k);
    TotalNotLess(run, a, b);
    TotalNotLess(run, b, a');
    TotalNotLess(run, a', b');
    CountBetweenTotals(run, t, a, b, r);
    CountBetweenTotals(run, t', a', b', r');
  }

  // ---------- When a count is the total of one instant ----------

  /** From event `a` up to event `b` no thread resets the counter and every amount is one of `amounts`. */
  ghost predicate AddsFrom(run: Run, a: nat, b: nat, amounts: iset<int>) {
    forall k :: a <= k < b && k < |run.events| ==>
      !run.events[k].ClearSlot? && (run.events[k].Add? ==> run.events[k].val in amounts)
  }

  /** At some instant from event `a` to event `b`, reading all slots at once would have given `r`. */
  ghost predicate InstantOf(run: Run, a: nat, b: nat, r: int)
    requires b < |run.states|
  {
    exists k: nat :: a <= k <= b && r == Wrap(W32, run.Total(k))
  }

  /** Whatever the run, a count beside additions of these amounts reads the counter as of one instant of the call. */
  ghost predicate AlwaysInstant(amounts: iset<int>) {
    forall run, t, a, b, r :: CountCall(run, t, a, b, r) && AddsFrom(run, a, b, amounts) ==> InstantOf(run, a, b, r)
  }

  /** To the 32-bit accumulator the amounts are zero or all the same. */
  ghost predicate OneAmount(amounts: iset<int>) {
    forall x, y :: x in amounts && y in amounts && Wrap(W32, x) != 0 && Wrap(W32, y) != 0 ==>
      Wrap(W32, x) == Wrap(W32, y)
  }

  /** The amounts from event `a` up to event `b` are zero or `d` to the accumulator. */
  predicate Uniform(run: Run, a: nat, b: nat, d: int) {
    forall k :: a <= k < b && k < |run.events| ==>
      && !run.events[k].ClearSlot?
      && (Wrap(W32, AddedBy(run.events[k])) == 0 || Wrap(W32, AddedBy(run.events[k])) == d)
  }

  function Hit(e: Event, d: int): nat {
    if Wrap(W32, AddedBy(e)) == d then 1 else 0
  }

  /** How often `d` is added from event `a` up to event `b`. */
  function Hits(run: Run, a: nat, b: nat, d: int): nat
    requires b <= |run.events|
  {
    if b <= a then 0 else Hits(run, a, b - 1, d) + Hit(run.events[b - 1], d)
  }

  /** The accumulator sees an event's amount as `d` or as nothing. */
  lemma HitValue(e: Event, d: int)
    requires Wrap(W32, AddedBy(e)) == 0 || Wrap(W32, AddedBy(e)) == d
    ensures Wrap(W32, AddedBy(e)) == Wrap(W32, Hit(e, d) * d)
  {
  }

  /** Adding an event's amount to something congruent to `x` and `m` times `d`. */
  lemma AddHit(x: int, m: nat, x': int, e: Event, d: int)
    requires Wrap(W32, AddedBy(e)) == 0 || Wrap(W32, AddedBy(e)) == d
    requires Wrap(W32, x') == Wrap(W32, x + m * d)
    ensures Wrap(W32, x' + AddedBy(e)) == Wrap(W32, x + (m + Hit(e, d)) * d)
  {
    HitValue(e, d);
    MulDistributes(m, Hit(e, d), d);
    WrapSum(W32, x', x + m * d, AddedBy(e), Hit(e, d) * d);
  }

  lemma TotalStepCongruent(run: Run, k: nat)
    requires run.Valid() && k < |run.events| && !run.events[k].ClearSlot?
    ensures Wrap(W32, run.Total(k + 1)) == Wrap(W32, run.Total(k) + AddedBy(run.events[k]))
  {
    var q := LedgerStep(run, k);
    WrapShift(W32, run.Total(k) + AddedBy(run.events[k]), q * 0x1_0000_0000);
  }

  lemma {:induction false} TotalCongruent(run: Run, a: nat, b: nat, d: int)
    requires run.Valid() && a <= b <= |run.events| && Uniform(run, a, b, d)
    ensures Wrap(W32, run.Total(b)) == Wrap(W32, run.Total(a) + Hits(run, a, b, d) * d)
  {
    assert 0 * d == 0;
    if a < b {
      TotalCongruent(run, a, b - 1, d);
      TotalStepCongruent(run, b - 1);
      var m := Hits(run, a, b - 1, d);
      AddHit(run.Total(a), m, run.Total(b - 1), run.events[b - 1], d);
    }
  }

  /** The totals pass through every multiple of `d` on their way. */
  lemma {:induction false} TakesEveryMultiple(run: Run, a: nat, b: nat, d: int, m: nat) returns (k: nat)
    requires run.Valid() && a <= b <= |run.events| && Uniform(run, a, b, d) && m <= Hits(run, a, b, d)
    ensures a <= k <= b && Wrap(W32, run.Total(k)) == Wrap(W32, run.Total(a) + m * d)
  {
    if m == Hits(run, a, b, d) {
      TotalCongruent(run, a, b, d);
      k := b;
    } else {
      k := TakesEveryMultiple(run, a, b - 1, d, m);
    }
  }

  lemma SeenIsAdded(s: State, e: Event, t: nat)
    requires !e.ClearSlot?
    ensures SeenOf(s, e, t) == 0 || SeenOf(s, e, t) == AddedBy(e)
  {
  }

  /** A scan sees `d` some number of times, at most as often as it is added. */
  lemma {:induction false} SeesMultiple(run: Run, t: nat, a: nat, b: nat, d: int) returns (m: nat)
    requires run.Valid() && a <= b <= |run.events| && Uniform(run, a, b, d)
    ensures m <= Hits(run, a, b, d) && Wrap(W32, Seen(run, t, a, b)) == Wrap(W32, m * d)
  {
    m := 0;
    if a < b {
      m := SeesMultiple(run, t, a, b - 1, d);
      var s, e := run.states[b - 1], run.events[b - 1];
      if SeenOf(s, e, t) != 0 {
        SeenIsAdded(s, e, t);
        AddHit(0, m, Seen(run, t, a, b - 1), e, d);
        m := m + Hit(e, d);
      }
    }
  }

  lemma UniformCountIsInstant(run: Run, t: nat, a: nat, b: nat, r: int, d: int) returns (k: nat)
    requires CountCall(run, t, a, b, r) && Uniform(run, a, b, d)
    ensures a <= k <= b && r == Wrap(W32, run.Total(k))
  {
    CountResult(run, t, a, b, r);
    var m := SeesMultiple(run, t, a + 1, b, d);
    assert run.StepAt(a) && run.Total(a + 1) == run.Total(a);
    WrapSum(W32, run.Total(a), run.Total(a), Seen(run, t, a + 1, b), m * d);
    k := TakesEveryMultiple(run, a + 1, b, d, m);
  }

  lemma OneAmountIsUniform(run: Run, a: nat, b: nat, amounts: iset<int>) returns (d: int)
    requires AddsFrom(run, a, b, amounts) && OneAmount(amounts)
    ensures Uniform(run, a, b, d)
  {
    if x :| x in amounts && Wrap(W32, x) != 0 {
      d := Wrap(W32, x);
    } else {
      d := 0;
    }
  }

  /** Two slots, a thread in `thread`, and an idle thread. */
  function TwoSlots(x: int, y: int, thread: Thread): State {
    State([x, y], [thread, Idle])
  }

  /** Thread 0 counts slots holding `p` and 0 while thread 1 adds `x` behind it and then `y` ahead of it. */
  function Across(p: int, x: int, y: int): Run {
    var r := Wrap(W32, p + y);
    Run([TwoSlots(p, 0, Idle), TwoSlots(p, 0, Scanning(0, 0)), TwoSlots(p, 0, Scanning(1, p)),
         TwoSlots(p + x, 0, Scanning(1, p)), TwoSlots(p + x, y, Scanning(1, p)), TwoSlots(p + x, y, Scanning(2, r)),
         TwoSlots(p + x, y, Idle)],
        [StartCount(0), ReadSlot(0), Add(1, 0, x), Add(1, 1, y), ReadSlot(0), FinishCount(0)])
  }

  lemma AcrossSteps(p: int, x: int, y: int)
    requires Fits(W32, p) && Fits(W64, x) && Fits(W64, y) && Fits(W64, p + x)
    ensures Across(p, x, y).StepAt(0) && Across(p, x, y).StepAt(1) && Across(p, x, y).StepAt(2)
    ensures Across(p, x, y).StepAt(3) && Across(p, x, y).StepAt(4) && Across(p, x, y).StepAt(5)
  {
    WrapNarrow(p + y);
  }

  lemma SumOfTwo(x: int, y: int)
    ensures Sum([x, y]) == x + y
  {
    SumDrop([x, y], 0);
    SumDrop([x, y], 1);
    assert [x, y][0..] == [x, y] && [x, y][2..] == [];
  }

  lemma SixSteps(run: Run)
    requires |run.events| == 6 && |run.states| == 7 && AllFit(run.states[0])
    requires run.StepAt(0) && run.StepAt(1) && run.StepAt(2) && run.StepAt(3) && run.StepAt(4) && run.StepAt(5)
    ensures run.Valid()
  {
    forall k: nat | k < 6
      ensures run.StepAt(k)
    {
      assert k == 0 || k == 1 || k == 2 || k == 3 || k == 4 || k == 5;
    }
  }

  lemma AcrossIsCall(run: Run, y: int)
    requires run.Valid() && |run.events| == 6
    requires run.events[0] == StartCount(0) && run.events[1] == ReadSlot(0) && run.events[2].Add?
    requires run.events[3].Add? && run.events[4] == ReadSlot(0) && run.events[5] == FinishCount(0)
    requires |run.states[5].slots| == 2 && |run.states[5].threads| == 2
    requires run.states[5].threads[0] == Scanning(2, y)
    ensures CountCall(run, 0, 0, 5, y)
  {
    forall j | 0 < j < 5
      ensures run.events[j] != FinishCount(0)
    {
      assert j == 1 || j == 2 || j == 3 || j == 4;
    }
  }

  lemma AcrossCounts(p: int, x: int, y: int)
    requires Fits(W32, p) && Fits(W64, x) && Fits(W64, y) && Fits(W64, p + x)
    ensures CountCall(Across(p, x, y), 0, 0, 5, Wrap(W32, p + y))
  {
    AcrossSteps(p, x, y);
    SixSteps(Across(p, x, y));
    AcrossIsCall(Across(p, x, y), Wrap(W32, p + y));
  }

  lemma AcrossTotals(p: int, x: int, y: int)
    ensures forall k: nat :: k <= 5 ==>
              Across(p, x, y).Total(k) == if k <= 2 then p else if k == 3 then p + x else p + x + y
  {
    SumOfTwo(p, 0);
    SumOfTwo(p + x, 0);
    SumOfTwo(p + x, y);
  }

  lemma AcrossAdds(p: int, x: int, y: int, amounts: iset<int>)
    requires x in amounts && y in amounts
    ensures AddsFrom(Across(p, x, y), 0, 5, amounts)
  {
    var events := Across(p, x, y).events;
    assert events[0].StartCount? && events[1].ReadSlot? && events[2] == Add(1, 0, x) && events[3] == Add(1, 1, y);
    assert events[4].ReadSlot?;
    forall k | 0 <= k < 5
      ensures !events[k].ClearSlot? && (events[k].Add? ==> events[k].val in amounts)
    {
      assert k == 0 || k == 1 || k == 2 || k == 3 || k == 4;
    }
  }

  lemma AcrossNoOverflow(p: int, x: int, y: int)
    requires Fits(W64, p + x) && Fits(W64, y)
    ensures NoSlotOverflow(Across(p, x, y), 0, 5)
  {
    var run := Across(p, x, y);
    forall k: nat | k < 5
      ensures AddFitsAt(run, k)
    {
      assert k == 0 || k == 1 || k == 2 || k == 3 || k == 4;
    }
  }

  /** That call sees `y` and not `x`, and if the two differ no instant has this total. */
  lemma AcrossIsNoInstant(p: int, x: int, y: int)
    requires Wrap(W32, x) != 0 && Wrap(W32, y) != 0 && Wrap(W32, x) != Wrap(W32, y)
    ensures !InstantOf(Across(p, x, y), 0, 5, Wrap(W32, p + y))
  {
    AcrossTotals(p, x, y);
    if Wrap(W32, p + y) == Wrap(W32, p) {
      WrapCancel(W32, p, y, 0);
    }
    if Wrap(W32, p + y) == Wrap(W32, p + x) {
      WrapCancel(W32, p, y, x);
    }
    if Wrap(W32, p + y) == Wrap(W32, p + x + y) {
      WrapCancel(W32, p + y, 0, x);
    }
  }

  lemma TwoAmountsBreak(amounts: iset<int>, x: int, y: int)
    requires x in amounts && y in amounts && Fits(W64, x) && Fits(W64, y)
    requires Wrap(W32, x) != 0 && Wrap(W32, y) != 0 && Wrap(W32, x) != Wrap(W32, y)
    ensures !AlwaysInstant(amounts)
  {
    AcrossCounts(0, x, y);
    AcrossAdds(0, x, y, amounts);
    AcrossIsNoInstant(0, x, y);
  }

  /** Exactly which counters `count` reads as of one instant in every run without resets: those whose amounts, as the
   * 32-bit accumulator sees them, are zero or all the same. There is no condition on totals or on slots, which may
   * wrap around. */
  lemma CountIsInstantIff(amounts: iset<int>)
    requires forall x :: x in amounts ==> Fits(W64, x)
    ensures AlwaysInstant(amounts) <==> OneAmount(amounts)
  {
    if OneAmount(amounts) {
      forall run, t, a, b, r | CountCall(run, t, a, b, r) && AddsFrom(run, a, b, amounts)
        ensures InstantOf(run, a, b, r)
      {
        var d := OneAmountIsUniform(run, a, b, amounts);
        var k := UniformCountIsInstant(run, t, a, b, r, d);
      }
    } else {
      var x, y :| && x in amounts && y in amounts
                  && Wrap(W32, x) != 0 && Wrap(W32, y) != 0 && Wrap(W32, x) != Wrap(W32, y);
      TwoAmountsBreak(amounts, x, y);
    }
  }

  /** `r` is a total the slots had from event `a` to event `b`, as a number without bounds. */
  ghost predicate TotalOf(run: Run, a: nat, b: nat, r: int)
    requires b < |run.states|
  {
    exists k: nat :: a <= k <= b && r == run.Total(k)
  }

  /** While nothing overflows, a count beside additions of these amounts returns a true total of the call. */
  ghost predicate AlwaysTotal(amounts: iset<int>) {
    forall run, t, a, b, r ::
      && CountCall(run, t, a, b, r) && AddsFrom(run, a, b, amounts) && NoSlotOverflow(run, a, b)
      && Fits(W32, run.Total(a)) && Fits(W32, run.Total(b))
      ==> TotalOf(run, a, b, r)
  }

  /** All amounts are zero or of the sign of `d`. */
  predicate OneSided(run: Run, a: nat, b: nat, d: int) {
    forall k :: a <= k < b && k < |run.events| ==>
      !run.events[k].ClearSlot? && (AddedBy(run.events[k]) == 0 || Sign(AddedBy(run.events[k])) == Sign(d))
  }

  lemma {:induction false} AddedOneSided(run: Run, a: nat, b: nat, d: int)
    requires b <= |run.events| && OneSided(run, a, b, d)
    ensures Added(run, a, b) == 0 || Sign(Added(run, a, b)) == Sign(d)
  {
    if a < b {
      AddedOneSided(run, a, b - 1, d);
    }
  }

  lemma TotalBetween(run: Run, a: nat, k: nat, b: nat, d: int)
    requires run.Valid() && a <= k <= b <= |run.events| && NoSlotOverflow(run, a, b) && OneSided(run, a, b, d)
    ensures run.Total(a) <= run.Total(k) <= run.Total(b) || run.Total(a) >= run.Total(k) >= run.Total(b)
  {
    assert forall j: nat :: a <= j < k ==> AddFitsAt(run, j);
    assert forall j: nat :: k <= j < b ==> AddFitsAt(run, j);
    TotalTracksAdditions(run, a, k);
    TotalTracksAdditions(run, k, b);
    AddedOneSided(run, a, k, d);
    AddedOneSided(run, k, b, d);
  }

  /** With one amount and totals within int32, the instant's total is not even reduced. */
  lemma OneAmountIsTotal(run: Run, t: nat, a: nat, b: nat, r: int, amounts: iset<int>) returns (k: nat)
    requires CountCall(run, t, a, b, r) && AddsFrom(run, a, b, amounts) && NoSlotOverflow(run, a, b)
    requires OneAmount(amounts) && forall x :: x in amounts ==> Fits(W32, x)
    requires Fits(W32, run.Total(a)) && Fits(W32, run.Total(b))
    ensures a <= k <= b && r == run.Total(k)
  {
    var d := OneAmountIsUniform(run, a, b, amounts);
    k := UniformCountIsInstant(run, t, a, b, r, d);
    TotalBetween(run, a, k, b, d);
  }

  lemma TotalIsInstant(run: Run, a: nat, b: nat, r: int)
    requires b < |run.states| && Fits(W32, r)
    ensures TotalOf(run, a, b, r) ==> InstantOf(run, a, b, r)
  {
    if k: nat :| a <= k <= b && r == run.Total(k) {
      assert r == Wrap(W32, run.Total(k));
    }
  }

  /** A starting total from which both ends of `Across` stay within int32. */
  function StartFor(x: int, y: int): int {
    if x > 0 && y > 0 then -0x8000_0000 else if x < 0 && y < 0 then 0x7fff_ffff else 0
  }

  lemma TwoAmountsNoTotal(amounts: iset<int>, x: int, y: int)
    requires x in amounts && y in amounts && Fits(W32, x) && Fits(W32, y) && x != 0 && y != 0 && x != y
    ensures !AlwaysTotal(amounts)
  {
    var p := StartFor(x, y);
    var run, r := Across(p, x, y), Wrap(W32, p + y);
    AcrossCounts(p, x, y);
    AcrossAdds(p, x, y, amounts);
    AcrossTotals(p, x, y);
    AcrossIsNoInstant(p, x, y);
    AcrossNoOverflow(p, x, y);
    TotalIsInstant(run, 0, 5, r);
  }

  /** Exactly which counters of int32 amounts always report a true total of the call while nothing overflows. */
  lemma CountIsTotalIff(amounts: iset<int>)
    requires forall x :: x in amounts ==> Fits(W32, x)
    ensures AlwaysTotal(amounts) <==> OneAmount(amounts)
  {
    if OneAmount(amounts) {
      forall run, t, a, b, r
        | && CountCall(run, t, a, b, r) && AddsFrom(run, a, b, amounts) && NoSlotOverflow(run, a, b)
          && Fits(W32, run.Total(a)) && Fits(W32, run.Total(b))
        ensures TotalOf(run, a, b, r)
      {
        var k := OneAmountIsTotal(run, t, a, b, r, amounts);
      }
    } else {
      var x, y :| && x in amounts && y in amounts
                  && Wrap(W32, x) != 0 && Wrap(W32, y) != 0 && Wrap(W32, x) != Wrap(W32, y);
      TwoAmountsNoTotal(amounts, x, y);
    }
  }

  /** Every update is a single `inc`. */
  predicate OnlyIncrements(run: Run, a: nat, b: nat) {
    forall k :: a <= k < b && k < |run.events| ==>
      !run.events[k].ClearSlot? && (run.events[k].Add? ==> run.events[k].val == 1)
  }

  /** So a counter that is only incremented behaves as if `count` read all slots at one instant of the call. */
  lemma IncrementCountIsInstant(run: Run, t: nat, a: nat, b: nat, r: int) returns (k: nat)
    requires CountCall(run, t, a, b, r) && OnlyIncrements(run, a, b) && NoSlotOverflow(run, a, b)
    requires Fits(W32, run.Total(a)) && Fits(W32, run.Total(b))
    ensures a <= k <= b && r == run.Total(k)
  {
    k := OneAmountIsTotal(run, t, a, b, r, iset{1});
  }

  /** And one with two amounts, or with increments and decrements, does not: a count returns 3 where the totals are 0, 5
   * and 8, and -1 where they are 0 and 1. */
  lemma CountMayBeNoInstant()
    ensures !AlwaysInstant(iset{5, 3}) && !AlwaysInstant(iset{1, -1})
    ensures CountCall(Across(0, 5, 3), 0, 0, 5, 3) && AddsFrom(Across(0, 5, 3), 0, 5, iset{5, 3})
    ensures forall k: nat :: k <= 5 ==> Across(0, 5, 3).Total(k) != 3
    ensures CountCall(Across(0, 1, -1), 0, 0, 5, -1) && AddsFrom(Across(0, 1, -1), 0, 5, iset{1, -1})
    ensures forall k: nat :: k <= 5 ==> Across(0, 1, -1).Total(k) != -1
  {
    TwoAmountsBreak(iset{5, 3}, 5, 3);
    TwoAmountsBreak(iset{1, -1}, 1, -1);
    AcrossCounts(0, 5, 3);
    AcrossAdds(0, 5, 3, iset{5, 3});
    AcrossTotals(0, 5, 3);
    AcrossCounts(0, 1, -1);
    AcrossAdds(0, 1, -1, iset{1, -1});
    AcrossTotals(0, 1, -1);
  }

  // ---------- Counting beside resets ----------

  predicate NonNegative(xs: seq<int>) {
    forall i :: 0 <= i < |xs| ==> xs[i] >= 0
  }

  lemma {:induction false} SumNotNegative(xs: seq<int>)
    requires NonNegative(xs)
    ensures Sum(xs) >= 0
  {
    if xs != [] {
      SumNotNegative(xs[1..]);
    }
  }

  /** Nothing in the memory or in the scan of `t` exceeds `bound` or is negative. */
  predicate Bounded(s: State, t: nat, bound: int) {
    && InScan(s, t) && NonNegative(s.slots) && s.threads[t].sum >= 0
    && Accounted(s, t) <= bound && Sum(s.slots) <= bound
  }

  lemma BoundedOwnStep(s: State, e: Event, t: nat, bound: int)
    requires Bounded(s, t, bound) && Fits(W32, bound) && Enabled(s, e) && e.tid == t && e != FinishCount(t)
    ensures Bounded(Next(s, e), t, bound)
  {
    var i := s.threads[t].next;
    assert e == ReadSlot(t);
    SumDrop(s.slots, i);
    SumNotNegative(s.slots[i + 1..]);
  }

  /** The slots from `i` on gain no more than what slot `j` gains by being set to `x`, unless it loses. */
  lemma UpdateBounded(xs: seq<int>, j: nat, x: int, i: nat, d: nat)
    requires j < |xs| && i <= |xs| && NonNegative(xs) && 0 <= x <= xs[j] + d
    ensures NonNegative(xs[j := x]) && Sum(xs[j := x]) <= Sum(xs) + d && Sum(xs[j := x][i..]) <= Sum(xs[i..]) + d
  {
    SumUpdate(xs, j, x);
    if i <= j {
      assert xs[j := x][i..] == xs[i..][j - i := x];
      SumUpdate(xs[i..], j - i, x);
    } else {
      assert xs[j := x][i..] == xs[i..];
    }
  }

  lemma SlotAtMostTotal(xs: seq<int>, j: nat)
    requires j < |xs| && NonNegative(xs)
    ensures xs[j] <= Sum(xs)
  {
    SumUpdate(xs, j, 0);
    SumNotNegative(xs[j := 0]);
  }

  lemma EffectBounded(s: State, e: Event, i: nat)
    requires AllFit(s) && NonNegative(s.slots) && Enabled(s, e) && i <= |s.slots|
    requires AddedBy(e) >= 0 && Fits(W32, Sum(s.slots)) && Fits(W32, Sum(s.slots) + AddedBy(e))
    ensures |Next(s, e).slots| == |s.slots| && NonNegative(Next(s, e).slots)
    ensures Sum(Next(s, e).slots) <= Sum(s.slots) + AddedBy(e)
    ensures Sum(Next(s, e).slots[i..]) <= Sum(s.slots[i..]) + AddedBy(e)
  {
    SlotsAfter(s, e);
    var eff := EffectOf(s, e);
    if eff.Changes? {
      SlotAtMostTotal(s.slots, eff.slot);
      UpdateBounded(s.slots, eff.slot, s.slots[eff.slot] + eff.amount, i, AddedBy(e));
    }
  }

  lemma BoundedOtherStep(s: State, e: Event, t: nat, bound: int)
    requires Bounded(s, t, bound) && AllFit(s) && Enabled(s, e) && e.tid != t
    requires AddedBy(e) >= 0 && Fits(W32, bound + AddedBy(e))
    ensures Bounded(Next(s, e), t, bound + AddedBy(e))
  {
    OthersKeepThread(s, e, t);
    SumNotNegative(s.slots);
    EffectBounded(s, e, s.threads[t].next);
  }

  lemma {:induction false} BesideResets(run: Run, t: nat, a: nat, k: nat)
    requires Counting(run, t, a, k) && NonNegative(run.states[a].slots)
    requires forall j :: a <= j < k ==> AddedBy(run.events[j]) >= 0
    requires Fits(W32, run.Total(a) + Added(run, a, k))
    ensures Added(run, a, k) >= 0 && Bounded(run.states[k], t, run.Total(a) + Added(run, a, k))
  {
    assert run.StepAt(k - 1);
    var s, e := run.states[k - 1], run.events[k - 1];
    SumNotNegative(run.states[a].slots);
    if k == a + 1 {
      ScanStarts(run, t, a);
    } else {
      AdditionsNotNegative(run, a, k - 1);
      BesideResets(run, t, a, k - 1);
      Shape(run, k - 1);
      if e.tid == t {
        BoundedOwnStep(s, e, t, run.Total(a) + Added(run, a, k - 1));
      } else {
        BoundedOtherStep(s, e, t, run.Total(a) + Added(run, a, k - 1));
      }
    }
  }

  /** Even with resets by any threads in progress, a counter whose slots and amounts are not negative is never reported
   * as negative, nor as more than its total at the call and everything added during it. */
  lemma CountBesideResets(run: Run, t: nat, a: nat, b: nat, r: int)
    requires CountCall(run, t, a, b, r) && NonNegative(run.states[a].slots)
    requires forall j :: a <= j < b ==> AddedBy(run.events[j]) >= 0
    requires Fits(W32, run.Total(a) + Added(run, a, b))
    ensures 0 <= r <= run.Total(a) + Added(run, a, b)
  {
    BesideResets(run, t, a, b);
    assert run.StepAt(b);
    assert run.states[b].slots[|run.states[b].slots|..] == [];
  }

  // ---------- What a reset leaves ----------

  /** Event `a` calls `reset` on thread `t`, which has not returned before event `k`. */
  predicate Resetting(run: Run, t: nat, a: nat, k: nat) {
    && run.Valid() && a < k <= |run.events|
    && run.events[a] == StartReset(t)
    && forall j :: a < j < k ==> run.events[j] != FinishReset(t)
  }

  predicate InSweep(s: State, t: nat) {
    t < |s.threads| && s.threads[t].Sweeping? && s.threads[t].next <= |s.slots|
  }

  /** The total of the slots that the sweep of `t` has cleared. */
  function Cleared(s: State, t: nat): int
    requires InSweep(s, t)
  {
    Sum(s.slots[..s.threads[t].next])
  }

  /** The amount of an event of another thread that lands on a slot which the sweep of `t` has already cleared. */
  function SurvivedOf(s: State, e: Event, t: nat): int {
    if InSweep(s, t) && e.tid != t then AmountIn(s, e, 0, s.threads[t].next) else 0
  }

  function Survived(run: Run, t: nat, a: nat, b: nat): int
    requires b <= |run.events| < |run.states|
  {
    if b <= a then 0 else Survived(run, t, a, b - 1) + SurvivedOf(run.states[b - 1], run.events[b - 1], t)
  }

  lemma SweepStep(s: State, e: Event, t: nat) returns (q: int)
    requires InSweep(s, t) && AllFit(s) && Enabled(s, e) && e != FinishReset(t)
    ensures InSweep(Next(s, e), t)
    ensures Cleared(Next(s, e), t) == Cleared(s, t) + SurvivedOf(s, e, t) + q * Modulus(W64)
  {
    SlotsAfter(s, e);
    var i, xs, xs' := s.threads[t].next, s.slots, Next(s, e).slots;
    if e.tid == t {
      assert e == ClearSlot(t);
      SumTake(xs', i);
      assert xs'[..i] == xs[..i];
      q := 0;
    } else {
      OthersKeepThread(s, e, t);
      q := RangeStep(s, e, 0, i);
      assert xs[0..i] == xs[..i] && xs'[0..i] == xs'[..i];
    }
  }

  /** The invariant of a reset in every run: the slots it has cleared hold exactly what landed on them since, up to a
   * multiple of 2^64. */
  lemma {:induction false} ResetInvariant(run: Run, t: nat, a: nat, k: nat) returns (q: int)
    requires Resetting(run, t, a, k)
    ensures InSweep(run.states[k], t)
    ensures Cleared(run.states[k], t) == Survived(run, t, a + 1, k) + q * Modulus(W64)
  {
    assert run.StepAt(k - 1);
    q := 0;
    if k > a + 1 {
      q := ResetInvariant(run, t, a, k - 1);
      Shape(run, k - 1);
      var step := SweepStep(run.states[k - 1], run.events[k - 1], t);
      q := q + step;
    }
  }

  /** Event `a` calls `reset` on thread `t`, and event `b` returns from it. */
  predicate ResetCall(run: Run, t: nat, a: nat, b: nat) {
    Resetting(run, t, a, b) && b < |run.events| && run.events[b] == FinishReset(t)
  }

  /** When a reset returns, in any run whatever, the total is what other threads changed behind it: nothing older
   * remains. */
  lemma ResetResult(run: Run, t: nat, a: nat, b: nat)
    requires ResetCall(run, t, a, b)
    ensures Wrap(W64, run.Total(b)) == Wrap(W64, Survived(run, t, a + 1, b))
  {
    var q := ResetInvariant(run, t, a, b);
    assert run.StepAt(b);
    assert run.states[b].slots[..|run.states[b].slots|] == run.states[b].slots;
    WrapShift(W64, Survived(run, t, a + 1, b), q);
  }

  /** The slots that the sweep of `t` has cleared are not negative and hold no more than `bound`. */
  predicate Swept(s: State, t: nat, bound: int) {
    InSweep(s, t) && NonNegative(s.slots[..s.threads[t].next]) && Cleared(s, t) <= bound
  }

  lemma SweptOwnStep(s: State, e: Event, t: nat, bound: int)
    requires Swept(s, t, bound) && Enabled(s, e) && e == ClearSlot(t)
    ensures Swept(Next(s, e), t, bound)
  {
    var i, xs, xs' := s.threads[t].next, s.slots, Next(s, e).slots;
    SumTake(xs', i);
    assert xs'[..i] == xs[..i];
  }

  lemma SweptOtherStep(s: State, e: Event, t: nat, bound: int)
    requires Swept(s, t, bound) && AllFit(s) && Enabled(s, e) && e.tid != t
    requires AddedBy(e) >= 0 && Fits(W64, bound + AddedBy(e))
    ensures Swept(Next(s, e), t, bound + AddedBy(e))
  {
    OthersKeepThread(s, e, t);
    SlotsAfter(s, e);
    var eff, i := EffectOf(s, e), s.threads[t].next;
    var prefix, prefix' := s.slots[..i], Next(s, e).slots[..i];
    if eff.Changes? && eff.slot < i {
      var x := s.slots[eff.slot] + eff.amount;
      assert prefix[eff.slot] == s.slots[eff.slot];
      SlotAtMostTotal(prefix, eff.slot);
      UpdateBounded(prefix, eff.slot, x, 0, AddedBy(e));
      assert prefix' == prefix[eff.slot := x];
    } else {
      assert prefix' == prefix;
    }
  }

  lemma {:induction false} SweepBounded(run: Run, t: nat, a: nat, k: nat)
    requires Resetting(run, t, a, k) && Fits(W64, Added(run, a + 1, k))
    requires forall j :: a < j < k ==> AddedBy(run.events[j]) >= 0
    ensures Swept(run.states[k], t, Added(run, a + 1, k))
  {
    assert run.StepAt(k - 1);
    if k > a + 1 {
      AdditionsNotNegative(run, a + 1, k - 1);
      SweepBounded(run, t, a, k - 1);
      Shape(run, k - 1);
      if run.events[k - 1].tid == t {
        SweptOwnStep(run.states[k - 1], run.events[k - 1], t, Added(run, a + 1, k - 1));
      } else {
        SweptOtherStep(run.states[k - 1], run.events[k - 1], t, Added(run, a + 1, k - 1));
      }
    }
  }

  /** While nothing negative is added, no slot is negative when a reset returns, and the slots hold at most what was
   * added during the call. Other threads may add and reset as they like; what the slots held before is irrelevant. */
  lemma ResetLeavesOnlyNew(run: Run, t: nat, a: nat, b: nat)
    requires ResetCall(run, t, a, b) && Fits(W64, Added(run, a + 1, b))
    requires forall k :: a < k < b ==> AddedBy(run.events[k]) >= 0
    ensures NonNegative(run.states[b].slots) && 0 <= run.Total(b) <= Added(run, a + 1, b)
  {
    SweepBounded(run, t, a, b);
    assert run.StepAt(b);
    assert run.states[b].slots[..|run.states[b].slots|] == run.states[b].slots;
    SumNotNegative(run.states[b].slots);
  }

  /** A counter without negative slots or amounts keeps them so, and its total gains at most what is added. */
  lemma {:induction false} GrowthBounded(run: Run, a: nat, b: nat)
    requires run.Valid() && a <= b <= |run.events| && NonNegative(run.states[a].slots)
    requires forall k :: a <= k < b ==> AddedBy(run.events[k]) >= 0
    requires Fits(W32, run.Total(a) + Added(run, a, b))
    ensures NonNegative(run.states[b].slots) && 0 <= run.Total(b) <= run.Total(a) + Added(run, a, b)
  {
    if a < b {
      SumNotNegative(run.states[a].slots);
      AdditionsNotNegative(run, a, b - 1);
      GrowthBounded(run, a, b - 1);
      Shape(run, b - 1);
      assert run.StepAt(b - 1);
      EffectBounded(run.states[b - 1], run.events[b - 1], 0);
    }
    SumNotNegative(run.states[b].slots);
  }

  /** A count called after a reset has returned reports nothing older than the reset: it is not negative and at most
   * what was added since the call of the reset. This holds beside any number of other resets. */
  lemma CountAfterReset(run: Run, t: nat, a: nat, b: nat, t': nat, a': nat, b': nat, r: int)
    requires ResetCall(run, t, a, b) && b <= a' && CountCall(run, t', a', b', r)
    requires forall k :: a < k < b' ==> AddedBy(run.events[k]) >= 0
    requires Fits(W32, Added(run, a + 1, b'))
    ensures 0 <= r <= Added(run, a + 1, b')
  {
    AddedSplit(run, a + 1, b, b');
    AddedSplit(run, b, a', b');
    AdditionsNotNegative(run, a + 1, b);
    AdditionsNotNegative(run, b, a');
    AdditionsNotNegative(run, a', b');
    ResetLeavesOnlyNew(run, t, a, b);
    GrowthBounded(run, b, a');
    CountBesideResets(run, t', a', b', r);
  }

  // ---------- Progress ----------

  /** How often event `e` occurs from event `a` up to event `b`. */
  function Occurrences(run: Run, e: Event, a: nat, b: nat): nat
    requires b <= |run.events|
  {
    if b <= a then 0 else Occurrences(run, e, a, b - 1) + if run.events[b - 1] == e then 1 else 0
  }

  /** A count moves on by one slot with each of its reads and never otherwise. While slots are left its thread can read
   * the next one, and when none is left, and only then, it can return: no other thread can make it wait. */
  lemma {:induction false} CountProgress(run: Run, t: nat, a: nat, k: nat)
    requires Counting(run, t, a, k)
    ensures var s, visited := run.states[k], Occurrences(run, ReadSlot(t), a + 1, k);
            && t < |s.threads| && s.threads[t].Scanning? && s.threads[t].next == visited
            && visited <= |s.slots|
            && (Enabled(s, ReadSlot(t)) <==> visited < |s.slots|)
            && (Enabled(s, FinishCount(t)) <==> visited == |s.slots|)
  {
    assert run.StepAt(k - 1);
    Shape(run, k - 1);
    if k > a + 1 {
      CountProgress(run, t, a, k - 1);
      if run.events[k - 1].tid == t {
        assert run.events[k - 1] == ReadSlot(t);
      } else {
        OthersKeepThread(run.states[k - 1], run.events[k - 1], t);
      }
    }
    SlotsAfter(run.states[k - 1], run.events[k - 1]);
  }

  /** The same of a reset and its exchanges. */
  lemma {:induction false} ResetProgress(run: Run, t: nat, a: nat, k: nat)
    requires Resetting(run, t, a, k)
    ensures var s, cleared := run.states[k], Occurrences(run, ClearSlot(t), a + 1, k);
            && t < |s.threads| && s.threads[t] == Sweeping(cleared)
            && cleared <= |s.slots|
            && (Enabled(s, ClearSlot(t)) <==> cleared < |s.slots|)
            && (Enabled(s, FinishReset(t)) <==> cleared == |s.slots|)
  {
    assert run.StepAt(k - 1);
    Shape(run, k - 1);
    if k > a + 1 {
      ResetProgress(run, t, a, k - 1);
      if run.events[k - 1].tid == t {
        assert run.events[k - 1] == ClearSlot(t);
      } else {
        OthersKeepThread(run.states[k - 1], run.events[k - 1], t);
      }
    }
    SlotsAfter(run.states[k - 1], run.events[k - 1]);
  }

  /** Hence a call that has returned has visited every slot exactly once. */
  lemma CallsVisitEverySlot(run: Run, t: nat, a: nat, b: nat)
    requires run.Valid() && b < |run.events|
    ensures Counting(run, t, a, b) && run.events[b] == FinishCount(t) ==>
              Occurrences(run, ReadSlot(t), a + 1, b) == |run.states[0].slots|
    ensures Resetting(run, t, a, b) && run.events[b] == FinishReset(t) ==>
              Occurrences(run, ClearSlot(t), a + 1, b) == |run.states[0].slots|
  {
    assert run.StepAt(b);
    Shape(run, b);
    if Counting(run, t, a, b) {
      CountProgress(run, t, a, b);
    }
    if Resetting(run, t, a, b) {
      ResetProgress(run, t, a, b);
    }
  }

  /** No call of thread `t` is in progress before event `k`. */
  ghost predicate OutsideCalls(run: Run, t: nat, k: nat) {
    forall a :: !Counting(run, t, a, k) && !Resetting(run, t, a, k)
  }

  lemma {:induction false} ScanningSince(run: Run, t: nat, k: nat) returns (a: nat)
    requires run.Valid() && k < |run.states| && t < |run.states[k].threads| && run.states[k].threads[t].Scanning?
    requires t < |run.states[0].threads| && run.states[0].threads[t].Idle?
    ensures Counting(run, t, a, k)
  {
    assert run.StepAt(k - 1);
    Shape(run, k - 1);
    a := k - 1;
    if run.events[k - 1].tid != t {
      OthersKeepThread(run.states[k - 1], run.events[k - 1], t);
      a := ScanningSince(run, t, k - 1);
    } else if run.events[k - 1] != StartCount(t) {
      assert run.events[k - 1] == ReadSlot(t);
      a := ScanningSince(run, t, k - 1);
    }
  }

  lemma {:induction false} SweepingSince(run: Run, t: nat, k: nat) returns (a: nat)
    requires run.Valid() && k < |run.states| && t < |run.states[k].threads| && run.states[k].threads[t].Sweeping?
    requires t < |run.states[0].threads| && run.states[0].threads[t].Idle?
    ensures Resetting(run, t, a, k)
  {
    assert run.StepAt(k - 1);
    Shape(run, k - 1);
    a := k - 1;
    if run.events[k - 1].tid != t {
      OthersKeepThread(run.states[k - 1], run.events[k - 1], t);
      a := SweepingSince(run, t, k - 1);
    } else if run.events[k - 1] != StartReset(t) {
      assert run.events[k - 1] == ClearSlot(t);
      a := SweepingSince(run, t, k - 1);
    }
  }

  lemma IdleOutsideCalls(run: Run, t: nat, k: nat)
    requires run.Valid() && k < |run.states| && t < |run.states[k].threads| && run.states[k].threads[t].Idle?
    ensures OutsideCalls(run, t, k)
  {
    forall a
      ensures !Counting(run, t, a, k) && !Resetting(run, t, a, k)
    {
      if Counting(run, t, a, k) {
        CountProgress(run, t, a, k);
      } else if Resetting(run, t, a, k) {
        ResetProgress(run, t, a, k);
      }
    }
  }

  /** In a run that starts with thread `t` idle, every return of the thread ends a call of it, and the thread is idle
   * again. */
  lemma ReturnsEndCalls(run: Run, t: nat, b: nat)
    requires run.Valid() && b < |run.events| && t < |run.states[0].threads| && run.states[0].threads[t].Idle?
    ensures run.events[b] == FinishCount(t) ==> exists a, r :: CountCall(run, t, a, b, r)
    ensures run.events[b] == FinishReset(t) ==> exists a :: ResetCall(run, t, a, b)
    ensures run.events[b] == FinishCount(t) || run.events[b] == FinishReset(t) ==> OutsideCalls(run, t, b + 1)
  {
    assert run.StepAt(b);
    Shape(run, b);
    Shape(run, b + 1);
    if run.events[b] == FinishCount(t) {
      var a := ScanningSince(run, t, b);
      EveryReturnIsCall(run, t, a, b);
    } else if run.events[b] == FinishReset(t) {
      var a := SweepingSince(run, t, b);
      assert ResetCall(run, t, a, b);
    }
    if run.events[b] == FinishCount(t) || run.events[b] == FinishReset(t) {
      IdleOutsideCalls(run, t, b + 1);
    }
  }

  /** A thread that starts idle can add any amount on any CPU, call `count` and call `reset` exactly when no call of its
   * own is in progress, whatever the other threads are doing. */
  lemma IdleMayCall(run: Run, t: nat, k: nat, cpu: nat, val: I64)
    requires run.Valid() && k < |run.states| && t < |run.states[0].threads| && run.states[0].threads[t].Idle?
    requires cpu < |run.states[0].slots|
    ensures Enabled(run.states[k], Add(t, cpu, val)) <==> OutsideCalls(run, t, k)
    ensures Enabled(run.states[k], StartCount(t)) <==> OutsideCalls(run, t, k)
    ensures Enabled(run.states[k], StartReset(t)) <==> OutsideCalls(run, t, k)
  {
    Shape(run, k);
    if run.states[k].threads[t].Scanning? {
      var a := ScanningSince(run, t, k);
    } else if run.states[k].threads[t].Sweeping? {
      var a := SweepingSince(run, t, k);
    } else {
      IdleOutsideCalls(run, t, k);
    }
  }

  // ---------- Each slot on its own ----------

  /** What an event adds on CPU `c`. */
  function AddedOnBy(e: Event, c: nat): int {
    if e.Add? && e.cpu == c then e.val else 0
  }

  /** What an exchange of a reset takes out of the slot of CPU `c`. */
  function DiscardedOnBy(s: State, e: Event, c: nat): int {
    if e.ClearSlot? && e.tid < |s.threads| && s.threads[e.tid] == Sweeping(c) then DiscardedBy(s, e) else 0
  }

  /** What is added on CPU `c` from event `a` up to event `b`, less what resets take out of its slot. */
  function NetOn(run: Run, c: nat, a: nat, b: nat): int
    requires b <= |run.events| < |run.states|
  {
    if b <= a then 0
    else
      var s, e := run.states[b - 1], run.events[b - 1];
      NetOn(run, c, a, b - 1) + AddedOnBy(e, c) - DiscardedOnBy(s, e, c)
  }

  lemma SlotStep(s: State, e: Event, c: nat)
    requires Enabled(s, e) && AllFit(s) && c < |s.slots|
    ensures |Next(s, e).slots| == |s.slots|
    ensures Next(s, e).slots[c] == Wrap(W64, s.slots[c] + AddedOnBy(e, c) - DiscardedOnBy(s, e, c))
  {
  }

  /** Conservation slot by slot, in every run: an addition goes to the slot of the CPU that was reported and to no
   * other, and nothing but additions and resets changes a slot. */
  lemma {:induction false} SlotContent(run: Run, c: nat, a: nat, b: nat)
    requires run.Valid() && a <= b <= |run.events| && c < |run.states[0].slots|
    ensures |run.states[a].slots| == |run.states[b].slots| == |run.states[0].slots|
    ensures run.states[b].slots[c] == Wrap(W64, run.states[a].slots[c] + NetOn(run, c, a, b))
  {
    Shape(run, a);
    Shape(run, b);
    if a < b {
      var s, e := run.states[b - 1], run.events[b - 1];
      SlotContent(run, c, a, b - 1);
      Shape(run, b - 1);
      assert run.StepAt(b - 1);
      SlotStep(s, e, c);
      WrapAdd(W64, run.states[a].slots[c] + NetOn(run, c, a, b - 1), AddedOnBy(e, c) - DiscardedOnBy(s, e, c));
    }
  }
}
