/** Saturating durations, time points and timers (mongoc/mcd-time.h). */
module McdTime {
  import opened MachineInt
  import opened McdInteger

  /** A count of microseconds on an abstract clock. */
  datatype TimePoint = TimePoint(rep: I64)

  /** A signed count of microseconds. */
  datatype Duration = Duration(rep: I64)

  datatype Timer = Timer(expireAt: TimePoint)

  /** What a C expression does: it has a value, or its behaviour is undefined because a signed result overflowed. */
  datatype Outcome<+T> = Returned(value: T) | Undefined

  /** What a call guarded by an assertion does. */
  datatype Asserted<+T> = Passed(value: T) | Aborted

  const TIME_POINT_MAX := TimePoint(I64_MAX)
  const TIME_POINT_MIN := TimePoint(I64_MIN)
  const DURATION_MAX := Duration(I64_MAX)
  const DURATION_MIN := Duration(I64_MIN)
  const DURATION_ZERO := Duration(0)

  // ---------- Durations ----------

  function Microseconds(s: I64): Duration {
    Duration(s)
  }

  function Milliseconds(s: I64): Duration {
    if MulWouldOverflow(s, 1000) then
      if s < 0 then DURATION_MIN else DURATION_MAX
    else
      MulWouldOverflowExact(s, 1000);
      Microseconds(s * 1000)
  }

  function Seconds(s: I64): Duration {
    if MulWouldOverflow(s, 1000) then
      if s < 0 then DURATION_MIN else DURATION_MAX
    else
      MulWouldOverflowExact(s, 1000);
      Milliseconds(s * 1000)
  }

  function Minutes(m: I64): Duration {
    if MulWouldOverflow(m, 60) then
      if m < 0 then DURATION_MIN else DURATION_MAX
    else
      MulWouldOverflowExact(m, 60);
      Seconds(m * 60)
  }

  function GetMilliseconds(d: Duration): I64 {
    QuotientFits(d.rep, 1000);
    TruncDiv(d.rep, 1000)
  }

  function DurationCompare(left: Duration, right: Duration): int {
    if left.rep < right.rep then -1
    else if left.rep > right.rep then 1
    else 0
  }

  function DurationClamp(dur: Duration, min: Duration, max: Duration): Asserted<Duration> {
    if !(DurationCompare(min, max) <= 0) then Aborted
    else if DurationCompare(dur, min) < 0 then Passed(min)
    else if DurationCompare(dur, max) > 0 then Passed(max)
    else Passed(dur)
  }

  // ---------- Time points ----------

  function Later(from: TimePoint, delta: Duration): TimePoint {
    if AddWouldOverflow(from.rep, delta.rep) then
      if delta.rep < 0 then TIME_POINT_MIN else TIME_POINT_MAX
    else
      AddWouldOverflowExact(from.rep, delta.rep);
      TimePoint(from.rep + delta.rep)
  }

  function TimeDifference(then_: TimePoint, from: TimePoint): Outcome<Duration> {
    if SubWouldOverflow(then_.rep, from.rep) then
      if from.rep < 0 then Returned(DURATION_MAX) else Returned(DURATION_MIN)
    else if !Fits(W64, then_.rep - from.rep) then
      Undefined
    else
      Returned(Microseconds(then_.rep - from.rep))
  }

  function TimeCompare(left: TimePoint, right: TimePoint): Outcome<int> {
    match TimeDifference(left, right)
    case Returned(d) => Returned(if d.rep < 0 then -1 else if d.rep > 0 then 1 else 0)
    case Undefined => Undefined
  }

  // ---------- Timers; `now` is the clock reading the call makes ----------

  function TimerExpireAt(time: TimePoint): Timer {
    Timer(time)
  }

  function TimerExpireAfter(after: Duration, now: TimePoint): Timer {
    TimerExpireAt(Later(now, after))
  }

  function TimerRemaining(timer: Timer, now: TimePoint): Outcome<Duration> {
    match TimeDifference(timer.expireAt, now)
    case Returned(remain) =>
      if DurationCompare(remain, Microseconds(0)) < 0 then Returned(Microseconds(0)) else Returned(remain)
    case Undefined => Undefined
  }

  // ---------- Durations saturate once, however many steps built them ----------

  lemma MillisecondsSaturates(s: I64)
    ensures Milliseconds(s).rep == Clamp(s * 1000)
  {
    MulWouldOverflowExact(s, 1000);
  }

  lemma SecondsSaturates(s: I64)
    ensures Seconds(s).rep == Clamp(s * 1_000_000)
  {
    MulWouldOverflowExact(s, 1000);
    if !MulWouldOverflow(s, 1000) {
      MillisecondsSaturates(s * 1000);
    }
  }

  lemma MinutesSaturates(m: I64)
    ensures Minutes(m).rep == Clamp(m * 60_000_000)
  {
    MulWouldOverflowExact(m, 60);
    if !MulWouldOverflow(m, 60) {
      SecondsSaturates(m * 60);
    }
  }

  /** Longer counts never give shorter durations, in any unit. */
  lemma ConstructorsMonotone(a: I64, b: I64)
    requires a <= b
    ensures DurationCompare(Milliseconds(a), Milliseconds(b)) <= 0
    ensures DurationCompare(Seconds(a), Seconds(b)) <= 0
    ensures DurationCompare(Minutes(a), Minutes(b)) <= 0
  {
    MillisecondsSaturates(a);
    MillisecondsSaturates(b);
    SecondsSaturates(a);
    SecondsSaturates(b);
    MinutesSaturates(a);
    MinutesSaturates(b);
  }

  /** Reading a duration in milliseconds drops what does not fill one, towards zero. */
  lemma GetMillisecondsTruncates(d: Duration)
    ensures var rest := d.rep - 1000 * GetMilliseconds(d);
            -1000 < rest < 1000 && (d.rep > 0 ==> rest >= 0) && (d.rep < 0 ==> rest <= 0)
  {
    TruncDivBounds(d.rep, 1000);
  }

  const MAX_MILLISECONDS: I64 := 9_223_372_036_854_775

  /** Reading milliseconds back clamps them to the representable range, so it is a round trip exactly inside it. */
  lemma MillisecondsRoundTrip(n: I64)
    ensures GetMilliseconds(Milliseconds(n))
         == if n < -MAX_MILLISECONDS then -MAX_MILLISECONDS else if n > MAX_MILLISECONDS then MAX_MILLISECONDS else n
    ensures GetMilliseconds(Milliseconds(n)) == n <==> -MAX_MILLISECONDS <= n <= MAX_MILLISECONDS
  {
    MillisecondsSaturates(n);
  }

  lemma DurationCompareIsOrder(a: Duration, b: Duration)
    ensures DurationCompare(a, b) == Sign(a.rep - b.rep)
  {
  }

  /** Clamping aborts exactly on an empty range, and otherwise returns the in-range duration nearest to the argument:
   * no other in-range duration is as close. */
  lemma DurationClampNearest(dur: Duration, min: Duration, max: Duration, other: Duration)
    ensures DurationClamp(dur, min, max).Aborted? <==> min.rep > max.rep
    ensures min.rep <= max.rep ==>
              var r := DurationClamp(dur, min, max).value;
              && min.rep <= r.rep <= max.rep
              && (min.rep <= other.rep <= max.rep && other != r ==>
                    Abs(r.rep - dur.rep) < Abs(other.rep - dur.rep))
  {
  }

  // ---------- Offsets and differences ----------

  lemma LaterSaturates(from: TimePoint, delta: Duration)
    ensures Later(from, delta).rep == Clamp(from.rep + delta.rep)
  {
    AddWouldOverflowExact(from.rep, delta.rep);
  }

  /** The difference is the true one, clamped, except on the single line where the C subtraction overflows. */
  lemma DifferenceSaturates(then_: TimePoint, from: TimePoint)
    ensures TimeDifference(then_, from)
         == if then_.rep - from.rep == I64_MAX + 1 then Undefined
            else Returned(Duration(Clamp(then_.rep - from.rep)))
  {
    SubWouldOverflowCharacterised(then_.rep, from.rep);
  }

  /** Going `delta` away and measuring back gives `delta` exactly when the first step did not saturate; when it did,
   * what is measured lies between zero and `delta`, short of `delta`. */
  lemma DifferenceUndoesLater(t: TimePoint, delta: Duration)
    ensures TimeDifference(Later(t, delta), t).Returned?
    ensures TimeDifference(Later(t, delta), t) == Returned(delta) <==> Fits(W64, t.rep + delta.rep)
    ensures !Fits(W64, t.rep + delta.rep) ==>
              var back := TimeDifference(Later(t, delta), t).value.rep;
              Abs(back) < Abs(delta.rep) && (back == 0 || Sign(back) == Sign(delta.rep))
  {
    LaterSaturates(t, delta);
    DifferenceSaturates(Later(t, delta), t);
  }

  /** Waiting for a measured difference arrives exactly when the true difference was representable; otherwise it
   * stops strictly before the target, on the starting point's side. */
  lemma LaterUndoesDifference(then_: TimePoint, from: TimePoint)
    requires TimeDifference(then_, from).Returned?
    ensures var reached := Later(from, TimeDifference(then_, from).value);
            && (reached == then_ <==> Fits(W64, then_.rep - from.rep))
            && (then_.rep - from.rep > I64_MAX ==> from.rep < reached.rep < then_.rep)
            && (then_.rep - from.rep < I64_MIN ==> then_.rep < reached.rep < from.rep)
  {
    DifferenceSaturates(then_, from);
    LaterSaturates(from, TimeDifference(then_, from).value);
  }

  /** Two offsets in a row are one clamped offset by their sum, unless the first saturated and the second turned
   * back: then the saturated part is lost. */
  lemma LaterComposes(t: TimePoint, a: Duration, b: Duration)
    ensures Later(Later(t, a), b).rep == Clamp(t.rep + a.rep + b.rep)
       <==> !(t.rep + a.rep > I64_MAX && b.rep < 0) && !(t.rep + a.rep < I64_MIN && b.rep > 0)
    ensures (a.rep >= 0 && b.rep >= 0) || (a.rep <= 0 && b.rep <= 0) ==>
              && Later(Later(t, a), b).rep == Clamp(t.rep + a.rep + b.rep)
              && (Fits(W64, a.rep + b.rep) ==> Later(Later(t, a), b) == Later(t, Duration(a.rep + b.rep)))
  {
    LaterSaturates(t, a);
    LaterSaturates(Later(t, a), b);
    if Fits(W64, a.rep + b.rep) {
      LaterSaturates(t, Duration(a.rep + b.rep));
    }
  }

  // ---------- Order ----------

  /** Comparison is the order of the representations wherever it is defined, which is off one line. */
  lemma CompareIsOrder(a: TimePoint, b: TimePoint)
    ensures TimeCompare(a, b) == if a.rep - b.rep == I64_MAX + 1 then Undefined else Returned(Sign(a.rep - b.rep))
  {
    DifferenceSaturates(a, b);
  }

  /** The undefined line is one-sided: the same pair compared the other way round is ordered correctly. */
  lemma CompareOneSided(a: TimePoint, b: TimePoint)
    requires TimeCompare(a, b).Undefined?
    ensures TimeCompare(b, a) == Returned(-1)
    ensures a.rep >= 0 && b.rep < 0
  {
    CompareIsOrder(a, b);
    CompareIsOrder(b, a);
  }

  /** On the readings a clock produces the comparison is a total order that agrees with offsets. */
  lemma CompareTotalOnClock(a: TimePoint, b: TimePoint, c: TimePoint)
    requires a.rep >= 0 && b.rep >= 0 && c.rep >= 0
    ensures TimeCompare(a, b).Returned? && TimeCompare(b, a).Returned? && TimeCompare(b, c).Returned?
    ensures TimeCompare(a, c).Returned?
    ensures TimeCompare(a, b).value == -TimeCompare(b, a).value
    ensures TimeCompare(a, b).value == 0 <==> a == b
    ensures TimeCompare(a, b).value <= 0 && TimeCompare(b, c).value <= 0 ==> TimeCompare(a, c).value <= 0
  {
    CompareIsOrder(a, b);
    CompareIsOrder(b, a);
    CompareIsOrder(b, c);
    CompareIsOrder(a, c);
  }

  /** A positive offset leads to the future and a negative one to the past, except at the end of time it points to. */
  lemma LaterMoves(t: TimePoint, delta: Duration)
    ensures TimeCompare(Later(t, delta), t)
         == Returned(if (delta.rep > 0 && t == TIME_POINT_MAX) || (delta.rep < 0 && t == TIME_POINT_MIN) then 0
                     else Sign(delta.rep))
  {
    LaterSaturates(t, delta);
    CompareIsOrder(Later(t, delta), t);
  }

  // ---------- Timers over runs of clock readings ----------

  /** Readings of a monotonic clock that starts at zero or later. */
  ghost predicate ClockRun(readings: seq<TimePoint>) {
    && (forall i :: 0 <= i < |readings| ==> readings[i].rep >= 0)
    && (forall i, j :: 0 <= i < j < |readings| ==> readings[i].rep <= readings[j].rep)
  }

  /** The remaining time is the clamped time until expiry, or zero after it. It is undefined exactly where the
   * difference is, which no reading from zero on reaches. */
  lemma RemainingTime(time: TimePoint, now: TimePoint)
    ensures var left := time.rep - now.rep;
            TimerRemaining(TimerExpireAt(time), now)
            == if left == I64_MAX + 1 then Undefined else Returned(Duration(if left > 0 then Clamp(left) else 0))
  {
    DifferenceSaturates(time, now);
  }

  /** The same of a timer for `after` from the reading `start`, at any later reading `now` and on any clock. */
  lemma RemainingAfter(after: Duration, start: TimePoint, now: TimePoint)
    ensures var left := Clamp(start.rep + after.rep) - now.rep;
            TimerRemaining(TimerExpireAfter(after, start), now)
            == if left == I64_MAX + 1 then Undefined else Returned(Duration(if left > 0 then Clamp(left) else 0))
  {
    LaterSaturates(start, after);
    RemainingTime(Later(start, after), now);
  }

  /** Along any run, the remaining time is defined and non-negative, never grows, falls by exactly the time elapsed
   * until it reaches zero, and stays at zero from then on. */
  lemma TimerRun(timer: Timer, readings: seq<TimePoint>, i: nat, j: nat)
    requires ClockRun(readings) && i <= j < |readings|
    ensures TimerRemaining(timer, readings[i]).Returned? && TimerRemaining(timer, readings[j]).Returned?
    ensures var before := TimerRemaining(timer, readings[i]).value.rep;
            var after := TimerRemaining(timer, readings[j]).value.rep;
            var elapsed := readings[j].rep - readings[i].rep;
            && 0 <= after <= before
            && (before >= elapsed ==> after == before - elapsed)
            && (before <= elapsed ==> after == 0)
  {
    assert readings[i].rep <= readings[j].rep;
    RemainingTime(timer.expireAt, readings[i]);
    RemainingTime(timer.expireAt, readings[j]);
  }

  /** A timer for `after` from the first reading has expired at a later reading exactly when that much time has
   * passed, or the clock has reached its last value; with `after` not positive that is at once. */
  lemma TimerExpiry(after: Duration, readings: seq<TimePoint>, j: nat)
    requires ClockRun(readings) && j < |readings|
    ensures var timer := TimerExpireAfter(after, readings[0]);
            && TimerRemaining(timer, readings[j]).Returned?
            && (TimerRemaining(timer, readings[j]) == Returned(DURATION_ZERO)
                <==> readings[j].rep - readings[0].rep >= after.rep || readings[j] == TIME_POINT_MAX)
    ensures after.rep <= 0 ==>
              TimerRemaining(TimerExpireAfter(after, readings[0]), readings[j]) == Returned(DURATION_ZERO)
  {
    assert readings[0].rep <= readings[j].rep;
    RemainingAfter(after, readings[0], readings[j]);
  }
}
