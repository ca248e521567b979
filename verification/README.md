# Verified model of the inline code of libmongoc and libbson

The repository ships libmongoc and libbson as compiled libraries with their headers. The code that is visible is the
code in the headers, and this project models the part of it that computes something:

- **Striped statistics counters** (`Counters.dfy`, `CounterRuns.dfy`) over **atomic operations** (`Atomic.dfy`). A
  counter is one 64-bit slot per CPU. `add` changes one slot atomically; `reset` and `count` walk the slots one at a
  time, so other threads' updates fall in between. `Counters` has the calls as imperative code on shared words;
  `CounterRuns` has a state machine in which any number of threads interleave single atomic steps, and proves what
  `count` can return and what `reset` leaves behind in every run.
- **Saturating time arithmetic** (`McdTime.dfy`) over **overflow predicates** for int64 (`McdInteger.dfy`).
- **Rounding up to a power of two** (`BsonTypes.dfy`), **byte order** (`Endian.dfy`), the **field decoders** of the BSON
  iterator (`Iter.dfy`) and **comparison across signedness** (`Cmp.dfy`).
- **ObjectIds** (`Oid.dfy`): order, creation time, hash, hexadecimal form.

`MachineInt.dfy` holds fixed-width integers, C's truncating division and clamping.

Conventions. Signed integers are unbounded integers restricted to their type; every reduction to a width is written out
(`Wrap`). Words on which the source works bit by bit are bit-vectors. Undefined behaviour is a value of the result
(`McdTime.Outcome`), not an assumption on the caller. What the source reads from outside (the clock, the CPU number, a
spurious failure of a weak compare-exchange, the platform, the byte order) is a parameter.

## Where the code and its documentation differ

- `_mcd_i64_sub_would_overflow` is documented as true if and only if the subtraction overflows. It is false for
  differences of exactly 2^63, for example `left = 0`, `right = INT64_MIN`. `SubWouldOverflowExactIff` gives the exact
  condition and `SubMissesOverflow` all failing pairs; `mcd_time_difference` and `mcd_time_compare` then compute a
  signed overflow (`DifferenceSaturates`, `CompareIsOrder`). Two time points that are both not negative never do.
- `mcd_later` is documented to give a later time point for a positive duration and an earlier one for a negative
  duration. At the last time point it does not move forward and at the first it does not move back (`LaterMoves`), so a
  timer started at the last one has already expired (`TimerExpiry`).
- `bson_next_power_of_two` is documented for 32-bit arguments as giving the next larger power. It takes a word, gives
  a power of two back unchanged, and gives 0 where the word has no such power (`RoundUpMeaning`, `RoundUpFixed`).
- `bson_iter_timeval_unsafe` keeps the seconds in a 32-bit `long` on Windows, so there it loses dates more than about
  68 years from the epoch (`TimevalSplit`).

## Which function models which code

| model | code |
|---|---|
| `McdInteger.MulWouldOverflow`, `AddWouldOverflow`, `SubWouldOverflow` | `libmongoc/include/mongoc/mcd-integer.h` lines 28-182, 185-364, 367-388 |
| `McdTime.Microseconds` to `Minutes`, `GetMilliseconds` | `libmongoc/include/mongoc/mcd-time.h` lines 86-164 |
| `McdTime.Later`, `TimeDifference`, `TimeCompare` | the same file, lines 179-248 |
| `McdTime.DurationCompare`, `DurationClamp` | the same file, lines 260-296 |
| `McdTime.TimerExpireAt`, `TimerExpireAfter`, `TimerRemaining` | the same file, lines 305-346 |
| `CounterRuns.Enabled`, `Next` | `libmongoc/include/mongoc/mongoc-counters-private.h` lines 153-188, one atomic step at a time |
| `Oid.Compare`, `EqualUnsafe`, `GetTimeTUnsafe`, `ParseHexChar` | `libmongoc/include/bson/bson-oid.h` lines 72-95, 230-237, 151-196 |
| `Endian.Swap16`, `Swap32`, `Swap64`, `Le16` to `Be64` | `libmongoc/include/bson/bson-endian.h` lines 122-175, 71-103 |
| `Iter.Int32Unsafe`, `Int64Unsafe`, `Utf8LenUnsafe`, `TimeTUnsafe` | `libmongoc/include/bson/bson-iter.h` lines 211-252, 94-106, 382-386 |
| `BsonTypes.IsPowerOfTwo` | `libmongoc/include/bson/bson-types.h` lines 511-515 |
| `Cmp.EqualSs` to `InRangeOfUnsignedFromUnsigned` | `libmongoc/include/bson/bson-cmp.h` lines 57-130 |

## Model

| member | source | states |
|---|---|---|
| `CounterRuns.ScanInvariant` | libmongoc/include/mongoc/mongoc-counters-private.h:177-188 | in every run, at every moment of a `count`, the sum so far plus the slots yet to be read equals the total at the call plus exactly the updates that landed on unread slots, up to a multiple of 2^32 |
| `CounterRuns.CountResult` | libmongoc/include/mongoc/mongoc-counters-private.h:177-188 | what any return from `count` in any run gives, with any concurrent adds and resets: the total at its call plus the updates that landed ahead of the scan, reduced to int32 |
| `CounterRuns.EveryReturnIsCall` | libmongoc/include/mongoc/mongoc-counters-private.h:177-188 | every return from a `count` is a complete call in the sense of the results about counts; that the loop has run to its end is proved, not assumed |
| `CounterRuns.CountProgress` | libmongoc/include/mongoc/mongoc-counters-private.h:177-188 | in every run `count` moves on by one slot with each of its reads; its thread can read while slots are left and return exactly when none is, whatever the others do |
| `CounterRuns.ResetProgress` | libmongoc/include/mongoc/mongoc-counters-private.h:168-176 | the same of `reset` and its exchanges |
| `CounterRuns.CallsVisitEverySlot` | libmongoc/include/mongoc/mongoc-counters-private.h:168-188 | a call that has returned has visited every slot, each with one atomic operation |
| `CounterRuns.ReturnsEndCalls` | libmongoc/include/mongoc/mongoc-counters-private.h:168-188 | every return of a thread ends a call of it, and the thread is outside all calls afterwards |
| `CounterRuns.IdleMayCall` | libmongoc/include/mongoc/mongoc-counters-private.h:153-188 | a thread can add any int64 amount on any CPU, count or reset exactly when it is outside its own calls |
| `CounterRuns.SlotContent` | libmongoc/include/mongoc/mongoc-counters-private.h:153-176 | conservation slot by slot in every run: a slot holds what it held plus what was added on its CPU, less what resets took out of it, reduced to 64 bits |
| `CounterRuns.CountWithinAdditions` | libmongoc/include/mongoc/mongoc-counters-private.h:153-188 | with only non-negative adds and totals within int32, `count` returns at least the total at its call and at most that plus everything added during it, even if a slot wraps |
| `CounterRuns.CountBetweenTotals` | libmongoc/include/mongoc/mongoc-counters-private.h:153-188 | and if no slot wraps, the result lies between the totals stored in the slots at the call and at the return |
| `CounterRuns.LaterCountNotLess` | libmongoc/include/mongoc/mongoc-counters-private.h:153-188 | of two counts one after the other, by any threads, on a counter that only grows, the later one is never smaller |
| `CounterRuns.CountWithinSwings` | libmongoc/include/mongoc/mongoc-counters-private.h:153-188 | on a counter that goes up and down, without resets, `count` is off the total at its call by no more than what is taken away, or what is added, during it |
| `CounterRuns.CountIsInstantIff` | libmongoc/include/mongoc/mongoc-counters-private.h:153-188 | in every run without resets `count` returns what reading all slots at one instant of the call would, if and only if the int64 amounts in use are, modulo 2^32, zero or all the same; there is no condition on totals or slots |
| `CounterRuns.CountIsTotalIff` | libmongoc/include/mongoc/mongoc-counters-private.h:153-188 | with int32 amounts, and while nothing overflows, `count` always returns a true total of the call if and only if at most one amount other than zero is in use |
| `CounterRuns.IncrementCountIsInstant` | libmongoc/include/mongoc/mongoc-counters-private.h:160-188 | on a counter that is only incremented, while nothing overflows, `count` returns the unreduced total of some instant during the call |
| `CounterRuns.CountMayBeNoInstant` | libmongoc/include/mongoc/mongoc-counters-private.h:153-188 | two amounts break it, and so do increments with decrements: concrete runs return 3 where the totals are 0, 5, 8 and -1 where they are 0, 1 |
| `CounterRuns.CountBesideResets` | libmongoc/include/mongoc/mongoc-counters-private.h:153-188 | with resets by any threads in progress, a non-negative counter is never reported negative nor above its total at the call plus all additions |
| `CounterRuns.QuietCount` | libmongoc/include/mongoc/mongoc-counters-private.h:177-188 | without concurrent updates the interleaved scan returns what the single-threaded `Count` does |
| `CounterRuns.QuietCountExactIff` | libmongoc/include/mongoc/mongoc-counters-private.h:177-188 | and that is the true total exactly when the total is an int32 value |
| `CounterRuns.NothingLost` | libmongoc/include/mongoc/mongoc-counters-private.h:153-176 | conservation between any two points of any run: slots plus what resets discarded equals the earlier slots plus everything added, modulo 2^64 |
| `CounterRuns.TotalTracksAdditions` | libmongoc/include/mongoc/mongoc-counters-private.h:153-167 | without resets and slot wrap-around the slots gain exactly what is added |
| `CounterRuns.ResetInvariant` | libmongoc/include/mongoc/mongoc-counters-private.h:168-176 | at every moment of a `reset`, the slots already cleared hold exactly what landed on them since |
| `CounterRuns.ResetResult` | libmongoc/include/mongoc/mongoc-counters-private.h:168-176 | when `reset` returns, in any run, the total is what other threads changed behind the sweep, nothing older |
| `CounterRuns.ResetLeavesOnlyNew` | libmongoc/include/mongoc/mongoc-counters-private.h:168-176 | with only non-negative concurrent adds, and any concurrent resets, the total when `reset` returns is between zero and what was added during it, and no slot is negative |
| `CounterRuns.CountAfterReset` | libmongoc/include/mongoc/mongoc-counters-private.h:168-188 | a count called after a reset has returned, by any thread and beside any other resets, reports at most what was added since the reset was called |
| `Counters.Counter.Add` | libmongoc/include/mongoc/mongoc-counters-private.h:153-159 | in memory, changes the word of the reporting CPU's row at the identifier modulo 8, by the amount, with 64-bit wrap-around, and no other row's; every counter that shares no slot keeps its values, hence its count |
| `Counters.Counter.Inc` | libmongoc/include/mongoc/mongoc-counters-private.h:160-163 | adds one to the slot of the reporting CPU and to no other, of this or an independent counter |
| `Counters.Counter.Dec` | libmongoc/include/mongoc/mongoc-counters-private.h:164-167 | takes one from the slot of the reporting CPU and from no other, of this or an independent counter |
| `Counters.Counter.Reset` | libmongoc/include/mongoc/mongoc-counters-private.h:168-176 | the word at the identifier modulo 8 is zero in the row of every CPU, and so is the total; every counter that shares no slot keeps its values, hence its count |
| `Counters.Counter.Count` | libmongoc/include/mongoc/mongoc-counters-private.h:177-188 | returns the 64-bit total over the rows of all CPUs reduced once to int32, although the accumulator is cut to 32 bits at every slot, so the true total exactly when that fits; leaves all slots alone |
| `Counters.AccumulateExact` | libmongoc/include/mongoc/mongoc-counters-private.h:179-185 | one step of the 32-bit accumulator keeps it congruent to the true total |
| `Counters.SegmentMatesIndependent` | libmongoc/include/mongoc/mongoc-counters-private.h:155-157 | two counters on one array share no slot exactly when their identifiers differ modulo 8, and otherwise share all |
| `Counters.SegmentsApartIndependent` | libmongoc/include/mongoc/mongoc-counters-private.h:155-157 | counters on disjoint arrays share no slot |
| `Atomic.FetchAddAt` | libmongoc/include/bson/bson-atomic.h:149-158 | returns the old content and stores the sum reduced to the width |
| `Atomic.FetchSubAt` | libmongoc/include/bson/bson-atomic.h:160-167 | both forms, the native one and adding the negation, subtract modulo the width, the minimum value included |
| `Atomic.FetchAt` | libmongoc/include/bson/bson-atomic.h:169-193 | both forms, the load and adding zero, return the content and leave it |
| `Atomic.ExchangeAt` | libmongoc/include/bson/bson-atomic.h:195-217 | returns the old content and stores the value |
| `Atomic.CompareExchangeStrong` | libmongoc/include/bson/bson-atomic.h:219-245 | returns the content found, and stores exactly if that is the expected value |
| `Atomic.CompareExchangeWeak` | libmongoc/include/bson/bson-atomic.h:247-272 | the same, except that it may leave a matching word alone |
| `Atomic.PtrFetch` | libmongoc/include/bson/bson-atomic.h:563-567 | returns the pointer and never changes memory |
| `Atomic.ValuesConserved` | libmongoc/include/bson/bson-atomic.h:149-272 | in every run of any operations, values taken out plus the final content are the initial content plus the values put in, as multisets |
| `Atomic.ExchangesConserve` | libmongoc/include/bson/bson-atomic.h:195-217 | for a run of exchanges: returned values plus the final content are the initial content plus the stored values |
| `Atomic.CountingFinal` | libmongoc/include/bson/bson-atomic.h:149-167 | after any run of additions and subtractions the word is the initial value plus their sum modulo the width |
| `Atomic.CountingReturns` | libmongoc/include/bson/bson-atomic.h:149-193 | each returns the prefix sum at its place in the order |
| `Atomic.CountingOrderIrrelevant` | libmongoc/include/bson/bson-atomic.h:149-167 | any two orders of the same operations end with the same word |
| `Atomic.TicketsDistinct` | libmongoc/include/bson/bson-atomic.h:149-158 | fetch-and-increment returns the same number twice exactly when a whole number of cycles of the width lies between |
| `Atomic.CasReturnMeaning` | libmongoc/include/bson/bson-atomic.h:219-272 | in any run a change of the word by a compare-exchange implies that it returned the expected value; for the strong form asking for a change the converse holds, for the weak form exactly when it did not fail spuriously on a match |
| `Atomic.StrongRunConserves` | libmongoc/include/bson/bson-atomic.h:219-245 | what callers conclude from returned values adds up: in every run of strong compare-exchanges the expected values of those returned what they expected, plus the final content, are the initial content plus their desired values, as multisets |
| `Atomic.WeakReturnAmbiguous` | libmongoc/include/bson/bson-atomic.h:247-272 | a store and a spurious failure of the weak form return the same value |
| `Atomic.CasWinnerUnique` | libmongoc/include/bson/bson-atomic.h:219-272 | of two compare-exchanges expecting one value, the first of which replaces it, at most one stores unless the run puts the value back in between, and at most one strong one is told so |
| `Atomic.LoweringRefines` | libmongoc/include/bson/bson-atomic.h:160-173 | in every run, replacing every subtract and load by its MSVC form changes no returned value and no content, and leaves neither in the run |
| `Atomic.PtrFetchRefinesLoad` | libmongoc/include/bson/bson-atomic.h:515-567 | in every run, replacing every load by the null-for-null compare-exchange, and nothing else, changes no returned value and no content |
| `McdInteger.MulWouldOverflowExact` | libmongoc/include/mongoc/mcd-integer.h:28-182 | true exactly when the unbounded product is not an int64, for all pairs; all quotients it computes are defined and representable |
| `McdInteger.AddWouldOverflowExact` | libmongoc/include/mongoc/mcd-integer.h:185-364 | true exactly when the unbounded sum is not an int64 |
| `McdInteger.SubWouldOverflowCharacterised` | libmongoc/include/mongoc/mcd-integer.h:367-388 | true exactly when the difference is below the minimum or above 2^63 |
| `McdInteger.SubWouldOverflowExactIff` | libmongoc/include/mongoc/mcd-integer.h:366-388 | it answers as documented if and only if the difference is not 2^63 |
| `McdInteger.SubMissesOverflow` | libmongoc/include/mongoc/mcd-integer.h:366-388 | the missed overflows: one for each non-negative left operand, and no others |
| `McdTime.MillisecondsSaturates` | libmongoc/include/mongoc/mcd-time.h:103-111 | the duration is the clamped product |
| `McdTime.SecondsSaturates` | libmongoc/include/mongoc/mcd-time.h:122-130 | two checked steps saturate like one multiplication by 10^6 |
| `McdTime.MinutesSaturates` | libmongoc/include/mongoc/mcd-time.h:141-149 | three checked steps saturate like one multiplication by 60*10^6 |
| `McdTime.ConstructorsMonotone` | libmongoc/include/mongoc/mcd-time.h:103-149 | longer counts never give shorter durations |
| `McdTime.GetMillisecondsTruncates` | libmongoc/include/mongoc/mcd-time.h:157-164 | for every duration, what the milliseconds leave over is less than one and of the duration's sign |
| `McdTime.MillisecondsRoundTrip` | libmongoc/include/mongoc/mcd-time.h:157-164 | reading milliseconds back clamps to +/-9223372036854775, so it is a round trip exactly in that range |
| `McdTime.DurationCompareIsOrder` | libmongoc/include/mongoc/mcd-time.h:260-271 | the sign of the difference of the durations, which itself is not computed |
| `McdTime.DurationClampNearest` | libmongoc/include/mongoc/mcd-time.h:282-296 | aborts exactly on an empty range, else returns the one in-range duration closest to the argument |
| `McdTime.LaterSaturates` | libmongoc/include/mongoc/mcd-time.h:179-188 | the result is the clamped sum |
| `McdTime.DifferenceSaturates` | libmongoc/include/mongoc/mcd-time.h:205-221 | the result is the clamped difference, and undefined exactly when the difference is 2^63 |
| `McdTime.DifferenceUndoesLater` | libmongoc/include/mongoc/mcd-time.h:179-221 | measuring back gives the offset exactly when the sum was representable; otherwise something shorter of the same sign, or zero |
| `McdTime.LaterUndoesDifference` | libmongoc/include/mongoc/mcd-time.h:179-221 | waiting for a difference arrives exactly when it was representable; otherwise it stops short of the target |
| `McdTime.LaterComposes` | libmongoc/include/mongoc/mcd-time.h:179-188 | two offsets are one clamped offset unless the first saturated and the second turned back, and then never; for offsets of one sign always |
| `McdTime.CompareIsOrder` | libmongoc/include/mongoc/mcd-time.h:232-248 | the sign of the difference, and undefined exactly when the difference is 2^63 |
| `McdTime.CompareOneSided` | libmongoc/include/mongoc/mcd-time.h:232-248 | where it is undefined the operands have opposite signs, and swapping them gives the right answer |
| `McdTime.CompareTotalOnClock` | libmongoc/include/mongoc/mcd-time.h:232-248 | on non-negative time points it is defined, antisymmetric, total and transitive |
| `McdTime.LaterMoves` | libmongoc/include/mongoc/mcd-time.h:172-188 | for all time points and offsets: a positive offset leads to a later one except from the last, a negative one to an earlier one except from the first |
| `McdTime.RemainingTime` | libmongoc/include/mongoc/mcd-time.h:333-346 | for a timer set to any time, the clamped time until expiry, or zero after it; undefined exactly when the difference is 2^63 |
| `McdTime.RemainingAfter` | libmongoc/include/mongoc/mcd-time.h:315-346 | the same for a timer started at any reading of any clock: it expires at the clamped sum of reading and duration |
| `McdTime.TimerRun` | libmongoc/include/mongoc/mcd-time.h:318-346 | over any run of clock readings the remaining time is defined, non-negative, never grows, falls by exactly the elapsed time until zero and stays zero |
| `McdTime.TimerExpiry` | libmongoc/include/mongoc/mcd-time.h:315-346 | a timer has expired exactly when its duration has passed or the clock is at its end; at once for a duration that is not positive |
| `BsonTypes.NextPowerOfTwo` | libmongoc/include/bson/bson-types.h:493-508 | the step-by-step update returns the least power of two not below an argument from 1 to 2^63, and zero otherwise |
| `BsonTypes.RoundUpMeaning` | libmongoc/include/bson/bson-types.h:493-508 | for 1 to 2^63 the least power of two not below the argument; zero otherwise |
| `BsonTypes.RoundUpMonotone` | libmongoc/include/bson/bson-types.h:493-508 | up to 2^63, zero included, larger arguments never round to smaller results |
| `BsonTypes.RoundUpFixed` | libmongoc/include/bson/bson-types.h:493-508 | idempotent; leaves exactly the powers of two alone |
| `BsonTypes.RoundUpLessThanDouble` | libmongoc/include/bson/bson-types.h:493-508 | half of the result is below the argument |
| `BsonTypes.IsPowerOfTwoExact` | libmongoc/include/bson/bson-types.h:511-515 | accepts exactly the 32-bit powers of two |
| `BsonTypes.RoundUpAcceptedIff` | libmongoc/include/bson/bson-types.h:493-515 | the 32-bit test accepts a rounded value exactly for arguments from 1 to 2^31 |
| `Endian.SwapReverses16` | libmongoc/include/bson/bson-endian.h:122-126 | reverses the base-256 digits |
| `Endian.SwapReverses32` | libmongoc/include/bson/bson-endian.h:145-149 | reverses the base-256 digits |
| `Endian.SwapReverses64` | libmongoc/include/bson/bson-endian.h:168-175 | reverses the base-256 digits, so the result is the number the bytes mean in the other order |
| `Endian.Swap64Halves` | libmongoc/include/bson/bson-endian.h:145-175 | the 64-bit swap is two 32-bit swaps on exchanged halves |
| `Endian.Swap64Twice` | libmongoc/include/bson/bson-endian.h:168-175 | an involution |
| `Endian.ConversionsRoundTrip` | libmongoc/include/bson/bson-endian.h:71-103 | FROM after TO is the identity for all widths and both configurations |
| `Endian.ReadPortably16` | libmongoc/include/bson/bson-endian.h:71-103 | a native load and conversion reads the external byte order under both configurations |
| `Endian.ReadPortably32` | libmongoc/include/bson/bson-endian.h:71-103 | the same for 32 bits |
| `Endian.ReadPortably64` | libmongoc/include/bson/bson-endian.h:71-103 | the same for 64 bits |
| `Endian.NumbersDistinct` | libmongoc/include/bson/bson-endian.h:71-103 | a word of 16, 32 or 64 bits is determined by the number it denotes, so a portable read fixes every bit |
| `Endian.Number16Exact` | libmongoc/include/bson/bson-endian.h:122-126 | the number of a word's base-256 digits is the unsigned value of the word |
| `Endian.Number32Exact` | libmongoc/include/bson/bson-endian.h:145-149 | the same for 32 bits |
| `Endian.Number64Exact` | libmongoc/include/bson/bson-endian.h:168-175 | the same for 64 bits |
| `Iter.Int32Bijection` | libmongoc/include/bson/bson-iter.h:211-222 | decoding the four bytes at the iterator's offset inverts little-endian two's complement encoding in both directions, for both byte orders |
| `Iter.Int64Bijection` | libmongoc/include/bson/bson-iter.h:241-252 | the same for the eight bytes at the offset |
| `Iter.Utf8LenMeaning` | libmongoc/include/bson/bson-iter.h:94-106 | recovers the length of every string the format can store; non-positive stored lengths count as empty |
| `Iter.Decimal128Unsafe` | libmongoc/include/bson/bson-iter.h:306-317 | stores the little-endian numbers of the first and the second eight bytes at the offset |
| `Iter.TimevalUnsafe` | libmongoc/include/bson/bson-iter.h:400-411 | stores seconds and microseconds that make up the value, on Windows exactly while the seconds fit 32 bits and otherwise with the seconds' low 32 bits; microseconds are below a second and of the value's sign |
| `Iter.TimevalSplit` | libmongoc/include/bson/bson-iter.h:400-411 | the same of the two assigned expressions, for every value |
| `Iter.TimeDecodersAgree` | libmongoc/include/bson/bson-iter.h:382-411 | the two time decoders give the same seconds, on Windows exactly within 32 bits |
| `Oid.CompareIsNumeric` | libmongoc/include/bson/bson-oid.h:72-76 | byte-wise comparison is comparison of the big-endian numbers |
| `Oid.CompareTotalOrder` | libmongoc/include/bson/bson-oid.h:72-95 | a total order; equality is equality of all bytes |
| `Oid.TimeIsBigEndianPrefix` | libmongoc/include/bson/bson-oid.h:230-237 | the time is the big-endian number of the first four bytes on both byte orders |
| `Oid.OrderRespectsTime` | libmongoc/include/bson/bson-oid.h:72-76 | sorting ObjectIds sorts them by time; an earlier time always comes first; equal times are ordered by the other bytes |
| `Oid.ObjectId.HashUnsafe` | libmongoc/include/bson/bson-oid.h:110-121 | the loop computes `HashOf` |
| `Oid.HashIsNumeral` | libmongoc/include/bson/bson-oid.h:110-121 | the hash is a base-33 numeral starting with 5381, reduced once modulo 2^32 |
| `Oid.SingleByteDetected` | libmongoc/include/bson/bson-oid.h:110-121 | changing one byte always changes the hash |
| `Oid.AdjacentBytesCollideIff` | libmongoc/include/bson/bson-oid.h:110-121 | the exact condition under which changes to two adjacent bytes collide |
| `Oid.ObjectId.InitFromStringUnsafe` | libmongoc/include/bson/bson-oid.h:210-219 | the loop stores `DecodeHex` of the first 24 characters |
| `Oid.DecodeRendered` | libmongoc/include/bson/bson-oid.h:151-219 | decoding inverts hexadecimal printing in any mixture of cases |
| `Oid.RenderDecoded` | libmongoc/include/bson/bson-oid.h:151-219 | printing a decoded text gives it in lower case with non-digits read as zero |
| `Oid.CanonicalDecodesAlike` | libmongoc/include/bson/bson-oid.h:192-195 | a character that is not a digit decodes as zero does, and case does not matter |
| `Oid.DecodeIsNumeral` | libmongoc/include/bson/bson-oid.h:151-219 | the decoded bytes, as a big-endian number, are the number that the text writes in hexadecimal |
| `Oid.DecodeEqualIff` | libmongoc/include/bson/bson-oid.h:151-219 | two texts decode alike exactly when they agree up to case and non-digits |
| `Cmp.ComparisonsExact` | libmongoc/include/bson/bson-cmp.h:57-101 | every comparison of every signedness is that of the integers denoted |
| `Cmp.ChainsOrdered` | libmongoc/include/bson/bson-cmp.h:86-101 | along any chain of signed and unsigned operands, comparing neighbours compares the ends |
| `Cmp.RangeChecksExact` | libmongoc/include/bson/bson-cmp.h:108-155 | each range check is true exactly for the values of the target type, for all widths |

## Left out

- Accumulate: gives wrap-around meaning to the 64-bit addition of `_sum += ...`, which C leaves undefined when it
  overflows; that needs a slot within 2^31 of the limits of int64.
- Atomic.FetchSubAt: on MSVC negates the minimum value with wrap-around, where C leaves the negation of a 32- or 64-bit
  minimum undefined.
- Weak memory orders: steps are sequentially consistent, as all calls in the counters ask for.
- The exchange built from a read and a separate compare-and-swap for old GCC versions, which is not one atomic step, and
  the emulated atomics, whose code is not in the headers.
- CPU detection: the CPU count is fixed and the reported CPU is any valid index. The list of counters is not part of
  this model; a counter is its array and its identifier. Builds with counters disabled do nothing.
- The 32-bit variant of `bson_next_power_of_two`, which lacks the last smearing step.
- The double swap, which moves the 64-bit pattern through the 64-bit swap, and the compiler's own byte-swap built-ins,
  taken to compute what the fallbacks do.
- Decoders that only copy a byte or form a pointer (`bool`, `type`, `key`, `oid`, `utf8` text), and copying ObjectIds.
- Everything the headers only declare: topology, sessions, cursors, wire protocol, matching, streams, authentication.
- Macros for versions and compilers, build files, logging, code point tables.
