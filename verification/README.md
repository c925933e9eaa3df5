# fast-clock, modelled in Dafny

This project models the core of the `fast-clock` crate. The crate compares
and converts instants between independent clocks. It makes the x86
time-stamp counter (TSC) usable as a nanosecond clock by calibrating it
against wall time. It pairs two clocks with `ClockSynchronization`, which
reads A, then B, then A again, and keeps the tightest of three brackets.

Modules, one per concern:

- `Int64`: Rust's `i64`/`u64` behaviour on unbounded integers. This covers
  `wrapping_sub` and `wrapping_add`, the truncating `/ 2`, and saturating
  float-to-integer casts.
- `Ordering`: `std::cmp::Ordering` and the total-order laws that `Ord`
  promises.
- `Results`: `Option` and `Result`.
- `Clock`: the signed-nanosecond operations `sub_i64_ns` and `add_i64_ns`
  that the synchronization code calls on its clocks, as a record of
  functions, `SignedNs`. `WrappingNs` is a concrete instance that obeys
  every law. The `Clock` and `CalibratedClock` traits of `src/lib.rs` have
  no record of their own: their one implementation in the core is modelled
  by plain functions, `TscInstant.Now` and `TscInstant.Cmp` for `Clock`,
  and `CalibratedTsc.BetweenU64Ns`, `AddU64Ns` and `SubU64Ns` for
  `CalibratedClock`.
- `TscInstant`: `TscInstant`, its `Ord` and `PartialOrd`, and `Tsc::now`.
- `CalibratedTsc`: `Tsc::calibrate` and the nanosecond arithmetic of
  `CalibratedTsc`.
- `TscProbe`: the two availability probes, `try_new_assume_stable` and
  `try_new_linux_sys`.
- `ClockSync`: `ClockSynchronization::new_aba`, `to_a`, `to_b` and the
  accessors.

Hardware and OS reads are inputs to the model:

- `_rdtsc` is a `U64` argument.
- `CPUID` leaf 1's `EDX` is a `bv32` argument.
- The file system is a function from a path to the outcome of reading it, a `Result<string, IoError>`.
- `Instant::now()` / counter pairs are a sequence of `Sample`s.
- The nine clock reads of `new_aba` are three `Trial`s.

`f64` is modelled as exact `real`.

Two behaviours of the code are worth noting:

- The CPU probe tests bit 4 of `EDX` from `CPUID` leaf 1. That bit is the
  time-stamp-counter feature flag, not the invariant-TSC flag. `TryNewAssumeStable` models that bit.
- `Ord for TscInstant` reverses its answer when the operands are swapped
  for every pair except those exactly half the range apart, whose wrapping
  difference is `i64::MIN`. For those pairs both orders answer `Less`.

`clock_synchronization.rs` calls `sub_i64_ns` and `add_i64_ns`, but the
`CalibratedClock` trait in `src/lib.rs` does not declare them. The model
keeps them abstract as `Clock.SignedNs`. It states the algebraic laws it
needs as explicit preconditions: `SubSelfIsZero`, `AddZeroIsIdentity`,
`SubUndoesAdd` and `AddUndoesSub`.

## Model

| member | source | states |
|---|---|---|
| Int64.Wrap | src/tsc.rs:27 | the `as i64` reinterpretation: a value already in `i64` range is unchanged, and every value lands in `i64` |
| Int64.WrappingSub | src/tsc.rs:16 | `i64::wrapping_sub`: the exact difference when it fits, otherwise the difference shifted by exactly one turn of 2^64 in the direction that brings it back into range |
| Int64.WrappingAdd | src/tsc.rs:111 | `i64::wrapping_add`: the exact sum when it fits, otherwise the sum shifted by one turn of 2^64 |
| Int64.WrapOfDifference | src/tsc.rs:16 | the wrapping difference of two wrapped values is the wrapped true difference, whatever turns each value went through |
| Int64.WrappingSubIsWrap | src/tsc.rs:16 | in every case `wrapping_sub` equals the exact difference reduced into `i64` modulo 2^64 |
| Int64.WrappingAddIsWrap | src/tsc.rs:111 | in every case `wrapping_add` equals the exact sum reduced into `i64` modulo 2^64 |
| Int64.SubUndoesWrappingAdd | src/tsc.rs:109-112 | for every base and offset, `wrapping_sub` recovers an offset applied by `wrapping_add`, even across overflow |
| Int64.SubUndoesWrappingSub | src/tsc.rs:114-117 | for every base and offset, the wrapping distance from `base - k` up to `base` is `k`, even across overflow |
| Int64.HalfTowardZero | src/clock_synchronization.rs:27 | `da / 2` on `i64` rounds toward zero: the remainder `da - 2r` is 0 or 1 for non-negative `da` and 0 or -1 for negative `da` |
| Int64.SaturateU64 | src/tsc.rs:106 | the `as u64` cast of the rounded value: identity in range, 0 below, `u64::MAX` above |
| Int64.SaturateI64 | src/tsc.rs:110-111 | the `as i64` cast of the truncated cycle count: identity in range, `i64::MIN` / `i64::MAX` outside |
| Ordering.CmpInt | src/tsc.rs:10 | `i64::cmp`: `Less`, `Equal` or `Greater` exactly as the first value is below, equal to or above the second |
| Ordering.CmpIntIsTotalOrder | src/tsc.rs:10 | comparing integers is a lawful total order: consistent with equality, antisymmetric and transitive |
| TscInstant.Now | src/tsc.rs:23-29 | `_rdtsc() as i64`: counter values up to `i64::MAX` are kept, larger ones become negative by subtracting 2^64 |
| TscInstant.Cmp | src/tsc.rs:14-18 | `Ord::cmp` answers `Equal` exactly for equal instants, and otherwise the sign of the true difference reduced modulo 2^64 into `i64` |
| TscInstant.PartialCmp | src/tsc.rs:8-12 | `partial_cmp` as written always answers, answers `Equal` exactly for equal instants, and agrees with `cmp` whenever the difference of the raw values does not overflow |
| TscInstant.ConsistentPartialCmp | src/tsc.rs:8-18 | the corrected `partial_cmp` always answers, answers `Equal` exactly for equal instants, and coincides with the as-written one wherever that one is right |
| TscInstant.CmpEqualIffEqual | src/tsc.rs:14-18 | `cmp` answers `Equal` exactly for equal instants, agreeing with the derived `Eq` |
| TscInstant.CmpReverses | src/tsc.rs:14-18 | swapping the operands of `cmp` reverses the answer except when the wrapping difference is `i64::MIN`, where both orders answer `Less` |
| TscInstant.CmpIsNotAntisymmetric | src/tsc.rs:14-18 | `cmp` is not antisymmetric: 0 and `i64::MIN` are each less than the other |
| TscInstant.CmpIsNotTransitive | src/tsc.rs:14-18 | `cmp` is not transitive: `i64::MIN < 0 < 2^62` but not `i64::MIN < 2^62` |
| TscInstant.CmpIsNotATotalOrder | src/lib.rs:15-18 | so `TscInstant` does not meet the total order that the `Instant: Ord` bound of `Clock` asks for on the whole type |
| TscInstant.CmpFollowsTrueOrder | src/tsc.rs:14-18 | two counter values whose true separation is below 2^63 compare by `cmp` in their true order, however often the register wrapped |
| TscInstant.CmpTransitiveWithinHalfRange | src/tsc.rs:14-18 | `cmp` is transitive on three instants that are pairwise less than half the range apart |
| TscInstant.CmpWithinHalfRange | src/tsc.rs:14-18 | in the half-range window above a base, `cmp` orders instants by how far past the base they lie |
| TscInstant.CmpIsTotalOrderWithinHalfRange | src/tsc.rs:14-18 | on every half-range window `cmp` is consistent with equality, antisymmetric and transitive |
| TscInstant.NowFollowsTrueOrder | src/tsc.rs:26-27 | two reads of a free-running 64-bit counter fewer than 2^63 ticks apart compare in the order they were taken |
| TscInstant.PartialCmpAgreesIffNoOverflow | src/tsc.rs:8-18 | `partial_cmp` agrees with `cmp` if and only if the true `i64` difference of the two instants does not overflow |
| TscInstant.RawCmpIsTotalOrder | src/tsc.rs:8-12 | the raw comparison inside `partial_cmp` is itself a total order, a different one from `cmp` |
| TscInstant.PartialCmpMisordersAcrossWrap | src/tsc.rs:8-12 | as written, `partial_cmp` orders `i64::MAX` after the wrapped value one tick later, while `cmp` orders it before |
| TscInstant.ConsistentPartialCmpFollowsTrueOrder | src/tsc.rs:8-12 | the corrected `partial_cmp` (`Some(cmp)`) follows the true order within the half-range window |
| TscProbe.TryNewAssumeStable | src/tsc.rs:42-50 | succeeds exactly when bit 4 of `EDX` from `CPUID` leaf 1 is set, read as the register shifted down by 4 with its low bit kept; otherwise fails with `TscUnavailable` |
| TscProbe.AssumeStableExamples | src/tsc.rs:45 | the register `0x10` passes, `0xFFFFFFEF` fails, `0xBFEBFBFF` passes |
| TscProbe.Contains | src/tsc.rs:57 | `str::contains`: true exactly when the pattern occurs at some position of the text |
| TscProbe.TryNewLinuxSys | src/tsc.rs:52-63 | succeeds exactly when reading `/sys/devices/system/clocksource/clocksource0/available_clocksource` succeeded and `tsc` occurs somewhere in its text; a read error fails |
| TscProbe.LinuxSysExamples | src/tsc.rs:54-57 | a listing naming `tsc` is accepted, so is one naming only `tsc_early`, a listing without it is refused, and so is a failed read; a `tsc` in any other file does not count |
| CalibratedTsc.ElapsedNs | src/tsc.rs:75 | `(t2 - t1).as_nanos()`: the forward distance, and 0 if the wall clock went backwards |
| CalibratedTsc.Rate | src/tsc.rs:77-78 | the rate taken from a window that passes the exit test is positive |
| CalibratedTsc.FirstClosing | src/tsc.rs:72-80 | the inner loop breaks at a sample if and only if one closes the window, and it breaks at the first such sample; every earlier sample fails the exit test |
| CalibratedTsc.MeasureRate | src/tsc.rs:72-80 | the inner loop yields a rate if and only if some later sample closes the window; the rate is taken from the first such sample, and every earlier sample kept the loop going |
| CalibratedTsc.AcceptanceWithoutDivision | src/tsc.rs:81-82 | the test `delta / cycles_per_ns < 0.00001` holds exactly when `delta < 0.00001 * cycles_per_ns`, for every positive rate |
| CalibratedTsc.CalibrateFrom | src/tsc.rs:67-92 | the outer loop only accepts a positive rate whose distance from the rate it was compared against is below 1e-5 of the rate; that earlier rate is the starting one or a positive rate |
| CalibratedTsc.PassingRoundIsAccepted | src/tsc.rs:81-88 | a round whose window closes and whose rate passes `delta / cycles_per_ns < 0.00001` ends calibration with that rate, compared against the previous one |
| CalibratedTsc.FailingRoundContinues | src/tsc.rs:81-91 | a round whose rate fails the test starts the next round on the samples after its closing sample, with `old_cycles` set to the rate just measured |
| CalibratedTsc.UnclosedRoundExhausts | src/tsc.rs:72-80 | when no later sample closes the window the inner loop never breaks: the model runs out of samples |
| CalibratedTsc.FirstRoundNeverAccepts | src/tsc.rs:66-90 | because `old_cycles` starts at 0, the first measured rate is never accepted; calibration continues from it |
| CalibratedTsc.Calibrate | src/tsc.rs:65-93 | `calibrate` returns a clock exactly when the loop converges; `ns_per_cycle` is the reciprocal of the accepted rate, the underlying `Tsc` is kept, and the accepted rate was compared against an earlier positive rate, never the initial 0 |
| CalibratedTsc.EqualRatesConverge | src/tsc.rs:81-88 | a round whose window closes and measures exactly the previous rate ends calibration with that rate |
| CalibratedTsc.ProportionalCalibratesExactly | src/tsc.rs:65-93 | against a jitter-free counter running at any positive `rate` cycles per nanosecond, whole or fractional, from any starting value, every converged calibration measured exactly `rate` |
| CalibratedTsc.ProportionalFirstRound | src/tsc.rs:66-91 | on such a counter (any positive real `rate`, any offset), the first round measures `rate`, is refused against 0, and the second round starts after its closing sample with `old_cycles == rate` |
| CalibratedTsc.ProportionalRepeatAccepted | src/tsc.rs:81-88 | a round on such a counter compared against `rate` measures `rate` again and is accepted |
| CalibratedTsc.ProportionalConverges | src/tsc.rs:65-93 | calibration of such a counter converges to exactly `rate` as soon as two successive windows close |
| CalibratedTsc.ProportionalCalibrates | src/tsc.rs:65-93 | and `calibrate` then returns a clock on the same counter with exactly `1/rate` ns per cycle |
| CalibratedTsc.ProportionalScale | src/tsc.rs:83-88 | so the calibrated clock of such a counter has exactly `1/rate` nanoseconds per cycle |
| CalibratedTsc.FractionalRateConverges | src/tsc.rs:65-93 | a 2.5 cycles/ns counter that read 12345 at wall time 0, sampled at 20 ms windows, converges to exactly 2.5 |
| CalibratedTsc.CalibrationExample | src/tsc.rs:65-93 | a 3-cycles-per-ns counter sampled at 20 ms windows calibrates in two rounds to 1/3 ns per cycle |
| CalibratedTsc.RoundHalfAway | src/tsc.rs:106 | `f64::round`: within one half of the input, with halves rounded away from zero |
| CalibratedTsc.TruncateTowardZero | src/tsc.rs:111 | the float-to-integer `as` cast truncates toward zero |
| CalibratedTsc.BetweenU64Ns | src/tsc.rs:103-107 | `between_u64_ns`: 0 when the later instant is not after the earlier one; otherwise within half a nanosecond of the scaled cycle difference, with a tie rounded up, when that fits in `u64`, and `u64::MAX` when it does not |
| CalibratedTsc.OffsetCycles | src/tsc.rs:110-111 | the cycle offset is the whole part of `offset / ns_per_cycle`, non-negative, and saturates at `i64::MAX` |
| CalibratedTsc.AddU64Ns | src/tsc.rs:109-112 | `add_u64_ns` lands exactly the offset's whole cycles past the base on the counter's circle: the wrapping distance back to the base is that cycle count, even across a wrap |
| CalibratedTsc.SubU64Ns | src/tsc.rs:114-117 | `sub_u64_ns` lands exactly the offset's whole cycles before the base: the wrapping distance from it up to the base is that cycle count |
| CalibratedTsc.BetweenAfterAdd | src/tsc.rs:103-112 | measuring from a base to `add_u64_ns(base, offset)` gives back exactly the whole cycles added, scaled and rounded, for every base, even across a wrap |
| CalibratedTsc.BetweenAfterSub | src/tsc.rs:103-117 | measuring from `sub_u64_ns(base, offset)` up to the base gives back exactly the whole cycles subtracted, scaled and rounded, for every base |
| Clock.WrappingNsIsExact | src/clock_synchronization.rs:18-34 | wrapping `i64` nanosecond counters satisfy every signed-arithmetic law the synchronization code relies on |
| ClockSync.RoundTrips | src/clock_synchronization.rs:13-20 | one round-trip cost `a.sub_i64_ns(a1, a0)` per attempt, in attempt order |
| ClockSync.MinByKey | src/clock_synchronization.rs:21-22 | `min_by_key`: `None` only for no elements, otherwise a position of least key with every earlier key strictly greater, so the first of equal minima wins |
| ClockSync.FirstMinimumIsUnique | src/clock_synchronization.rs:21 | the first least position is unique, so the choice `min_by_key` makes is fully determined |
| ClockSync.NewAba | src/clock_synchronization.rs:12-29 | `new_aba` keeps both clocks and takes `bt` from the first attempt with the least round trip; `at` is that attempt's `a0` advanced by half its round trip, rounded toward zero |
| ClockSync.ToA | src/clock_synchronization.rs:33-35 | `to_a` puts its result as far from `at` as the B instant lies from `bt`, when A measures its own offsets exactly, and maps `bt` to `at` given `sub(t, t) == 0` on B and `add(t, 0) == t` on A |
| ClockSync.ToB | src/clock_synchronization.rs:37-39 | `to_b` puts its result as far from `bt` as the A instant lies from `at`, when B measures its own offsets exactly, and maps `at` to `bt` given `sub(t, t) == 0` on A and `add(t, 0) == t` on B |
| ClockSync.EpochA | src/clock_synchronization.rs:41-43 | `epoch_a` is the A instant fixed at construction |
| ClockSync.EpochB | src/clock_synchronization.rs:45-47 | `epoch_b` is the B instant fixed at construction |
| ClockSync.ClockA | src/clock_synchronization.rs:49-51 | `a` is clock A as passed to `new_aba` |
| ClockSync.ClockB | src/clock_synchronization.rs:53-55 | `b` is clock B as passed to `new_aba` |
| ClockSync.EpochsCorrespond | src/clock_synchronization.rs:33-47 | given `sub(t, t) == 0` and `add(t, 0) == t`, `to_a(epoch_b) == epoch_a` and `to_b(epoch_a) == epoch_b` |
| ClockSync.ToBUndoesToA | src/clock_synchronization.rs:33-39 | given A's sub undoes its add and B's add undoes its sub, `to_b(to_a(t)) == t` for every B instant |
| ClockSync.ToAUndoesToB | src/clock_synchronization.rs:33-39 | the mirror: `to_a(to_b(t)) == t` for every A instant |
| ClockSync.ToAPreservesDistance | src/clock_synchronization.rs:33-35 | between wrapping nanosecond counters, `to_a` keeps the signed distance between any two instants exactly |
| ClockSync.MidpointBoundsError | src/clock_synchronization.rs:27 | with no overflow, `at` lies between `a0` and `a1`, at most half a nanosecond below their midpoint, and within half the round trip (plus that rounding) of any moment in the bracket |
| ClockSync.NewAbaPicksTightestBracket | src/clock_synchronization.rs:12-29 | over wrapping counters, for brackets that do not wrap, `bt` comes from an attempt whose bracket contains `at` and is no wider than any other attempt's |
| ClockSync.NewAbaExample | src/clock_synchronization.rs:12-29 | round trips 50, 10 and 30 select the second attempt, and its readings 1000 and 1010 put `at` at 1005 |

## Left out

- `src/std_clocks.rs`, the adapters for the standard library's monotonic and system clocks, is not part of this model.
- The hardware and OS reads are inputs, not models: `_rdtsc`, `__cpuid`, `std::fs::read_to_string` and `std::time::Instant::now`.
- `f64` rounding is not modelled. Rates, `ns_per_cycle` and every scaled value are exact reals. `round`, `recip` and the casts are modelled exactly on those reals.
- The source's `calibrate` never returns when the rate does not settle. The model reads a finite sequence of samples and returns `Exhausted` when they run out.
- Jitter is not modelled. Convergence is proved for a counter whose cycles are exactly an affine function of wall time (any positive real rate, any offset, no wrap of the `i64` reading between samples), and only once two successive windows close.
- CalibratedTsc.BetweenAfterAdd: states the round trip in whole cycles. It does not prove the nanosecond bound `|between(add(base, off), base) - off| <= ns_per_cycle + 1/2`. That bound needs nonlinear reasoning about floor and division over reals.
- CalibratedTsc.BetweenAfterSub: the same, for `sub_u64_ns`.
- ClockSync.ToA: the distance from the epoch is promised only when A's `sub_i64_ns` undoes its `add_i64_ns`. For a clock that applies offsets lossily, such as the calibrated counter, which truncates to whole cycles, the result can land short of that distance; no bound is stated.
- ClockSync.ToB: the same, with B's operations.
- ClockSync.ToAPreservesDistance: proved only for wrapping nanosecond counters. For clocks whose conversions round, the distance can be off by one unit; not modelled.
- TscProbe.TryNewAssumeStable: `Bit` reads the bit through a shift rather than as `(edx / 16) % 2`. The bit-vector-to-integer conversion is beyond what the solver proves here.
- `debug_assert!`s (tsc.rs lines 84 and 105) are not modelled as failures. `between_u64_ns` with a negative difference is modelled as the release build computes it: saturating to 0.
- `From<CalibratedTsc> for Tsc` is modelled as `ToTsc`, with no contract. `Tsc` carries no data, so any result would be the same.
- `<CalibratedTsc as Clock>::now` is `CalibratedNow`, which reads the underlying counter. It has no separate contract beyond `TscInstant.Now`.
- `Clone`, `Copy` and `Hash` derives are not modelled.

## Findings

| source | as written | input that shows it | evidently intended | confidence | as-written member | corrected member |
|---|---|---|---|---|---|---|
| src/tsc.rs:8-12 | `partial_cmp` compares the raw `i64` values, while `cmp` uses the sign of the wrapping difference, so `<`, `>` and `partial_cmp` disagree with `cmp` whenever the difference overflows | `TscInstant(i64::MAX)` against `TscInstant(i64::MIN)`, one tick later after the wrap: `partial_cmp` says `Greater`, `cmp` says `Less` | `Some(self.cmp(other))`, as Rust requires of a type that implements both `PartialOrd` and `Ord` | high, not executed | TscInstant.PartialCmpMisordersAcrossWrap | TscInstant.ConsistentPartialCmpFollowsTrueOrder |
