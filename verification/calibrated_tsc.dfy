/** Calibrating the time-stamp counter against wall time, and the
    nanosecond arithmetic of the calibrated counter (src/tsc.rs).

    The source reads `std::time::Instant::now()` and the counter in a busy
    loop. Here each pair of reads is one `Sample` of an input sequence, and
    `f64` arithmetic is replaced by exact `real` arithmetic. The source loop
    never gives up; the model stops with `Exhausted` when the samples run
    out, which is where the source would keep spinning. */
module CalibratedTsc {
  import opened Int64
  import opened Results
  import opened TscInstant

  type PositiveReal = x: real | x > 0.0 witness 1.0

  /** `CalibratedTsc { ns_per_cycle, tsc }`. The scale factor is positive
      by construction. */
  datatype CalibratedTsc = CalibratedTsc(nsPerCycle: PositiveReal, tsc: Tsc)

  /** The wall-time window a rate measurement must exceed: 10 ms. */
  const MIN_WINDOW_NS: nat := 10_000_000

  /** The relative change between successive rates that ends calibration. */
  const TOLERANCE: real := 0.00001

  /** One `Instant::now()` read followed by one counter read. `wallNs` is
      the wall instant in nanoseconds on an arbitrary fixed origin. */
  datatype Sample = Sample(wallNs: int, cycles: I64)

  /** `(t2 - t1).as_nanos()`: subtracting a later `Instant` saturates at zero. */
  function ElapsedNs(t1: int, t2: int): (r: nat)
    ensures t2 >= t1 ==> r == t2 - t1
    ensures t2 < t1 ==> r == 0
  {
    if t2 >= t1 then t2 - t1 else 0
  }

  /** `tsc2.0.wrapping_sub(tsc1.0)`. */
  function ElapsedCycles(start: Sample, s: Sample): I64 {
    WrappingSub(s.cycles, start.cycles)
  }

  /** The inner loop's exit test: more than 10 ms of wall time and a
      positive cycle count since `start`. */
  predicate WindowClosed(start: Sample, s: Sample) {
    ElapsedNs(start.wallNs, s.wallNs) > MIN_WINDOW_NS && ElapsedCycles(start, s) > 0
  }

  /** `elapsed_cycles as f64 / elapsed_nanos as f64`, in exact arithmetic. */
  function Rate(start: Sample, s: Sample): (r: real)
    requires WindowClosed(start, s)
    ensures r > 0.0
  {
    var cycles: real := ElapsedCycles(start, s) as real;
    var nanos: real := ElapsedNs(start.wallNs, s.wallNs) as real;
    assert cycles > 0.0 && nanos > 0.0;
    cycles / nanos
  }

  /** One finished inner loop: the measured rate and how many samples after
      the round's starting sample it consumed. */
  datatype Window = Window(cyclesPerNs: real, used: nat)

  /** The position in `rest` of the first sample that closes the window
      opened at `start`: where the inner loop of `calibrate` breaks. */
  function FirstClosing(start: Sample, rest: seq<Sample>): (r: Option<nat>)
    ensures r.None? <==> forall j :: 0 <= j < |rest| ==> !WindowClosed(start, rest[j])
    ensures r.Some? ==>
      && r.value < |rest|
      && WindowClosed(start, rest[r.value])
      && (forall j :: 0 <= j < r.value ==> !WindowClosed(start, rest[j]))
    decreases |rest|
  {
    if |rest| == 0 then None
    else if WindowClosed(start, rest[0]) then Some(0)
    else
      match FirstClosing(start, rest[1..])
      case None => None
      case Some(i) => Some(i + 1)
  }

  /** The inner loop of `calibrate`: re-sample until the window closes.
      The measurement comes from the FIRST sample that closes the window. */
  function MeasureRate(start: Sample, rest: seq<Sample>): (r: Option<Window>)
    ensures r.None? <==> forall j :: 0 <= j < |rest| ==> !WindowClosed(start, rest[j])
    ensures r.Some? ==>
      && 1 <= r.value.used <= |rest|
      && WindowClosed(start, rest[r.value.used - 1])
      && r.value.cyclesPerNs == Rate(start, rest[r.value.used - 1])
      && (forall j :: 0 <= j < r.value.used - 1 ==> !WindowClosed(start, rest[j]))
    ensures r.Some? ==> r.value.cyclesPerNs > 0.0
  {
    match FirstClosing(start, rest)
    case None => None
    case Some(i) => Some(Window(Rate(start, rest[i]), i + 1))
  }

  function Abs(x: real): real {
    if x < 0.0 then -x else x
  }

  /** `delta / cycles_per_ns`: the change from the previous rate, relative
      to the new one. */
  function RelativeChange(cyclesPerNs: real, previous: real): real
    requires cyclesPerNs > 0.0
  {
    Abs(cyclesPerNs - previous) / cyclesPerNs
  }

  /** How the outer loop ends: with an accepted rate and the rate it was
      compared against, or without enough samples to decide. */
  datatype Outcome = Converged(cyclesPerNs: real, previous: real) | Exhausted

  /** The outer loop of `calibrate`, from a given `old_cycles`. Each round
      takes a fresh starting sample, runs the inner loop, and stops once the
      relative change drops below the tolerance. */
  function CalibrateFrom(oldCycles: real, samples: seq<Sample>): (r: Outcome)
    ensures r.Converged? ==> r.cyclesPerNs > 0.0 && Abs(r.cyclesPerNs - r.previous) < TOLERANCE * r.cyclesPerNs
    ensures r.Converged? ==> r.previous == oldCycles || r.previous > 0.0
    decreases |samples|
  {
    if |samples| == 0 then Exhausted
    else
      match MeasureRate(samples[0], samples[1..])
      case None => Exhausted
      case Some(w) =>
        AcceptanceWithoutDivision(w.cyclesPerNs, oldCycles);
        if RelativeChange(w.cyclesPerNs, oldCycles) < TOLERANCE then Converged(w.cyclesPerNs, oldCycles)
        else CalibrateFrom(w.cyclesPerNs, samples[1 + w.used..])
  }

  /** The acceptance test `delta / cycles_per_ns < 0.00001`, multiplied out. */
  lemma AcceptanceWithoutDivision(cyclesPerNs: real, previous: real)
    requires cyclesPerNs > 0.0
    ensures RelativeChange(cyclesPerNs, previous) < TOLERANCE
            <==> Abs(cyclesPerNs - previous) < TOLERANCE * cyclesPerNs
  {
    ScaleBelow(Abs(cyclesPerNs - previous), cyclesPerNs, TOLERANCE);
  }

  lemma ScaleBelow(x: real, c: real, t: real)
    requires c > 0.0
    ensures x / c < t <==> x < t * c
  {
    assert (x / c) * c == x;
    if x / c < t {
      assert (x / c) * c < t * c;
    } else {
      assert (x / c) * c >= t * c;
    }
  }

  /** `old_cycles` starts at zero, so the first round always has relative
      change 1 and is never accepted: calibration continues from its rate. */
  lemma FirstRoundNeverAccepts(samples: seq<Sample>)
    requires |samples| > 0 && FirstClosing(samples[0], samples[1..]).Some?
    ensures
      var w := MeasureRate(samples[0], samples[1..]).value;
      CalibrateFrom(0.0, samples) == CalibrateFrom(w.cyclesPerNs, samples[1 + w.used..])
  {
    var w := MeasureRate(samples[0], samples[1..]).value;
    RelativeChangeFromZero(w.cyclesPerNs);
    assert !(RelativeChange(w.cyclesPerNs, 0.0) < TOLERANCE);
  }

  /** Against a previous rate of zero the relative change is always 1. */
  lemma RelativeChangeFromZero(cyclesPerNs: real)
    requires cyclesPerNs > 0.0
    ensures RelativeChange(cyclesPerNs, 0.0) == 1.0
  {
    assert Abs(cyclesPerNs - 0.0) == cyclesPerNs;
    assert cyclesPerNs / cyclesPerNs == 1.0;
  }

  /** `Tsc::calibrate`: the accepted rate is inverted into `ns_per_cycle`. */
  function Calibrate(tsc: Tsc, samples: seq<Sample>): (r: Option<CalibratedTsc>)
    ensures r.Some? <==> CalibrateFrom(0.0, samples).Converged?
    ensures r.Some? ==> r.value.tsc == tsc
    ensures r.Some? ==> r.value.nsPerCycle == 1.0 / CalibrateFrom(0.0, samples).cyclesPerNs
    ensures r.Some? ==> CalibrateFrom(0.0, samples).previous > 0.0
  {
    var outcome := CalibrateFrom(0.0, samples);
    if outcome.Exhausted? then None
    else
      var cyclesPerNs := outcome.cyclesPerNs;
      assert outcome.previous != 0.0 by {
        RelativeChangeFromZero(cyclesPerNs);
      }
      var nsPerCycle := Reciprocal(cyclesPerNs);
      Some(CalibratedTsc(nsPerCycle, tsc))
  }

  /** `f64::recip` of a positive rate, in exact arithmetic. */
  function Reciprocal(x: real): (r: PositiveReal)
    requires x > 0.0
    ensures r * x == 1.0
  {
    1.0 / x
  }

  /** `From<CalibratedTsc> for Tsc`: forget the scale factor. */
  function ToTsc(c: CalibratedTsc): Tsc {
    c.tsc
  }

  /** A round whose window closes and whose rate passes the test
      `delta / cycles_per_ns < 0.00001` ends calibration with that rate. */
  lemma PassingRoundIsAccepted(oldCycles: real, samples: seq<Sample>)
    requires |samples| > 0
    requires FirstClosing(samples[0], samples[1..]).Some?
    ensures
      var w := MeasureRate(samples[0], samples[1..]).value;
      RelativeChange(w.cyclesPerNs, oldCycles) < TOLERANCE
      ==> CalibrateFrom(oldCycles, samples) == Converged(w.cyclesPerNs, oldCycles)
  {
  }

  /** A round whose window closes but whose rate fails the test starts the
      next round, on the samples after the closing one, with `old_cycles`
      set to the rate just measured. */
  lemma FailingRoundContinues(oldCycles: real, samples: seq<Sample>)
    requires |samples| > 0
    requires FirstClosing(samples[0], samples[1..]).Some?
    ensures
      var w := MeasureRate(samples[0], samples[1..]).value;
      RelativeChange(w.cyclesPerNs, oldCycles) >= TOLERANCE
      ==> CalibrateFrom(oldCycles, samples) == CalibrateFrom(w.cyclesPerNs, samples[1 + w.used..])
  {
  }

  /** A round whose window never closes leaves the loop spinning: the
      model runs out of samples. */
  lemma UnclosedRoundExhausts(oldCycles: real, samples: seq<Sample>)
    requires |samples| > 0
    requires FirstClosing(samples[0], samples[1..]).None?
    ensures CalibrateFrom(oldCycles, samples) == Exhausted
  {
  }

  /** Two successive rounds that measure the same rate end calibration at
      the second of them. */
  lemma EqualRatesConverge(oldCycles: real, samples: seq<Sample>)
    requires |samples| > 0
    requires FirstClosing(samples[0], samples[1..]).Some?
    ensures MeasureRate(samples[0], samples[1..]).value.cyclesPerNs == oldCycles
            ==> CalibrateFrom(oldCycles, samples) == Converged(oldCycles, oldCycles)
  {
    var w := MeasureRate(samples[0], samples[1..]).value;
    if w.cyclesPerNs == oldCycles {
      assert RelativeChange(w.cyclesPerNs, oldCycles) == 0.0;
      PassingRoundIsAccepted(oldCycles, samples);
    }
  }

  /** A sample of a jitter-free counter: it read `c0` at wall time 0 and
      runs at exactly `rate` cycles per nanosecond. */
  ghost predicate OnLine(s: Sample, c0: real, rate: real) {
    s.cycles as real == c0 + rate * s.wallNs as real
  }

  /** A synthetic counter with any positive rate, whole or not, and any
      starting offset: every sample lies on the line `c0 + rate * wallNs`. */
  ghost predicate Proportional(samples: seq<Sample>, c0: real, rate: real) {
    rate > 0.0 && forall i :: 0 <= i < |samples| ==> OnLine(samples[i], c0, rate)
  }

  lemma ProportionalSuffix(samples: seq<Sample>, c0: real, rate: real, k: nat)
    requires Proportional(samples, c0, rate) && k <= |samples|
    ensures Proportional(samples[k..], c0, rate)
  {
    forall i | 0 <= i < |samples[k..]|
      ensures OnLine(samples[k..][i], c0, rate)
    {
      assert samples[k..][i] == samples[k + i];
    }
  }

  /** On a proportional counter every closed window measures exactly `rate`.
      The closing test rules out a wrapped cycle difference: a true
      difference above `i64::MAX` would wrap to a negative count. */
  lemma ProportionalRate(start: Sample, s: Sample, c0: real, rate: real)
    requires rate > 0.0 && OnLine(start, c0, rate) && OnLine(s, c0, rate)
    requires WindowClosed(start, s)
    ensures Rate(start, s) == rate
  {
    var e := s.wallNs - start.wallNs;
    var d := s.cycles - start.cycles;
    assert e > 0;
    assert d as real == rate * e as real by {
      DistributeRate(c0, rate, start.wallNs as real, s.wallNs as real);
    }
    assert d > 0 by {
      PositiveProduct(rate, e as real);
    }
    assert ElapsedCycles(start, s) == d;
    assert ElapsedNs(start.wallNs, s.wallNs) == e;
    RatioOfMultiple(rate, e as real);
  }

  lemma DistributeRate(c0: real, rate: real, w1: real, w2: real)
    ensures (c0 + rate * w2) - (c0 + rate * w1) == rate * (w2 - w1)
  {
  }

  lemma PositiveProduct(x: real, y: real)
    requires x > 0.0 && y > 0.0
    ensures x * y > 0.0
  {
  }

  lemma RatioOfMultiple(rate: real, e: real)
    requires e > 0.0
    ensures (rate * e) / e == rate
  {
  }

  lemma ProportionalMeasure(start: Sample, rest: seq<Sample>, c0: real, rate: real)
    requires Proportional([start] + rest, c0, rate)
    requires FirstClosing(start, rest).Some?
    ensures MeasureRate(start, rest).value.cyclesPerNs == rate
  {
    var w := MeasureRate(start, rest).value;
    var s := rest[w.used - 1];
    assert start == ([start] + rest)[0];
    assert s == ([start] + rest)[w.used];
    ProportionalRate(start, s, c0, rate);
  }

  /** Against a counter that runs at exactly `rate` cycles per nanosecond,
      whenever calibration ends it has measured exactly `rate`. */
  lemma {:induction false} ProportionalCalibratesExactly(oldCycles: real, samples: seq<Sample>, c0: real, rate: real)
    requires Proportional(samples, c0, rate)
    ensures CalibrateFrom(oldCycles, samples).Converged? ==> CalibrateFrom(oldCycles, samples).cyclesPerNs == rate
    decreases |samples|
  {
    if CalibrateFrom(oldCycles, samples).Converged? {
      var w := MeasureRate(samples[0], samples[1..]).value;
      assert [samples[0]] + samples[1..] == samples;
      ProportionalMeasure(samples[0], samples[1..], c0, rate);
      if RelativeChange(w.cyclesPerNs, oldCycles) >= TOLERANCE {
        ProportionalSuffix(samples, c0, rate, 1 + w.used);
        ProportionalCalibratesExactly(w.cyclesPerNs, samples[1 + w.used..], c0, rate);
      }
    }
  }

  /** ... and the resulting scale factor is exactly `1 / rate` nanoseconds
      per cycle. */
  lemma ProportionalScale(tsc: Tsc, samples: seq<Sample>, c0: real, rate: real)
    requires Proportional(samples, c0, rate)
    ensures Calibrate(tsc, samples).Some? ==> Calibrate(tsc, samples).value.nsPerCycle == 1.0 / rate
  {
    ProportionalCalibratesExactly(0.0, samples, c0, rate);
  }

  /** First round on a proportional counter: it measures exactly `rate`,
      is not accepted against the initial 0, and the second round starts
      after its closing sample with `old_cycles == rate`. */
  lemma ProportionalFirstRound(samples: seq<Sample>, c0: real, rate: real)
    requires Proportional(samples, c0, rate)
    requires |samples| > 0 && FirstClosing(samples[0], samples[1..]).Some?
    ensures
      var i := FirstClosing(samples[0], samples[1..]).value;
      CalibrateFrom(0.0, samples) == CalibrateFrom(rate, samples[2 + i..])
  {
    assert [samples[0]] + samples[1..] == samples;
    ProportionalMeasure(samples[0], samples[1..], c0, rate);
    FirstRoundNeverAccepts(samples);
  }

  /** A later round on a proportional counter, compared against `rate`,
      measures `rate` again and is accepted. */
  lemma ProportionalRepeatAccepted(samples: seq<Sample>, c0: real, rate: real)
    requires Proportional(samples, c0, rate)
    requires |samples| > 0 && FirstClosing(samples[0], samples[1..]).Some?
    ensures CalibrateFrom(rate, samples) == Converged(rate, rate)
  {
    assert [samples[0]] + samples[1..] == samples;
    ProportionalMeasure(samples[0], samples[1..], c0, rate);
    EqualRatesConverge(rate, samples);
  }

  /** Calibration against a jitter-free counter converges: as soon as two
      successive windows close, it stops at the second with exactly `rate`. */
  lemma ProportionalConverges(samples: seq<Sample>, c0: real, rate: real)
    requires Proportional(samples, c0, rate)
    requires |samples| > 0 && FirstClosing(samples[0], samples[1..]).Some?
    requires
      var i := FirstClosing(samples[0], samples[1..]).value;
      2 + i < |samples| && FirstClosing(samples[2 + i], samples[3 + i..]).Some?
    ensures CalibrateFrom(0.0, samples) == Converged(rate, rate)
  {
    var i := FirstClosing(samples[0], samples[1..]).value;
    var rest := samples[2 + i..];
    ProportionalFirstRound(samples, c0, rate);
    ProportionalSuffix(samples, c0, rate, 2 + i);
    assert rest[0] == samples[2 + i] && rest[1..] == samples[3 + i..];
    ProportionalRepeatAccepted(rest, c0, rate);
  }

  /** ... so `calibrate` then returns a clock with exactly `1 / rate`
      nanoseconds per cycle on the same counter. */
  lemma ProportionalCalibrates(tsc: Tsc, samples: seq<Sample>, c0: real, rate: real)
    requires Proportional(samples, c0, rate)
    requires |samples| > 0 && FirstClosing(samples[0], samples[1..]).Some?
    requires
      var i := FirstClosing(samples[0], samples[1..]).value;
      2 + i < |samples| && FirstClosing(samples[2 + i], samples[3 + i..]).Some?
    ensures Calibrate(tsc, samples) == Some(CalibratedTsc(1.0 / rate, tsc))
  {
    ProportionalConverges(samples, c0, rate);
  }

  /** A counter at 2.5 cycles per nanosecond that read 12345 at wall time 0,
      sampled at 20 ms windows, converges to exactly 2.5. */
  lemma FractionalRateConverges()
    ensures CalibrateFrom(0.0, [Sample(0, 12345), Sample(20_000_000, 50_012_345),
                                Sample(20_000_000, 50_012_345), Sample(40_000_000, 100_012_345)])
            == Converged(2.5, 2.5)
  {
    var s := [Sample(0, 12345), Sample(20_000_000, 50_012_345),
              Sample(20_000_000, 50_012_345), Sample(40_000_000, 100_012_345)];
    assert WindowClosed(s[0], s[1]);
    assert FirstClosing(s[0], s[1..]) == Some(0);
    assert WindowClosed(s[2], s[3]);
    assert FirstClosing(s[2], s[3..]) == Some(0);
    assert Proportional(s, 12345.0, 2.5);
    ProportionalConverges(s, 12345.0, 2.5);
  }

  /** A worked run: a counter at 3 cycles per nanosecond, 20 ms windows.
      The first round measures 3 against 0 and goes on; the second measures
      3 again and stops with a third of a nanosecond per cycle. */
  lemma CalibrationExample(tsc: Tsc)
    ensures Calibrate(tsc, [Sample(0, 0), Sample(20_000_000, 60_000_000),
                            Sample(20_000_000, 60_000_000), Sample(40_000_000, 120_000_000)])
            == Some(CalibratedTsc(1.0 / 3.0, tsc))
  {
    var s := [Sample(0, 0), Sample(20_000_000, 60_000_000),
              Sample(20_000_000, 60_000_000), Sample(40_000_000, 120_000_000)];
    assert MeasureRate(s[0], s[1..]) == Some(Window(3.0, 1));
    assert s[2..] == [Sample(20_000_000, 60_000_000), Sample(40_000_000, 120_000_000)];
    assert MeasureRate(s[2], s[3..]) == Some(Window(3.0, 1));
    assert CalibrateFrom(0.0, s) == CalibrateFrom(3.0, s[2..]);
    assert CalibrateFrom(3.0, s[2..]) == Converged(3.0, 3.0);
  }

  /** `f64::round`: to the nearest integer, halves away from zero. */
  function RoundHalfAway(x: real): (r: int)
    ensures x - 0.5 <= r as real <= x + 0.5
    ensures x >= 0.0 ==> x - 0.5 < r as real
    ensures x < 0.0 ==> r as real < x + 0.5
  {
    if x >= 0.0 then (x + 0.5).Floor else -((-x + 0.5).Floor)
  }

  /** Float-to-integer `as` casts truncate toward zero. */
  function TruncateTowardZero(x: real): (r: int)
    ensures x >= 0.0 ==> r as real <= x < r as real + 1.0
    ensures x < 0.0 ==> r as real - 1.0 < x <= r as real
  {
    if x >= 0.0 then x.Floor else -((-x).Floor)
  }

  /** `between_u64_ns`: the wrapping cycle difference, scaled, rounded, and
      cast to `u64` (negative differences saturate to zero). */
  function BetweenU64Ns(c: CalibratedTsc, later: TscInstant, earlier: TscInstant): (r: U64)
    ensures WrappingSub(later.ticks, earlier.ticks) <= 0 ==> r == 0
    ensures
      var ns := WrappingSub(later.ticks, earlier.ticks) as real * c.nsPerCycle;
      ns >= 0.0 && ns + 0.5 < TWO_64 as real ==> ns - 0.5 < r as real <= ns + 0.5
    ensures
      var ns := WrappingSub(later.ticks, earlier.ticks) as real * c.nsPerCycle;
      ns + 0.5 >= TWO_64 as real ==> r == TWO_64 - 1
  {
    var d := WrappingSub(later.ticks, earlier.ticks);
    assert d <= 0 ==> d as real * c.nsPerCycle <= 0.0;
    SaturateU64(RoundHalfAway(d as real * c.nsPerCycle))
  }

  /** The offset in whole cycles that `add_u64_ns` and `sub_u64_ns` apply:
      `(offset as f64 / ns_per_cycle) as i64`. */
  function OffsetCycles(c: CalibratedTsc, offset: U64): (k: I64)
    ensures 0 <= k
    ensures offset as real / c.nsPerCycle < TWO_63 as real ==>
      k as real <= offset as real / c.nsPerCycle < k as real + 1.0
    ensures offset as real / c.nsPerCycle >= TWO_63 as real ==> k == MAX
  {
    var q := offset as real / c.nsPerCycle;
    assert q >= 0.0 by {
      QuotientSign(offset as real, c.nsPerCycle);
    }
    SaturateI64(TruncateTowardZero(q))
  }

  lemma QuotientSign(x: real, d: real)
    requires x >= 0.0 && d > 0.0
    ensures x / d >= 0.0
  {
  }

  /** `add_u64_ns`: move forward by `offset` nanoseconds' worth of cycles.
      The result lies exactly that many cycles past `base` on the counter's
      circle, whether or not the addition wraps. */
  function AddU64Ns(c: CalibratedTsc, base: TscInstant, offset: U64): (r: TscInstant)
    ensures r.ticks == Wrap(base.ticks + OffsetCycles(c, offset))
    ensures WrappingSub(r.ticks, base.ticks) == OffsetCycles(c, offset)
  {
    var k := OffsetCycles(c, offset);
    WrappingAddIsWrap(base.ticks, k);
    SubUndoesWrappingAdd(base.ticks, k);
    TscInstant(WrappingAdd(base.ticks, k))
  }

  /** `sub_u64_ns`: move back by `offset` nanoseconds' worth of cycles. The
      result lies exactly that many cycles before `base`. */
  function SubU64Ns(c: CalibratedTsc, base: TscInstant, offset: U64): (r: TscInstant)
    ensures r.ticks == Wrap(base.ticks - OffsetCycles(c, offset))
    ensures WrappingSub(base.ticks, r.ticks) == OffsetCycles(c, offset)
  {
    var k := OffsetCycles(c, offset);
    WrappingSubIsWrap(base.ticks, k);
    SubUndoesWrappingSub(base.ticks, k);
    TscInstant(WrappingSub(base.ticks, k))
  }

  /** `<CalibratedTsc as Clock>::now` reads the underlying counter. */
  function CalibratedNow(c: CalibratedTsc, counter: U64): TscInstant {
    Now(c.tsc, counter)
  }

  /** Measuring across an `add_u64_ns` recovers exactly the whole cycles
      it added, scaled back to nanoseconds and rounded: the wrapping add
      and the wrapping difference cancel for every base. */
  lemma BetweenAfterAdd(c: CalibratedTsc, base: TscInstant, offset: U64)
    ensures BetweenU64Ns(c, AddU64Ns(c, base, offset), base)
            == SaturateU64(RoundHalfAway(OffsetCycles(c, offset) as real * c.nsPerCycle))
  {
    BetweenAfterAdvance(c, base, OffsetCycles(c, offset));
  }

  /** Moving forward by any whole number of cycles and measuring back
      yields those cycles, scaled and rounded. */
  lemma BetweenAfterAdvance(c: CalibratedTsc, base: TscInstant, k: I64)
    ensures BetweenU64Ns(c, TscInstant(WrappingAdd(base.ticks, k)), base)
            == SaturateU64(RoundHalfAway(k as real * c.nsPerCycle))
  {
    SubUndoesWrappingAdd(base.ticks, k);
    BetweenOfCycles(c, TscInstant(WrappingAdd(base.ticks, k)), base, k);
  }

  /** Measuring across a `sub_u64_ns` recovers exactly the whole cycles it
      took away, scaled back to nanoseconds and rounded. */
  lemma BetweenAfterSub(c: CalibratedTsc, base: TscInstant, offset: U64)
    ensures BetweenU64Ns(c, base, SubU64Ns(c, base, offset))
            == SaturateU64(RoundHalfAway(OffsetCycles(c, offset) as real * c.nsPerCycle))
  {
    BetweenAfterRetreat(c, base, OffsetCycles(c, offset));
  }

  /** Moving back by any whole number of cycles and measuring forward
      yields those cycles, scaled and rounded. */
  lemma BetweenAfterRetreat(c: CalibratedTsc, base: TscInstant, k: I64)
    ensures BetweenU64Ns(c, base, TscInstant(WrappingSub(base.ticks, k)))
            == SaturateU64(RoundHalfAway(k as real * c.nsPerCycle))
  {
    SubUndoesWrappingSub(base.ticks, k);
    BetweenOfCycles(c, base, TscInstant(WrappingSub(base.ticks, k)), k);
  }

  /** `between_u64_ns` depends on its instants only through their
      wrapping difference. */
  lemma BetweenOfCycles(c: CalibratedTsc, later: TscInstant, earlier: TscInstant, k: I64)
    requires WrappingSub(later.ticks, earlier.ticks) == k
    ensures BetweenU64Ns(c, later, earlier) == SaturateU64(RoundHalfAway(k as real * c.nsPerCycle))
  {
  }
}
