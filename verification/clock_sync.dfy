/** Synchronizing two clocks (src/clock_synchronization.rs).

    `ClockSynchronization::new_aba` reads clock A, then clock B, then clock A
    again, three times over. It keeps the attempt whose A round trip was the
    shortest and pairs its B reading with the midpoint of its two A readings.
    The pair of epochs `(at, bt)` then converts instants between the two
    clocks by offsetting each epoch by the other clock's signed distance
    from its own epoch. Clock readings are inputs (`Trial`s) here. */
module ClockSync {
  import opened Int64
  import opened Results
  import opened Clock

  /** `new_aba` always makes three attempts (`0..3`). */
  const TRIALS: nat := 3

  /** One attempt: A read before B, B, and A read after B. */
  datatype Trial<IA, IB> = Trial(a0: IA, b: IB, a1: IA)

  /** `ClockSynchronization { at, bt, a, b }`. */
  datatype ClockSynchronization<A, B, IA, IB> = ClockSynchronization(at: IA, bt: IB, a: A, b: B)

  /** The attempt's round trip on A in nanoseconds: `a.sub_i64_ns(a1, a0)`. */
  function RoundTrip<A, IA, IB>(opsA: SignedNs<A, IA>, a: A, t: Trial<IA, IB>): I64 {
    opsA.subI64Ns(a, t.a1, t.a0)
  }

  /** The round-trip times of all attempts, in order. */
  function RoundTrips<A, IA, IB>(opsA: SignedNs<A, IA>, a: A, trials: seq<Trial<IA, IB>>): (r: seq<I64>)
    ensures |r| == |trials|
    ensures forall k :: 0 <= k < |trials| ==> r[k] == RoundTrip(opsA, a, trials[k])
  {
    seq(|trials|, k requires 0 <= k < |trials| => RoundTrip(opsA, a, trials[k]))
  }

  /** `k` holds a smallest key, and no earlier index holds one as small. */
  ghost predicate IsFirstMinimum(keys: seq<int>, k: int) {
    && 0 <= k < |keys|
    && (forall j :: 0 <= j < |keys| ==> keys[k] <= keys[j])
    && (forall j :: 0 <= j < k ==> keys[j] > keys[k])
  }

  /** The fold inside `Iterator::min_by_key`: walk left to right and move to
      a later element only when its key is strictly smaller, so that of
      several equal minima the first wins. `best` is the winner among the
      first `i` keys. */
  function MinFrom(keys: seq<int>, best: nat, i: nat): (r: nat)
    requires best < i <= |keys|
    requires forall j :: 0 <= j < i ==> keys[best] <= keys[j]
    requires forall j :: 0 <= j < best ==> keys[j] > keys[best]
    ensures IsFirstMinimum(keys, r)
    decreases |keys| - i
  {
    if i == |keys| then best
    else if keys[best] > keys[i] then MinFrom(keys, i, i + 1)
    else MinFrom(keys, best, i + 1)
  }

  /** `min_by_key` on positions: `None` only for no elements. */
  function MinByKey(keys: seq<int>): (r: Option<nat>)
    ensures r.None? <==> |keys| == 0
    ensures r.Some? ==> IsFirstMinimum(keys, r.value)
  {
    if |keys| == 0 then None else Some(MinFrom(keys, 0, 1))
  }

  /** The first minimum is unique: whatever position satisfies the
      description is the one `min_by_key` picks. */
  lemma FirstMinimumIsUnique(keys: seq<int>, k: int, m: int)
    requires IsFirstMinimum(keys, k) && IsFirstMinimum(keys, m)
    ensures k == m
  {
    assert keys[k] == keys[m];
  }

  /** `new_aba`: the attempt with the shortest A round trip (the first of
      equal ones) supplies `bt`, and `at` is its first A reading advanced by
      half its round trip, the half rounded toward zero. */
  function NewAba<A, B, IA, IB>(opsA: SignedNs<A, IA>, a: A, b: B, trials: seq<Trial<IA, IB>>)
    : (r: ClockSynchronization<A, B, IA, IB>)
    requires |trials| == TRIALS
    ensures r.a == a && r.b == b
    ensures exists k ::
      && IsFirstMinimum(RoundTrips(opsA, a, trials), k)
      && r.bt == trials[k].b
      && r.at == opsA.addI64Ns(a, trials[k].a0, HalfTowardZero(RoundTrip(opsA, a, trials[k])))
  {
    var k := MinByKey(RoundTrips(opsA, a, trials)).value;
    var t := trials[k];
    ClockSynchronization(opsA.addI64Ns(a, t.a0, HalfTowardZero(RoundTrip(opsA, a, t))), t.b, a, b)
  }

  /** `to_a`: a B instant, as its signed distance from `bt`, re-applied to
      `at`. When A measures its own offsets exactly, the result lies as far
      from `at` as `t` lies from `bt`; the B epoch maps to the A epoch. */
  function ToA<A, B, IA(!new), IB(!new)>(
    s: ClockSynchronization<A, B, IA, IB>, opsA: SignedNs<A, IA>, opsB: SignedNs<B, IB>, t: IB): (r: IA)
    ensures SubUndoesAdd(opsA, s.a) ==> opsA.subI64Ns(s.a, r, s.at) == opsB.subI64Ns(s.b, t, s.bt)
    ensures SubSelfIsZero(opsB, s.b) && AddZeroIsIdentity(opsA, s.a) && t == s.bt ==> r == s.at
  {
    opsA.addI64Ns(s.a, s.at, opsB.subI64Ns(s.b, t, s.bt))
  }

  /** `to_b`: an A instant, as its signed distance from `at`, re-applied to
      `bt`; the mirror of `ToA`. */
  function ToB<A, B, IA(!new), IB(!new)>(
    s: ClockSynchronization<A, B, IA, IB>, opsA: SignedNs<A, IA>, opsB: SignedNs<B, IB>, t: IA): (r: IB)
    ensures SubUndoesAdd(opsB, s.b) ==> opsB.subI64Ns(s.b, r, s.bt) == opsA.subI64Ns(s.a, t, s.at)
    ensures SubSelfIsZero(opsA, s.a) && AddZeroIsIdentity(opsB, s.b) && t == s.at ==> r == s.bt
  {
    opsB.addI64Ns(s.b, s.bt, opsA.subI64Ns(s.a, t, s.at))
  }

  /** `epoch_a`: the A instant fixed at construction. */
  function EpochA<A, B, IA, IB>(s: ClockSynchronization<A, B, IA, IB>): (r: IA)
    ensures r == s.at
  {
    s.at
  }

  /** `epoch_b`: the B instant fixed at construction. */
  function EpochB<A, B, IA, IB>(s: ClockSynchronization<A, B, IA, IB>): (r: IB)
    ensures r == s.bt
  {
    s.bt
  }

  /** `a`: clock A, as passed to `new_aba`. */
  function ClockA<A, B, IA, IB>(s: ClockSynchronization<A, B, IA, IB>): (r: A)
    ensures r == s.a
  {
    s.a
  }

  /** `b`: clock B, as passed to `new_aba`. */
  function ClockB<A, B, IA, IB>(s: ClockSynchronization<A, B, IA, IB>): (r: B)
    ensures r == s.b
  {
    s.b
  }

  /** The two epochs name the same moment: each converts to the other. */
  lemma EpochsCorrespond<A, B, IA(!new), IB(!new)>(s: ClockSynchronization<A, B, IA, IB>,
                                                   opsA: SignedNs<A, IA>, opsB: SignedNs<B, IB>)
    requires SubSelfIsZero(opsA, s.a) && AddZeroIsIdentity(opsA, s.a)
    requires SubSelfIsZero(opsB, s.b) && AddZeroIsIdentity(opsB, s.b)
    ensures ToA(s, opsA, opsB, EpochB(s)) == EpochA(s)
    ensures ToB(s, opsA, opsB, EpochA(s)) == EpochB(s)
  {
  }

  /** Converting to A and back to B is the identity when both clocks do
      exact signed arithmetic. */
  lemma ToBUndoesToA<A, B, IA(!new), IB(!new)>(s: ClockSynchronization<A, B, IA, IB>,
                                               opsA: SignedNs<A, IA>, opsB: SignedNs<B, IB>, t: IB)
    requires SubUndoesAdd(opsA, s.a) && AddUndoesSub(opsB, s.b)
    ensures ToB(s, opsA, opsB, ToA(s, opsA, opsB, t)) == t
  {
  }

  /** Converting to B and back to A is the identity when both clocks do
      exact signed arithmetic. */
  lemma ToAUndoesToB<A, B, IA(!new), IB(!new)>(s: ClockSynchronization<A, B, IA, IB>,
                                               opsA: SignedNs<A, IA>, opsB: SignedNs<B, IB>, t: IA)
    requires SubUndoesAdd(opsB, s.b) && AddUndoesSub(opsA, s.a)
    ensures ToA(s, opsA, opsB, ToB(s, opsA, opsB, t)) == t
  {
  }

  /** Between two wrapping nanosecond counters, `to_a` preserves the signed
      distance between any two instants: the conversion is a pure shift. */
  lemma ToAPreservesDistance(s: ClockSynchronization<NsCounter, NsCounter, I64, I64>, t1: I64, t2: I64)
    ensures WrappingSub(ToA(s, WrappingNs(), WrappingNs(), t1), ToA(s, WrappingNs(), WrappingNs(), t2))
            == WrappingSub(t1, t2)
  {
    assert ToA(s, WrappingNs(), WrappingNs(), t1) == WrappingAdd(s.at, WrappingSub(t1, s.bt));
    assert ToA(s, WrappingNs(), WrappingNs(), t2) == WrappingAdd(s.at, WrappingSub(t2, s.bt));
    ShiftPreservesDistance(s.at, s.bt, t1, t2);
  }

  /** Moving two instants from one epoch to another, with wrapping
      arithmetic, keeps their wrapping distance. */
  lemma ShiftPreservesDistance(at: I64, bt: I64, t1: I64, t2: I64)
    ensures WrappingSub(WrappingAdd(at, WrappingSub(t1, bt)), WrappingAdd(at, WrappingSub(t2, bt)))
            == WrappingSub(t1, t2)
  {
    var x1, x2 := t1 - bt + at, t2 - bt + at;
    assert WrappingAdd(at, WrappingSub(t1, bt)) == Wrap(x1) by {
      ShiftedIsWrap(at, bt, t1);
    }
    assert WrappingAdd(at, WrappingSub(t2, bt)) == Wrap(x2) by {
      ShiftedIsWrap(at, bt, t2);
    }
    assert WrappingSub(Wrap(x1), Wrap(x2)) == WrappingSub(t1, t2) by {
      WrapOfDifference(x1, x2);
      WrappingSubIsWrap(t1, t2);
    }
  }

  /** Re-basing `t` from `bt` to `at` wraps the exact re-based value. */
  lemma ShiftedIsWrap(at: I64, bt: I64, t: I64)
    ensures WrappingAdd(at, WrappingSub(t, bt)) == Wrap(t - bt + at)
  {
    WrappingSubIsWrap(t, bt);
    WrappingAddIsWrap(at, WrappingSub(t, bt));
    WrapOfSum(t - bt, at);
  }

  /** On a wrapping nanosecond counter with no overflow, `at` is the
      midpoint of the chosen attempt's two A readings, rounded down by at
      most half a nanosecond, and a B reading taken anywhere between them is
      mapped to within half the round trip (plus the rounding) of when it
      was taken. */
  lemma MidpointBoundsError(a0: I64, a1: I64, s: I64)
    requires a0 <= s <= a1 && InI64(a1 - a0)
    ensures var at := WrappingAdd(a0, HalfTowardZero(WrappingSub(a1, a0)));
      && a0 <= at <= a1
      && 0 <= (a0 + a1) - 2 * at <= 1
      && -(a1 - a0) - 1 <= 2 * (at - s) <= a1 - a0
  {
  }

  /** The synchronization built over wrapping nanosecond counters: `at`
      lies between the winning attempt's A readings, which are the closest
      pair of A readings around any B reading among the attempts. */
  lemma NewAbaPicksTightestBracket(a: NsCounter, b: NsCounter, trials: seq<Trial<I64, I64>>)
    requires |trials| == TRIALS
    requires forall k :: 0 <= k < |trials| ==> trials[k].a0 <= trials[k].a1 && InI64(trials[k].a1 - trials[k].a0)
    ensures var s := NewAba(WrappingNs(), a, b, trials);
      exists k :: 0 <= k < |trials| && s.bt == trials[k].b
        && trials[k].a0 <= s.at <= trials[k].a1
        && forall j :: 0 <= j < |trials| ==> trials[k].a1 - trials[k].a0 <= trials[j].a1 - trials[j].a0
  {
    var s := NewAba(WrappingNs(), a, b, trials);
    var keys := RoundTrips(WrappingNs(), a, trials);
    var k :| IsFirstMinimum(keys, k) && s.bt == trials[k].b
      && s.at == WrappingNs().addI64Ns(a, trials[k].a0, HalfTowardZero(RoundTrip(WrappingNs(), a, trials[k])));
    MidpointBoundsError(trials[k].a0, trials[k].a1, trials[k].a0);
    forall j | 0 <= j < |trials|
      ensures trials[k].a1 - trials[k].a0 <= trials[j].a1 - trials[j].a0
    {
      assert keys[k] <= keys[j];
    }
  }

  /** A worked synchronization: round trips of 50, 10 and 30 ns choose the
      second attempt, whose A readings 1000 and 1010 put `at` at 1005. */
  lemma NewAbaExample(a: NsCounter, b: NsCounter)
    ensures NewAba(WrappingNs(), a, b,
                   [Trial(0, 7, 50), Trial(1000, 77, 1010), Trial(2000, 777, 2030)])
            == ClockSynchronization(1005, 77, a, b)
  {
    var trials: seq<Trial<I64, I64>> := [Trial(0, 7, 50), Trial(1000, 77, 1010), Trial(2000, 777, 2030)];
    var keys := RoundTrips(WrappingNs(), a, trials);
    assert keys == [50, 10, 30];
    assert IsFirstMinimum(keys, 1);
    var s := NewAba(WrappingNs(), a, b, trials);
    var k :| IsFirstMinimum(keys, k) && s.bt == trials[k].b
      && s.at == WrappingNs().addI64Ns(a, trials[k].a0, HalfTowardZero(RoundTrip(WrappingNs(), a, trials[k])));
    FirstMinimumIsUnique(keys, k, 1);
  }
}
