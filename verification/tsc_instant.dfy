/** The raw time-stamp counter and its instants (src/tsc.rs).

    A `TscInstant` is the 64-bit counter read as an `i64`. Its `Ord` is the
    sign of a wrapping difference, so that two reads taken less than half
    the counter's range apart compare in their true order even if the
    counter wrapped between them. Its `PartialOrd` compares the raw `i64`
    values instead. */
module TscInstant {
  import opened Int64
  import opened Ordering
  import opened Results

  /** `Tsc`: the raw counter clock. It carries no data. */
  datatype Tsc = Tsc

  /** `TscInstant(i64)`, with the derived structural `Eq`. */
  datatype TscInstant = TscInstant(ticks: I64)

  /** `<Tsc as Clock>::now`: the hardware reading `counter` (the `_rdtsc`
      result, an input here) reinterpreted by `as i64`. */
  function Now(tsc: Tsc, counter: U64): (r: TscInstant)
    ensures counter <= MAX ==> r.ticks == counter
    ensures counter > MAX ==> r.ticks == counter - TWO_64
  {
    assert counter > MAX ==> Wrap(counter) == counter - TWO_64 by {
      if counter > MAX {
        WrapUnique(counter, counter - TWO_64, 1);
      }
    }
    TscInstant(Wrap(counter))
  }

  /** `Ord::cmp`: the sign of `self.0.wrapping_sub(other.0)`, that is of
      the true difference reduced modulo 2^64 into `i64`. */
  function Cmp(a: TscInstant, b: TscInstant): (r: Ordering)
    ensures r.Equal? <==> a == b
    ensures r == CmpInt(Wrap(a.ticks - b.ticks), 0)
  {
    WrappingSubIsWrap(a.ticks, b.ticks);
    CmpInt(WrappingSub(a.ticks, b.ticks), 0)
  }

  /** `PartialOrd::partial_cmp` as written: the raw `i64` comparison. It
      always answers, and it agrees with `Cmp` whenever the difference of
      the two values does not overflow. */
  function PartialCmp(a: TscInstant, b: TscInstant): (r: Option<Ordering>)
    ensures r.Some?
    ensures r.value.Equal? <==> a == b
    ensures InI64(a.ticks - b.ticks) ==> r == Some(Cmp(a, b))
  {
    Some(CmpInt(a.ticks, b.ticks))
  }

  /** The raw comparison inside `PartialCmp`, as a comparator. */
  function RawCmp(a: TscInstant, b: TscInstant): Ordering {
    CmpInt(a.ticks, b.ticks)
  }

  /** `Cmp` answers `Equal` exactly for equal instants, as the derived `Eq`
      requires. */
  lemma CmpEqualIffEqual(a: TscInstant, b: TscInstant)
    ensures Cmp(a, b).Equal? <==> a == b
  {
  }

  /** Swapping the arguments of `Cmp` reverses the answer, except when the
      wrapping difference is `i64::MIN`: then both orders answer `Less`. */
  lemma CmpReverses(a: TscInstant, b: TscInstant)
    ensures WrappingSub(a.ticks, b.ticks) != MIN ==> Cmp(b, a) == Cmp(a, b).Reverse()
    ensures WrappingSub(a.ticks, b.ticks) == MIN ==> Cmp(a, b).Less? && Cmp(b, a).Less?
  {
  }

  /** The exception is real: `0` and `i64::MIN` are each less than the other. */
  lemma CmpIsNotAntisymmetric()
    ensures !Antisymmetric(Cmp)
  {
    var a, b := TscInstant(0), TscInstant(MIN);
    assert Cmp(a, b).Less? && Cmp(b, a).Less?;
  }

  /** `Cmp` has a cycle, `0 < 2^62 < i64::MIN < 0`, so it cannot be
      transitive: `i64::MIN < 0 < 2^62` but not `i64::MIN < 2^62`. */
  lemma CmpIsNotTransitive()
    ensures !Transitive(Cmp)
  {
    var zero, quarter, min := TscInstant(0), TscInstant(TWO_63 / 2), TscInstant(MIN);
    assert Cmp(zero, quarter).Less?;
    assert Cmp(quarter, min).Less?;
    assert Cmp(min, zero).Less?;
    assert !Cmp(min, quarter).Less?;
  }

  /** Hence `TscInstant` does not meet the total-order obligation that the
      `Instant: Ord` bound of `Clock` places on it. */
  lemma CmpIsNotATotalOrder()
    ensures !IsTotalOrder(Cmp)
  {
    CmpIsNotTransitive();
  }

  /** Two reads of a counter whose true (unwrapped) values `x` and `y` are
      less than half the range apart compare by `Cmp` in their true order,
      however many times the 64-bit register wrapped. */
  lemma CmpFollowsTrueOrder(x: int, y: int)
    requires -TWO_63 < x - y < TWO_63
    ensures Cmp(TscInstant(Wrap(x)), TscInstant(Wrap(y))) == CmpInt(x, y)
  {
    WrapOfDifference(x, y);
  }

  /** Within the half-range window, `Cmp` is transitive. */
  lemma CmpTransitiveWithinHalfRange(x: int, y: int, z: int)
    requires -TWO_63 < x - y < TWO_63
    requires -TWO_63 < y - z < TWO_63
    requires -TWO_63 < x - z < TWO_63
    requires Cmp(TscInstant(Wrap(x)), TscInstant(Wrap(y))).Less?
    requires Cmp(TscInstant(Wrap(y)), TscInstant(Wrap(z))).Less?
    ensures Cmp(TscInstant(Wrap(x)), TscInstant(Wrap(z))).Less?
  {
    CmpFollowsTrueOrder(x, y);
    CmpFollowsTrueOrder(y, z);
    CmpFollowsTrueOrder(x, z);
  }

  /** `t` lies in the half of the counter's circle that starts at `base`:
      at most `i64::MAX` ticks after it. */
  predicate InHalfRange(base: I64, t: TscInstant) {
    WrappingSub(t.ticks, base) >= 0
  }

  /** An instant of the window, read as a true time past `base`. */
  lemma HalfRangeTrueTime(base: I64, t: TscInstant)
    requires InHalfRange(base, t)
    ensures Wrap(base + WrappingSub(t.ticks, base)) == t.ticks
  {
    WrapOfSum(t.ticks - base, base);
  }

  /** Within one window, `Cmp` compares how far past `base` the instants lie. */
  lemma CmpWithinHalfRange(base: I64, a: TscInstant, b: TscInstant)
    requires InHalfRange(base, a) && InHalfRange(base, b)
    ensures Cmp(a, b) == CmpInt(WrappingSub(a.ticks, base), WrappingSub(b.ticks, base))
  {
    var x, y := base + WrappingSub(a.ticks, base), base + WrappingSub(b.ticks, base);
    HalfRangeTrueTime(base, a);
    HalfRangeTrueTime(base, b);
    CmpFollowsTrueOrder(x, y);
  }

  /** On every half-range window `Cmp` is a lawful total order. */
  lemma CmpIsTotalOrderWithinHalfRange(base: I64)
    ensures IsTotalOrderWithin(Cmp, (t: TscInstant) => InHalfRange(base, t))
  {
    forall a: TscInstant, b: TscInstant | InHalfRange(base, a) && InHalfRange(base, b)
      ensures Cmp(a, b).Equal? <==> a == b
      ensures Cmp(b, a) == Cmp(a, b).Reverse()
    {
      CmpWithinHalfRange(base, a, b);
      CmpWithinHalfRange(base, b, a);
      HalfRangeTrueTime(base, a);
      HalfRangeTrueTime(base, b);
    }
    forall a: TscInstant, b: TscInstant, c: TscInstant
      | InHalfRange(base, a) && InHalfRange(base, b) && InHalfRange(base, c)
        && Cmp(a, b).Less? && Cmp(b, c).Less?
      ensures Cmp(a, c).Less?
    {
      CmpWithinHalfRange(base, a, b);
      CmpWithinHalfRange(base, b, c);
      CmpWithinHalfRange(base, a, c);
    }
  }

  /** A free-running counter read twice: `c1` and `c2` are its true tick
      counts, the hardware hands out their low 64 bits. Fewer than 2^63
      ticks apart, the two instants compare in the order they were taken. */
  lemma NowFollowsTrueOrder(tsc: Tsc, c1: nat, c2: nat)
    requires c1 <= c2 < c1 + TWO_63
    ensures Cmp(Now(tsc, c1 % TWO_64), Now(tsc, c2 % TWO_64)) == CmpInt(c1, c2)
  {
    var q1, q2 := c1 / TWO_64, c2 / TWO_64;
    WrapShift(c1 % TWO_64, q1);
    WrapShift(c2 % TWO_64, q2);
    assert c1 % TWO_64 + q1 * TWO_64 == c1;
    assert c2 % TWO_64 + q2 * TWO_64 == c2;
    CmpFollowsTrueOrder(c1, c2);
  }

  /** `PartialCmp` agrees with `Cmp` exactly when the true difference of the
      two `i64` values does not overflow. */
  lemma PartialCmpAgreesIffNoOverflow(a: TscInstant, b: TscInstant)
    ensures PartialCmp(a, b) == Some(Cmp(a, b)) <==> InI64(a.ticks - b.ticks)
  {
  }

  /** The raw comparison is itself a total order, just not the one `Cmp` is. */
  lemma RawCmpIsTotalOrder()
    ensures IsTotalOrder(RawCmp)
  {
  }

  /** As written, `partial_cmp` (and so `<`) puts the last instant before a
      wrap after the first instant past it, although they are one tick apart. */
  lemma PartialCmpMisordersAcrossWrap()
    ensures PartialCmp(TscInstant(Wrap(MAX)), TscInstant(Wrap(MAX + 1))) == Some(Greater)
    ensures Cmp(TscInstant(Wrap(MAX)), TscInstant(Wrap(MAX + 1))) == Less
  {
    WrapUnique(MAX + 1, MIN, 1);
  }

  /** `partial_cmp` as Rust's `PartialOrd` contract for an `Ord` type asks
      it to be: `Some(self.cmp(other))`. */
  function ConsistentPartialCmp(a: TscInstant, b: TscInstant): (r: Option<Ordering>)
    ensures r.Some?
    ensures r.value.Equal? <==> a == b
    ensures InI64(a.ticks - b.ticks) ==> r == PartialCmp(a, b)
  {
    Some(Cmp(a, b))
  }

  /** The corrected `partial_cmp` orders instants within the half-range
      window by their true order, the property `Cmp` was written for. */
  lemma ConsistentPartialCmpFollowsTrueOrder(x: int, y: int)
    requires -TWO_63 < x - y < TWO_63
    ensures ConsistentPartialCmp(TscInstant(Wrap(x)), TscInstant(Wrap(y))) == Some(CmpInt(x, y))
  {
    CmpFollowsTrueOrder(x, y);
  }
}
