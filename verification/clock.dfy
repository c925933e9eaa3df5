/** The signed-nanosecond operations the synchronization code calls on its
    two clocks (src/clock_synchronization.rs).

    The operations become a record of functions here. The first argument of
    every function is the clock value itself (the receiver `self`), which is
    a small copyable value; a clock read (`now`) is never a function of the
    clock alone, so readings enter the model as inputs wherever they occur. */
module Clock {
  import opened Int64

  /** `sub_i64_ns` and `add_i64_ns`: signed nanosecond difference and offset.
      The synchronization code calls them on its clocks although the
      `CalibratedClock` trait does not declare them, so they stay abstract:
      nothing about them is assumed beyond the laws below, and each law is
      asked for explicitly where it is needed. */
  datatype SignedNs<!C, !I> = SignedNs(
    subI64Ns: (C, I, I) -> I64,
    addI64Ns: (C, I, I64) -> I)

  /** An instant is zero nanoseconds after itself. */
  ghost predicate SubSelfIsZero<C, I(!new)>(ops: SignedNs<C, I>, c: C) {
    forall t :: ops.subI64Ns(c, t, t) == 0
  }

  /** Offsetting by zero nanoseconds leaves the instant unchanged. */
  ghost predicate AddZeroIsIdentity<C, I(!new)>(ops: SignedNs<C, I>, c: C) {
    forall t :: ops.addI64Ns(c, t, 0) == t
  }

  /** Measuring an offset recovers it exactly. */
  ghost predicate SubUndoesAdd<C, I(!new)>(ops: SignedNs<C, I>, c: C) {
    forall t, d :: ops.subI64Ns(c, ops.addI64Ns(c, t, d), t) == d
  }

  /** Offsetting a base by the measured difference lands on the measured instant. */
  ghost predicate AddUndoesSub<C, I(!new)>(ops: SignedNs<C, I>, c: C) {
    forall t, u :: ops.addI64Ns(c, u, ops.subI64Ns(c, t, u)) == t
  }

  /** Exact signed arithmetic: all four laws at once. */
  ghost predicate ExactArithmetic<C, I(!new)>(ops: SignedNs<C, I>, c: C) {
    && SubSelfIsZero(ops, c)
    && AddZeroIsIdentity(ops, c)
    && SubUndoesAdd(ops, c)
    && AddUndoesSub(ops, c)
  }

  /** A clock whose instants are `i64` nanosecond counts, subtracted and
      offset with `wrapping_sub` / `wrapping_add`: the reference instance
      of `SignedNs`. The clock value carries no data. */
  datatype NsCounter = NsCounter

  function WrappingNs(): SignedNs<NsCounter, I64> {
    SignedNs((c: NsCounter, t: I64, u: I64) => WrappingSub(t, u),
             (c: NsCounter, t: I64, d: I64) => WrappingAdd(t, d))
  }

  /** Wrapping nanosecond counters obey every law of exact arithmetic, so
      the laws above are satisfiable and not merely assumed. */
  lemma WrappingNsIsExact(c: NsCounter)
    ensures ExactArithmetic(WrappingNs(), c)
  {
    var ops := WrappingNs();
    forall t: I64, d: I64
      ensures ops.subI64Ns(c, ops.addI64Ns(c, t, d), t) == d
    {
      calc {
        ops.subI64Ns(c, ops.addI64Ns(c, t, d), t);
        Wrap(Wrap(t + d) - t);
        { WrapOfSum(t + d, 0 - t as int); }
        Wrap(d);
      }
    }
    forall t: I64, u: I64
      ensures ops.addI64Ns(c, u, ops.subI64Ns(c, t, u)) == t
    {
      calc {
        ops.addI64Ns(c, u, ops.subI64Ns(c, t, u));
        Wrap(u + Wrap(t - u));
        Wrap(Wrap(t - u) + u);
        { WrapOfSum(t - u, u); }
        Wrap(t);
      }
    }
  }
}
