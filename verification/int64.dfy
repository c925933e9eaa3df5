/** Fixed-width integer arithmetic as Rust performs it on `i64` and `u64`:
    two's-complement wrap-around, truncating division and saturating casts.
    Dafny integers are unbounded, so every width effect is written out here. */
module Int64 {

  const TWO_63: int := 0x8000_0000_0000_0000
  const TWO_64: int := 0x1_0000_0000_0000_0000

  /** `i64::MIN` and `i64::MAX`. */
  const MIN: int := -TWO_63
  const MAX: int := TWO_63 - 1

  type I64 = x: int | -0x8000_0000_0000_0000 <= x < 0x8000_0000_0000_0000
  type U64 = x: int | 0 <= x < 0x1_0000_0000_0000_0000

  predicate InI64(x: int) {
    MIN <= x <= MAX
  }

  predicate InU64(x: int) {
    0 <= x < TWO_64
  }

  /** The `i64` with the same residue as `x` modulo 2^64: what a 64-bit
      register holds after computing `x`, read as a signed value. */
  function Wrap(x: int): (r: I64)
    ensures InI64(x) ==> r == x
  {
    (x + TWO_63) % TWO_64 - TWO_63
  }

  /** A value in `i64` range that differs from `x` by a multiple of 2^64
      is the wrapped value of `x`. */
  lemma WrapUnique(x: int, r: int, q: int)
    requires InI64(r)
    requires x == r + q * TWO_64
    ensures Wrap(x) == r
  {
    var y := x + TWO_63;
    assert y == (r + TWO_63) + q * TWO_64;
    assert 0 <= r + TWO_63 < TWO_64;
    var d, m := y / TWO_64, y % TWO_64;
    assert y == d * TWO_64 + m && 0 <= m < TWO_64;
    assert d == q;
  }

  /** Wrapping forgets whole turns of 2^64. */
  lemma WrapShift(x: int, q: int)
    ensures Wrap(x + q * TWO_64) == Wrap(x)
  {
    var r := Wrap(x);
    var d := (x + TWO_63) / TWO_64;
    assert x == r + d * TWO_64;
    WrapUnique(x + q * TWO_64, r, d + q);
  }

  /** `x` and its wrapped value differ by a whole number of turns. */
  lemma WrapTurns(x: int) returns (q: int)
    ensures x == Wrap(x) + q * TWO_64
  {
    q := (x + TWO_63) / TWO_64;
  }

  /** Wrapping the left operand of a sum first does not change the wrapped sum. */
  lemma WrapOfSum(x: int, y: int)
    ensures Wrap(Wrap(x) + y) == Wrap(x + y)
  {
    var q := WrapTurns(x);
    WrapShift(Wrap(x) + y, q);
  }

  /** `i64::wrapping_sub`: the exact difference when it fits, otherwise
      shifted by one turn of 2^64. */
  function WrappingSub(a: I64, b: I64): (r: I64)
    ensures InI64(a - b) ==> r == a - b
    ensures a - b > MAX ==> r == a - b - TWO_64
    ensures a - b < MIN ==> r == a - b + TWO_64
  {
    if a - b > MAX then a - b - TWO_64
    else if a - b < MIN then a - b + TWO_64
    else a - b
  }

  /** `i64::wrapping_add`: the exact sum when it fits, otherwise shifted by
      one turn of 2^64. */
  function WrappingAdd(a: I64, b: I64): (r: I64)
    ensures InI64(a + b) ==> r == a + b
    ensures a + b > MAX ==> r == a + b - TWO_64
    ensures a + b < MIN ==> r == a + b + TWO_64
  {
    if a + b > MAX then a + b - TWO_64
    else if a + b < MIN then a + b + TWO_64
    else a + b
  }

  /** `wrapping_sub` undoes `wrapping_add`: `(b + k) - b == k` in `i64`
      for every `b` and `k`, overflow or not. */
  lemma SubUndoesWrappingAdd(b: I64, k: I64)
    ensures WrappingSub(WrappingAdd(b, k), b) == k
  {
  }

  /** The distance from `b - k` back up to `b` is `k`, in `i64`, for every
      `b` and `k`. */
  lemma SubUndoesWrappingSub(b: I64, k: I64)
    ensures WrappingSub(b, WrappingSub(b, k)) == k
  {
  }

  /** Every outcome of `wrapping_sub` is the wrapped exact difference. */
  lemma WrappingSubIsWrap(a: I64, b: I64)
    ensures WrappingSub(a, b) == Wrap(a - b)
  {
    if a - b > MAX {
      WrapUnique(a - b, a - b - TWO_64, 1);
    } else if a - b < MIN {
      WrapUnique(a - b, a - b + TWO_64, -1);
    }
  }

  /** Every outcome of `wrapping_add` is the wrapped exact sum. */
  lemma WrappingAddIsWrap(a: I64, b: I64)
    ensures WrappingAdd(a, b) == Wrap(a + b)
  {
    if a + b > MAX {
      WrapUnique(a + b, a + b - TWO_64, 1);
    } else if a + b < MIN {
      WrapUnique(a + b, a + b + TWO_64, -1);
    }
  }

  /** The wrapped difference of two wrapped values is the wrapped true difference. */
  lemma WrapOfDifference(x: int, y: int)
    ensures WrappingSub(Wrap(x), Wrap(y)) == Wrap(x - y)
  {
    WrappingSubIsWrap(Wrap(x), Wrap(y));
    var p := WrapTurns(x);
    var q := WrapTurns(y);
    assert Wrap(x) - Wrap(y) == (x - y) + (q - p) * TWO_64;
    WrapShift(x - y, q - p);
  }

  /** Rust's `x / 2` on `i64`, which rounds toward zero (Dafny's `/` is
      Euclidean and would round -3 / 2 to -2). */
  function HalfTowardZero(x: I64): (r: I64)
    ensures x >= 0 ==> 0 <= x - 2 * r <= 1
    ensures x < 0 ==> -1 <= x - 2 * r <= 0
  {
    if x >= 0 then x / 2 else var n: int := 0 - x as int; -(n / 2)
  }

  /** Rust's float-to-`u64` cast applied to an already integral value:
      saturates at both ends. */
  function SaturateU64(x: int): (r: U64)
    ensures InU64(x) ==> r == x
    ensures x < 0 ==> r == 0
    ensures x >= TWO_64 ==> r == TWO_64 - 1
  {
    if x < 0 then 0 else if x >= TWO_64 then TWO_64 - 1 else x
  }

  /** Rust's float-to-`i64` cast applied to an already integral value:
      saturates at both ends. */
  function SaturateI64(x: int): (r: I64)
    ensures InI64(x) ==> r == x
    ensures x < MIN ==> r == MIN
    ensures x > MAX ==> r == MAX
  {
    if x < MIN then MIN else if x > MAX then MAX else x
  }
}
