/** Rust's `core::cmp::Ordering` and the laws a total order (`Ord`) must obey. */
module Ordering {

  datatype Ordering = Less | Equal | Greater {

    /** `Ordering::reverse`: swaps `Less` and `Greater`. */
    function Reverse(): (r: Ordering)
      ensures r.Equal? <==> this.Equal?
      ensures r.Less? <==> this.Greater?
    {
      match this
      case Less => Greater
      case Equal => Equal
      case Greater => Less
    }
  }

  /** `i64::cmp` (and `Ord::cmp` on any integer): the mathematical order. */
  function CmpInt(a: int, b: int): (r: Ordering)
    ensures r.Less? <==> a < b
    ensures r.Equal? <==> a == b
    ensures r.Greater? <==> a > b
  {
    if a < b then Less else if a == b then Equal else Greater
  }

  /** `cmp(x, y) == Equal` exactly when `x == y`: agreement with `Eq`,
      which also makes the order reflexive. */
  ghost predicate ConsistentWithEq<T(!new)>(cmp: (T, T) -> Ordering) {
    forall x, y :: cmp(x, y).Equal? <==> x == y
  }

  /** Swapping the arguments reverses the answer. */
  ghost predicate Antisymmetric<T(!new)>(cmp: (T, T) -> Ordering) {
    forall x, y :: cmp(y, x) == cmp(x, y).Reverse()
  }

  /** `x < y` and `y < z` give `x < z`. */
  ghost predicate Transitive<T(!new)>(cmp: (T, T) -> Ordering) {
    forall x, y, z :: cmp(x, y).Less? && cmp(y, z).Less? ==> cmp(x, z).Less?
  }

  /** What Rust's `Ord` documentation demands of every implementation. */
  ghost predicate IsTotalOrder<T(!new)>(cmp: (T, T) -> Ordering) {
    && ConsistentWithEq(cmp)
    && Antisymmetric(cmp)
    && Transitive(cmp)
  }

  /** The same three laws, asked only of the values that satisfy `inside`. */
  ghost predicate IsTotalOrderWithin<T(!new)>(cmp: (T, T) -> Ordering, inside: T -> bool) {
    && (forall x, y :: inside(x) && inside(y) ==> (cmp(x, y).Equal? <==> x == y))
    && (forall x, y :: inside(x) && inside(y) ==> cmp(y, x) == cmp(x, y).Reverse())
    && (forall x, y, z :: inside(x) && inside(y) && inside(z) && cmp(x, y).Less? && cmp(y, z).Less? ==> cmp(x, z).Less?)
  }

  /** The integers under `CmpInt` form a total order. */
  lemma CmpIntIsTotalOrder()
    ensures IsTotalOrder(CmpInt)
  {
  }
}
