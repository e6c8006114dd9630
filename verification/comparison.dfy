/**
 * Integer ranges of the C# value types and the laws a comparison function
 * (an `IComparer<T>.Compare` or an `IComparable<T>.CompareTo`) has to obey.
 * Only the sign of a comparison result carries meaning.
 */
module Comparison {

  const Int32Min: int := -0x8000_0000
  const Int32Max: int := 0x7fff_ffff
  const Int64Min: int := -0x8000_0000_0000_0000
  const Int64Max: int := 0x7fff_ffff_ffff_ffff

  predicate IsInt32(x: int) {
    Int32Min <= x <= Int32Max
  }

  predicate IsInt64(x: int) {
    Int64Min <= x <= Int64Max
  }

  /** The C# `int` type. */
  type Int32 = x: int | IsInt32(x)

  function Sign(x: int): int {
    if x < 0 then -1 else if x > 0 then 1 else 0
  }

  /**
   * `cmp` behaves as a comparer: swapping the arguments flips the sign of the
   * result, and "compares at most 0" is transitive. Together these make
   * `cmp(x, y) <= 0` a total preorder (and `cmp(x, x) == 0`).
   */
  ghost predicate TotalPreorder<T(!new)>(cmp: (T, T) -> int) {
    && (forall x, y :: Sign(cmp(x, y)) == -Sign(cmp(y, x)))
    && (forall x, y, z :: cmp(x, y) <= 0 && cmp(y, z) <= 0 ==> cmp(x, z) <= 0)
  }

  /** `Int64.CompareTo`: -1, 0 or 1 as `x` is less than, equal to or greater than `y`. */
  function CompareValues(x: int, y: int): (r: int)
    ensures -1 <= r <= 1
    ensures r < 0 <==> x < y
    ensures r == 0 <==> x == y
  {
    if x < y then -1 else if x > y then 1 else 0
  }

  /** The natural order of integers is a total preorder. */
  lemma CompareValuesIsTotalPreorder()
    ensures TotalPreorder(CompareValues)
  {
  }

  /** A total preorder compares every element equal to itself. */
  lemma TotalPreorderReflexive<T(!new)>(cmp: (T, T) -> int, x: T)
    requires TotalPreorder(cmp)
    ensures cmp(x, x) == 0
  {
    assert Sign(cmp(x, x)) == -Sign(cmp(x, x));
  }
}
