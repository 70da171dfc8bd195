/**
  The comparator kit: natural and reverse order over a three-way `compareTo`
  capability, comparators derived through a selector, and `compareValues`,
  which orders an absent (`null`) value before every present one.
 */
module Comparables {

  /** A value of type `T | null`. */
  datatype Nullable<T> = Null | NonNull(value: T)

  /** A three-way comparison: negative, zero or positive. */
  type Comparator<!T> = (T, T) -> int

  function Sign(x: int): int {
    if x > 0 then 1 else if x < 0 then -1 else 0
  }

  /** Swapping the operands flips the sign of the comparison. */
  ghost predicate Antisymmetric<T(!new)>(c: Comparator<T>) {
    forall a, b :: Sign(c(a, b)) == -Sign(c(b, a))
  }

  /** `NaturalOrder()`: compare through the elements' own `compareTo`. */
  function NaturalOrder<T(!new)>(compareTo: Comparator<T>): (c: Comparator<T>)
    ensures forall a, b :: c(a, b) == compareTo(a, b)
  {
    (a: T, b: T) => compareTo(a, b)
  }

  /** `ReverseOrder()`: natural order with the operands swapped. */
  function ReverseOrder<T(!new)>(compareTo: Comparator<T>): (c: Comparator<T>)
    ensures forall a, b :: c(a, b) == NaturalOrder(compareTo)(b, a)
  {
    (a: T, b: T) => compareTo(b, a)
  }

  /** `getReversedComparator(comparator)`. */
  function GetReversedComparator<T(!new)>(comparator: Comparator<T>): (c: Comparator<T>)
    ensures forall a, b :: c(a, b) == comparator(b, a)
  {
    (a: T, b: T) => comparator(b, a)
  }

  /**
    `compareValues(a, b)`: identical values compare equal without consulting
    `compareTo`; otherwise `null` is smaller than any present value.
   */
  function CompareValues<C(==)>(compareTo: Comparator<C>, a: Nullable<C>, b: Nullable<C>): (r: int)
    ensures a == b ==> r == 0
    ensures a.Null? && b.NonNull? ==> r == -1
    ensures a.NonNull? && b.Null? ==> r == 1
    ensures a.NonNull? && b.NonNull? && a != b ==> r == compareTo(a.value, b.value)
  {
    if a == b then 0
    else if a.Null? then -1
    else if b.Null? then 1
    else compareTo(a.value, b.value)
  }

  /** `compareBy(selector)`: compare the selected values with `compareValues`. */
  function CompareBy<T(!new), C(==)>(selector: T -> Nullable<C>, compareTo: Comparator<C>): (c: Comparator<T>)
    ensures forall a, b :: c(a, b) == CompareValues(compareTo, selector(a), selector(b))
  {
    (a: T, b: T) => CompareValues(compareTo, selector(a), selector(b))
  }

  /** `compareByDescending(selector)`: `compareBy` with the operands swapped. */
  function CompareByDescending<T(!new), C(==)>(selector: T -> Nullable<C>, compareTo: Comparator<C>): (c: Comparator<T>)
    ensures forall a, b :: c(a, b) == CompareBy(selector, compareTo)(b, a)
  {
    (a: T, b: T) => CompareValues(compareTo, selector(b), selector(a))
  }

  /** `compareValuesBy(a, b, selector)`: one application of `compareBy`. */
  function CompareValuesBy<T(!new), C(==)>(a: T, b: T, selector: T -> Nullable<C>, compareTo: Comparator<C>): (r: int)
    ensures r == CompareBy(selector, compareTo)(a, b)
  {
    CompareValues(compareTo, selector(a), selector(b))
  }

  /** `null` sorts first: it is never greater than anything. */
  lemma NullSortsFirst<C>(compareTo: Comparator<C>, b: Nullable<C>)
    ensures CompareValues(compareTo, Null, b) <= 0
    ensures CompareValues(compareTo, b, Null) >= 0
  {
  }

  /** `compareValues` keeps the antisymmetry of the `compareTo` it is given. */
  lemma CompareValuesAntisymmetric<C(!new)>(compareTo: Comparator<C>)
    requires Antisymmetric(compareTo)
    ensures forall a: Nullable<C>, b: Nullable<C> ::
              Sign(CompareValues(compareTo, a, b)) == -Sign(CompareValues(compareTo, b, a))
  {
  }

  /** Every comparator the kit derives from an antisymmetric one is antisymmetric. */
  lemma DerivedComparatorsAntisymmetric<T(!new), C(!new)>(
    compareTo: Comparator<T>, selector: T -> Nullable<C>, selectedCompareTo: Comparator<C>)
    requires Antisymmetric(compareTo)
    requires Antisymmetric(selectedCompareTo)
    ensures Antisymmetric(NaturalOrder(compareTo))
    ensures Antisymmetric(ReverseOrder(compareTo))
    ensures Antisymmetric(GetReversedComparator(compareTo))
    ensures Antisymmetric(CompareBy(selector, selectedCompareTo))
    ensures Antisymmetric(CompareByDescending(selector, selectedCompareTo))
  {
  }

  /** Reversing a comparator twice gives back the same ordering. */
  lemma ReversedTwice<T(!new)>(comparator: Comparator<T>, a: T, b: T)
    ensures GetReversedComparator(GetReversedComparator(comparator))(a, b) == comparator(a, b)
    ensures ReverseOrder(comparator)(a, b) == GetReversedComparator(NaturalOrder(comparator))(a, b)
  {
  }
}
