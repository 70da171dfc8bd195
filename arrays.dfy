/**
  The operations the library attaches to arrays. A receiver that is only read
  is a `seq<T>`; `reverseRange` works in place on an `array<T>`; the `...To`
  filters push into a caller's destination array, an `ArrayDestination`.
  Which values are falsy and which are `null` is not fixed by the element type,
  so it is passed in as `falsy` and `isNull`.
 */
module Arrays {
  import opened JsValues
  import opened Sequences
  import Numbers

  // ---------------------------------------------------------------------------
  // Messages of the errors the operations throw

  function CountMessage(n: int): string {
    "Requested element count " + IntToString(n) + " is less than zero."
  }

  const ArrayIsEmpty := "Array is empty."
  const MoreThanOneElement := "Array has more than one element."
  const NoMatchingElement := "Array contains no element matching the predicate."
  const MoreThanOneMatching := "Array contains more than one matching element."

  function RangeMessage(fromIndex: int, toIndex: int, size: int): string {
    "fromIndex: " + IntToString(fromIndex) + ", toIndex: " + IntToString(toIndex)
      + ", size: " + IntToString(size)
  }

  function OrderMessage(fromIndex: int, toIndex: int): string {
    "fromIndex: " + IntToString(fromIndex) + " > toIndex: " + IntToString(toIndex)
  }

  // ---------------------------------------------------------------------------
  // Helpers

  /** `isInBound(array, index)`: `index` is a valid position. */
  function IsInBound<T>(s: seq<T>, index: int): (b: bool)
    ensures b <==> 0 <= index < |s|
  {
    index >= 0 && index < |s|
  }

  /** `isIndicesEmpty(start, endInclusive)`. */
  function IsIndicesEmpty(start: int, endInclusive: int): (b: bool)
    ensures b <==> endInclusive <= start
  {
    start >= endInclusive
  }

  /**
    `checkRangeIndexes(fromIndex, toIndex, size)`: passes exactly on a valid
    half-open range; the bounds are checked before the order.
   */
  function CheckRangeIndexes(fromIndex: int, toIndex: int, size: int): (r: Outcome)
    ensures r.Pass? <==> 0 <= fromIndex <= toIndex <= size
    ensures fromIndex < 0 || toIndex > size ==> r == Fail(RangeMessage(fromIndex, toIndex, size))
    ensures 0 <= fromIndex && toIndex <= size && fromIndex > toIndex ==>
              r == Fail(OrderMessage(fromIndex, toIndex))
  {
    if fromIndex < 0 || toIndex > size then Fail(RangeMessage(fromIndex, toIndex, size))
    else if fromIndex > toIndex then Fail(OrderMessage(fromIndex, toIndex))
    else Pass
  }

  /** The host's `Array.prototype.at`: a negative index counts from the end. */
  function At<T>(s: seq<T>, index: int): (r: Nullish<T>)
    ensures 0 <= index < |s| ==> r == Value(s[index])
    ensures -|s| <= index < 0 ==> r == Value(s[|s| + index])
    ensures index < -|s| || |s| <= index ==> r == Undefined
  {
    if 0 <= index < |s| then Value(s[index])
    else if -|s| <= index < 0 then Value(s[|s| + index])
    else Undefined
  }

  /** The elements of `s`, none of them absent. */
  function Values<T>(s: seq<T>): (r: seq<Nullish<T>>)
    ensures |r| == |s|
    ensures forall i :: 0 <= i < |s| ==> r[i] == Value(s[i])
  {
    seq(|s|, i requires 0 <= i < |s| => Value(s[i]))
  }

  /** A caller's array that the `...To` operations push into. */
  class ArrayDestination<T> {
    var elements: seq<T>

    constructor (elements: seq<T>)
      ensures this.elements == elements
    {
      this.elements := elements;
    }

    /** `push(x)` */
    method Push(x: T)
      modifies this
      ensures elements == old(elements) + [x]
    {
      elements := elements + [x];
    }
  }

  // ---------------------------------------------------------------------------
  // Bounds-checked access

  /** `elementAtOrElse(index, defaultValue)` */
  function ElementAtOrElse<T>(s: seq<T>, index: int, defaultValue: int -> T): (r: T)
    ensures 0 <= index < |s| ==> r == s[index]
    ensures !(0 <= index < |s|) ==> r == defaultValue(index)
  {
    if IsInBound(s, index) then At(s, index).value else defaultValue(index)
  }

  /** `elementAtOrNull(index)` */
  function ElementAtOrNull<T>(s: seq<T>, index: int): (r: Nullish<T>)
    ensures 0 <= index < |s| ==> r == Value(s[index])
    ensures !(0 <= index < |s|) ==> r == Null
  {
    if IsInBound(s, index) then At(s, index) else Null
  }

  /** `getOrElse(index, defaultValue)`: the same expression as `elementAtOrElse`. */
  function GetOrElse<T>(s: seq<T>, index: int, defaultValue: int -> T): (r: T)
    ensures 0 <= index < |s| ==> r == s[index]
    ensures !(0 <= index < |s|) ==> r == defaultValue(index)
  {
    ElementAtOrElse(s, index, defaultValue)
  }

  /** `getOrNull(index)`: the same expression as `elementAtOrNull`. */
  function GetOrNull<T>(s: seq<T>, index: int): (r: Nullish<T>)
    ensures 0 <= index < |s| ==> r == Value(s[index])
    ensures !(0 <= index < |s|) ==> r == Null
  {
    ElementAtOrNull(s, index)
  }

  // ---------------------------------------------------------------------------
  // Searches

  /** `firstOrNull(predicate?)`: without a predicate a falsy first element reads as `null`. */
  method FirstOrNull<T>(s: seq<T>, pred: Option<T -> bool>, falsy: T -> bool) returns (r: Nullish<T>)
    ensures pred.None? ==> r == (if |s| > 0 && !falsy(s[0]) then Value(s[0]) else Null)
    ensures pred.Some? ==>
              var i := FirstIndexWhere(s, pred.value, true);
              r == (if i < 0 then Null else Value(s[i]))
  {
    if pred.None? {
      return OrNull(At(s, 0), falsy);
    }
    var p := pred.value;
    var i := 0;
    while i < |s|
      invariant 0 <= i <= |s|
      invariant forall j :: 0 <= j < i ==> !p(s[j])
    {
      var el := s[i];
      if p(el) {
        FirstIndexWhereIs(s, p, true, i);
        return Value(el);
      }
      i := i + 1;
    }
    return Null;
  }

  /** `lastOrNull(predicate?)`: without a predicate a falsy last element reads as `null`. */
  method LastOrNull<T>(s: seq<T>, pred: Option<T -> bool>, falsy: T -> bool) returns (r: Nullish<T>)
    ensures pred.None? ==> r == (if |s| > 0 && !falsy(s[|s| - 1]) then Value(s[|s| - 1]) else Null)
    ensures pred.Some? ==>
              var i := LastIndexWhere(s, pred.value, true);
              r == (if i < 0 then Null else Value(s[i]))
  {
    if pred.None? {
      return OrNull(At(s, |s| - 1), falsy);
    }
    var p := pred.value;
    var i := |s| - 1;
    while i >= 0
      invariant -1 <= i < |s|
      invariant forall j :: i < j < |s| ==> !p(s[j])
    {
      var el := s[i];
      if p(el) {
        LastIndexWhereIs(s, p, true, i);
        return Value(el);
      }
      i := i - 1;
    }
    LastIndexWhereIs(s, p, true, -1);
    return Null;
  }

  /** `find(predicate)`: the first match, unless it is falsy. */
  method Find<T>(s: seq<T>, p: T -> bool, falsy: T -> bool) returns (r: Nullish<T>)
    ensures var i := FirstIndexWhere(s, p, true);
            r == (if i >= 0 && !falsy(s[i]) then Value(s[i]) else Undefined)
  {
    var found := FirstOrNull(s, Some(p), falsy);
    return OrUndefined(found, falsy);
  }

  /** `findLast(predicate)`: the last match, unless it is falsy. */
  method FindLast<T>(s: seq<T>, p: T -> bool, falsy: T -> bool) returns (r: Nullish<T>)
    ensures var i := LastIndexWhere(s, p, true);
            r == (if i >= 0 && !falsy(s[i]) then Value(s[i]) else Undefined)
  {
    var found := LastOrNull(s, Some(p), falsy);
    return OrUndefined(found, falsy);
  }

  /** `first(predicate?)`: without a predicate, `at(0)`, so `undefined` on an empty array. */
  method First<T>(s: seq<T>, pred: Option<T -> bool>, falsy: T -> bool) returns (r: Nullish<T>)
    ensures pred.None? ==> r == (if |s| > 0 then Value(s[0]) else Undefined)
    ensures pred.Some? ==>
              var i := FirstIndexWhere(s, pred.value, true);
              r == (if i >= 0 && !falsy(s[i]) then Value(s[i]) else Undefined)
  {
    if pred.None? {
      return At(s, 0);
    }
    var found := FirstOrNull(s, pred, falsy);
    return OrUndefined(found, falsy);
  }

  /** `last(predicate?)`: without a predicate, `at(length - 1)`. */
  method Last<T>(s: seq<T>, pred: Option<T -> bool>, falsy: T -> bool) returns (r: Nullish<T>)
    ensures pred.None? ==> r == (if |s| > 0 then Value(s[|s| - 1]) else Undefined)
    ensures pred.Some? ==>
              var i := LastIndexWhere(s, pred.value, true);
              r == (if i >= 0 && !falsy(s[i]) then Value(s[i]) else Undefined)
  {
    if pred.None? {
      return At(s, |s| - 1);
    }
    var found := LastOrNull(s, pred, falsy);
    return OrUndefined(found, falsy);
  }

  /** `firstNotNullOfOrNull(transform)`: the first transformed value that is not `null`. */
  method FirstNotNullOfOrNull<T, R>(s: seq<T>, transform: T -> R, isNull: R -> bool) returns (r: Nullish<R>)
    ensures var i := FirstIndexWhere(Map(s, transform), isNull, false);
            r == (if i < 0 then Null else Value(transform(s[i])))
  {
    ghost var mapped := Map(s, transform);
    var i := 0;
    while i < |s|
      invariant 0 <= i <= |s|
      invariant forall j :: 0 <= j < i ==> isNull(mapped[j])
    {
      var result := transform(s[i]);
      if !isNull(result) {
        FirstIndexWhereIs(mapped, isNull, false, i);
        return Value(result);
      }
      i := i + 1;
    }
    return Null;
  }

  /** `firstNotNullOf(transform)`: as above, but a falsy result reads as `undefined`. */
  method FirstNotNullOf<T, R>(s: seq<T>, transform: T -> R, isNull: R -> bool, falsy: R -> bool)
    returns (r: Nullish<R>)
    ensures var i := FirstIndexWhere(Map(s, transform), isNull, false);
            r == (if i >= 0 && !falsy(transform(s[i])) then Value(transform(s[i])) else Undefined)
  {
    var result := FirstNotNullOfOrNull(s, transform, isNull);
    return OrUndefined(result, falsy);
  }

  /** `firstTruthyOfOrNull(transform)`: the first transformed value that is truthy. */
  method FirstTruthyOfOrNull<T, R>(s: seq<T>, transform: T -> R, falsy: R -> bool) returns (r: Nullish<R>)
    ensures var i := FirstIndexWhere(Map(s, transform), falsy, false);
            r == (if i < 0 then Null else Value(transform(s[i])))
  {
    ghost var mapped := Map(s, transform);
    var i := 0;
    while i < |s|
      invariant 0 <= i <= |s|
      invariant forall j :: 0 <= j < i ==> falsy(mapped[j])
    {
      var result := transform(s[i]);
      if !falsy(result) {
        FirstIndexWhereIs(mapped, falsy, false, i);
        return Value(result);
      }
      i := i + 1;
    }
    return Null;
  }

  /** `firstTruthyOf(transform)`: a truthy result survives `|| undefined`. */
  method FirstTruthyOf<T, R>(s: seq<T>, transform: T -> R, falsy: R -> bool) returns (r: Nullish<R>)
    ensures var i := FirstIndexWhere(Map(s, transform), falsy, false);
            r == (if i < 0 then Undefined else Value(transform(s[i])))
  {
    var result := FirstTruthyOfOrNull(s, transform, falsy);
    return OrUndefined(result, falsy);
  }

  /**
    `indexOf(element)`: the first position holding `element` under strict
    equality, or -1. The source scans separately for a `null` element, with
    the same outcome.
   */
  method IndexOf<T(==)>(s: seq<T>, element: T) returns (r: int)
    ensures -1 <= r < |s|
    ensures r >= 0 ==> s[r] == element && element !in s[..r]
    ensures r < 0 ==> element !in s
  {
    var i := 0;
    while i < |s|
      invariant 0 <= i <= |s|
      invariant element !in s[..i]
    {
      if element == s[i] {
        return i;
      }
      assert s[..i + 1] == s[..i] + [s[i]];
      i := i + 1;
    }
    assert s[..i] == s;
    return -1;
  }

  /** `lastIndexOf(element)`: the last position holding `element`, or -1. */
  method LastIndexOf<T(==)>(s: seq<T>, element: T) returns (r: int)
    ensures -1 <= r < |s|
    ensures r >= 0 ==> s[r] == element && element !in s[r + 1..]
    ensures r < 0 ==> element !in s
  {
    var i := |s| - 1;
    while i >= 0
      invariant -1 <= i < |s|
      invariant element !in s[i + 1..]
    {
      if element == s[i] {
        return i;
      }
      assert s[i..] == [s[i]] + s[i + 1..];
      i := i - 1;
    }
    return -1;
  }

  /** `indexOfFirst(predicate)` */
  method IndexOfFirst<T>(s: seq<T>, p: T -> bool) returns (r: int)
    ensures r == FirstIndexWhere(s, p, true)
  {
    var i := 0;
    while i < |s|
      invariant 0 <= i <= |s|
      invariant forall j :: 0 <= j < i ==> !p(s[j])
    {
      if p(s[i]) {
        FirstIndexWhereIs(s, p, true, i);
        return i;
      }
      i := i + 1;
    }
    return -1;
  }

  /** `indexOfLast(predicate)` */
  method IndexOfLast<T>(s: seq<T>, p: T -> bool) returns (r: int)
    ensures r == LastIndexWhere(s, p, true)
  {
    var i := |s| - 1;
    while i >= 0
      invariant -1 <= i < |s|
      invariant forall j :: i < j < |s| ==> !p(s[j])
    {
      if p(s[i]) {
        LastIndexWhereIs(s, p, true, i);
        return i;
      }
      i := i - 1;
    }
    LastIndexWhereIs(s, p, true, -1);
    return -1;
  }

  // ---------------------------------------------------------------------------
  // Uniqueness

  /** `single(predicate?)`: the only (matching) element, or one of four errors. */
  method Single<T>(s: seq<T>, pred: Option<T -> bool>) returns (r: Result<T>)
    ensures pred.None? && |s| == 1 ==> r == Ok(s[0])
    ensures pred.None? && |s| == 0 ==> r == Err(ArrayIsEmpty)
    ensures pred.None? && |s| > 1 ==> r == Err(MoreThanOneElement)
    ensures pred.Some? ==>
              var matches := Filter(s, pred.value, true);
              && (|matches| == 1 ==> r == Ok(matches[0]))
              && (|matches| == 0 ==> r == Err(NoMatchingElement))
              && (|matches| > 1 ==> r == Err(MoreThanOneMatching))
  {
    if pred.None? {
      if |s| == 1 {
        return Ok(At(s, 0).value);
      } else if |s| == 0 {
        return Err(ArrayIsEmpty);
      } else {
        return Err(MoreThanOneElement);
      }
    }
    var p := pred.value;
    var single: Nullish<T> := Undefined;
    var found := false;
    var i := 0;
    while i < |s|
      invariant 0 <= i <= |s|
      invariant |Filter(s[..i], p, true)| <= 1
      invariant found <==> |Filter(s[..i], p, true)| == 1
      invariant found ==> single == Value(Filter(s[..i], p, true)[0])
    {
      var el := s[i];
      assert s[..i + 1][..i] == s[..i];
      if p(el) {
        if found {
          FilterPrefix(s, p, true, i + 1);
          return Err(MoreThanOneMatching);
        }
        single := Value(el);
        found := true;
      }
      i := i + 1;
    }
    assert s[..i] == s;
    if !found {
      return Err(NoMatchingElement);
    }
    return Ok(single.value);
  }

  /** `singleOrNull(predicate?)`: `null` wherever `single` would throw. */
  method SingleOrNull<T>(s: seq<T>, pred: Option<T -> bool>) returns (r: Nullish<T>)
    ensures pred.None? ==> r == (if |s| == 1 then Value(s[0]) else Null)
    ensures pred.Some? ==>
              var matches := Filter(s, pred.value, true);
              r == (if |matches| == 1 then Value(matches[0]) else Null)
  {
    if pred.None? {
      return if |s| == 1 then At(s, 0) else Null;
    }
    var p := pred.value;
    var single: Nullish<T> := Undefined;
    var found := false;
    var i := 0;
    while i < |s|
      invariant 0 <= i <= |s|
      invariant |Filter(s[..i], p, true)| <= 1
      invariant found <==> |Filter(s[..i], p, true)| == 1
      invariant found ==> single == Value(Filter(s[..i], p, true)[0])
    {
      var el := s[i];
      assert s[..i + 1][..i] == s[..i];
      if p(el) {
        if found {
          FilterPrefix(s, p, true, i + 1);
          return Null;
        }
        single := Value(el);
        found := true;
      }
      i := i + 1;
    }
    assert s[..i] == s;
    if !found {
      return Null;
    }
    return single;
  }

  /** The element `single` returns is the one element satisfying the predicate. */
  lemma SingleMatchIsUnique<T>(s: seq<T>, p: T -> bool, i: int)
    requires |Filter(s, p, true)| == 1
    requires 0 <= i < |s| && p(s[i])
    ensures Filter(s, p, true)[0] == s[i]
    ensures forall j :: 0 <= j < |s| && p(s[j]) ==> s[j] == s[i]
  {
  }

  // ---------------------------------------------------------------------------
  // Counting slices

  /**
    `take(n)`, with the early `return [...this]` for a count of at least the
    length that the source leaves out restored, so a count of at least the length copies the whole array.
   */
  method Take<T>(s: seq<T>, n: int) returns (r: Result<seq<T>>)
    ensures n < 0 ==> r == Err(CountMessage(n))
    ensures 0 <= n <= |s| ==> r == Ok(s[..n])
    ensures n > |s| ==> r == Ok(s)
  {
    if n < 0 {
      return Err(CountMessage(n));
    }
    if n == 0 {
      return Ok([]);
    }
    if n >= |s| {
      assert s[..|s|] == s;
      return Ok(s);
    }
    if n == 1 {
      assert s[..1] == [s[0]];
      return Ok([At(s, 0).value]);
    }
    var count := 0;
    var taken: seq<T> := [];
    var i := 0;
    while i < |s|
      invariant 0 <= i < n
      invariant count == i && taken == s[..i]
    {
      assert s[..i + 1] == s[..i] + [s[i]];
      taken := taken + [s[i]];
      count := count + 1;
      if count == n {
        break;
      }
      i := i + 1;
    }
    return Ok(taken);
  }

  /**
    `takeLast(n)`, with the early `return [...this]` for a count of at least
    the length that the source leaves out restored, so a count of at least the length copies the whole array.
   */
  method TakeLast<T>(s: seq<T>, n: int) returns (r: Result<seq<T>>)
    ensures n < 0 ==> r == Err(CountMessage(n))
    ensures 0 <= n <= |s| ==> r == Ok(s[|s| - n..])
    ensures n > |s| ==> r == Ok(s)
  {
    if n < 0 {
      return Err(CountMessage(n));
    }
    if n == 0 {
      assert s[|s|..] == [];
      return Ok([]);
    }
    if n >= |s| {
      assert s[|s| - |s|..] == s;
      return Ok(s);
    }
    var taken: seq<T> := [];
    var i := |s| - n;
    while i < |s|
      invariant |s| - n <= i <= |s|
      invariant taken == s[|s| - n..i]
    {
      taken := taken + [At(s, i).value];
      i := i + 1;
    }
    assert s[|s| - n..i] == s[|s| - n..];
    return Ok(taken);
  }

  /** `drop(n)`: what follows the first `n` elements. */
  method Drop<T>(s: seq<T>, n: int) returns (r: Result<seq<T>>)
    ensures n < 0 ==> r == Err(CountMessage(n))
    ensures 0 <= n <= |s| ==> r == Ok(s[n..]) && s[..n] + r.value == s
    ensures n > |s| ==> r == Ok([])
  {
    if n < 0 {
      return Err(CountMessage(n));
    }
    r := TakeLast(s, Numbers.CoerceAtLeast(|s| - n, 0));
    assert s[|s|..] == [];
  }

  /** `dropLast(n)`: what precedes the last `n` elements. */
  method DropLast<T>(s: seq<T>, n: int) returns (r: Result<seq<T>>)
    ensures n < 0 ==> r == Err(CountMessage(n))
    ensures 0 <= n <= |s| ==> r == Ok(s[..|s| - n]) && r.value + s[|s| - n..] == s
    ensures n > |s| ==> r == Ok([])
  {
    if n < 0 {
      return Err(CountMessage(n));
    }
    r := Take(s, Numbers.CoerceAtLeast(|s| - n, 0));
    assert s[..0] == [];
  }

  // ---------------------------------------------------------------------------
  // Predicate slices

  /** `takeWhile(predicate)`: the longest prefix of matching elements. */
  method TakeWhile<T>(s: seq<T>, p: T -> bool) returns (r: seq<T>)
    ensures r == s[..PrefixLength(s, p)]
  {
    ghost var k := PrefixLength(s, p);
    r := [];
    var i := 0;
    while i < |s|
      invariant 0 <= i <= k
      invariant r == s[..i]
    {
      var item := s[i];
      if !p(item) {
        break;
      }
      r := r + [item];
      i := i + 1;
    }
  }

  /** `dropWhile(predicate)`: everything from the first element that does not match. */
  method DropWhile<T>(s: seq<T>, p: T -> bool) returns (r: seq<T>)
    ensures r == s[PrefixLength(s, p)..]
    ensures s[..PrefixLength(s, p)] + r == s
  {
    ghost var k := PrefixLength(s, p);
    var yielding := false;
    r := [];
    var i := 0;
    while i < |s|
      invariant 0 <= i <= |s|
      invariant !yielding ==> i <= k && r == []
      invariant yielding ==> k < i && r == s[k..i]
    {
      var item := s[i];
      if yielding {
        r := r + [item];
      } else if !p(item) {
        r := r + [item];
        yielding := true;
      }
      i := i + 1;
    }
  }

  /** `dropLastWhile(predicate)`: everything up to the last element that does not match. */
  method DropLastWhile<T>(s: seq<T>, p: T -> bool) returns (r: seq<T>)
    ensures r == s[..LastIndexWhere(s, p, false) + 1]
  {
    var i := |s| - 1;
    while i >= 0
      invariant -1 <= i < |s|
      invariant forall j :: i < j < |s| ==> p(s[j])
    {
      if !p(s[i]) {
        LastIndexWhereIs(s, p, false, i);
        var taken := Take(s, i + 1);
        return taken.value;
      }
      i := i - 1;
    }
    LastIndexWhereIs(s, p, false, -1);
    return [];
  }

  /**
    `takeLastWhile(predicate)`: everything after the last element that does
    not match; when every element matches, the empty array.
   */
  method TakeLastWhile<T>(s: seq<T>, p: T -> bool) returns (r: seq<T>)
    ensures var i := LastIndexWhere(s, p, false);
            r == (if i < 0 then [] else s[i + 1..])
    ensures LastIndexWhere(s, p, false) >= 0 ==> s[..LastIndexWhere(s, p, false) + 1] + r == s
  {
    var i := |s| - 1;
    while i >= 0
      invariant -1 <= i < |s|
      invariant forall j :: i < j < |s| ==> p(s[j])
    {
      if !p(s[i]) {
        LastIndexWhereIs(s, p, false, i);
        var dropped := Drop(s, i + 1);
        return dropped.value;
      }
      i := i - 1;
    }
    LastIndexWhereIs(s, p, false, -1);
    return [];
  }

  // ---------------------------------------------------------------------------
  // Filters into a destination

  /** `filterTo(destination, predicate)`: appends the matching elements. */
  method FilterTo<T>(s: seq<T>, destination: ArrayDestination<T>, p: T -> bool)
    returns (r: ArrayDestination<T>)
    modifies destination
    ensures r == destination
    ensures destination.elements == old(destination.elements) + Filter(s, p, true)
  {
    var i := 0;
    while i < |s|
      invariant 0 <= i <= |s|
      invariant destination.elements == old(destination.elements) + Filter(s[..i], p, true)
    {
      var el := s[i];
      assert s[..i + 1][..i] == s[..i];
      if p(el) {
        destination.Push(el);
      }
      i := i + 1;
    }
    assert s[..i] == s;
    return destination;
  }

  /** `filterNotTo(destination, predicate)`: appends the elements that do not match. */
  method FilterNotTo<T>(s: seq<T>, destination: ArrayDestination<T>, p: T -> bool)
    returns (r: ArrayDestination<T>)
    modifies destination
    ensures r == destination
    ensures destination.elements == old(destination.elements) + Filter(s, p, false)
  {
    var i := 0;
    while i < |s|
      invariant 0 <= i <= |s|
      invariant destination.elements == old(destination.elements) + Filter(s[..i], p, false)
    {
      var el := s[i];
      assert s[..i + 1][..i] == s[..i];
      if !p(el) {
        destination.Push(el);
      }
      i := i + 1;
    }
    assert s[..i] == s;
    return destination;
  }

  /** `filterNotNullTo(destination)`: appends the elements that are not `null`. */
  method FilterNotNullTo<T>(s: seq<T>, destination: ArrayDestination<T>, isNull: T -> bool)
    returns (r: ArrayDestination<T>)
    modifies destination
    ensures r == destination
    ensures destination.elements == old(destination.elements) + Filter(s, isNull, false)
  {
    var i := 0;
    while i < |s|
      invariant 0 <= i <= |s|
      invariant destination.elements == old(destination.elements) + Filter(s[..i], isNull, false)
    {
      var el := s[i];
      assert s[..i + 1][..i] == s[..i];
      if !isNull(el) {
        destination.Push(el);
      }
      i := i + 1;
    }
    assert s[..i] == s;
    return destination;
  }

  /** `filterNot(predicate)`: a new array of the elements that do not match. */
  method FilterNot<T>(s: seq<T>, p: T -> bool) returns (r: seq<T>)
    ensures r == Filter(s, p, false)
    ensures forall x :: x in r ==> !p(x)
  {
    var destination := new ArrayDestination([]);
    var filled := FilterNotTo(s, destination, p);
    return filled.elements;
  }

  /** `filterNotNull()`: a new array of the elements that are not `null`. */
  method FilterNotNull<T>(s: seq<T>, isNull: T -> bool) returns (r: seq<T>)
    ensures r == Filter(s, isNull, false)
    ensures forall x :: x in r ==> !isNull(x)
  {
    var destination := new ArrayDestination([]);
    var filled := FilterNotNullTo(s, destination, isNull);
    return filled.elements;
  }

  // ---------------------------------------------------------------------------
  // Ranges

  /**
    `copyOfRange(start, end)`: `at(i)` for each `i` from `start` below `end`,
    so a negative index reads from the end and one past it reads `undefined`.
   */
  method CopyOfRange<T>(s: seq<T>, start: int, end: int) returns (r: seq<Nullish<T>>)
    ensures |r| == if start < end then end - start else 0
    ensures forall j :: 0 <= j < |r| ==> r[j] == At(s, start + j)
    ensures 0 <= start <= end <= |s| ==> r == Values(s[start..end])
  {
    r := [];
    var i := start;
    while i < end
      invariant start <= i && (i <= end || i == start)
      invariant |r| == i - start
      invariant forall j :: 0 <= j < |r| ==> r[j] == At(s, start + j)
    {
      r := r + [At(s, i)];
      i := i + 1;
    }
  }

  /** `slice(start, endInclusive)`: both ends included; empty unless `start < endInclusive`. */
  method Slice<T>(s: seq<T>, start: int, endInclusive: int) returns (r: seq<Nullish<T>>)
    ensures endInclusive <= start ==> r == []
    ensures start < endInclusive ==>
              |r| == endInclusive - start + 1 && forall j :: 0 <= j < |r| ==> r[j] == At(s, start + j)
    ensures 0 <= start < endInclusive < |s| ==> r == Values(s[start..endInclusive + 1])
  {
    if IsIndicesEmpty(start, endInclusive) {
      return [];
    }
    r := CopyOfRange(s, start, endInclusive + 1);
  }

  /** `sliceIndices(indices)`: the elements at the in-bound indices, others skipped. */
  method SliceIndices<T>(s: seq<T>, indices: seq<int>) returns (r: seq<T>)
    ensures r == Gather(s, indices)
  {
    if |indices| == 0 {
      return [];
    }
    r := [];
    var k := 0;
    while k < |indices|
      invariant 0 <= k <= |indices|
      invariant r == Gather(s, indices[..k])
    {
      var index := indices[k];
      assert indices[..k + 1][..k] == indices[..k];
      if IsInBound(s, index) {
        r := r + [At(s, index).value];
      }
      k := k + 1;
    }
    assert indices[..k] == indices;
  }

  // ---------------------------------------------------------------------------
  // Reversal

  /** `reversed()`: a reversed copy. */
  function Reversed<T>(s: seq<T>): (r: seq<T>)
    ensures |r| == |s|
    ensures forall i :: 0 <= i < |s| ==> r[i] == s[|s| - 1 - i]
  {
    if s == [] then [] else Reversed(s[1..]) + [s[0]]
  }

  /** Reversing twice gives back the original. */
  lemma ReversedTwice<T>(s: seq<T>)
    ensures Reversed(Reversed(s)) == s
  {
  }

  /**
    Where the element now at `k` stood before, once the outermost `swapped`
    pairs of the range from `fromIndex` below `toIndex` have been exchanged.
   */
  function MirrorIndex(fromIndex: int, toIndex: int, swapped: int, k: int): (r: int)
    ensures fromIndex <= k < toIndex ==> fromIndex <= r < toIndex
    ensures !(fromIndex <= k < toIndex) ==> r == k
  {
    if fromIndex <= k < toIndex && (k < fromIndex + swapped || toIndex - swapped <= k)
    then fromIndex + toIndex - 1 - k
    else k
  }

  /** Mirroring every position of a range is the range reversed in place. */
  lemma MirroredIsReversed<T>(before: seq<T>, after: seq<T>, fromIndex: int, toIndex: int)
    requires 0 <= fromIndex <= toIndex <= |before| == |after|
    requires forall k :: 0 <= k < |before| ==>
               after[k] == before[if fromIndex <= k < toIndex then fromIndex + toIndex - 1 - k else k]
    ensures after == before[..fromIndex] + Reversed(before[fromIndex..toIndex]) + before[toIndex..]
  {
  }

  /**
    `reverseRange(fromIndex, toIndex)`: reverses the half-open range in place
    after checking it. The source's midpoint `(fromIndex + toIndex) / 2` may be
    fractional, so the comparisons with it are made on doubled values.
   */
  method ReverseRange<T>(a: array<T>, fromIndex: int, toIndex: int) returns (r: Outcome)
    modifies a
    ensures r == CheckRangeIndexes(fromIndex, toIndex, a.Length)
    ensures r.Fail? ==> a[..] == old(a[..])
    ensures r.Pass? ==>
              a[..] == old(a[..])[..fromIndex] + Reversed(old(a[..])[fromIndex..toIndex])
                       + old(a[..])[toIndex..]
  {
    r := CheckRangeIndexes(fromIndex, toIndex, a.Length);
    if r.Fail? {
      return;
    }
    ghost var before := a[..];
    if 2 * fromIndex == fromIndex + toIndex {
      MirroredIsReversed(before, a[..], fromIndex, toIndex);
      return;
    }
    var reverseIndex := toIndex - 1;
    var index := fromIndex;
    while 2 * index < fromIndex + toIndex
      invariant fromIndex <= index && 2 * index <= fromIndex + toIndex + 1
      invariant reverseIndex == fromIndex + toIndex - 1 - index
      invariant forall k :: 0 <= k < a.Length ==> a[k] == before[MirrorIndex(fromIndex, toIndex, index - fromIndex, k)]
    {
      var tmp := a[index];
      a[index] := a[reverseIndex];
      a[reverseIndex] := tmp;
      reverseIndex := reverseIndex - 1;
      index := index + 1;
    }
    forall k | 0 <= k < a.Length
      ensures a[k] == before[if fromIndex <= k < toIndex then fromIndex + toIndex - 1 - k else k]
    {
      assert MirrorIndex(fromIndex, toIndex, index - fromIndex, k)
          == if fromIndex <= k < toIndex then fromIndex + toIndex - 1 - k else k;
    }
    MirroredIsReversed(before, a[..], fromIndex, toIndex);
  }

  // ---------------------------------------------------------------------------
  // The counting slices as the source writes them

  /**
    `take(n)` exactly as written: the full copy `[...this]` made for a count of
    at least the length is a bare statement whose value is discarded, so a
    count of one reads `at(0)` even on an empty array.
   */
  function TakeAsWritten<T>(s: seq<T>, n: int): (r: Result<seq<Nullish<T>>>)
    ensures n < 0 ==> r == Err(CountMessage(n))
    ensures n >= 0 ==> r.Ok? && |r.value| == if n == 1 then 1 else if n <= |s| then n else |s|
  {
    if n < 0 then Err(CountMessage(n))
    else if n == 0 then Ok([])
    else if n == 1 then Ok([At(s, 0)])
    else Ok(Values(s[..if n < |s| then n else |s|]))
  }

  /**
    `takeLast(n)` exactly as written: the full copy `[...this]` made for a count
    of at least the length is a bare statement whose value is discarded, so the
    loop reads `at(i)` from `length - n`, which wraps round for `n > length`.
   */
  function TakeLastAsWritten<T>(s: seq<T>, n: int): (r: Result<seq<Nullish<T>>>)
    ensures n < 0 ==> r == Err(CountMessage(n))
    ensures n >= 0 ==> r.Ok? && |r.value| == n
  {
    if n < 0 then Err(CountMessage(n))
    else if n == 0 then Ok([])
    else Ok(seq(n, j requires 0 <= j < n => At(s, |s| - n + j)))
  }

  /** Away from `take(1)` on an empty array, the source's `take` is the corrected one. */
  lemma TakeAsWrittenAgrees<T>(s: seq<T>, n: int)
    requires n >= 0 && (n == 1 ==> |s| >= 1)
    ensures TakeAsWritten(s, n) == Ok(Values(s[..if n <= |s| then n else |s|]))
  {
    if n == 1 {
      assert Values(s[..1]) == [Value(s[0])];
    }
  }

  /** `[].take(1)` gives one `undefined` element, where the whole (empty) array is meant. */
  lemma TakeOneOfEmpty()
    ensures TakeAsWritten<int>([], 1) == Ok([Undefined])
  {
  }

  /** For counts up to the length, the source's `takeLast` is the corrected one. */
  lemma TakeLastAsWrittenAgrees<T>(s: seq<T>, n: int)
    requires 0 <= n <= |s|
    ensures TakeLastAsWritten(s, n) == Ok(Values(s[|s| - n..]))
  {
    var taken := TakeLastAsWritten(s, n).value;
    var expected := Values(s[|s| - n..]);
    forall j | 0 <= j < n ensures taken[j] == expected[j] {
      assert taken[j] == At(s, |s| - n + j);
    }
    assert taken == expected;
  }

  /** `[1, 2, 3].takeLast(4)` wraps round to `[3, 1, 2, 3]` instead of copying `[1, 2, 3]`. */
  lemma TakeLastWrapsRound()
    ensures TakeLastAsWritten([1, 2, 3], 4) == Ok([Value(3), Value(1), Value(2), Value(3)])
  {
    var s := [1, 2, 3];
    assert At(s, -1) == Value(3);
    assert TakeLastAsWritten(s, 4).value == [At(s, -1), At(s, 0), At(s, 1), At(s, 2)];
  }
}
