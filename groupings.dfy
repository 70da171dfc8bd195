/**
  A grouping: a source of elements together with the key each element belongs
  to. Every operation is `aggregateTo` with a particular accumulating
  operation: the source is walked once, and each element updates the entry of
  its key in a destination map.
 */
module Groupings {
  import opened JsValues
  import opened Sequences

  /** A grouping over `source`, where `keyOf(e)` names the group of `e`. */
  datatype Grouping<!T, K> = Grouping(source: seq<T>, keyOf: T -> K)

  /**
    An accumulating operation: it is given the key, the value accumulated so
    far (`None` for nothing yet), the element and whether the element is the
    first one of its group.
   */
  type Aggregator<!T, !K, !R> = (K, Option<R>, T, bool) -> R

  /**
    A `Map` owned by the caller, which the `...To` operations fill in place.
    `keys` is the order in which the `Map` iterates: the order of insertion.
   */
  class MapDestination<K(==), V> {
    var entries: map<K, V>
    var keys: seq<K>

    constructor ()
      ensures entries == map[] && keys == []
    {
      entries := map[];
      keys := [];
    }

    /** The iteration order lists each key of the map once. */
    predicate Valid()
      reads this
    {
      Distinct(keys) && entries.Keys == set i | 0 <= i < |keys| :: keys[i]
    }

    /** `get(key)`: `None` stands for `undefined`. */
    function Get(key: K): Option<V>
      reads this
    {
      Lookup(entries, key)
    }

    /** `has(key)` */
    predicate Has(key: K)
      reads this
    {
      key in entries
    }

    /** `set(key, value)`: a new key goes last; an existing key keeps its place. */
    method Set(key: K, value: V)
      modifies this
      ensures entries == old(entries)[key := value]
      ensures keys == if key in old(entries) then old(keys) else old(keys) + [key]
    {
      if key !in entries {
        keys := keys + [key];
      }
      entries := entries[key := value];
    }
  }

  /** No element occurs twice. */
  predicate Distinct<K(==)>(s: seq<K>) {
    forall i, j :: 0 <= i < j < |s| ==> s[i] != s[j]
  }

  // ---------------------------------------------------------------------------
  // Reference definitions

  /** The entry for `k`, if any. */
  function Lookup<K(==), V>(m: map<K, V>, k: K): (r: Option<V>)
    ensures r.Some? <==> k in m
    ensures k in m ==> r == Some(m[k])
  {
    if k in m then Some(m[k]) else None
  }

  /** Whether an element belongs to the group of `k`. */
  function KeyIs<T, K(==)>(keyOf: T -> K, k: K): T -> bool {
    e => keyOf(e) == k
  }

  /** The elements of the group of `k`, in source order. */
  function Group<T, K(==)>(source: seq<T>, keyOf: T -> K, k: K): (r: seq<T>)
    ensures forall x :: x in r ==> x in source && keyOf(x) == k
    ensures forall i :: 0 <= i < |source| && keyOf(source[i]) == k ==> source[i] in r
  {
    Filter(source, KeyIs(keyOf, k), true)
  }

  /** The keys of the elements of `source`. */
  function KeysOf<T, K(==)>(source: seq<T>, keyOf: T -> K): set<K> {
    set i | 0 <= i < |source| :: keyOf(source[i])
  }

  /**
    One turn of the loop of `aggregateTo`: the key's entry becomes the result
    of the operation. The element counts as first when the map has no value for
    the key and no entry for it either, which is when it has no entry.
   */
  function Step<T, K(==), R>(m: map<K, R>, keyOf: T -> K, operation: Aggregator<T, K, R>, e: T): (r: map<K, R>)
    ensures r.Keys == m.Keys + {keyOf(e)}
    ensures forall k :: k in m && k != keyOf(e) ==> k in r && r[k] == m[k]
  {
    var key := keyOf(e);
    var accumulator := Lookup(m, key);
    m[key := operation(key, accumulator, e, accumulator.None? && key !in m)]
  }

  lemma KeysOfSnoc<T, K>(source: seq<T>, keyOf: T -> K, e: T)
    ensures KeysOf(source + [e], keyOf) == KeysOf(source, keyOf) + {keyOf(e)}
  {
    var s := source + [e];
    assert keyOf(s[|source|]) in KeysOf(s, keyOf);
    forall k | k in KeysOf(source, keyOf) ensures k in KeysOf(s, keyOf) {
      var i :| 0 <= i < |source| && keyOf(source[i]) == k;
      assert s[i] == source[i];
    }
  }

  /** The destination `m` after `aggregateTo` has walked all of `source`. */
  function Aggregated<T, K(==), R>(m: map<K, R>, source: seq<T>, keyOf: T -> K, operation: Aggregator<T, K, R>)
    : (r: map<K, R>)
    ensures r.Keys == m.Keys + KeysOf(source, keyOf)
    decreases |source|
  {
    if source == [] then m
    else
      var init := source[..|source| - 1];
      KeysOfSnoc(init, keyOf, source[|source| - 1]);
      assert init + [source[|source| - 1]] == source;
      Step(Aggregated(m, init, keyOf, operation), keyOf, operation, source[|source| - 1])
  }

  /**
    The iteration order of the destination after `aggregateTo` has walked all
    of `source`, starting from `order` with the keys `present`: a key is added
    at the end when it is neither present nor the key of an earlier element.
   */
  function InsertionOrder<T, K(==)>(order: seq<K>, present: set<K>, source: seq<T>, keyOf: T -> K): (r: seq<K>)
    ensures |order| <= |r| <= |order| + |source|
    decreases |source|
  {
    if source == [] then order
    else
      var init := source[..|source| - 1];
      var key := keyOf(source[|source| - 1]);
      var before := InsertionOrder(order, present, init, keyOf);
      if key in present || key in KeysOf(init, keyOf) then before else before + [key]
  }

  /**
    The value a single key accumulates: `operation` applied to each element of
    its group in turn, starting from `acc`; an element is first exactly when
    nothing has been accumulated before it.
   */
  function KeyFold<T, K, R>(k: K, acc: Option<R>, group: seq<T>, operation: Aggregator<T, K, R>): (r: Option<R>)
    ensures acc.Some? || group != [] <==> r.Some?
    decreases |group|
  {
    if group == [] then acc
    else
      var a := KeyFold(k, acc, group[..|group| - 1], operation);
      Some(operation(k, a, group[|group| - 1], a.None?))
  }

  /** A left fold whose step also sees the key. */
  function FoldLeftKeyed<T, K, R>(f: (K, R, T) -> R, k: K, a: R, xs: seq<T>): R
    decreases |xs|
  {
    if xs == [] then a else f(k, FoldLeftKeyed(f, k, a, xs[..|xs| - 1]), xs[|xs| - 1])
  }

  /** A left fold. */
  function FoldLeft<T, R>(f: (R, T) -> R, a: R, xs: seq<T>): R
    decreases |xs|
  {
    if xs == [] then a else f(FoldLeft(f, a, xs[..|xs| - 1]), xs[|xs| - 1])
  }

  // ---------------------------------------------------------------------------
  // What aggregation computes

  /**
    Aggregation works key by key: each key ends up with its old value folded
    over the elements of its group, and the other entries stay as they were.
   */
  lemma {:induction false} AggregatedPerKey<T, K, R>(
    m: map<K, R>, source: seq<T>, keyOf: T -> K, operation: Aggregator<T, K, R>, k: K)
    ensures Lookup(Aggregated(m, source, keyOf, operation), k)
         == KeyFold(k, Lookup(m, k), Group(source, keyOf, k), operation)
    decreases |source|
  {
    if source != [] {
      var init := source[..|source| - 1];
      var last := source[|source| - 1];
      AggregatedPerKey(m, init, keyOf, operation, k);
      if keyOf(last) == k {
        assert Group(source, keyOf, k) == Group(init, keyOf, k) + [last];
        assert Group(source, keyOf, k)[..|Group(source, keyOf, k)| - 1] == Group(init, keyOf, k);
      } else {
        assert Group(source, keyOf, k) == Group(init, keyOf, k);
      }
    }
  }

  /** A key that no element has keeps its entry, or its absence. */
  lemma AggregatedLeavesOtherKeys<T, K, R>(
    m: map<K, R>, source: seq<T>, keyOf: T -> K, operation: Aggregator<T, K, R>, k: K)
    requires forall i :: 0 <= i < |source| ==> keyOf(source[i]) != k
    ensures Lookup(Aggregated(m, source, keyOf, operation), k) == Lookup(m, k)
  {
  }

  /**
    The `first` flag of the `i`-th element is set exactly when the destination
    had no entry for its key and no earlier element has that key.
   */
  lemma FirstFlag<T, K, R>(
    m: map<K, R>, source: seq<T>, keyOf: T -> K, operation: Aggregator<T, K, R>, i: int)
    requires 0 <= i < |source|
    ensures var key := keyOf(source[i]);
            var before := Aggregated(m, source[..i], keyOf, operation);
            (Lookup(before, key).None? && key !in before)
              <==> key !in m && forall j :: 0 <= j < i ==> keyOf(source[j]) != key
  {
  }

  /**
    The iteration order after aggregation lists the keys that were listed,
    and the source's keys that were not present, and nothing else.
   */
  lemma {:induction false} InsertionOrderKeys<T, K>(order: seq<K>, present: set<K>, source: seq<T>, keyOf: T -> K, k: K)
    ensures k in InsertionOrder(order, present, source, keyOf)
        <==> k in order || (k !in present && k in KeysOf(source, keyOf))
    decreases |source|
  {
    if source != [] {
      var init := source[..|source| - 1];
      InsertionOrderKeys(order, present, init, keyOf, k);
      KeysOfSnoc(init, keyOf, source[|source| - 1]);
      assert init + [source[|source| - 1]] == source;
    }
  }

  /**
    Walking a prefix of the source gives a prefix of the final order: a key
    keeps the place it got when its first element was met.
   */
  lemma {:induction false} InsertionOrderGrows<T, K>(order: seq<K>, present: set<K>, source: seq<T>, keyOf: T -> K, i: int)
    requires 0 <= i <= |source|
    ensures InsertionOrder(order, present, source[..i], keyOf) <= InsertionOrder(order, present, source, keyOf)
    decreases |source|
  {
    if i < |source| {
      var init := source[..|source| - 1];
      InsertionOrderGrows(order, present, init, keyOf, i);
      assert init[..i] == source[..i];
    } else {
      assert source[..i] == source;
    }
  }

  /** Starting from a map's own order, aggregation lists each key once. */
  lemma {:induction false} InsertionOrderDistinct<T, K>(order: seq<K>, present: set<K>, source: seq<T>, keyOf: T -> K)
    requires Distinct(order)
    requires forall k :: k in order ==> k in present
    ensures Distinct(InsertionOrder(order, present, source, keyOf))
    decreases |source|
  {
    if source != [] {
      var init := source[..|source| - 1];
      var key := keyOf(source[|source| - 1]);
      InsertionOrderDistinct(order, present, init, keyOf);
      InsertionOrderKeys(order, present, init, keyOf, key);
    }
  }

  /** Aggregating into a map whose order lists each of its keys once keeps it so. */
  lemma InsertionOrderKeepsValid<T, K>(order: seq<K>, present: set<K>, source: seq<T>, keyOf: T -> K)
    requires Distinct(order) && present == set i | 0 <= i < |order| :: order[i]
    ensures var r := InsertionOrder(order, present, source, keyOf);
            Distinct(r) && present + KeysOf(source, keyOf) == set i | 0 <= i < |r| :: r[i]
  {
    var r := InsertionOrder(order, present, source, keyOf);
    InsertionOrderDistinct(order, present, source, keyOf);
    var listed := set i | 0 <= i < |r| :: r[i];
    forall k | k in present + KeysOf(source, keyOf) ensures k in listed {
      InsertionOrderKeys(order, present, source, keyOf, k);
      if k in order {
        var i :| 0 <= i < |order| && order[i] == k;
      }
      var i :| 0 <= i < |r| && r[i] == k;
    }
    forall k | k in listed ensures k in present + KeysOf(source, keyOf) {
      InsertionOrderKeys(order, present, source, keyOf, k);
    }
  }

  /**
    New keys are listed in the order in which their first elements occur in
    the source, after every key that was already present.
   */
  lemma InsertionOrderFollowsSource<T, K>(order: seq<K>, present: set<K>, source: seq<T>, keyOf: T -> K, i: int, j: int)
    requires 0 <= i < j < |source|
    requires forall k :: k in order ==> k in present
    requires keyOf(source[i]) !in present && keyOf(source[j]) !in present
    requires keyOf(source[j]) !in KeysOf(source[..j], keyOf)
    ensures var r := InsertionOrder(order, present, source, keyOf);
            exists p, q :: |order| <= p < q < |r| && r[p] == keyOf(source[i]) && r[q] == keyOf(source[j])
  {
    var r := InsertionOrder(order, present, source, keyOf);
    var a := InsertionOrder(order, present, source[..j], keyOf);
    assert source[..j + 1][..j] == source[..j];
    assert keyOf(source[..j][i]) in KeysOf(source[..j], keyOf);
    InsertionOrderKeys(order, present, source[..j], keyOf, keyOf(source[i]));
    InsertionOrderGrows(order, present, source, keyOf, j + 1);
    InsertionOrderGrows(order, present, source[..j], keyOf, 0);
    assert source[..j][..0] == [];
    var p :| 0 <= p < |a| && a[p] == keyOf(source[i]);
    assert p >= |order|;
    assert r[p] == keyOf(source[i]) && r[|a|] == keyOf(source[j]);
  }

  // ---------------------------------------------------------------------------
  // Aggregators of the shape of a fold

  /** Once something is accumulated, `aggregator` applies `f`. */
  ghost predicate Continues<T(!new), K(!new), R(!new)>(aggregator: Aggregator<T, K, R>, f: (K, R, T) -> R) {
    forall k, a, e :: aggregator(k, Some(a), e, false) == f(k, a, e)
  }

  /** From an accumulated value on, the key's value is a left fold of `f`. */
  lemma {:induction false} KeyFoldContinues<T(!new), K(!new), R(!new)>(
    aggregator: Aggregator<T, K, R>, f: (K, R, T) -> R, k: K, a: R, xs: seq<T>)
    requires Continues(aggregator, f)
    ensures KeyFold(k, Some(a), xs, aggregator) == Some(FoldLeftKeyed(f, k, a, xs))
    decreases |xs|
  {
    if xs != [] {
      KeyFoldContinues(aggregator, f, k, a, xs[..|xs| - 1]);
    }
  }

  /** Starting from nothing, the first element of a group seeds the accumulator. */
  lemma {:induction false} KeyFoldStarts<T, K, R>(aggregator: Aggregator<T, K, R>, k: K, xs: seq<T>)
    requires |xs| > 0
    ensures KeyFold(k, None, xs, aggregator) == KeyFold(k, Some(aggregator(k, None, xs[0], true)), xs[1..], aggregator)
    decreases |xs|
  {
    if |xs| > 1 {
      var init := xs[..|xs| - 1];
      KeyFoldStarts(aggregator, k, init);
      assert init[1..] == xs[1..][..|xs[1..]| - 1];
    }
  }

  /** Peeling the first element off a left fold. */
  lemma {:induction false} FoldLeftKeyedFirst<T, K, R>(f: (K, R, T) -> R, k: K, a: R, xs: seq<T>)
    requires |xs| > 0
    ensures FoldLeftKeyed(f, k, a, xs) == FoldLeftKeyed(f, k, f(k, a, xs[0]), xs[1..])
    decreases |xs|
  {
    if |xs| > 1 {
      var init := xs[..|xs| - 1];
      FoldLeftKeyedFirst(f, k, a, init);
      assert init[1..] == xs[1..][..|xs[1..]| - 1];
    }
  }

  // ---------------------------------------------------------------------------
  // fold and foldTo

  /**
    The aggregator of `fold`: the first element of a group starts from
    `initialValueSelector`. `None` on a later element does not arise, since
    `first` is unset only when the key has an entry.
   */
  function FoldOp<T(!new), K(!new), R(!new)>(initialValueSelector: (K, T) -> R, operation: (K, R, T) -> R)
    : (r: Aggregator<T, K, R>)
    ensures forall k, acc, e :: r(k, acc, e, true) == operation(k, initialValueSelector(k, e), e)
    ensures forall k, a, e :: r(k, Some(a), e, false) == operation(k, a, e)
  {
    (k, acc: Option<R>, e, first) =>
      operation(k, if first then initialValueSelector(k, e) else if acc.Some? then acc.value else initialValueSelector(k, e), e)
  }

  /**
    What `fold`/`foldTo` leave for key `k`: a value already present is the
    initial accumulator; otherwise the selector applied to the group's first element.
   */
  function Folded<T, K(==), R>(
    prior: Option<R>, g: Grouping<T, K>, k: K, initialValueSelector: (K, T) -> R, operation: (K, R, T) -> R)
    : Option<R>
  {
    var group := Group(g.source, g.keyOf, k);
    match prior
    case Some(a) => Some(FoldLeftKeyed(operation, k, a, group))
    case None => if group == [] then None else Some(FoldLeftKeyed(operation, k, initialValueSelector(k, group[0]), group))
  }

  lemma FoldPerKey<T(!new), K(!new), R(!new)>(
    prior: Option<R>, g: Grouping<T, K>, k: K, initialValueSelector: (K, T) -> R, operation: (K, R, T) -> R)
    ensures KeyFold(k, prior, Group(g.source, g.keyOf, k), FoldOp(initialValueSelector, operation))
         == Folded(prior, g, k, initialValueSelector, operation)
  {
    var group := Group(g.source, g.keyOf, k);
    var op := FoldOp(initialValueSelector, operation);
    match prior
    case Some(a) =>
      KeyFoldContinues(op, operation, k, a, group);
    case None =>
      if group != [] {
        KeyFoldStarts(op, k, group);
        var seed := initialValueSelector(k, group[0]);
        KeyFoldContinues(op, operation, k, operation(k, seed, group[0]), group[1..]);
        FoldLeftKeyedFirst(operation, k, seed, group);
      }
  }

  // ---------------------------------------------------------------------------
  // foldInitial, foldToInitial, eachCount and eachCountTo

  /** The aggregator of `foldInitial`: every group starts from `initialValue`. */
  function FoldInitialOp<T(!new), K(!new), R(!new)>(initialValue: R, operation: (R, T) -> R): (r: Aggregator<T, K, R>)
    ensures forall k, acc, e :: r(k, acc, e, true) == operation(initialValue, e)
    ensures forall k, a, e :: r(k, Some(a), e, false) == operation(a, e)
  {
    (k, acc: Option<R>, e, first) => operation(if first then initialValue else if acc.Some? then acc.value else initialValue, e)
  }

  /** `operation`, ignoring the key. */
  function Unkeyed<T, K, R>(operation: (R, T) -> R): (K, R, T) -> R {
    (k, a, e) => operation(a, e)
  }

  lemma {:induction false} FoldLeftUnkeyed<T, K, R>(operation: (R, T) -> R, k: K, a: R, xs: seq<T>)
    ensures FoldLeftKeyed(Unkeyed(operation), k, a, xs) == FoldLeft(operation, a, xs)
    decreases |xs|
  {
    if xs != [] {
      FoldLeftUnkeyed(operation, k, a, xs[..|xs| - 1]);
    }
  }

  /**
    What `foldInitial`/`foldToInitial` leave for key `k`: the group folded from
    the value already present, or from `initialValue`; a key without elements
    keeps what it had.
   */
  function FoldedInitial<T, K(==), R>(prior: Option<R>, g: Grouping<T, K>, k: K, initialValue: R, operation: (R, T) -> R)
    : Option<R>
  {
    var group := Group(g.source, g.keyOf, k);
    if group == [] then prior else Some(FoldLeft(operation, prior.GetOr(initialValue), group))
  }

  lemma FoldInitialPerKey<T(!new), K(!new), R(!new)>(
    prior: Option<R>, g: Grouping<T, K>, k: K, initialValue: R, operation: (R, T) -> R)
    ensures KeyFold(k, prior, Group(g.source, g.keyOf, k), FoldInitialOp(initialValue, operation))
         == FoldedInitial(prior, g, k, initialValue, operation)
  {
    var group := Group(g.source, g.keyOf, k);
    var op: Aggregator<T, K, R> := FoldInitialOp(initialValue, operation);
    var f: (K, R, T) -> R := Unkeyed(operation);
    if group != [] {
      match prior
      case Some(a) =>
        KeyFoldContinues(op, f, k, a, group);
        FoldLeftUnkeyed(operation, k, a, group);
      case None =>
        KeyFoldStarts(op, k, group);
        KeyFoldContinues(op, f, k, operation(initialValue, group[0]), group[1..]);
        FoldLeftKeyedFirst(f, k, initialValue, group);
        FoldLeftUnkeyed(operation, k, initialValue, group);
    }
  }

  /** The counting operation of `eachCountTo`. */
  function Increment<T>(count: int, element: T): (r: int)
    ensures r == count + 1
  {
    count + 1
  }

  lemma {:induction false} FoldLeftIncrement<T>(count: int, xs: seq<T>)
    ensures FoldLeft(Increment, count, xs) == count + |xs|
    decreases |xs|
  {
    if xs != [] {
      FoldLeftIncrement(count, xs[..|xs| - 1]);
    }
  }

  /** What `eachCount`/`eachCountTo` leave for key `k`: the prior count plus the group's size. */
  function Counted<T, K(==)>(prior: Option<int>, g: Grouping<T, K>, k: K): Option<int> {
    var group := Group(g.source, g.keyOf, k);
    if group == [] then prior else Some(prior.GetOr(0) + |group|)
  }

  lemma EachCountPerKey<T(!new), K(!new)>(prior: Option<int>, g: Grouping<T, K>, k: K)
    ensures FoldedInitial(prior, g, k, 0, Increment) == Counted(prior, g, k)
  {
    var group := Group(g.source, g.keyOf, k);
    if group != [] {
      FoldLeftIncrement(prior.GetOr(0), group);
    }
  }

  // ---------------------------------------------------------------------------
  // reduce and reduceTo

  /** The aggregator of `reduce`: the first element of a group is its own accumulator. */
  function ReduceOp<T(!new), K(!new)>(operation: (K, T, T) -> T): (r: Aggregator<T, K, T>)
    ensures forall k, acc, e :: r(k, acc, e, true) == e
    ensures forall k, a, e :: r(k, Some(a), e, false) == operation(k, a, e)
  {
    (k, acc: Option<T>, e, first) => if first then e else operation(k, if acc.Some? then acc.value else e, e)
  }

  /**
    What `reduce`/`reduceTo` leave for key `k`: a value already present is
    folded with the whole group; otherwise the group's first element is folded
    with the rest.
   */
  function Reduced<T, K(==)>(prior: Option<T>, g: Grouping<T, K>, k: K, operation: (K, T, T) -> T): Option<T> {
    var group := Group(g.source, g.keyOf, k);
    if group == [] then prior
    else match prior
      case Some(a) => Some(FoldLeftKeyed(operation, k, a, group))
      case None => Some(FoldLeftKeyed(operation, k, group[0], group[1..]))
  }

  lemma ReducePerKey<T(!new), K(!new)>(prior: Option<T>, g: Grouping<T, K>, k: K, operation: (K, T, T) -> T)
    ensures KeyFold(k, prior, Group(g.source, g.keyOf, k), ReduceOp(operation)) == Reduced(prior, g, k, operation)
  {
    var group := Group(g.source, g.keyOf, k);
    var op := ReduceOp(operation);
    if group != [] {
      match prior
      case Some(a) =>
        KeyFoldContinues(op, operation, k, a, group);
      case None =>
        KeyFoldStarts(op, k, group);
        KeyFoldContinues(op, operation, k, group[0], group[1..]);
    }
  }

  /** One turn of the loop of `aggregateTo`, on the map and on its order. */
  lemma AggregateStep<T, K, R>(
    m: map<K, R>, order: seq<K>, source: seq<T>, keyOf: T -> K, operation: Aggregator<T, K, R>, i: int,
    entries: map<K, R>, keys: seq<K>)
    requires 0 <= i < |source|
    requires entries == Aggregated(m, source[..i], keyOf, operation)
    requires keys == InsertionOrder(order, m.Keys, source[..i], keyOf)
    ensures var key := keyOf(source[i]);
            var acc := Lookup(entries, key);
            Aggregated(m, source[..i + 1], keyOf, operation)
              == entries[key := operation(key, acc, source[i], acc.None? && key !in entries)]
    ensures var key := keyOf(source[i]);
            InsertionOrder(order, m.Keys, source[..i + 1], keyOf)
              == if key in entries then keys else keys + [key]
  {
    assert source[..i + 1][..i] == source[..i];
  }

  // ---------------------------------------------------------------------------
  // The operations

  /** `aggregateTo(destination, operation)` */
  method AggregateTo<T, K(==), R>(g: Grouping<T, K>, destination: MapDestination<K, R>, operation: Aggregator<T, K, R>)
    returns (r: MapDestination<K, R>)
    modifies destination
    ensures r == destination
    ensures destination.entries == Aggregated(old(destination.entries), g.source, g.keyOf, operation)
    ensures destination.keys == InsertionOrder(old(destination.keys), old(destination.entries).Keys, g.source, g.keyOf)
    ensures old(destination.Valid()) ==> destination.Valid()
  {
    ghost var before := destination.entries;
    ghost var order := destination.keys;
    ghost var wasValid := destination.Valid();
    var i := 0;
    while i < |g.source|
      invariant 0 <= i <= |g.source|
      invariant destination.entries == Aggregated(before, g.source[..i], g.keyOf, operation)
      invariant destination.keys == InsertionOrder(order, before.Keys, g.source[..i], g.keyOf)
    {
      var el := g.source[i];
      var key := g.keyOf(el);
      var accumulator := destination.Get(key);
      AggregateStep(before, order, g.source, g.keyOf, operation, i, destination.entries, destination.keys);
      destination.Set(key, operation(key, accumulator, el, accumulator.None? && !destination.Has(key)));
      i := i + 1;
    }
    assert g.source[..i] == g.source;
    if wasValid {
      assert destination.Valid() by {
        InsertionOrderKeepsValid(order, before.Keys, g.source, g.keyOf);
      }
    }
    return destination;
  }

  /**
    `aggregate(operation)`: `aggregateTo` into a new map. `order` is the
    order in which the new map iterates over its keys.
   */
  method Aggregate<T, K(==), R>(g: Grouping<T, K>, operation: Aggregator<T, K, R>) returns (r: map<K, R>, order: seq<K>)
    ensures r.Keys == KeysOf(g.source, g.keyOf)
    ensures forall k :: Lookup(r, k) == KeyFold(k, None, Group(g.source, g.keyOf, k), operation)
    ensures order == InsertionOrder([], {}, g.source, g.keyOf)
    ensures Distinct(order) && forall k :: k in order <==> k in r
  {
    var destination := new MapDestination();
    assert destination.entries.Keys == {};
    var filled := AggregateTo(g, destination, operation);
    r, order := filled.entries, filled.keys;
    forall k ensures Lookup(r, k) == KeyFold(k, None, Group(g.source, g.keyOf, k), operation) {
      AggregatedPerKey(map[], g.source, g.keyOf, operation, k);
    }
    assert filled.Valid();
  }

  /** `fold(initialValueSelector, operation)` */
  method Fold<T(!new), K(!new, ==), R(!new)>(g: Grouping<T, K>, initialValueSelector: (K, T) -> R, operation: (K, R, T) -> R)
    returns (r: map<K, R>, order: seq<K>)
    ensures r.Keys == KeysOf(g.source, g.keyOf)
    ensures order == InsertionOrder([], {}, g.source, g.keyOf)
    ensures forall k :: Lookup(r, k) == Folded(None, g, k, initialValueSelector, operation)
  {
    r, order := Aggregate(g, FoldOp(initialValueSelector, operation));
    forall k ensures Lookup(r, k) == Folded(None, g, k, initialValueSelector, operation) {
      FoldPerKey(None, g, k, initialValueSelector, operation);
    }
  }

  /** `foldTo(destination, initialValueSelector, operation)` */
  method FoldTo<T(!new), K(!new, ==), R(!new)>(
    g: Grouping<T, K>, destination: MapDestination<K, R>, initialValueSelector: (K, T) -> R, operation: (K, R, T) -> R)
    returns (r: MapDestination<K, R>)
    modifies destination
    ensures r == destination
    ensures destination.entries.Keys == old(destination.entries).Keys + KeysOf(g.source, g.keyOf)
    ensures destination.keys == InsertionOrder(old(destination.keys), old(destination.entries).Keys, g.source, g.keyOf)
    ensures old(destination.Valid()) ==> destination.Valid()
    ensures forall k :: Lookup(destination.entries, k)
                     == Folded(Lookup(old(destination.entries), k), g, k, initialValueSelector, operation)
  {
    ghost var before := destination.entries;
    r := AggregateTo(g, destination, FoldOp(initialValueSelector, operation));
    forall k ensures Lookup(destination.entries, k) == Folded(Lookup(before, k), g, k, initialValueSelector, operation) {
      AggregatedPerKey(before, g.source, g.keyOf, FoldOp(initialValueSelector, operation), k);
      FoldPerKey(Lookup(before, k), g, k, initialValueSelector, operation);
    }
  }

  /** `foldInitial(initialValue, operation)` */
  method FoldInitial<T(!new), K(!new, ==), R(!new)>(g: Grouping<T, K>, initialValue: R, operation: (R, T) -> R)
    returns (r: map<K, R>, order: seq<K>)
    ensures r.Keys == KeysOf(g.source, g.keyOf)
    ensures order == InsertionOrder([], {}, g.source, g.keyOf)
    ensures forall k :: Lookup(r, k) == FoldedInitial(None, g, k, initialValue, operation)
  {
    r, order := Aggregate(g, FoldInitialOp(initialValue, operation));
    forall k ensures Lookup(r, k) == FoldedInitial(None, g, k, initialValue, operation) {
      FoldInitialPerKey(None, g, k, initialValue, operation);
    }
  }

  /** `foldToInitial(destination, initialValue, operation)` */
  method FoldToInitial<T(!new), K(!new, ==), R(!new)>(
    g: Grouping<T, K>, destination: MapDestination<K, R>, initialValue: R, operation: (R, T) -> R)
    returns (r: MapDestination<K, R>)
    modifies destination
    ensures r == destination
    ensures destination.entries.Keys == old(destination.entries).Keys + KeysOf(g.source, g.keyOf)
    ensures destination.keys == InsertionOrder(old(destination.keys), old(destination.entries).Keys, g.source, g.keyOf)
    ensures old(destination.Valid()) ==> destination.Valid()
    ensures forall k :: Lookup(destination.entries, k)
                     == FoldedInitial(Lookup(old(destination.entries), k), g, k, initialValue, operation)
  {
    ghost var before := destination.entries;
    r := AggregateTo(g, destination, FoldInitialOp(initialValue, operation));
    forall k ensures Lookup(destination.entries, k) == FoldedInitial(Lookup(before, k), g, k, initialValue, operation) {
      AggregatedPerKey(before, g.source, g.keyOf, FoldInitialOp(initialValue, operation), k);
      FoldInitialPerKey(Lookup(before, k), g, k, initialValue, operation);
    }
  }

  /** `eachCountTo(destination)`: adds each group's size to the count already present. */
  method EachCountTo<T(!new), K(!new, ==)>(g: Grouping<T, K>, destination: MapDestination<K, int>)
    returns (r: MapDestination<K, int>)
    modifies destination
    ensures r == destination
    ensures destination.entries.Keys == old(destination.entries).Keys + KeysOf(g.source, g.keyOf)
    ensures destination.keys == InsertionOrder(old(destination.keys), old(destination.entries).Keys, g.source, g.keyOf)
    ensures old(destination.Valid()) ==> destination.Valid()
    ensures forall k :: Lookup(destination.entries, k) == Counted(Lookup(old(destination.entries), k), g, k)
  {
    ghost var before := destination.entries;
    r := FoldToInitial(g, destination, 0, Increment);
    forall k ensures Lookup(destination.entries, k) == Counted(Lookup(before, k), g, k) {
      EachCountPerKey(Lookup(before, k), g, k);
    }
  }

  /** `eachCount()`: the size of each group. */
  method EachCount<T(!new), K(!new, ==)>(g: Grouping<T, K>) returns (r: map<K, int>, order: seq<K>)
    ensures r.Keys == KeysOf(g.source, g.keyOf)
    ensures order == InsertionOrder([], {}, g.source, g.keyOf)
    ensures forall k :: k in r ==> r[k] == |Group(g.source, g.keyOf, k)| && r[k] > 0
  {
    var destination := new MapDestination();
    assert destination.entries.Keys == {};
    var filled := EachCountTo(g, destination);
    r, order := filled.entries, filled.keys;
    forall k | k in r ensures r[k] == |Group(g.source, g.keyOf, k)| && r[k] > 0 {
      assert Lookup(r, k) == Counted(None, g, k);
    }
  }

  /** `reduce(grouping, operation)` */
  method Reduce<T(!new), K(!new, ==)>(g: Grouping<T, K>, operation: (K, T, T) -> T) returns (r: map<K, T>, order: seq<K>)
    ensures r.Keys == KeysOf(g.source, g.keyOf)
    ensures order == InsertionOrder([], {}, g.source, g.keyOf)
    ensures forall k :: Lookup(r, k) == Reduced(None, g, k, operation)
  {
    r, order := Aggregate(g, ReduceOp(operation));
    forall k ensures Lookup(r, k) == Reduced(None, g, k, operation) {
      ReducePerKey(None, g, k, operation);
    }
  }

  /** `reduceTo(grouping, destination, operation)` */
  method ReduceTo<T(!new), K(!new, ==)>(g: Grouping<T, K>, destination: MapDestination<K, T>, operation: (K, T, T) -> T)
    returns (r: MapDestination<K, T>)
    modifies destination
    ensures r == destination
    ensures destination.entries.Keys == old(destination.entries).Keys + KeysOf(g.source, g.keyOf)
    ensures destination.keys == InsertionOrder(old(destination.keys), old(destination.entries).Keys, g.source, g.keyOf)
    ensures old(destination.Valid()) ==> destination.Valid()
    ensures forall k :: Lookup(destination.entries, k) == Reduced(Lookup(old(destination.entries), k), g, k, operation)
  {
    ghost var before := destination.entries;
    r := AggregateTo(g, destination, ReduceOp(operation));
    forall k ensures Lookup(destination.entries, k) == Reduced(Lookup(before, k), g, k, operation) {
      AggregatedPerKey(before, g.source, g.keyOf, ReduceOp(operation), k);
      ReducePerKey(Lookup(before, k), g, k, operation);
    }
  }
}
