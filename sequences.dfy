/**
  Reference definitions over sequences that the array operations are proved
  against: where a linear search stops, which elements a filter keeps, which
  elements an index list selects.
 */
module Sequences {

  /** The first index whose element gives `p` the value `b`, or -1 if none does. */
  function FirstIndexWhere<T>(s: seq<T>, p: T -> bool, b: bool): (r: int)
    ensures -1 <= r < |s|
    ensures r >= 0 ==> p(s[r]) == b
    ensures forall j :: 0 <= j < |s| && (r < 0 || j < r) ==> p(s[j]) != b
    decreases |s|
  {
    if s == [] then -1
    else if p(s[0]) == b then 0
    else
      var i := FirstIndexWhere(s[1..], p, b);
      if i < 0 then -1 else i + 1
  }

  /** The last index whose element gives `p` the value `b`, or -1 if none does. */
  function LastIndexWhere<T>(s: seq<T>, p: T -> bool, b: bool): (r: int)
    ensures -1 <= r < |s|
    ensures r >= 0 ==> p(s[r]) == b
    ensures forall j :: r < j < |s| ==> p(s[j]) != b
    decreases |s|
  {
    if s == [] then -1
    else if p(s[|s| - 1]) == b then |s| - 1
    else LastIndexWhere(s[..|s| - 1], p, b)
  }

  /** A search that stops at `i` has found the first index with value `b`. */
  lemma FirstIndexWhereIs<T>(s: seq<T>, p: T -> bool, b: bool, i: int)
    requires 0 <= i < |s| && p(s[i]) == b
    requires forall j :: 0 <= j < i ==> p(s[j]) != b
    ensures FirstIndexWhere(s, p, b) == i
  {
  }

  /** A backward search that stops at `i` has found the last index with value `b`. */
  lemma LastIndexWhereIs<T>(s: seq<T>, p: T -> bool, b: bool, i: int)
    requires -1 <= i < |s|
    requires i >= 0 ==> p(s[i]) == b
    requires forall j :: i < j < |s| ==> p(s[j]) != b
    ensures LastIndexWhere(s, p, b) == i
  {
  }

  /** The length of the longest prefix whose elements all satisfy `p`. */
  function PrefixLength<T>(s: seq<T>, p: T -> bool): (k: nat)
    ensures k <= |s|
    ensures forall j :: 0 <= j < k ==> p(s[j])
    ensures k < |s| ==> !p(s[k])
  {
    var i := FirstIndexWhere(s, p, false);
    if i < 0 then |s| else i
  }

  /** The elements `x` of `s` with `p(x) == b`, in their order in `s`. */
  function Filter<T>(s: seq<T>, p: T -> bool, b: bool): (r: seq<T>)
    ensures |r| <= |s|
    ensures forall x :: x in r ==> x in s && p(x) == b
    ensures forall i :: 0 <= i < |s| && p(s[i]) == b ==> s[i] in r
    decreases |s|
  {
    if s == [] then []
    else
      var kept := Filter(s[..|s| - 1], p, b);
      if p(s[|s| - 1]) == b then kept + [s[|s| - 1]] else kept
  }

  /** Filtering distributes over concatenation, so it keeps the source order. */
  lemma {:induction false} FilterAppend<T>(s: seq<T>, t: seq<T>, p: T -> bool, b: bool)
    ensures Filter(s + t, p, b) == Filter(s, p, b) + Filter(t, p, b)
    decreases |t|
  {
    if t == [] {
      assert s + t == s;
    } else {
      var t' := t[..|t| - 1];
      assert (s + t)[..|s + t| - 1] == s + t';
      FilterAppend(s, t', p, b);
    }
  }

  /** A filter of a prefix keeps at most as much as the filter of the whole. */
  lemma FilterPrefix<T>(s: seq<T>, p: T -> bool, b: bool, k: nat)
    requires k <= |s|
    ensures |Filter(s[..k], p, b)| <= |Filter(s, p, b)|
  {
    assert s == s[..k] + s[k..];
    FilterAppend(s[..k], s[k..], p, b);
  }

  /** Keeping the matches and keeping the non-matches partition the sequence. */
  lemma {:induction false} FilterPartition<T>(s: seq<T>, p: T -> bool)
    ensures |Filter(s, p, true)| + |Filter(s, p, false)| == |s|
    ensures multiset(Filter(s, p, true)) + multiset(Filter(s, p, false)) == multiset(s)
    decreases |s|
  {
    if s != [] {
      var init := s[..|s| - 1];
      FilterPartition(init, p);
      assert s == init + [s[|s| - 1]];
    }
  }

  /** When exactly one element matches, the filter holds exactly that element. */
  lemma FilterUniqueMatch<T>(s: seq<T>, p: T -> bool, i: int)
    requires |Filter(s, p, true)| == 1
    requires 0 <= i < |s| && p(s[i])
    ensures Filter(s, p, true) == [s[i]]
  {
  }

  /** `f` applied to each element of `s`. */
  function Map<T, R>(s: seq<T>, f: T -> R): (r: seq<R>)
    ensures |r| == |s|
    ensures forall i :: 0 <= i < |s| ==> r[i] == f(s[i])
  {
    seq(|s|, i requires 0 <= i < |s| => f(s[i]))
  }

  /** The elements at the in-bound indices of `indices`, in that order. */
  function Gather<T>(s: seq<T>, indices: seq<int>): (r: seq<T>)
    ensures |r| <= |indices|
    ensures forall x :: x in r ==> x in s
    decreases |indices|
  {
    if indices == [] then []
    else
      var index := indices[|indices| - 1];
      var init := Gather(s, indices[..|indices| - 1]);
      if 0 <= index < |s| then init + [s[index]] else init
  }

  /** Gathering distributes over concatenated index lists. */
  lemma {:induction false} GatherAppend<T>(s: seq<T>, a: seq<int>, c: seq<int>)
    ensures Gather(s, a + c) == Gather(s, a) + Gather(s, c)
    decreases |c|
  {
    if c == [] {
      assert a + c == a;
    } else {
      var c' := c[..|c| - 1];
      assert (a + c)[..|a + c| - 1] == a + c';
      GatherAppend(s, a, c');
    }
  }

  /** An out-of-bound index is skipped without a trace. */
  lemma GatherSkipsOutOfBound<T>(s: seq<T>, a: seq<int>, index: int, c: seq<int>)
    requires !(0 <= index < |s|)
    ensures Gather(s, a + [index] + c) == Gather(s, a + c)
  {
    GatherAppend(s, a + [index], c);
    GatherAppend(s, a, [index]);
    GatherAppend(s, a, c);
    assert [index][..0] == [];
  }

  /** With every index in bound, gathering is indexing. */
  lemma {:induction false} GatherInBound<T>(s: seq<T>, indices: seq<int>)
    requires forall k :: 0 <= k < |indices| ==> 0 <= indices[k] < |s|
    ensures |Gather(s, indices)| == |indices|
    ensures forall k :: 0 <= k < |indices| ==> Gather(s, indices)[k] == s[indices[k]]
    decreases |indices|
  {
    if indices != [] {
      GatherInBound(s, indices[..|indices| - 1]);
    }
  }
}
