/** The read-only linear algorithms over a range [first, last) of an array. */
module Algo {
  import opened Algobase

  /** `all_of`: true iff every value in the range satisfies `pred` (so true on an empty range). */
  method AllOf<T>(a: array<T>, first: int, last: int, pred: T -> bool) returns (b: bool)
    requires 0 <= first <= last <= a.Length
    ensures b <==> forall k :: first <= k < last ==> pred(a[k])
  {
    var f := first;
    while f != last
      invariant first <= f <= last
      invariant forall k :: first <= k < f ==> pred(a[k])
    {
      if !pred(a[f]) {
        return false;
      }
      f := f + 1;
    }
    return true;
  }

  /** `any_of`: true iff some value in the range satisfies `pred` (so false on an empty range). */
  method AnyOf<T>(a: array<T>, first: int, last: int, pred: T -> bool) returns (b: bool)
    requires 0 <= first <= last <= a.Length
    ensures b <==> exists k :: first <= k < last && pred(a[k])
  {
    var f := first;
    while f != last
      invariant first <= f <= last
      invariant forall k :: first <= k < f ==> !pred(a[k])
    {
      if pred(a[f]) {
        return true;
      }
      f := f + 1;
    }
    return false;
  }

  /** `none_of`: true iff no value in the range satisfies `pred`, the negation of `any_of`. */
  method NoneOf<T>(a: array<T>, first: int, last: int, pred: T -> bool) returns (b: bool)
    requires 0 <= first <= last <= a.Length
    ensures b <==> !exists k :: first <= k < last && pred(a[k])
  {
    var f := first;
    while f != last
      invariant first <= f <= last
      invariant forall k :: first <= k < f ==> !pred(a[k])
    {
      if pred(a[f]) {
        return false;
      }
      f := f + 1;
    }
    return true;
  }

  /** `count`: the number of values in the range equal to `value`. */
  method Count<T(==)>(a: array<T>, first: int, last: int, value: T) returns (n: nat)
    requires 0 <= first <= last <= a.Length
    ensures n == multiset(a[first..last])[value]
  {
    n := 0;
    var f := first;
    while f != last
      invariant first <= f <= last
      invariant n == multiset(a[first..f])[value]
    {
      assert a[first..f + 1] == a[first..f] + [a[f]];
      if a[f] == value {
        n := n + 1;
      }
      f := f + 1;
    }
  }

  /** `count_if`: the number of values in the range that satisfy `pred`. */
  method CountIf<T>(a: array<T>, first: int, last: int, pred: T -> bool) returns (n: nat)
    requires 0 <= first <= last <= a.Length
    ensures n == |Filter(pred, a[first..last])|
  {
    n := 0;
    var f := first;
    while f != last
      invariant first <= f <= last
      invariant n == |Filter(pred, a[first..f])|
    {
      FilterStep(pred, a[..], first, f, last);
      assert a[..][first..f] == a[first..f] && a[..][first..f + 1] == a[first..f + 1];
      if pred(a[f]) {
        n := n + 1;
      }
      f := f + 1;
    }
  }

  /** Counting the values equal to `v` is counting those that satisfy `x == v`. */
  lemma {:induction false} CountMatchesCountIf<T>(s: seq<T>, v: T)
    ensures multiset(s)[v] == |Filter(x => x == v, s)|
  {
    if s != [] {
      assert s == [s[0]] + s[1..];
      CountMatchesCountIf(s[1..], v);
    }
  }

  /** `find`: the first position holding `value`, or `last` when there is none. */
  method Find<T(==)>(a: array<T>, first: int, last: int, value: T) returns (i: int)
    requires 0 <= first <= last <= a.Length
    ensures first <= i <= last
    ensures forall k :: first <= k < i ==> a[k] != value
    ensures i < last ==> a[i] == value
    ensures i == last <==> value !in a[first..last]
  {
    i := first;
    while i != last && a[i] != value
      invariant first <= i <= last
      invariant forall k :: first <= k < i ==> a[k] != value
    {
      i := i + 1;
    }
    assert i < last ==> a[first..last][i - first] == value;
  }

  /** `find_if`: the first position whose value satisfies `pred`, or `last`. */
  method FindIf<T>(a: array<T>, first: int, last: int, pred: T -> bool) returns (i: int)
    requires 0 <= first <= last <= a.Length
    ensures first <= i <= last
    ensures forall k :: first <= k < i ==> !pred(a[k])
    ensures i < last ==> pred(a[i])
  {
    i := first;
    while i != last && !pred(a[i])
      invariant first <= i <= last
      invariant forall k :: first <= k < i ==> !pred(a[k])
    {
      i := i + 1;
    }
  }

  /** `find_if_not`: the first position whose value fails `pred`, or `last`. */
  method FindIfNot<T>(a: array<T>, first: int, last: int, pred: T -> bool) returns (i: int)
    requires 0 <= first <= last <= a.Length
    ensures first <= i <= last
    ensures forall k :: first <= k < i ==> pred(a[k])
    ensures i < last ==> !pred(a[i])
  {
    i := first;
    while i != last && pred(a[i])
      invariant first <= i <= last
      invariant forall k :: first <= k < i ==> pred(a[k])
    {
      i := i + 1;
    }
  }
}
