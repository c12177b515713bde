/** `swap`, `swap_range`, the array `swap` and the `pair` type with its comparison operators. */
module Util {
  import opened Wrappers

  /** `swap(lhs, rhs)` on two array slots (possibly in the same array, possibly the same slot). */
  method Swap<T>(a: array<T>, i: int, b: array<T>, j: int)
    requires 0 <= i < a.Length && 0 <= j < b.Length
    modifies a, b
    ensures a[i] == old(b[j]) && b[j] == old(a[i])
    ensures forall k :: 0 <= k < a.Length && k != i && (a != b || k != j) ==> a[k] == old(a[k])
    ensures forall k :: 0 <= k < b.Length && k != j && (a != b || k != i) ==> b[k] == old(b[k])
  {
    var tmp := a[i];
    a[i] := b[j];
    b[j] := tmp;
  }

  /**
   * `swap_range(first1, last1, first2)`: exchanges a[first1 + k] with b[first2 + k] for every k
   * below last1 - first1 and returns first2 advanced by that count. The two ranges are either in
   * different arrays, the very same range, or disjoint.
   */
  method SwapRange<T>(a: array<T>, first1: int, last1: int, b: array<T>, first2: int) returns (r: int)
    requires 0 <= first1 <= last1 <= a.Length
    requires 0 <= first2 && first2 + (last1 - first1) <= b.Length
    requires a != b || first1 == first2 || last1 <= first2 || first2 + (last1 - first1) <= first1
    modifies a, b
    ensures r == first2 + (last1 - first1)
    ensures a != b || first1 != first2 ==>
      a[first1..last1] == old(b[first2..r]) && b[first2..r] == old(a[first1..last1])
    ensures a == b && first1 == first2 ==> a[..] == old(a[..])
    ensures forall k :: 0 <= k < a.Length && !(first1 <= k < last1) && (a != b || !(first2 <= k < r)) ==> a[k] == old(a[k])
    ensures forall k :: 0 <= k < b.Length && !(first2 <= k < r) && (a != b || !(first1 <= k < last1)) ==> b[k] == old(b[k])
  {
    var f1, f2 := first1, first2;
    while f1 != last1
      invariant first1 <= f1 <= last1 && f2 == first2 + (f1 - first1)
      invariant a == b && first1 == first2 ==> a[..] == old(a[..])
      invariant a != b || first1 != first2 ==>
        (forall k :: first1 <= k < f1 ==> a[k] == old(b[first2 + (k - first1)]) && b[first2 + (k - first1)] == old(a[k]))
      invariant forall k :: 0 <= k < a.Length && !(first1 <= k < f1) && (a != b || !(first2 <= k < f2)) ==> a[k] == old(a[k])
      invariant forall k :: 0 <= k < b.Length && !(first2 <= k < f2) && (a != b || !(first1 <= k < f1)) ==> b[k] == old(b[k])
    {
      Swap(a, f1, b, f2);
      f1, f2 := f1 + 1, f2 + 1;
    }
    r := f2;
  }

  /** The array `swap(a, b)` for two arrays of the same length N: swap_range over all N slots. */
  method SwapArrays<T>(a: array<T>, b: array<T>)
    requires a.Length == b.Length
    modifies a, b
    ensures a != b ==> a[..] == old(b[..]) && b[..] == old(a[..])
    ensures a == b ==> a[..] == old(a[..])
  {
    var _ := SwapRange(a, 0, a.Length, b, 0);
  }

  /** `pair<T1, T2>` as a value. */
  datatype Pair<A, B> = Pair(first: A, second: B)

  /** Pair `==`: both members equal. */
  predicate PairEq<A(==), B(==)>(lhs: Pair<A, B>, rhs: Pair<A, B>)
  {
    lhs.first == rhs.first && lhs.second == rhs.second
  }

  /** Pair `<`: compares the seconds when the firsts are equal, otherwise the firsts. */
  predicate PairLess<A(==), B>(lt1: (A, A) -> bool, lt2: (B, B) -> bool, lhs: Pair<A, B>, rhs: Pair<A, B>)
  {
    if lhs.first == rhs.first then lt2(lhs.second, rhs.second) else lt1(lhs.first, rhs.first)
  }

  /** Pair `!=`: not `==`. */
  predicate PairNe<A(==), B(==)>(lhs: Pair<A, B>, rhs: Pair<A, B>)
  {
    !PairEq(lhs, rhs)
  }

  /** Pair `>`: `rhs < lhs`. */
  predicate PairGt<A(==), B>(lt1: (A, A) -> bool, lt2: (B, B) -> bool, lhs: Pair<A, B>, rhs: Pair<A, B>)
  {
    PairLess(lt1, lt2, rhs, lhs)
  }

  /**
   * Pair `<=`: not `rhs < lhs`. The source's return statement lacks its `;`, which does not
   * compile; the model takes the evident intent.
   */
  predicate PairLe<A(==), B>(lt1: (A, A) -> bool, lt2: (B, B) -> bool, lhs: Pair<A, B>, rhs: Pair<A, B>)
  {
    !PairLess(lt1, lt2, rhs, lhs)
  }

  /** Pair `>=`: not `lhs < rhs`. */
  predicate PairGe<A(==), B>(lt1: (A, A) -> bool, lt2: (B, B) -> bool, lhs: Pair<A, B>, rhs: Pair<A, B>)
  {
    !PairLess(lt1, lt2, lhs, rhs)
  }

  /** Member-wise `==` is exactly value equality of pairs. */
  lemma PairEqIsEquality<A, B>(lhs: Pair<A, B>, rhs: Pair<A, B>)
    ensures PairEq(lhs, rhs) <==> lhs == rhs
    ensures PairNe(lhs, rhs) <==> lhs != rhs
  {
  }

  /** Pair `<` is lexicographic: the first members decide unless they are equal. */
  lemma PairLessIsLexicographic<A(!new), B(!new)>(lt1: (A, A) -> bool, lt2: (B, B) -> bool, lhs: Pair<A, B>, rhs: Pair<A, B>)
    requires StrictTotalOrder(lt1)
    ensures PairLess(lt1, lt2, lhs, rhs) <==>
      lt1(lhs.first, rhs.first) || (!lt1(rhs.first, lhs.first) && lt2(lhs.second, rhs.second))
  {
    if lhs.first != rhs.first {
      Asymmetric(lt1, lhs.first, rhs.first);
    }
  }

  /** Pairs of strictly totally ordered members are strictly totally ordered by pair `<`. */
  lemma PairLessIsStrictTotalOrder<A(!new), B(!new)>(lt1: (A, A) -> bool, lt2: (B, B) -> bool)
    requires StrictTotalOrder(lt1) && StrictTotalOrder(lt2)
    ensures StrictTotalOrder((l: Pair<A, B>, r: Pair<A, B>) => PairLess(lt1, lt2, l, r))
  {
    var less := (l: Pair<A, B>, r: Pair<A, B>) => PairLess(lt1, lt2, l, r);
    forall p: Pair<A, B>, q: Pair<A, B>, s: Pair<A, B> | less(p, q) && less(q, s)
      ensures less(p, s)
    {
      if p.first != q.first && q.first != s.first && p.first == s.first {
        Asymmetric(lt1, p.first, q.first);
      }
    }
    forall p: Pair<A, B>, q: Pair<A, B>, s: Pair<A, B> | !less(p, q) && !less(q, s)
      ensures !less(p, s)
    {
      assert lt1(p.first, q.first) || p.first == q.first || lt1(q.first, p.first);
    }
  }

  /** The derived operators agree with `<` and `==` the way a total order should. */
  lemma PairDerivedOperators<A(!new), B(!new)>(lt1: (A, A) -> bool, lt2: (B, B) -> bool, lhs: Pair<A, B>, rhs: Pair<A, B>)
    requires StrictTotalOrder(lt1) && StrictTotalOrder(lt2)
    ensures PairGt(lt1, lt2, lhs, rhs) <==> PairLess(lt1, lt2, rhs, lhs)
    ensures PairLe(lt1, lt2, lhs, rhs) <==> PairLess(lt1, lt2, lhs, rhs) || lhs == rhs
    ensures PairGe(lt1, lt2, lhs, rhs) <==> PairLess(lt1, lt2, rhs, lhs) || lhs == rhs
    ensures PairLess(lt1, lt2, lhs, rhs) ==> PairNe(lhs, rhs)
  {
    PairLessIsStrictTotalOrder(lt1, lt2);
    var less := (l: Pair<A, B>, r: Pair<A, B>) => PairLess(lt1, lt2, l, r);
    assert less(lhs, rhs) || lhs == rhs || less(rhs, lhs);
    Asymmetric(less, lhs, rhs);
  }

  /** A pair object whose members `pair::swap` exchanges in place. */
  class PairCell<A, B> {
    var first: A
    var second: B

    constructor (a: A, b: B)
      ensures first == a && second == b
    {
      first, second := a, b;
    }

    /** `pair::swap(other)`: a no-op on itself, otherwise exchanges both members. */
    method Swap(other: PairCell<A, B>)
      modifies this, other
      ensures other == this ==> first == old(first) && second == old(second)
      ensures other != this ==>
        first == old(other.first) && second == old(other.second) &&
        other.first == old(first) && other.second == old(second)
    {
      if this != other {
        first, other.first := other.first, first;
        second, other.second := other.second, second;
      }
    }
  }
}
