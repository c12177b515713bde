/** `max`, `min`, `iter_swap` and the `copy` family: whole-range copies through array positions. */
module Algobase {
  import opened Wrappers
  import Util

  /**
   * `max(lhs, rhs, cmp)`, and `max(lhs, rhs)` with `cmp` being `<`: the larger argument,
   * and `lhs` on a tie.
   */
  function Max<T(!new)>(lt: (T, T) -> bool, lhs: T, rhs: T): (r: T)
    ensures r == lhs || r == rhs
    ensures !lt(lhs, rhs) ==> r == lhs
    ensures StrictWeakOrder(lt) ==> !lt(r, lhs) && !lt(r, rhs)
  {
    if lt(lhs, rhs) then rhs else lhs
  }

  /** `min(lhs, rhs)`: the smaller argument, and `rhs` on a tie. */
  function Min<T(!new)>(lt: (T, T) -> bool, lhs: T, rhs: T): (r: T)
    ensures r == lhs || r == rhs
    ensures !lt(lhs, rhs) ==> r == rhs
    ensures StrictWeakOrder(lt) ==> !lt(lhs, r) && !lt(rhs, r)
  {
    if lt(lhs, rhs) then lhs else rhs
  }

  /** `min(lhs, rhs, cmp)`: the smaller argument, and `lhs` on a tie. */
  function MinCmp<T(!new)>(lt: (T, T) -> bool, lhs: T, rhs: T): (r: T)
    ensures r == lhs || r == rhs
    ensures !lt(rhs, lhs) ==> r == lhs
    ensures StrictWeakOrder(lt) ==> !lt(lhs, r) && !lt(rhs, r)
  {
    if lt(rhs, lhs) then rhs else lhs
  }

  /**
   * The two forms of `min` pick the same value whenever the arguments are ordered; they differ
   * only on a tie, where the operator form gives `rhs` and the comparator form gives `lhs`.
   */
  lemma MinFormsAgree<T(!new)>(lt: (T, T) -> bool, lhs: T, rhs: T)
    requires StrictWeakOrder(lt)
    ensures lt(lhs, rhs) || lt(rhs, lhs) ==> Min(lt, lhs, rhs) == MinCmp(lt, lhs, rhs)
    ensures !lt(lhs, rhs) && !lt(rhs, lhs) ==> Min(lt, lhs, rhs) == rhs && MinCmp(lt, lhs, rhs) == lhs
  {
    Asymmetric(lt, lhs, rhs);
  }

  /** `iter_swap(lhs, rhs)`: exchanges the two values the positions designate. */
  method IterSwap<T>(a: array<T>, i: int, b: array<T>, j: int)
    requires 0 <= i < a.Length && 0 <= j < b.Length
    modifies a, b
    ensures a[i] == old(b[j]) && b[j] == old(a[i])
    ensures forall k :: 0 <= k < a.Length && k != i && (a != b || k != j) ==> a[k] == old(a[k])
    ensures forall k :: 0 <= k < b.Length && k != j && (a != b || k != i) ==> b[k] == old(b[k])
  {
    Util.Swap(a, i, b, j);
  }

  /**
   * `copy(first, last, result)`: assigns src[first + k] to dst[result + k] in increasing k and
   * returns result + (last - first). Within one array the output may start at or before `first`
   * or at or after `last`, but not strictly inside the input range.
   */
  method Copy<T>(src: array<T>, first: int, last: int, dst: array<T>, result: int) returns (r: int)
    requires 0 <= first <= last <= src.Length
    requires 0 <= result && result + (last - first) <= dst.Length
    requires src != dst || result <= first || last <= result
    modifies dst
    ensures r == result + (last - first)
    ensures dst[result..r] == old(src[first..last])
    ensures forall k :: 0 <= k < dst.Length && !(result <= k < r) ==> dst[k] == old(dst[k])
  {
    ghost var s0 := src[..];
    var n := last - first;
    var f, out := first, result;
    while n > 0
      invariant f - first == out - result && f + n == last && n >= 0
      invariant forall k :: result <= k < out ==> dst[k] == s0[first + (k - result)]
      invariant forall k :: f <= k < last ==> src[k] == s0[k]
      invariant forall k :: 0 <= k < dst.Length && !(result <= k < out) ==> dst[k] == old(dst[k])
    {
      dst[out] := src[f];
      n, f, out := n - 1, f + 1, out + 1;
    }
    r := out;
    assert dst[result..r] == s0[first..last];
  }

  /**
   * `copy_backward(first, last, result)`: assigns src[last - 1 - k] to dst[result - 1 - k] in
   * increasing k and returns result - (last - first). Within one array the output may end at or
   * before `first` or at or after `last`.
   */
  method CopyBackward<T>(src: array<T>, first: int, last: int, dst: array<T>, result: int) returns (r: int)
    requires 0 <= first <= last <= src.Length
    requires 0 <= result - (last - first) && result <= dst.Length
    requires src != dst || result <= first || last <= result
    modifies dst
    ensures r == result - (last - first)
    ensures dst[r..result] == old(src[first..last])
    ensures forall k :: 0 <= k < dst.Length && !(r <= k < result) ==> dst[k] == old(dst[k])
  {
    ghost var s0 := src[..];
    var n := last - first;
    var l, out := last, result;
    while n > 0
      invariant last - l == result - out && l - n == first && n >= 0
      invariant forall k :: out <= k < result ==> dst[k] == s0[last - (result - k)]
      invariant forall k :: first <= k < l ==> src[k] == s0[k]
      invariant forall k :: 0 <= k < dst.Length && !(out <= k < result) ==> dst[k] == old(dst[k])
    {
      out, l := out - 1, l - 1;
      dst[out] := src[l];
      n := n - 1;
    }
    r := out;
    assert dst[r..result] == s0[first..last];
  }

  /**
   * `copy_forward(first, last, result)` (the `memmove` form): moves the n = last - first values
   * so they end just before `result`, whatever the overlap, and returns result - n.
   */
  method CopyForward<T>(src: array<T>, first: int, last: int, dst: array<T>, result: int) returns (r: int)
    requires 0 <= first <= last <= src.Length
    requires 0 <= result - (last - first) && result <= dst.Length
    modifies dst
    ensures r == result - (last - first)
    ensures dst[r..result] == old(src[first..last])
    ensures forall k :: 0 <= k < dst.Length && !(r <= k < result) ==> dst[k] == old(dst[k])
  {
    var n := last - first;
    r := result;
    if n != 0 {
      r := r - n;
      // memmove: copying upward from the front is safe unless the output starts inside the input
      if src != dst || r <= first {
        var _ := Copy(src, first, last, dst, r);
      } else {
        var _ := CopyBackward(src, first, last, dst, result);
      }
    }
  }

  /** The values of `s` that satisfy `p`, in their original order. */
  function Filter<T>(p: T -> bool, s: seq<T>): (r: seq<T>)
    ensures |r| <= |s|
  {
    if s == [] then [] else (if p(s[0]) then [s[0]] else []) + Filter(p, s[1..])
  }

  /** The filtered sequence holds exactly the values of `s` that satisfy `p`. */
  lemma {:induction false} FilterMembers<T>(p: T -> bool, s: seq<T>, x: T)
    ensures x in Filter(p, s) <==> x in s && p(x)
  {
    if s != [] {
      FilterMembers(p, s[1..], x);
      assert s == [s[0]] + s[1..];
    }
  }

  /** Filtering a concatenation filters each part. */
  lemma {:induction false} FilterAppend<T>(p: T -> bool, s: seq<T>, t: seq<T>)
    ensures Filter(p, s + t) == Filter(p, s) + Filter(p, t)
  {
    if s == [] {
      assert s + t == t;
    } else {
      var head := if p(s[0]) then [s[0]] else [];
      assert (s + t)[0] == s[0] && (s + t)[1..] == s[1..] + t;
      assert Filter(p, s + t) == head + Filter(p, s[1..] + t);
      FilterAppend(p, s[1..], t);
      assert Filter(p, s) == head + Filter(p, s[1..]);
      assert head + (Filter(p, s[1..]) + Filter(p, t)) == (head + Filter(p, s[1..])) + Filter(p, t);
    }
  }

  /** One more input value extends the filtered prefix by that value when it satisfies `p`. */
  lemma FilterStep<T>(p: T -> bool, s: seq<T>, lo: int, i: int, hi: int)
    requires 0 <= lo <= i < hi <= |s|
    ensures Filter(p, s[lo..i + 1]) == Filter(p, s[lo..i]) + (if p(s[i]) then [s[i]] else [])
    ensures |Filter(p, s[lo..i + 1])| <= |Filter(p, s[lo..hi])|
  {
    assert s[lo..i + 1] == s[lo..i] + [s[i]];
    FilterAppend(p, s[lo..i], [s[i]]);
    assert s[lo..hi] == s[lo..i + 1] + s[i + 1..hi];
    FilterAppend(p, s[lo..i + 1], s[i + 1..hi]);
  }

  /**
   * `copy_if(first, last, result, pred)`: writes, in order, exactly the values of the input range
   * that satisfy `pred` and returns the end of the output. Within one array the output may start
   * at or before `first` (the write position never passes the read position) or at or after `last`.
   */
  method CopyIf<T>(src: array<T>, first: int, last: int, dst: array<T>, result: int, pred: T -> bool)
    returns (r: int)
    requires 0 <= first <= last <= src.Length
    requires 0 <= result && result + |Filter(pred, src[first..last])| <= dst.Length
    requires src != dst || last <= result || result <= first
    modifies dst
    ensures r == result + |Filter(pred, old(src[first..last]))|
    ensures dst[result..r] == Filter(pred, old(src[first..last]))
    ensures forall k :: 0 <= k < dst.Length && !(result <= k < r) ==> dst[k] == old(dst[k])
  {
    ghost var s := src[..];
    var f := first;
    r := result;
    assert s[first..first] == [];
    while f != last
      invariant first <= f <= last
      invariant forall k :: f <= k < last ==> src[k] == s[k]
      invariant r == result + |Filter(pred, s[first..f])| <= result + |Filter(pred, s[first..last])|
      invariant r <= result + (f - first)
      invariant dst[result..r] == Filter(pred, s[first..f])
      invariant forall k :: 0 <= k < dst.Length && !(result <= k < r) ==> dst[k] == old(dst[k])
    {
      FilterStep(pred, s, first, f, last);
      if pred(src[f]) {
        dst[r] := src[f];
        r := r + 1;
      }
      f := f + 1;
    }
    assert s[first..last] == old(src[first..last]);
  }
}
