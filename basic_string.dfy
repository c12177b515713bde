/**
 * `char_traits<char>`: the pointer loops over character buffers. A pointer is an array and an
 * index into it.
 */
module BasicString {

  /**
   * `char` as the usual targets define it: a signed 8-bit integer, so `compare` orders the bytes
   * 0x80 to 0xFF (here -128 to -1) before the ASCII ones.
   */
  newtype Char = x: int | -128 <= x < 128

  /** The number of characters of `s` before the first NUL. */
  function StrLen(s: seq<Char>): (r: nat)
    requires 0 in s
    ensures r < |s| && s[r] == 0
    ensures forall k :: 0 <= k < r ==> s[k] != 0
  {
    if s[0] == 0 then 0 else 1 + StrLen(s[1..])
  }

  /** `length(str)`: counts characters until the terminating NUL, which must exist. */
  method Length(a: array<Char>, str: int) returns (len: nat)
    requires 0 <= str <= a.Length && 0 in a[str..]
    ensures str + len < a.Length && a[str + len] == 0
    ensures forall k :: str <= k < str + len ==> a[k] != 0
    ensures len == StrLen(a[str..])
  {
    len := 0;
    var p := str;
    while a[p] != 0
      invariant str <= p < a.Length && p == str + len
      invariant 0 in a[p..]
      invariant StrLen(a[str..]) == len + StrLen(a[p..])
      decreases a.Length - p
    {
      assert a[p..][1..] == a[p + 1..];
      p := p + 1;
      len := len + 1;
    }
  }

  /** Offset i is where the n characters from a[s1] and from b[s2] first differ. */
  ghost predicate FirstDifference(a: array<Char>, s1: int, b: array<Char>, s2: int, n: nat, i: int)
    reads a, b
  {
    0 <= s1 && s1 + n <= a.Length && 0 <= s2 && s2 + n <= b.Length && 0 <= i < n &&
    a[s1..s1 + i] == b[s2..s2 + i] && a[s1 + i] != b[s2 + i]
  }

  /**
   * `compare(s1, s2, n)`: over the n characters from each start, -1 or 1 by the first position
   * where they differ, and 0 when all n are equal.
   */
  method Compare(a: array<Char>, s1: int, b: array<Char>, s2: int, n: nat) returns (c: int)
    requires 0 <= s1 && s1 + n <= a.Length && 0 <= s2 && s2 + n <= b.Length
    ensures c == -1 || c == 0 || c == 1
    ensures c == 0 <==> a[s1..s1 + n] == b[s2..s2 + n]
    ensures c == -1 ==> exists i :: FirstDifference(a, s1, b, s2, n, i) && a[s1 + i] < b[s2 + i]
    ensures c == 1 ==> exists i :: FirstDifference(a, s1, b, s2, n, i) && b[s2 + i] < a[s1 + i]
  {
    var i := 0;
    while i != n
      invariant 0 <= i <= n
      invariant a[s1..s1 + i] == b[s2..s2 + i]
    {
      if a[s1 + i] < b[s2 + i] {
        assert FirstDifference(a, s1, b, s2, n, i);
        return -1;
      }
      if b[s2 + i] < a[s1 + i] {
        assert FirstDifference(a, s1, b, s2, n, i);
        return 1;
      }
      assert a[s1..s1 + i + 1] == a[s1..s1 + i] + [a[s1 + i]];
      assert b[s2..s2 + i + 1] == b[s2..s2 + i] + [b[s2 + i]];
      i := i + 1;
    }
    return 0;
  }

  /**
   * `copy(dst, src, n)`: dst[k] := src[k] for k below n over ranges that do not overlap;
   * returns the original `dst`.
   */
  method Copy(d: array<Char>, dst: int, s: array<Char>, src: int, n: nat) returns (r: int)
    requires 0 <= dst && dst + n <= d.Length && 0 <= src && src + n <= s.Length
    requires d != s || src + n <= dst || dst + n <= src
    modifies d
    ensures r == dst
    ensures d[dst..dst + n] == old(s[src..src + n])
    ensures forall k :: 0 <= k < d.Length && !(dst <= k < dst + n) ==> d[k] == old(d[k])
  {
    ghost var s0 := s[..];
    r := dst;
    var i := 0;
    while i != n
      invariant 0 <= i <= n
      invariant forall k :: dst <= k < dst + i ==> d[k] == s0[src + (k - dst)]
      invariant forall k :: 0 <= k < s.Length && !(dst <= k < dst + i && d == s) ==> s[k] == s0[k]
      invariant forall k :: 0 <= k < d.Length && !(dst <= k < dst + i) ==> d[k] == old(d[k])
    {
      d[dst + i] := s[src + i];
      i := i + 1;
    }
    assert d[dst..dst + n] == s0[src..src + n];
  }

  /**
   * `move(dst, src, n)`: the n characters at `src` end up at `dst` even when the ranges overlap
   * (front to back when dst < src, back to front when dst > src, nothing when equal); returns
   * the original `dst`.
   */
  method Move(a: array<Char>, dst: int, src: int, n: nat) returns (r: int)
    requires 0 <= dst && dst + n <= a.Length && 0 <= src && src + n <= a.Length
    modifies a
    ensures r == dst
    ensures a[dst..dst + n] == old(a[src..src + n])
    ensures forall k :: 0 <= k < a.Length && !(dst <= k < dst + n) ==> a[k] == old(a[k])
  {
    ghost var s0 := a[..];
    r := dst;
    if dst < src {
      var i := 0;
      while i != n
        invariant 0 <= i <= n
        invariant forall k :: dst <= k < dst + i ==> a[k] == s0[src + (k - dst)]
        invariant forall k :: 0 <= k < a.Length && !(dst <= k < dst + i) ==> a[k] == s0[k]
      {
        a[dst + i] := a[src + i];
        i := i + 1;
      }
    } else if dst > src {
      var i := n;
      while i != 0
        invariant 0 <= i <= n
        invariant forall k :: dst + i <= k < dst + n ==> a[k] == s0[src + (k - dst)]
        invariant forall k :: 0 <= k < a.Length && !(dst + i <= k < dst + n) ==> a[k] == s0[k]
      {
        i := i - 1;
        a[dst + i] := a[src + i];
      }
    }
    assert a[dst..dst + n] == s0[src..src + n];
  }

  /** `fill(dst, ch, count)`: sets exactly the `count` characters from `dst` to `ch`; returns `dst`. */
  method Fill(a: array<Char>, dst: int, ch: Char, count: nat) returns (r: int)
    requires 0 <= dst && dst + count <= a.Length
    modifies a
    ensures r == dst
    ensures forall k :: dst <= k < dst + count ==> a[k] == ch
    ensures forall k :: 0 <= k < a.Length && !(dst <= k < dst + count) ==> a[k] == old(a[k])
  {
    r := dst;
    var i := 0;
    while i != count
      invariant 0 <= i <= count
      invariant forall k :: dst <= k < dst + i ==> a[k] == ch
      invariant forall k :: 0 <= k < a.Length && !(dst <= k < dst + i) ==> a[k] == old(a[k])
    {
      a[dst + i] := ch;
      i := i + 1;
    }
  }
}
