/**
 * The binary max-heap algorithms over the range [0, last) of an array, ordered by `lt` (the
 * operator `<` versions are these with `lt` being `<`). Slot i has children 2i + 1 and 2i + 2.
 */
module HeapAlgo {
  import opened Wrappers

  /** The parent slot of slot c > 0. */
  function Parent(c: int): int
    requires c > 0
  {
    (c - 1) / 2
  }

  /** Slot i is h itself or one of h's ancestors: the slots a value sifted up from h can visit. */
  ghost predicate OnPath(i: int, h: int)
    decreases h
  {
    i == h || (h > 0 && OnPath(i, Parent(h)))
  }

  lemma {:induction false} OnPathBelow(i: int, h: int)
    requires OnPath(i, h)
    ensures i <= h
    decreases h
  {
    if i != h {
      OnPathBelow(i, Parent(h));
    }
  }

  lemma {:induction false} OnPathParent(h: int, hole: int)
    requires OnPath(h, hole) && h > 0
    ensures OnPath(Parent(h), hole)
    decreases hole
  {
    if h != hole {
      OnPathParent(h, Parent(hole));
    }
  }

  /** The pair of slot c > 0 and its parent is ordered: the parent is not below the child. */
  ghost predicate EdgeOk<T>(lt: (T, T) -> bool, s: seq<T>, c: int)
  {
    0 < c < |s| && !lt(s[(c - 1) / 2], s[c])
  }

  /** Every parent-child pair of s[..len] whose parent slot is at least k is ordered. */
  ghost predicate HeapFrom<T(!new)>(lt: (T, T) -> bool, s: seq<T>, k: int, len: int)
  {
    0 <= len <= |s| &&
    forall c :: 0 < c < len && k <= (c - 1) / 2 ==> EdgeOk(lt, s, c)
  }

  /** s[..len] is a max-heap under `lt`. */
  ghost predicate IsHeap<T(!new)>(lt: (T, T) -> bool, s: seq<T>, len: int)
  {
    HeapFrom(lt, s, 0, len)
  }

  /** As HeapFrom, except the pairs that touch the hole h. */
  ghost predicate OrderedExceptHole<T(!new)>(lt: (T, T) -> bool, s: seq<T>, top: int, len: int, h: int)
  {
    0 <= len <= |s| &&
    forall c :: 0 < c < len && top <= (c - 1) / 2 && c != h && (c - 1) / 2 != h ==> EdgeOk(lt, s, c)
  }

  /** No child of slot h within s[..len] is above x. */
  ghost predicate ChildrenBelow<T(!new)>(lt: (T, T) -> bool, s: seq<T>, len: int, h: int, x: T)
  {
    0 <= len <= |s| && h >= 0 &&
    (2 * h + 1 < len ==> !lt(x, s[2 * h + 1])) &&
    (2 * h + 2 < len ==> !lt(x, s[2 * h + 2]))
  }

  /** s[lo..hi) is sorted ascending: no later value is below an earlier one. */
  ghost predicate SortedRange<T(!new)>(lt: (T, T) -> bool, s: seq<T>, lo: int, hi: int)
  {
    0 <= lo <= hi <= |s| && forall i, j :: lo <= i < j < hi ==> !lt(s[j], s[i])
  }

  /** The root of a heap is not below any of its values. */
  lemma {:induction false} HeapRootMax<T(!new)>(lt: (T, T) -> bool, s: seq<T>, len: int, i: int)
    requires StrictWeakOrder(lt) && IsHeap(lt, s, len) && 0 <= i < len
    ensures !lt(s[0], s[i])
    decreases i
  {
    if i > 0 {
      HeapRootMax(lt, s, len, Parent(i));
      assert EdgeOk(lt, s, i);
    }
  }

  /** Moving the hole from h to c, with c's value copied into h, keeps the multiset of values. */
  lemma HoleMove<T>(s: seq<T>, h: int, c: int, value: T)
    requires 0 <= h < |s| && 0 <= c < |s| && h != c
    ensures multiset(s[h := s[c]][c := value]) == multiset(s[h := value])
  {
    var t, u := s[h := s[c]], s[h := value];
    var m := multiset(s) - multiset{s[h]};
    assert multiset(t) == m + multiset{s[c]};
    assert multiset(u) == m + multiset{value};
    assert t[c] == s[c];
    assert multiset(t[c := value]) == m + multiset{s[c]} - multiset{s[c]} + multiset{value};
    assert m + multiset{s[c]} - multiset{s[c]} == m;
  }

  /** One step of the sift-up loop: the parent's value moves down into the hole. */
  lemma SiftUpStep<T(!new)>(lt: (T, T) -> bool, s: seq<T>, top: int, len: int, h: int, value: T)
    requires StrictWeakOrder(lt)
    requires top < h < len <= |s| && OnPath(top, h)
    requires OrderedExceptHole(lt, s, top, len, h)
    requires ChildrenBelow(lt, s, len, h, s[Parent(h)])
    requires ChildrenBelow(lt, s, len, h, value)
    requires lt(s[Parent(h)], value)
    ensures OnPath(top, Parent(h)) && top <= Parent(h)
    ensures OrderedExceptHole(lt, s[h := s[Parent(h)]], top, len, Parent(h))
    ensures Parent(h) > top ==>
      ChildrenBelow(lt, s[h := s[Parent(h)]], len, Parent(h), s[Parent(Parent(h))])
    ensures ChildrenBelow(lt, s[h := s[Parent(h)]], len, Parent(h), value)
  {
    var p := Parent(h);
    var t := s[h := s[p]];
    OnPathBelow(top, p);
    Asymmetric(lt, s[p], value);
    assert h == 2 * p + 1 || h == 2 * p + 2;
    var o := if h == 2 * p + 1 then 2 * p + 2 else 2 * p + 1;
    assert (o - 1) / 2 == p && o != h;
    if o < len {
      assert EdgeOk(lt, s, o);
    }
    forall c | 0 < c < len && top <= (c - 1) / 2 && c != p && (c - 1) / 2 != p
      ensures EdgeOk(lt, t, c)
    {
      if (c - 1) / 2 == h {
        assert c == 2 * h + 1 || c == 2 * h + 2;
      } else {
        assert EdgeOk(lt, s, c);
      }
    }
    if p > top {
      OnPathBelow(top, Parent(p));
      assert EdgeOk(lt, s, p);
    }
  }

  /** Leaving the sift-up loop: writing the value into the hole completes the heap. */
  lemma SiftUpDone<T(!new)>(lt: (T, T) -> bool, s: seq<T>, top: int, len: int, h: int, value: T)
    requires StrictWeakOrder(lt)
    requires 0 <= top <= h < |s| && len <= |s| && OnPath(top, h)
    requires OrderedExceptHole(lt, s, top, len, h)
    requires ChildrenBelow(lt, s, len, h, value)
    requires h > top ==> !lt(s[Parent(h)], value)
    ensures HeapFrom(lt, s[h := value], top, len)
  {
    var t := s[h := value];
    forall c | 0 < c < len && top <= (c - 1) / 2 ensures EdgeOk(lt, t, c) {
      if c == h {
        assert h != top;
      } else if (c - 1) / 2 == h {
        assert c == 2 * h + 1 || c == 2 * h + 2;
      } else {
        assert EdgeOk(lt, s, c);
      }
    }
  }

  /**
   * `push_heap_aux(first, holeIndex, topIndex, value)` (and its `cmp` overload): moves parents down
   * into the hole while the hole is below `topIndex` and the parent is below `value`, then stores
   * `value` in the hole. `len` is the length of the range the heap lives in.
   */
  method PushHeapAux<T(!new)>(a: array<T>, hole: int, top: int, value: T, lt: (T, T) -> bool, ghost len: int)
    requires StrictWeakOrder(lt)
    requires 0 <= top <= hole < a.Length && len <= a.Length && (hole < len || hole == top)
    requires OnPath(top, hole)
    requires OrderedExceptHole(lt, a[..], top, len, hole)
    requires hole > top ==> ChildrenBelow(lt, a[..], len, hole, a[Parent(hole)])
    requires ChildrenBelow(lt, a[..], len, hole, value)
    modifies a
    ensures HeapFrom(lt, a[..], top, len)
    ensures multiset(a[..]) == multiset(old(a[..])[hole := value])
    ensures forall i :: 0 <= i < a.Length && !(OnPath(i, hole) && top <= i) ==> a[i] == old(a[i])
    ensures forall i :: 0 <= i < a.Length && !(top <= i <= hole) ==> a[i] == old(a[i])
    ensures hole == top ==> a[hole] == value
  {
    ghost var o := a[..];
    var h := hole;
    var parent := CDiv(h - 1, 2);
    AscentStart(lt, o, top, len, hole, value);
    while h > top && lt(a[parent], value)
      invariant h > 0 ==> parent == Parent(h)
      invariant Ascent(lt, a[..], o, top, len, hole, h, value)
    {
      SiftUpMove(a, o, top, len, hole, h, parent, value, lt);
      h := parent;
      parent := CDiv(h - 1, 2);
    }
    ghost var t := a[..];
    AscentDone(lt, t, o, top, len, hole, h, value);
    a[h] := value;
    assert a[..] == t[h := value];
  }

  /** Leaving the sift-up: `value` written into the hole h completes the heap from `top`. */
  lemma AscentDone<T(!new)>(lt: (T, T) -> bool, s: seq<T>, o: seq<T>, top: int, len: int, hole: int, h: int,
                            value: T)
    requires StrictWeakOrder(lt) && Ascent(lt, s, o, top, len, hole, h, value)
    requires h > top ==> !lt(s[Parent(h)], value)
    ensures HeapFrom(lt, s[h := value], top, len)
    ensures multiset(s[h := value]) == multiset(o[hole := value])
    ensures forall i :: 0 <= i < |s| && !(OnPath(i, hole) && top <= i) ==> s[h := value][i] == o[i]
    ensures forall i :: 0 <= i < |s| && !(top <= i <= hole) ==> s[h := value][i] == o[i]
    ensures hole == top ==> h == top
  {
    SiftUpDone(lt, s, top, len, h, value);
  }

  /**
   * The state of push_heap_aux's sift-up from `hole` in s, which started as o: the hole h is on
   * the path from `hole` up to `top`, the pairs away from the hole are ordered, the hole's
   * children are below its parent and below `value`, filling the hole with `value` gives the
   * values of o with `value` at `hole`, and only slots on that path have changed.
   */
  ghost predicate Ascent<T(!new)>(lt: (T, T) -> bool, s: seq<T>, o: seq<T>, top: int, len: int, hole: int, h: int,
                                  value: T)
  {
    |s| == |o| && 0 <= top <= h <= hole < |s| && len <= |s| && (hole < len || hole == top) &&
    OnPath(top, h) && OnPath(h, hole) &&
    OrderedExceptHole(lt, s, top, len, h) &&
    (h > top ==> ChildrenBelow(lt, s, len, h, s[Parent(h)])) &&
    ChildrenBelow(lt, s, len, h, value) &&
    multiset(s[h := value]) == multiset(o[hole := value]) &&
    (forall i :: 0 <= i < |s| && !(OnPath(i, hole) && top <= i) ==> s[i] == o[i]) &&
    (forall i :: 0 <= i < |s| && !(top <= i <= hole) ==> s[i] == o[i])
  }

  /** Before the sift-up the hole is `hole` itself and nothing has changed. */
  lemma AscentStart<T(!new)>(lt: (T, T) -> bool, o: seq<T>, top: int, len: int, hole: int, value: T)
    requires 0 <= top <= hole < |o| && len <= |o| && (hole < len || hole == top) && OnPath(top, hole)
    requires OrderedExceptHole(lt, o, top, len, hole)
    requires hole > top ==> ChildrenBelow(lt, o, len, hole, o[Parent(hole)])
    requires ChildrenBelow(lt, o, len, hole, value)
    ensures Ascent(lt, o, o, top, len, hole, hole, value)
  {
  }

  /** One step of the sift-up: the parent's value, below `value`, moves down into the hole h. */
  method SiftUpMove<T(!new)>(a: array<T>, ghost o: seq<T>, top: int, ghost len: int, hole: int, h: int, parent: int,
                             value: T, lt: (T, T) -> bool)
    requires StrictWeakOrder(lt) && Ascent(lt, a[..], o, top, len, hole, h, value)
    requires top < h && parent == Parent(h) && lt(a[parent], value)
    modifies a
    ensures Ascent(lt, a[..], o, top, len, hole, parent, value)
  {
    ghost var s := a[..];
    SiftUpStep(lt, s, top, len, h, value);
    HoleMove(s, h, parent, value);
    OnPathParent(h, hole);
    a[h] := a[parent];
    assert a[..] == s[h := s[parent]];
  }

  /**
   * `push_heap(first, last)`: [0, last - 1) is a heap and the new value sits at last - 1; sifting
   * it up makes [0, last) a heap of the same values.
   */
  method PushHeap<T(!new)>(a: array<T>, last: int, lt: (T, T) -> bool)
    requires StrictWeakOrder(lt)
    requires 1 <= last <= a.Length && IsHeap(lt, a[..], last - 1)
    modifies a
    ensures IsHeap(lt, a[..], last)
    ensures multiset(a[..]) == multiset(old(a[..]))
    ensures forall i :: last <= i < a.Length ==> a[i] == old(a[i])
  {
    ghost var s := a[..];
    var hole := last - 1;
    assert s[hole := s[hole]] == s;
    assert OnPath(0, hole) by { OnPathRoot(hole); }
    PushHeapAux(a, hole, 0, a[hole], lt, last);
  }

  /** Every slot lies in the subtree of the root. */
  lemma {:induction false} OnPathRoot(h: int)
    requires h >= 0
    ensures OnPath(0, h)
    decreases h
  {
    if h > 0 {
      OnPathRoot(Parent(h));
    }
  }

  /** One step of the sift-down loop: the larger child c moves up into the hole h. */
  lemma SiftDownStep<T(!new)>(lt: (T, T) -> bool, s: seq<T>, top: int, len: int, h: int, c: int)
    requires StrictWeakOrder(lt)
    requires 0 <= top <= h && len <= |s| && OnPath(top, h)
    requires (c == 2 * h + 1 || c == 2 * h + 2) && c < len
    requires var o := if c == 2 * h + 1 then 2 * h + 2 else 2 * h + 1; o < len ==> !lt(s[c], s[o])
    requires OrderedExceptHole(lt, s, top, len, h)
    requires h > top ==> ChildrenBelow(lt, s, len, h, s[Parent(h)])
    ensures OnPath(top, c)
    ensures OrderedExceptHole(lt, s[h := s[c]], top, len, c)
    ensures ChildrenBelow(lt, s[h := s[c]], len, c, s[h := s[c]][Parent(c)])
  {
    var t := s[h := s[c]];
    assert Parent(c) == h;
    forall x | 0 < x < len && top <= (x - 1) / 2 && x != c && (x - 1) / 2 != c
      ensures EdgeOk(lt, t, x)
    {
      if x == h {
        OnPathBelow(top, Parent(h));
      } else if (x - 1) / 2 == h {
        assert x == 2 * h + 1 || x == 2 * h + 2;
      } else {
        assert EdgeOk(lt, s, x);
      }
    }
    if 2 * c + 1 < len {
      assert EdgeOk(lt, s, 2 * c + 1);
    }
    if 2 * c + 2 < len {
      assert EdgeOk(lt, s, 2 * c + 2);
    }
  }

  /**
   * `adjust_heap(first, holeIndex, len, value)` (and its `cmp` overload): the hole descends to a
   * leaf, each time taking the larger child (the left one only when the right is below it) and
   * handling a lone left child when the right child would be slot `len`; then `value` is sifted up
   * no higher than `holeIndex`. The subtrees below `holeIndex` are heaps before; afterwards every
   * slot from `holeIndex` on roots a heap.
   */
  method AdjustHeap<T(!new)>(a: array<T>, hole: int, len: int, value: T, lt: (T, T) -> bool)
    requires StrictWeakOrder(lt)
    requires 0 <= hole <= len <= a.Length && hole < a.Length
    requires HeapFrom(lt, a[..], hole + 1, len)
    modifies a
    ensures HeapFrom(lt, a[..], hole, len)
    ensures multiset(a[..]) == multiset(old(a[..])[hole := value])
    ensures forall i :: 0 <= i < a.Length && !(hole <= i < len) && i != hole ==> a[i] == old(a[i])
    ensures hole == len ==> a[hole] == value
  {
    var h := Descend(a, hole, len, value, lt);
    ghost var m := a[..];
    ghost var values := multiset(old(a[..])[hole := value]);
    assert multiset(m[h := value]) == values;
    PushHeapAux(a, h, hole, value, lt, len);
    assert multiset(a[..]) == values;
  }

  /**
   * The first loop of adjust_heap: the hole descends from `top`, each time taking the larger child
   * (the left one only when the right is below it), and takes a lone left child when the right child
   * would be slot `len`. Returns where the hole ends.
   */
  method Descend<T(!new)>(a: array<T>, top: int, len: int, value: T, lt: (T, T) -> bool) returns (h: int)
    requires StrictWeakOrder(lt)
    requires 0 <= top <= len <= a.Length && top < a.Length
    requires HeapFrom(lt, a[..], top + 1, len)
    modifies a
    ensures Descent(lt, a[..], old(a[..]), top, len, h, value)
    ensures len <= 2 * h + 1
  {
    ghost var o := a[..];
    h := top;
    var rchild := 2 * h + 2;
    HoleAtTop(lt, a[..], top, len);
    while rchild < len
      invariant rchild == 2 * h + 2
      invariant Descent(lt, a[..], o, top, len, h, value)
      decreases len - h
    {
      if lt(a[rchild], a[rchild - 1]) {
        Asymmetric(lt, a[rchild], a[rchild - 1]);
        rchild := rchild - 1;
      }
      MoveHole(a, o, top, len, h, rchild, value, lt);
      h := rchild;
      rchild := 2 * rchild + 2;
    }
    if rchild == len {
      var c := rchild - 1;
      MoveHole(a, o, top, len, h, c, value, lt);
      h := c;
    }
  }

  /** One step of the descent: the child c of the hole h, the larger one, moves up into h. */
  method MoveHole<T(!new)>(a: array<T>, ghost o: seq<T>, top: int, len: int, h: int, c: int, value: T,
                           lt: (T, T) -> bool)
    requires StrictWeakOrder(lt) && Descent(lt, a[..], o, top, len, h, value)
    requires (c == 2 * h + 1 || c == 2 * h + 2) && c < len
    requires var d := if c == 2 * h + 1 then 2 * h + 2 else 2 * h + 1; d < len ==> !lt(a[c], a[d])
    modifies a
    ensures Descent(lt, a[..], o, top, len, c, value)
  {
    ghost var s := a[..];
    DescentStep(lt, s, o, top, len, h, c, value);
    a[h] := a[c];
    assert a[..] == s[h := s[c]];
  }

  /**
   * The state of adjust_heap's descent from `top` in s, which started as o: the hole h is on a path
   * below `top`, the pairs away from the hole are ordered, the hole's children are below its parent,
   * filling the hole with `value` gives the values of o with `value` at `top`, and nothing outside
   * [top, len) has changed.
   */
  ghost predicate Descent<T(!new)>(lt: (T, T) -> bool, s: seq<T>, o: seq<T>, top: int, len: int, h: int, value: T)
  {
    |s| == |o| && 0 <= top <= h < |s| && (h < len || h == top) && len <= |s| &&
    OnPath(top, h) &&
    OrderedExceptHole(lt, s, top, len, h) &&
    (h > top ==> ChildrenBelow(lt, s, len, h, s[Parent(h)])) &&
    multiset(s[h := value]) == multiset(o[top := value]) &&
    forall i :: 0 <= i < |s| && !(top <= i < len) ==> s[i] == o[i]
  }

  /** Moving the larger child c of the hole up into the hole keeps the descent state. */
  lemma DescentStep<T(!new)>(lt: (T, T) -> bool, s: seq<T>, o: seq<T>, top: int, len: int, h: int, c: int, value: T)
    requires StrictWeakOrder(lt) && Descent(lt, s, o, top, len, h, value)
    requires (c == 2 * h + 1 || c == 2 * h + 2) && c < len
    requires var o := if c == 2 * h + 1 then 2 * h + 2 else 2 * h + 1; o < len ==> !lt(s[c], s[o])
    ensures Descent(lt, s[h := s[c]], o, top, len, c, value)
  {
    SiftDownStep(lt, s, top, len, h, c);
    HoleMove(s, h, c, value);
    OnPathBelow(top, h);
  }

  /** At the start of adjust_heap the hole is the top slot, whose subtrees are heaps. */
  lemma HoleAtTop<T(!new)>(lt: (T, T) -> bool, s: seq<T>, k: int, len: int)
    requires 0 <= k && HeapFrom(lt, s, k + 1, len)
    ensures OrderedExceptHole(lt, s, k, len, k)
  {
    forall c | 0 < c < len && k <= (c - 1) / 2 && c != k && (c - 1) / 2 != k ensures EdgeOk(lt, s, c) {
      assert k + 1 <= (c - 1) / 2;
    }
  }

  /**
   * `pop_heap_aux(first, last, result, value)`: the root goes to `result`, then `value` is adjusted
   * in from the root over [0, len).
   */
  method PopHeapAux<T(!new)>(a: array<T>, len: int, result: int, value: T, lt: (T, T) -> bool)
    requires StrictWeakOrder(lt)
    requires 0 <= len <= result < a.Length && IsHeap(lt, a[..], len + 1)
    modifies a
    ensures a[result] == if result == 0 then value else old(a[0])
    ensures IsHeap(lt, a[..], len)
    ensures multiset(a[..]) == multiset(old(a[..])[result := old(a[0])][0 := value])
    ensures forall i :: len <= i < a.Length && i != result && i != 0 ==> a[i] == old(a[i])
  {
    ghost var s := a[..];
    a[result] := a[0];
    HeapFromFrame(lt, s, 0, len + 1, a[..], 1, len);
    AdjustHeap(a, 0, len, value, lt);
  }

  /**
   * HeapFrom depends only on the slots below len, and a heap condition over a longer range or from
   * a lower slot implies the one over a shorter range or from a higher slot.
   */
  lemma HeapFromFrame<T(!new)>(lt: (T, T) -> bool, s: seq<T>, j: int, n: int, t: seq<T>, k: int, len: int)
    requires j <= k && 0 <= len <= n && len <= |t| && HeapFrom(lt, s, j, n)
    requires forall i :: 0 <= i < len ==> s[i] == t[i]
    ensures HeapFrom(lt, t, k, len)
  {
    forall c | 0 < c < len && k <= (c - 1) / 2 ensures EdgeOk(lt, t, c) {
      assert EdgeOk(lt, s, c);
    }
  }

  /** Equal multisets with equal tails have equal prefixes. */
  lemma MultisetPrefix<T>(s: seq<T>, t: seq<T>, n: int)
    requires 0 <= n <= |s| == |t| && multiset(s) == multiset(t) && s[n..] == t[n..]
    ensures multiset(s[..n]) == multiset(t[..n])
  {
    assert s == s[..n] + s[n..] && t == t[..n] + t[n..];
    var tail := multiset(s[n..]);
    assert multiset(s[..n]) + tail == multiset(t[..n]) + tail;
    assert forall x :: multiset(s[..n])[x] == multiset(t[..n])[x] by {
      forall x ensures multiset(s[..n])[x] == multiset(t[..n])[x] {
        assert (multiset(s[..n]) + tail)[x] == (multiset(t[..n]) + tail)[x];
      }
    }
  }

  /**
   * `pop_heap(first, last)`: the largest value of the heap [0, last) moves to last - 1 and
   * [0, last - 1) becomes a heap of the others.
   */
  method PopHeap<T(!new)>(a: array<T>, last: int, lt: (T, T) -> bool)
    requires StrictWeakOrder(lt)
    requires 1 <= last <= a.Length && IsHeap(lt, a[..], last)
    modifies a
    ensures a[last - 1] == old(a[0])
    ensures IsHeap(lt, a[..], last - 1)
    ensures multiset(a[..last]) == multiset(old(a[..last]))
    ensures forall i :: last <= i < a.Length ==> a[i] == old(a[i])
    ensures forall i :: 0 <= i < last - 1 ==> !lt(a[last - 1], a[i])
  {
    ghost var s := a[..];
    PopHeapAux(a, last - 1, last - 1, a[last - 1], lt);
    PopHeapValues(lt, s, a[..], last);
  }

  /** After pop_heap_aux, the front `last` slots hold the old values with the old root at the end. */
  lemma PopHeapValues<T(!new)>(lt: (T, T) -> bool, s: seq<T>, t: seq<T>, last: int)
    requires StrictWeakOrder(lt)
    requires 1 <= last <= |s| == |t| && IsHeap(lt, s, last)
    requires t[last - 1] == s[0]
    requires multiset(t) == multiset(s[last - 1 := s[0]][0 := s[last - 1]])
    requires forall i :: last <= i < |t| ==> t[i] == s[i]
    ensures multiset(t[..last]) == multiset(s[..last])
    ensures forall i :: 0 <= i < last - 1 ==> !lt(t[last - 1], t[i])
  {
    if last > 1 {
      assert s[last - 1 := s[0]][0 := s[last - 1]] == s[0 := s[last - 1]][last - 1 := s[0]];
      HoleMove(s, 0, last - 1, s[0]);
    } else {
      assert s[last - 1 := s[0]][0 := s[last - 1]] == s;
    }
    assert t[last..] == s[last..];
    MultisetPrefix(t, s, last);
    forall i | 0 <= i < last - 1 ensures !lt(t[last - 1], t[i]) {
      assert t[..last][i] == t[i];
      RootNotBelow(lt, s, last, t[i]);
    }
  }

  /** The root of a heap is not below any value of the heap. */
  lemma RootNotBelow<T(!new)>(lt: (T, T) -> bool, s: seq<T>, last: int, x: T)
    requires StrictWeakOrder(lt) && 1 <= last <= |s| && IsHeap(lt, s, last) && x in multiset(s[..last])
    ensures !lt(s[0], x)
  {
    var k :| 0 <= k < last && s[..last][k] == x;
    HeapRootMax(lt, s, last, k);
  }

  /** Every value of s[..l] is not above any value of s[l..n). */
  ghost predicate PartitionedAt<T(!new)>(lt: (T, T) -> bool, s: seq<T>, l: int, n: int)
  {
    0 <= l <= n <= |s| && forall x, j :: x in s[..l] && l <= j < n ==> !lt(s[j], x)
  }

  /**
   * `sort_heap(first, last)`: pops the heap one slot shorter at a time until one value remains,
   * leaving [0, last) sorted ascending and a permutation of its old values.
   */
  method SortHeap<T(!new)>(a: array<T>, last: int, lt: (T, T) -> bool)
    requires StrictWeakOrder(lt)
    requires 0 <= last <= a.Length && IsHeap(lt, a[..], last)
    modifies a
    ensures SortedRange(lt, a[..], 0, last)
    ensures multiset(a[..last]) == multiset(old(a[..last]))
    ensures forall i :: last <= i < a.Length ==> a[i] == old(a[i])
  {
    var l := last;
    while l > 1
      invariant 0 <= l <= last
      invariant IsHeap(lt, a[..], l)
      invariant multiset(a[..last]) == multiset(old(a[..last]))
      invariant forall i :: last <= i < a.Length ==> a[i] == old(a[i])
      invariant SortedRange(lt, a[..], l, last)
      invariant PartitionedAt(lt, a[..], l, last)
    {
      ghost var s := a[..];
      PopHeap(a, l, lt);
      PopStep(lt, s, a[..], l, last);
      l := l - 1;
    }
    forall i, j | 0 <= i < j < last ensures !lt(a[..][j], a[..][i]) {
      if i < l {
        assert a[..][i] in a[..][..l];
      }
    }
  }

  /** One pass of the sort_heap loop keeps the sorted tail and the partition. */
  lemma PopStep<T(!new)>(lt: (T, T) -> bool, s: seq<T>, t: seq<T>, l: int, last: int)
    requires 1 < l <= last <= |s| == |t|
    requires SortedRange(lt, s, l, last) && PartitionedAt(lt, s, l, last)
    requires t[l - 1] == s[0]
    requires multiset(t[..l]) == multiset(s[..l])
    requires forall i :: l <= i < |s| ==> t[i] == s[i]
    requires forall i :: 0 <= i < l - 1 ==> !lt(t[l - 1], t[i])
    ensures SortedRange(lt, t, l - 1, last) && PartitionedAt(lt, t, l - 1, last)
    ensures multiset(t[..last]) == multiset(s[..last])
  {
    assert s[..last] == s[..l] + s[l..last] && t[..last] == t[..l] + t[l..last];
    assert t[l..last] == s[l..last];
    assert s[0] in s[..l];
    forall x, j | x in t[..l - 1] && l - 1 <= j < last ensures !lt(t[j], x) {
      var i :| 0 <= i < l - 1 && t[i] == x;
      if j >= l {
        assert x in multiset(t[..l]);
        assert x in s[..l];
      }
    }
  }

  /**
   * `make_heap(first, last)`: nothing for fewer than two values; otherwise `adjust_heap` on every
   * slot from (len - 2) / 2 down to 0, making [0, last) a heap of the same values.
   */
  method MakeHeap<T(!new)>(a: array<T>, last: int, lt: (T, T) -> bool)
    requires StrictWeakOrder(lt)
    requires 0 <= last <= a.Length
    modifies a
    ensures IsHeap(lt, a[..], last)
    ensures multiset(a[..]) == multiset(old(a[..]))
    ensures forall i :: last <= i < a.Length ==> a[i] == old(a[i])
  {
    if last < 2 {
      return;
    }
    var len := last;
    var hole := (len - 2) / 2;
    while true
      invariant 0 <= hole <= (len - 2) / 2
      invariant HeapFrom(lt, a[..], hole + 1, len)
      invariant multiset(a[..]) == multiset(old(a[..]))
      invariant forall i :: last <= i < a.Length ==> a[i] == old(a[i])
      decreases hole
    {
      assert a[..][hole := a[hole]] == a[..];
      AdjustHeap(a, hole, len, a[hole], lt);
      if hole == 0 {
        return;
      }
      hole := hole - 1;
    }
  }
}
