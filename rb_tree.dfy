/**
 * `rb_tree<Key, Value, KeyOfValue, Compare>`: the container behind set, map, multiset and
 * multimap. Its nodes live in the node arena (index 0 the header, whose parent link is the root
 * and whose left and right links are the leftmost and rightmost nodes); the values of the nodes
 * are kept beside the links, by node index. An iterator is a node index, with the header as
 * `end()`. The contents of the tree are the values in the in-order sequence of its nodes.
 */
module RbTree {
  import opened Wrappers
  import opened RbShape
  import opened RbNodes
  import opened RbUnlink
  import opened RbInsert
  import opened RbErase
  import opened RbIter
  import opened RbOrder
  import opened RbPlace

  /** `max_size()`: `static_cast<size_type>(-1)` for a 64-bit `size_type`. */
  const MaxSize: nat := 0xFFFF_FFFF_FFFF_FFFF

  /** The links of `rb_tree_init`: a red header, no root, the header as leftmost and rightmost. */
  function InitLinks(): (r: seq<Link>)
    ensures TreeRepr(r, Nil) && Extremes(r, Nil) && !r[Header].black
  {
    [Link(false, Null, Header, Header)]
  }

  /** The values along ids after a value v was stored for the new node z placed at position u. */
  lemma ValuesInsert<V>(vals: map<int, V>, ids: seq<int>, u: nat, z: int, v: V)
    requires u <= |ids| && z !in ids && forall j :: 0 <= j < |ids| ==> ids[j] in vals
    ensures var ids', vals' := ids[..u] + [z] + ids[u..], vals[z := v];
            (forall j :: 0 <= j < |ids'| ==> ids'[j] in vals') &&
            ValuesOf(vals', ids') == ValuesOf(vals, ids)[..u] + [v] + ValuesOf(vals, ids)[u..]
  {
    var ids', vals' := ids[..u] + [z] + ids[u..], vals[z := v];
    var c := ValuesOf(vals, ids);
    forall j | 0 <= j < |ids'|
      ensures ids'[j] in vals' && vals'[ids'[j]] == (c[..u] + [v] + c[u..])[j]
    {
      if j < u {
        assert ids'[j] == ids[j];
      } else if j > u {
        assert ids'[j] == ids[j - 1];
      }
    }
    assert ValuesOf(vals', ids') == c[..u] + [v] + c[u..];
  }

  /** The values along ids after the node z at position i was taken out and its value destroyed. */
  lemma ValuesCut<V>(vals: map<int, V>, ids: seq<int>, i: nat, z: int)
    requires i < |ids| && ids[i] == z && Unique(ids) && forall j :: 0 <= j < |ids| ==> ids[j] in vals
    ensures var ids', vals' := ids[..i] + ids[i + 1..], vals - {z};
            (forall j :: 0 <= j < |ids'| ==> ids'[j] in vals') &&
            ValuesOf(vals', ids') == ValuesOf(vals, ids)[..i] + ValuesOf(vals, ids)[i + 1..]
  {
    var ids', vals' := ids[..i] + ids[i + 1..], vals - {z};
    var c := ValuesOf(vals, ids);
    forall j | 0 <= j < |ids'|
      ensures ids'[j] in vals' && vals'[ids'[j]] == (c[..i] + c[i + 1..])[j]
    {
      if j < i {
        assert ids'[j] == ids[j] && ids[j] != ids[i];
      } else {
        assert ids'[j] == ids[j + 1] && ids[j + 1] != ids[i];
      }
    }
    assert ValuesOf(vals', ids') == c[..i] + c[i + 1..];
  }

  /**
   * The descent shared by `lower_bound` and `upper_bound`: from the root, go left when goLeft
   * holds of the node's value, remembering that node, and right otherwise. When goLeft holds of
   * exactly the values from position bound on, the last node remembered is the one at bound.
   */
  method Descend<V>(a: seq<Link>, ghost t: Tree, vals: map<int, V>, goLeft: V -> bool, ghost bound: nat) returns (r: int)
    requires TreeRepr(a, t) && bound <= |Ids(t)|
    requires forall j :: 0 <= j < |Ids(t)| ==> Ids(t)[j] in vals && (goLeft(vals[Ids(t)[j]]) <==> bound <= j)
    ensures r == At(Ids(t), bound)
  {
    if t.Node? {
      NodeLinks(a, t, []);
    }
    var y := Header;
    var x := a[Header].parent;
    ghost var p: seq<Dir> := [];
    while x != Null
      invariant IsPath(t, p) && x == Ptr(Sub(t, p)) && (x == Null <==> Sub(t, p).Nil?)
      invariant |Before(t, p)| <= bound <= |Before(t, p)| + |Ids(Sub(t, p))|
      invariant y == At(Ids(t), |Before(t, p)| + |Ids(Sub(t, p))|)
      decreases |Ids(Sub(t, p))|
    {
      NodeOnPath(a, t, p);
      var left := goLeft(vals[x]);
      DescendLink(a, t, p, x, y, bound, left);
      p := p + [if left then Left else Right];
      x, y := if left then a[x].left else a[x].right, if left then x else y;
    }
    r := y;
  }

  /**
   * The descent of `get_insert_multi_pos`, which `get_insert_unique_pos` begins with: from the
   * root, left when goLeft holds of the node's value and right otherwise, down to a null link.
   * y is the last node visited (the header in an empty tree) and addLeft the last direction
   * taken (true in an empty tree). When goLeft holds of exactly the values from position bound
   * on, the empty place reached is at position bound in order.
   */
  method Slot<V>(a: seq<Link>, ghost t: Tree, vals: map<int, V>, goLeft: V -> bool, ghost bound: nat)
    returns (y: int, addLeft: bool, ghost ps: seq<Dir>)
    requires TreeRepr(a, t) && bound <= |Ids(t)|
    requires forall j :: 0 <= j < |Ids(t)| ==> Ids(t)[j] in vals && (goLeft(vals[Ids(t)[j]]) <==> bound <= j)
    ensures IsPath(t, ps) && Sub(t, ps).Nil? && y == Up(t, ps) && |Before(t, ps)| == bound
    ensures ps == [] ==> addLeft
    ensures ps != [] ==> addLeft == (ps[|ps| - 1] == Left)
  {
    if t.Node? {
      NodeLinks(a, t, []);
    }
    y := Header;
    addLeft := true;
    var x := a[Header].parent;
    ps := [];
    while x != Null
      invariant IsPath(t, ps) && x == Ptr(Sub(t, ps)) && (x == Null <==> Sub(t, ps).Nil?)
      invariant |Before(t, ps)| <= bound <= |Before(t, ps)| + |Ids(Sub(t, ps))|
      invariant y == Up(t, ps) && (ps == [] ==> addLeft) && (ps != [] ==> addLeft == (ps[|ps| - 1] == Left))
      decreases |Ids(Sub(t, ps))|
    {
      NodeOnPath(a, t, ps);
      ghost var after := At(Ids(t), |Before(t, ps)| + |Ids(Sub(t, ps))|);
      ghost var m := |Before(t, ps)| + |Ids(Sub(t, ps).left)|;
      assert Ids(t)[m] == x;
      assert goLeft(vals[x]) <==> bound <= m;
      y := x;
      addLeft := goLeft(vals[x]);
      if addLeft {
        DescendBound(t, ps, after, Left, bound);
        UpLast(t, ps, Left);
        x := a[x].left;
        ps := ps + [Left];
      } else {
        DescendBound(t, ps, after, Right, bound);
        UpLast(t, ps, Right);
        x := a[x].right;
        ps := ps + [Right];
      }
    }
  }

  /**
   * The first half of `insert_node_at`: a new node z (the next free index) with parent y and no
   * children is hooked under y on the side addLeft names, or becomes the root, leftmost and
   * rightmost node when y is the header; the leftmost (rightmost) pointer moves to z when z
   * goes left of the leftmost (right of the rightmost) node. z, red, takes the empty place ps.
   */
  method HookLeaf(arena: Arena, y: int, addLeft: bool, ghost ps: seq<Dir>) returns (z: int)
    requires arena.Valid() && Extremes(arena.links, arena.tree)
    requires IsPath(arena.tree, ps) && Sub(arena.tree, ps).Nil? && y == Up(arena.tree, ps)
    requires ps == [] ==> addLeft
    requires ps != [] ==> addLeft == (ps[|ps| - 1] == Left)
    modifies arena
    ensures z == |old(arena.links)| && arena.Valid() && Extremes(arena.links, arena.tree)
    ensures arena.tree == Replace(old(arena.tree), ps, Node(false, Nil, z, Nil))
    ensures Ids(arena.tree) == Before(old(arena.tree), ps) + [z] + After(old(arena.tree), ps)
    ensures arena.links[Header].black == old(arena.links[Header].black)
  {
    ghost var a0, t0 := arena.links, arena.tree;
    z := |arena.links|;
    if ps != [] {
      SlotNeighbours(a0, t0, ps);
    }
    var l := arena.links + [Link(false, y, Null, Null)];
    ghost var hooked := l[y := Hook(l[y], ps, z)];
    if y == Header {
      l := l[Header := l[Header].(parent := z, left := z, right := z)];
    } else if addLeft {
      l := l[y := l[y].(left := z)];
      if l[Header].left == y {
        l := l[Header := l[Header].(left := z)];
      }
    } else {
      l := l[y := l[y].(right := z)];
      if l[Header].right == y {
        l := l[Header := l[Header].(right := z)];
      }
    }
    ghost var t1 := Replace(t0, ps, Node(false, Nil, z, Nil));
    LinkLeaf(a0, t0, ps, hooked);
    HeaderFrame(hooked, l, t1);
    LeafExtremes(a0, t0, ps, z, l[Header]);
    arena.links := l;
    arena.tree := t1;
  }

  /**
   * `insert_node_at`: the node z is hooked in at the empty place ps, then
   * `rb_tree_insert_rebalance` restores the red-black conditions.
   */
  method LinkNode(arena: Arena, y: int, addLeft: bool, ghost ps: seq<Dir>) returns (z: int)
    requires arena.Valid() && Extremes(arena.links, arena.tree) && RedBlack(arena.tree)
    requires IsPath(arena.tree, ps) && Sub(arena.tree, ps).Nil? && y == Up(arena.tree, ps)
    requires ps == [] ==> addLeft
    requires ps != [] ==> addLeft == (ps[|ps| - 1] == Left)
    modifies arena
    ensures z == |old(arena.links)| && arena.Valid() && Extremes(arena.links, arena.tree) && RedBlack(arena.tree)
    ensures Ids(arena.tree) == Before(old(arena.tree), ps) + [z] + After(old(arena.tree), ps)
    ensures arena.links[Header].black == old(arena.links[Header].black)
  {
    ghost var t0 := arena.tree;
    z := HookLeaf(arena, y, addLeft, ps);
    ghost var leaf := Node(false, Nil, z, Nil);
    assert IsPath(arena.tree, ps) && Sub(arena.tree, ps) == leaf && RedBlack(Replace(arena.tree, ps, Nil)) by {
      SubReplace(t0, ps, leaf);
      ReplaceTwice(t0, ps, leaf, Nil);
      ReplaceSame(t0, ps);
    }
    Rebalance(arena, z, ps);
  }

  /**
   * The node before an empty place ps below y: none exactly when the place is the left link of
   * the leftmost node or the root link of an empty tree; y's predecessor for another left link;
   * y itself for a right link.
   */
  lemma SlotPredecessor(a: seq<Link>, t: Tree, ps: seq<Dir>, y: int, addLeft: bool)
    requires TreeRepr(a, t) && Extremes(a, t) && IsPath(t, ps) && Sub(t, ps).Nil? && y == Up(t, ps)
    requires ps == [] ==> addLeft
    requires ps != [] ==> addLeft == (ps[|ps| - 1] == Left)
    ensures var u, ids := |Before(t, ps)|, Ids(t);
            u <= |ids| && Unique(ids) && Header !in ids &&
            (addLeft && (y == Header || y == a[Header].left) <==> u == 0) &&
            (addLeft && u > 0 ==> y != Header && y in IdSet(t) && y in ids && ids[0] != y && IndexOf(ids, y) == u) &&
            (!addLeft ==> u > 0 && y == ids[u - 1])
  {
    TreeIds(a, t);
    LeafIds(t, ps, 0);
    if ps != [] {
      SlotNeighbours(a, t, ps);
      if addLeft {
        IndexOfUnique(Ids(t), |Before(t, ps)|);
      }
    }
  }

  /**
   * The first half of `get_insert_unique_pos`'s look at the node before the place ps reached by
   * the descent from y: none (first) when the place is the left link of the header or of the
   * leftmost node; y's predecessor when it is another left link; y when it is a right link.
   */
  method SlotBefore(arena: Arena, y: int, addLeft: bool, ghost ps: seq<Dir>) returns (first: bool, before: int)
    requires arena.Valid() && Extremes(arena.links, arena.tree) && RedBlack(arena.tree) && !arena.links[Header].black
    requires IsPath(arena.tree, ps) && Sub(arena.tree, ps).Nil? && y == Up(arena.tree, ps)
    requires ps == [] ==> addLeft
    requires ps != [] ==> addLeft == (ps[|ps| - 1] == Left)
    ensures var u := |Before(arena.tree, ps)|;
            u <= |Ids(arena.tree)| && (first <==> u == 0) && (!first ==> before == Ids(arena.tree)[u - 1])
  {
    SlotPredecessor(arena.links, arena.tree, ps, y, addLeft);
    if addLeft {
      if y == Header || y == arena.links[Header].left {
        return true, y;
      }
      before := Decrement(arena, y, PathTo(arena.tree, y));
    } else {
      before := y;
    }
    first := false;
  }

  /**
   * The key test of `get_insert_unique_pos` on the node just before the upper bound u of k:
   * its key is less than k exactly when no key is equivalent to k, and is equivalent otherwise.
   */
  lemma UniqueTest<V, K(!new)>(keyOf: V -> K, less: (K, K) -> bool, vals: map<int, V>, ids: seq<int>, k: K, j: int)
    requires StrictWeakOrder(less) && (forall i :: 0 <= i < |ids| ==> ids[i] in vals)
    requires Sorted(keyOf, less, ValuesOf(vals, ids))
    requires var u := UpperIndex(keyOf, less, ValuesOf(vals, ids), k); 0 < u && j == ids[u - 1]
    ensures j in vals
    ensures less(keyOf(vals[j]), k) <==> !HasKey(keyOf, less, ValuesOf(vals, ids), k)
    ensures !less(keyOf(vals[j]), k) ==> Equiv(less, keyOf(vals[j]), k)
  {
    BeforeUpper(keyOf, less, ValuesOf(vals, ids), k);
  }

  /**
   * `mystl::distance(first, last)` on tree iterators: the number of increments that take
   * first to last.
   */
  method Distance(arena: Arena, first: int, last: int) returns (n: nat)
    requires arena.Valid() && Extremes(arena.links, arena.tree)
    requires (first == Header || first in Ids(arena.tree)) && (last == Header || last in Ids(arena.tree))
    requires Pos(Ids(arena.tree), first) <= Pos(Ids(arena.tree), last)
    ensures n == Pos(Ids(arena.tree), last) - Pos(Ids(arena.tree), first)
  {
    ghost var ids := Ids(arena.tree);
    ghost var p := Pos(ids, first);
    TreeIds(arena.links, arena.tree);
    AtPos(ids, first);
    AtPos(ids, last);
    ghost var q := Pos(ids, last);
    n := 0;
    var it := first;
    ghost var i := p;
    while it != last
      invariant i == p + n && i <= q && it == At(ids, i)
      decreases q - i
    {
      StepNext(ids, i);
      it := Increment(arena, it, PathTo(arena.tree, it));
      n := n + 1;
      i := i + 1;
    }
    PosAt(ids, i);
  }

  /** `increment` on the node at position i of the in-order sequence gives the one at i + 1. */
  method IncrementAt(arena: Arena, n: int, ghost ids: seq<int>, ghost i: nat) returns (r: int)
    requires arena.Valid() && Extremes(arena.links, arena.tree)
    requires ids == Ids(arena.tree) && i < |ids| && n == ids[i]
    ensures r == At(ids, i + 1)
  {
    TreeIds(arena.links, arena.tree);
    NextIsAt(ids, i);
    r := Increment(arena, n, PathTo(arena.tree, n));
  }

  /** The iterator after position i is the one at position i + 1. */
  lemma StepNext(ids: seq<int>, i: nat)
    requires Unique(ids) && i < |ids|
    ensures At(ids, i) in ids && Next(ids, At(ids, i)) == At(ids, i + 1)
  {
    IndexOfUnique(ids, i);
  }

  /** When some key is equivalent to k, the lower bound of k is a position of s. */
  lemma LowerBelow<V, K(!new)>(keyOf: V -> K, less: (K, K) -> bool, s: seq<V>, k: K)
    requires StrictWeakOrder(less) && Sorted(keyOf, less, s) && HasKey(keyOf, less, s, k)
    ensures LowerIndex(keyOf, less, s, k) < |s|
  {
    EqualRange(keyOf, less, s, k);
  }

  /**
   * What `find` reports when it finds k: the first equivalent value sits at the lower bound,
   * the node after it is at the next position, and with strictly increasing keys that is the
   * upper bound.
   */
  lemma FoundAt<V, K(!new)>(keyOf: V -> K, less: (K, K) -> bool, c: seq<V>, ids: seq<int>, k: K, it: int)
    requires StrictWeakOrder(less) && Sorted(keyOf, less, c) && |c| == |ids| && Unique(ids) && Header !in ids
    requires HasKey(keyOf, less, c, k) ==> it == At(ids, LowerIndex(keyOf, less, c, k))
    requires !HasKey(keyOf, less, c, k) ==> it == Header
    requires it != Header
    ensures var l := LowerIndex(keyOf, less, c, k);
            HasKey(keyOf, less, c, k) && l < |ids| && it == ids[l] && it in ids && Next(ids, it) == At(ids, l + 1) &&
            (Strict(keyOf, less, c) ==> UpperIndex(keyOf, less, c, k) == l + 1)
  {
    var l := LowerIndex(keyOf, less, c, k);
    EqualRange(keyOf, less, c, k);
    NextIsAt(ids, l);
    if Strict(keyOf, less, c) {
      StrictCount(keyOf, less, c, k);
    }
  }

  /**
   * The shape of a tree: the links a represent the red-black tree t under a red header whose
   * left and right links are its first and last nodes; n counts the nodes; vals holds a value
   * for exactly the nodes of t.
   */
  ghost predicate Shaped<V>(a: seq<Link>, t: Tree, vals: map<int, V>, n: nat)
  {
    TreeRepr(a, t) && Extremes(a, t) && RedBlack(t) && !a[Header].black && n == |Ids(t)| &&
    vals.Keys == IdSet(t) && (forall j :: 0 <= j < |Ids(t)| ==> Ids(t)[j] in vals)
  }

  /** A well-formed tree: shaped, less a strict weak order, the keys never decreasing in order. */
  ghost predicate Wf<V, K(!new)>(a: seq<Link>, t: Tree, vals: map<int, V>, n: nat, keyOf: V -> K, less: (K, K) -> bool)
  {
    Shaped(a, t, vals, n) && StrictWeakOrder(less) && Sorted(keyOf, less, ValuesOf(vals, Ids(t)))
  }

  /**
   * The shape after `insert_node_at` has hooked the node z in at the empty place ps and its
   * value v was stored: z and v sit at the position u of the place.
   */
  lemma ShapedInsert<V>(a0: seq<Link>, t0: Tree, vals0: map<int, V>, n0: nat, ps: seq<Dir>, a1: seq<Link>, t1: Tree, z: int, v: V)
    requires Shaped(a0, t0, vals0, n0) && IsPath(t0, ps) && Sub(t0, ps).Nil? && z == |a0|
    requires TreeRepr(a1, t1) && Extremes(a1, t1) && RedBlack(t1) && !a1[Header].black
    requires Ids(t1) == Before(t0, ps) + [z] + After(t0, ps)
    ensures var u, ids0, c0 := |Before(t0, ps)|, Ids(t0), ValuesOf(vals0, Ids(t0));
            Shaped(a1, t1, vals0[z := v], n0 + 1) && z !in vals0 &&
            Ids(t1) == ids0[..u] + [z] + ids0[u..] &&
            ValuesOf(vals0[z := v], Ids(t1)) == c0[..u] + [v] + c0[u..]
  {
    LeafIds(t0, ps, 0);
    var u, ids0 := |Before(t0, ps)|, Ids(t0);
    var ids1, vals1 := ids0[..u] + [z] + ids0[u..], vals0[z := v];
    assert Ids(t1) == ids1 && z !in vals0 by {
      TreeIds(a0, t0);
      LeafIds(t0, ps, 0);
      assert ids0[..u] == Before(t0, ps) && ids0[u..] == After(t0, ps);
    }
    assert vals1.Keys == IdSet(t1) by {
      TreeIds(a0, t0);
      TreeIds(a1, t1);
      KeysInsert(vals0, ids0, u, z, v, IdSet(t0), IdSet(t1));
    }
    ValuesInsert(vals0, ids0, u, z, v);
  }

  /** The keys of a map of values after the value v of a new node z is added at position u. */
  lemma KeysInsert<V>(vals: map<int, V>, ids: seq<int>, u: nat, z: int, v: V, s0: set<int>, s1: set<int>)
    requires u <= |ids| && vals.Keys == s0
    requires forall x :: x in ids <==> x in s0
    requires forall x :: x in ids[..u] + [z] + ids[u..] <==> x in s1
    ensures vals[z := v].Keys == s1
  {
    MembersInsert(ids, u, z);
    forall x | x in s1
      ensures x in vals[z := v].Keys
    {
      assert x in ids[..u] + [z] + ids[u..];
    }
    forall x | x in vals[z := v].Keys
      ensures x in s1
    {
      assert x in ids || x == z;
    }
  }

  /**
   * The shape after `erase(position)` has unlinked the node z at position i and its value was
   * dropped: z and its value are gone from position i and nothing else moved.
   */
  lemma ShapedErase<V>(a0: seq<Link>, t0: Tree, vals0: map<int, V>, n0: nat, i: nat, a1: seq<Link>, t1: Tree)
    requires Shaped(a0, t0, vals0, n0) && i < |Ids(t0)|
    requires TreeRepr(a1, t1) && Extremes(a1, t1) && RedBlack(t1) && !a1[Header].black
    requires Ids(t1) == Ids(t0)[..i] + Ids(t0)[i + 1..]
    ensures var c0, z := ValuesOf(vals0, Ids(t0)), Ids(t0)[i];
            0 < n0 && Shaped(a1, t1, vals0 - {z}, n0 - 1) &&
            ValuesOf(vals0 - {z}, Ids(t1)) == c0[..i] + c0[i + 1..]
  {
    var ids0 := Ids(t0);
    var z := ids0[i];
    assert Unique(ids0) by {
      TreeIds(a0, t0);
    }
    assert (vals0 - {z}).Keys == IdSet(t1) by {
      TreeIds(a0, t0);
      TreeIds(a1, t1);
      KeysCut(vals0, ids0, i, IdSet(t0), IdSet(t1));
    }
    ValuesCut(vals0, ids0, i, z);
  }

  /** The keys of a map of values after the value of the node at position i is dropped. */
  lemma KeysCut<V>(vals: map<int, V>, ids: seq<int>, i: nat, s0: set<int>, s1: set<int>)
    requires Unique(ids) && i < |ids| && vals.Keys == s0
    requires forall x :: x in ids <==> x in s0
    requires forall x :: x in ids[..i] + ids[i + 1..] <==> x in s1
    ensures (vals - {ids[i]}).Keys == s1
  {
    MembersCut(ids, i);
    forall x | x in s1
      ensures x in (vals - {ids[i]}).Keys
    {
      assert x in ids[..i] + ids[i + 1..];
    }
    forall x | x in (vals - {ids[i]}).Keys
      ensures x in s1
    {
      assert x in ids && x != ids[i];
    }
  }

  /** In a sequence without repetitions, removing the element at i cuts out position i. */
  lemma RemoveAt(s: seq<int>, i: nat)
    requires Unique(s) && i < |s|
    ensures Remove(s, s[i]) == s[..i] + s[i + 1..]
  {
    var u, v, z := s[..i], s[i + 1..], s[i];
    NotInCut(s, i);
    assert s == u + [z] + v;
    RemoveOnce(u, z, v);
  }

  /**
   * The link work of `erase(position)`: the successor of z is taken, then
   * `rb_tree_rebalance_for_erase` unlinks z and rebalances. z leaves its position i in the
   * order, nothing else moves, and the successor is the node that then sits at position i.
   */
  method UnlinkAt<V>(arena: Arena, z: int, ghost i: nat, ghost vals: map<int, V>, ghost n: nat) returns (next: int, y: int)
    requires arena.Valid() && Shaped(arena.links, arena.tree, vals, n) && i < |Ids(arena.tree)| && z == Ids(arena.tree)[i]
    modifies arena
    ensures var ids0 := Ids(old(arena.tree));
            arena.Valid() && y == z && 0 < n && Shaped(arena.links, arena.tree, vals - {z}, n - 1) &&
            Ids(arena.tree) == ids0[..i] + ids0[i + 1..] && next == At(Ids(arena.tree), i) &&
            ValuesOf(vals - {z}, Ids(arena.tree)) == ValuesOf(vals, ids0)[..i] + ValuesOf(vals, ids0)[i + 1..]
  {
    ghost var a0, t0 := arena.links, arena.tree;
    TreeIds(a0, t0);
    ghost var pz := PathTo(t0, z);
    next := Increment(arena, z, pz);
    y := RebalanceForErase(arena, z, pz);
    ShapedUnlink(a0, t0, vals, n, i, arena.links, arena.tree);
  }

  /**
   * ShapedErase for the order `rb_tree_rebalance_for_erase` leaves behind, z removed from the
   * nodes; z's successor then sits at z's old position.
   */
  lemma ShapedUnlink<V>(a0: seq<Link>, t0: Tree, vals: map<int, V>, n: nat, i: nat, a1: seq<Link>, t1: Tree)
    requires Shaped(a0, t0, vals, n) && i < |Ids(t0)|
    requires TreeRepr(a1, t1) && Extremes(a1, t1) && RedBlack(t1) && !a1[Header].black
    requires Ids(t1) == Remove(Ids(t0), Ids(t0)[i])
    ensures var ids0, z := Ids(t0), Ids(t0)[i];
            0 < n && Shaped(a1, t1, vals - {z}, n - 1) && Ids(t1) == ids0[..i] + ids0[i + 1..] &&
            ValuesOf(vals - {z}, Ids(t1)) == ValuesOf(vals, ids0)[..i] + ValuesOf(vals, ids0)[i + 1..] &&
            z in ids0 && Next(ids0, z) == At(Ids(t1), i)
  {
    var ids0 := Ids(t0);
    assert Unique(ids0) by {
      TreeIds(a0, t0);
    }
    assert Ids(t1) == ids0[..i] + ids0[i + 1..] by {
      RemoveAt(ids0, i);
    }
    ShapedErase(a0, t0, vals, n, i, a1, t1);
    NextIsAt(ids0, i);
    AtCut(ids0, i, i);
  }

  /**
   * The state of `erase(first, last)` after k of the nodes from position p up to q were erased
   * one by one from the order ids0 with values c0: ids and cs lack positions p..p + k, f is the
   * node erased next and last still marks the end of the range.
   */
  ghost predicate Erasing<V>(ids: seq<int>, cs: seq<V>, ids0: seq<int>, c0: seq<V>, p: nat, k: nat, q: nat, f: int, last: int)
  {
    p + k <= q <= |ids0| && |c0| == |ids0| &&
    ids == ids0[..p] + ids0[p + k..] && cs == c0[..p] + c0[p + k..] &&
    f == At(ids, p) && last == At(ids, q - k)
  }

  /** Before any node is erased. */
  lemma ErasingStart<V>(ids0: seq<int>, c0: seq<V>, p: nat, q: nat, first: int, last: int)
    requires p <= q <= |ids0| == |c0| && first == At(ids0, p) && last == At(ids0, q)
    ensures Erasing(ids0, c0, ids0, c0, p, 0, q, first, last)
  {
    assert ids0[..p] + ids0[p..] == ids0;
    assert c0[..p] + c0[p..] == c0;
  }

  /**
   * One step: while f is not last, f is the node at position p, and taking position p out
   * leaves the state after k + 1 erasures.
   */
  lemma ErasingStep<V>(ids: seq<int>, cs: seq<V>, ids0: seq<int>, c0: seq<V>, p: nat, k: nat, q: nat, f: int, last: int)
      returns (k': nat)
    requires Erasing(ids, cs, ids0, c0, p, k, q, f, last) && f != last
    ensures p + k < q && p < |ids| && f == ids[p] && k' == k + 1
    ensures var ids', cs' := ids[..p] + ids[p + 1..], cs[..p] + cs[p + 1..];
            Erasing(ids', cs', ids0, c0, p, k', q, At(ids', p), last)
  {
    k' := k + 1;
    AtCut(ids, p, q - k - 1);
    CutMore(ids0, p, k);
    CutMore(c0, p, k);
  }

  /** When f reaches last, the whole range is gone. */
  lemma ErasingEnd<V>(ids: seq<int>, cs: seq<V>, ids0: seq<int>, c0: seq<V>, p: nat, k: nat, q: nat, f: int, last: int)
    requires Erasing(ids, cs, ids0, c0, p, k, q, f, last) && f == last
    requires Unique(ids) && Header !in ids
    ensures k == q - p && ids == ids0[..p] + ids0[q..] && cs == c0[..p] + c0[q..]
  {
    SamePosition(ids, p, q - k);
  }

  /** Two positions of the same iterator are equal. */
  lemma SamePosition(w: seq<int>, i: nat, j: nat)
    requires Unique(w) && Header !in w && i <= |w| && j <= |w| && At(w, i) == At(w, j)
    ensures i == j
  {
    PosAt(w, i);
    PosAt(w, j);
  }

  class RbTree<V, K(!new)> {
    /** `KeyOfValue`: the key of a value. */
    const keyOf: V -> K
    /** `key_compare`: a strict weak order on keys. */
    const less: (K, K) -> bool
    /** The node links, including the header at index 0. */
    const arena: Arena
    /** `value_field` of every node in the tree, by node index. */
    var vals: map<int, V>
    var nodeCount: nat

    /** The nodes in order. */
    ghost function Nodes(): seq<int>
      reads arena
    {
      Ids(arena.tree)
    }

    /** The values in order: what iterating from `begin()` to `end()` visits. */
    ghost function Contents(): seq<V>
      reads this, arena
      requires forall j :: 0 <= j < |Ids(arena.tree)| ==> Ids(arena.tree)[j] in vals
    {
      ValuesOf(vals, Ids(arena.tree))
    }

    /** The links, the node values, the node count and the order form a well-formed tree. */
    ghost predicate Valid()
      reads this, arena
    {
      arena.Valid() && Wf(arena.links, arena.tree, vals, nodeCount, keyOf, less)
    }

    /** `rb_tree()`: `rb_tree_init` makes the empty state, and `node_count` is 0. */
    constructor (keyOf: V -> K, less: (K, K) -> bool)
      requires StrictWeakOrder(less)
      ensures Valid() && fresh(arena) && this.keyOf == keyOf && this.less == less
      ensures Contents() == [] && nodeCount == 0
      ensures arena.links == [Link(false, Null, Header, Header)]
    {
      this.keyOf := keyOf;
      this.less := less;
      arena := new Arena(InitLinks());
      vals := map[];
      nodeCount := 0;
    }

    /** `begin()`: the leftmost node, the header when the tree is empty. */
    function Begin(): (r: int)
      reads this, arena
      requires Valid()
      ensures r == At(Nodes(), 0)
    {
      arena.links[Header].left
    }

    /** `size()`. */
    function Size(): (r: nat)
      reads this, arena
      requires Valid()
      ensures r == |Contents()|
    {
      nodeCount
    }

    /** `empty()`. */
    function Empty(): (r: bool)
      reads this, arena
      requires Valid()
      ensures r <==> Contents() == []
    {
      nodeCount == 0
    }

    /** The header's links in the empty state. */
    lemma EmptyHeader()
      requires Valid() && nodeCount == 0
      ensures arena.links[Header] == Link(false, Null, Header, Header) && arena.tree == Nil
    {
      if arena.tree.Node? {
        MinMaxIds(arena.tree);
      }
    }

    /**
     * `erase_since(x)`: destroys every node of the subtree s rooted at x; the links are left as
     * they are. Declared without a body in the source; this body (the right subtree by recursion,
     * the left one by the loop, as the classic algorithm does) and contract are the model's own.
     */
    method EraseSince(x: int, ghost s: Tree, ghost up: int)
      requires Repr(arena.links, s, up) && x == Ptr(s)
      modifies this
      ensures vals == old(vals) - IdSet(s)
      ensures nodeCount == old(nodeCount)
      decreases |Ids(s)|
    {
      var n := x;
      ghost var cur, curUp := s, up;
      ghost var gone: set<int> := {};
      while n != Null
        invariant Repr(arena.links, cur, curUp) && n == Ptr(cur) && |Ids(cur)| <= |Ids(s)|
        invariant vals == old(vals) - gone && gone + IdSet(cur) == IdSet(s)
        invariant nodeCount == old(nodeCount)
        decreases |Ids(cur)|
      {
        EraseSince(arena.links[n].right, cur.right, n);
        var l := arena.links[n].left;
        vals := vals - {n};
        gone := gone + IdSet(cur.right) + {n};
        cur, curUp := cur.left, n;
        n := l;
      }
    }

    /**
     * `clear()`: on a non-empty tree, destroys every node and restores the empty state: root
     * null, leftmost and rightmost the header, `node_count` 0.
     */
    method Clear()
      requires Valid()
      modifies this, arena
      ensures Valid() && Contents() == [] && nodeCount == 0
      ensures arena.links[Header] == Link(false, Null, Header, Header)
    {
      if nodeCount > 0 {
        TreeIds(arena.links, arena.tree);
        EraseSince(arena.links[Header].parent, arena.tree, Header);
        arena.links := arena.links[Header := arena.links[Header].(left := Header, parent := Null, right := Header)];
        arena.tree := Nil;
        nodeCount := 0;
      } else {
        EmptyHeader();
      }
    }

    /**
     * `lower_bound(key)`: the first node whose key is not less than k, or `end()`. Declared
     * without a body in the source; this body and contract are the model's own.
     */
    method LowerBound(k: K) returns (r: int)
      requires Valid()
      ensures r == At(Nodes(), LowerIndex(keyOf, less, Contents(), k))
    {
      LowerIndexSplit(keyOf, less, Contents(), k);
      r := Descend(arena.links, arena.tree, vals, v => !less(keyOf(v), k), LowerIndex(keyOf, less, Contents(), k));
    }

    /**
     * `upper_bound(key)`: the first node whose key is greater than k, or `end()`. Declared
     * without a body in the source; this body and contract are the model's own.
     */
    method UpperBound(k: K) returns (r: int)
      requires Valid()
      ensures r == At(Nodes(), UpperIndex(keyOf, less, Contents(), k))
    {
      UpperIndexSplit(keyOf, less, Contents(), k);
      r := Descend(arena.links, arena.tree, vals, v => less(k, keyOf(v)), UpperIndex(keyOf, less, Contents(), k));
    }

    /**
     * `find(key)`: the lower bound when its key is equivalent to k (the first such node),
     * otherwise `end()`. Declared without a body in the source; this body and contract are the
     * model's own.
     */
    method Find(k: K) returns (r: int)
      requires Valid()
      ensures HasKey(keyOf, less, Contents(), k) ==>
                r == At(Nodes(), LowerIndex(keyOf, less, Contents(), k)) && r in vals && Equiv(less, keyOf(vals[r]), k)
      ensures r == Header <==> !HasKey(keyOf, less, Contents(), k)
    {
      var j := LowerBound(k);
      ghost var lb := LowerIndex(keyOf, less, Contents(), k);
      EqualRange(keyOf, less, Contents(), k);
      LowerIndexSplit(keyOf, less, Contents(), k);
      TreeIds(arena.links, arena.tree);
      if j == Header || less(k, keyOf(vals[j])) {
        r := Header;
      } else {
        r := j;
      }
    }

    /** `count_unique(key)`: 1 when some key is equivalent to k, else 0. */
    method CountUnique(k: K) returns (n: nat)
      requires Valid()
      ensures n <= 1 && (n == 1 <==> HasKey(keyOf, less, Contents(), k))
      ensures Strict(keyOf, less, Contents()) ==> n == CountEquiv(keyOf, less, Contents(), k)
    {
      var it := Find(k);
      n := if it == Header then 0 else 1;
      TreeIds(arena.links, arena.tree);
      EqualRange(keyOf, less, Contents(), k);
      if Strict(keyOf, less, Contents()) {
        StrictCount(keyOf, less, Contents(), k);
      }
    }

    /**
     * `equal_range_multi(key)`: the lower and the upper bound, which enclose exactly the
     * values whose keys are equivalent to k.
     */
    method EqualRangeMulti(k: K) returns (lo: int, hi: int)
      requires Valid()
      ensures var l, u := LowerIndex(keyOf, less, Contents(), k), UpperIndex(keyOf, less, Contents(), k);
              lo == At(Nodes(), l) && hi == At(Nodes(), u) && l <= u &&
              forall j :: 0 <= j < |Contents()| ==> (Equiv(less, keyOf(Contents()[j]), k) <==> l <= j < u)
    {
      lo := LowerBound(k);
      hi := UpperBound(k);
      EqualRange(keyOf, less, Contents(), k);
    }

    /** `count_multi(key)`: the distance of the equal range, the number of equivalent keys. */
    method CountMulti(k: K) returns (n: nat)
      requires Valid()
      ensures n == CountEquiv(keyOf, less, Contents(), k)
    {
      var lo, hi := EqualRangeMulti(k);
      TreeIds(arena.links, arena.tree);
      PosAt(Nodes(), LowerIndex(keyOf, less, Contents(), k));
      PosAt(Nodes(), UpperIndex(keyOf, less, Contents(), k));
      n := Distance(arena, lo, hi);
      EqualRange(keyOf, less, Contents(), k);
    }

    /**
     * `equal_range_unique(key)`: (`end()`, `end()`) when no key is equivalent to k; otherwise
     * the found node and its successor, which is the equal range when keys are unique.
     */
    method EqualRangeUnique(k: K) returns (lo: int, hi: int)
      requires Valid()
      ensures lo == Header <==> !HasKey(keyOf, less, Contents(), k)
      ensures lo == Header ==> hi == Header
      ensures lo != Header ==> lo == At(Nodes(), LowerIndex(keyOf, less, Contents(), k))
      ensures lo != Header ==> hi == At(Nodes(), LowerIndex(keyOf, less, Contents(), k) + 1)
    {
      var it := Find(k);
      if it == Header {
        lo, hi := it, it;
      } else {
        ghost var c, ids := Contents(), Nodes();
        ghost var l := LowerIndex(keyOf, less, c, k);
        LowerBelow(keyOf, less, c, k);
        hi := IncrementAt(arena, it, ids, l);
        lo := it;
      }
    }

    /**
     * `get_insert_multi_pos(key)`: the node y under which a value with key k is hooked, and on
     * which side; the empty place reached is the upper bound of k, so the new value goes after
     * every equivalent one. Declared without a body in the source; this body and contract are
     * the model's own.
     */
    method GetInsertMultiPos(k: K) returns (y: int, addLeft: bool, ghost ps: seq<Dir>)
      requires Valid()
      ensures IsPath(arena.tree, ps) && Sub(arena.tree, ps).Nil? && y == Up(arena.tree, ps)
      ensures |Before(arena.tree, ps)| == UpperIndex(keyOf, less, Contents(), k)
      ensures ps == [] ==> addLeft
      ensures ps != [] ==> addLeft == (ps[|ps| - 1] == Left)
    {
      UpperIndexSplit(keyOf, less, Contents(), k);
      y, addLeft, ps := Slot(arena.links, arena.tree, vals, v => less(k, keyOf(v)), UpperIndex(keyOf, less, Contents(), k));
    }

    /**
     * `get_insert_unique_pos(key)`: the descent of `get_insert_multi_pos`, then a look at the
     * node j just before the place reached (y itself when the place is y's right link, y's
     * predecessor when it is a left link, none when it is the left link of the leftmost node or
     * the tree is empty). The insertion may go on (ok) exactly when no key is equivalent to k;
     * otherwise the node returned is j, whose key is equivalent to k. Declared without a body in
     * the source; this body and contract are the model's own.
     */
    method GetInsertUniquePos(k: K) returns (j: int, addLeft: bool, ok: bool, ghost ps: seq<Dir>)
      requires Valid()
      ensures ok <==> !HasKey(keyOf, less, Contents(), k)
      ensures ok ==> IsPath(arena.tree, ps) && Sub(arena.tree, ps).Nil? && j == Up(arena.tree, ps) &&
                     |Before(arena.tree, ps)| == UpperIndex(keyOf, less, Contents(), k) &&
                     (ps == [] ==> addLeft) && (ps != [] ==> addLeft == (ps[|ps| - 1] == Left))
      ensures !ok ==> var u := UpperIndex(keyOf, less, Contents(), k);
                      0 < u <= |Nodes()| && j == Nodes()[u - 1] && j in vals && Equiv(less, keyOf(vals[j]), k)
    {
      ghost var c, ids := Contents(), Nodes();
      ghost var u := UpperIndex(keyOf, less, c, k);
      var y;
      y, addLeft, ps := GetInsertMultiPos(k);
      var first, before := SlotBefore(arena, y, addLeft, ps);
      if first {
        BeforeUpper(keyOf, less, c, k);
        j, ok := y, true;
        return;
      }
      UniqueTest(keyOf, less, vals, ids, k, before);
      if less(keyOf(vals[before]), k) {
        j, ok := y, true;
      } else {
        j, ok := before, false;
      }
    }

    /**
     * `insert_node_at(y, node, add_to_left)` for a node holding v: the node takes the empty place
     * ps, which is where v belongs (the upper bound of its key). v enters the contents at that
     * position, the new node at the same position of the in-order sequence, and the node count
     * grows by one. Declared without a body in the source; this body and contract are the model's
     * own.
     */
    method InsertNodeAt(y: int, addLeft: bool, v: V, ghost ps: seq<Dir>) returns (z: int)
      requires Valid()
      requires IsPath(arena.tree, ps) && Sub(arena.tree, ps).Nil? && y == Up(arena.tree, ps)
      requires ps == [] ==> addLeft
      requires ps != [] ==> addLeft == (ps[|ps| - 1] == Left)
      requires |Before(arena.tree, ps)| == UpperIndex(keyOf, less, Contents(), keyOf(v))
      modifies this, arena
      ensures Valid() && nodeCount == old(nodeCount) + 1
      ensures var u := UpperIndex(keyOf, less, old(Contents()), keyOf(v));
              Contents() == old(Contents())[..u] + [v] + old(Contents())[u..] &&
              Nodes() == old(Nodes())[..u] + [z] + old(Nodes())[u..] && z !in old(vals)
    {
      ghost var a0, t0, vals0 := arena.links, arena.tree, vals;
      z := LinkNode(arena, y, addLeft, ps);
      ShapedInsert(a0, t0, vals0, nodeCount, ps, arena.links, arena.tree, z, v);
      InsertSorted(keyOf, less, ValuesOf(vals0, Ids(t0)), v);
      vals := vals[z := v];
      nodeCount := nodeCount + 1;
    }

    /**
     * `emplace_multi(v)`: an out-of-range error (the size-limit macro throws `std::out_of_range`)
     * when the node count exceeds `max_size() - 1`;
     * otherwise v is inserted after every value whose key is equivalent to its own, and the
     * iterator to its node is returned.
     */
    method EmplaceMulti(v: V) returns (r: Result<int>)
      requires Valid()
      modifies this, arena
      ensures Valid()
      ensures old(nodeCount) > MaxSize - 1 ==> r == Fail(OutOfRange) && Contents() == old(Contents()) && nodeCount == old(nodeCount)
      ensures old(nodeCount) <= MaxSize - 1 ==>
                var u := UpperIndex(keyOf, less, old(Contents()), keyOf(v));
                r.Ok? && Contents() == old(Contents())[..u] + [v] + old(Contents())[u..] &&
                u < |Nodes()| && r.value == Nodes()[u] && nodeCount == old(nodeCount) + 1
    {
      if nodeCount > MaxSize - 1 {
        return Fail(OutOfRange);
      }
      var y, addLeft, ps := GetInsertMultiPos(keyOf(v));
      var z := InsertNodeAt(y, addLeft, v, ps);
      r := Ok(z);
    }

    /**
     * `emplace_unique(v)`: an out-of-range error when the node count exceeds `max_size() - 1`;
     * otherwise, when a key equivalent to v's is present, the tree is left as it was and the
     * result is (that node, false); when none is, v is inserted where it belongs and the result
     * is (its node, true). Strictly increasing keys stay strictly increasing.
     */
    method EmplaceUnique(v: V) returns (r: Result<(int, bool)>)
      requires Valid()
      modifies this, arena
      ensures Valid()
      ensures old(nodeCount) > MaxSize - 1 ==> r == Fail(OutOfRange) && Contents() == old(Contents()) && nodeCount == old(nodeCount)
      ensures old(nodeCount) <= MaxSize - 1 ==> r.Ok? && (r.value.1 <==> !HasKey(keyOf, less, old(Contents()), keyOf(v)))
      ensures r.Ok? && r.value.1 ==>
                var u := UpperIndex(keyOf, less, old(Contents()), keyOf(v));
                Contents() == old(Contents())[..u] + [v] + old(Contents())[u..] &&
                u < |Nodes()| && r.value.0 == Nodes()[u] && nodeCount == old(nodeCount) + 1
      ensures r.Ok? && !r.value.1 ==>
                Contents() == old(Contents()) && Nodes() == old(Nodes()) && nodeCount == old(nodeCount) &&
                r.value.0 in vals && Equiv(less, keyOf(vals[r.value.0]), keyOf(v))
      ensures Strict(keyOf, less, old(Contents())) ==> Strict(keyOf, less, Contents())
    {
      if nodeCount > MaxSize - 1 {
        return Fail(OutOfRange);
      }
      ghost var c := Contents();
      var j, addLeft, ok, ps := GetInsertUniquePos(keyOf(v));
      if ok {
        if Strict(keyOf, less, c) {
          InsertStrict(keyOf, less, c, v);
          EqualRange(keyOf, less, c, keyOf(v));
        }
        var z := InsertNodeAt(j, addLeft, v, ps);
        r := Ok((z, true));
      } else {
        r := Ok((j, false));
      }
    }

    /**
     * `erase(position)`: the successor of z is taken, `rb_tree_rebalance_for_erase` unlinks z
     * and rebalances, the node is destroyed and `node_count` decremented; the successor is
     * returned. The value at z's position is taken out and every other node keeps its place.
     */
    method EraseAt(z: int, ghost i: nat) returns (next: int)
      requires Valid() && i < |Nodes()| && z == Nodes()[i]
      modifies this, arena
      ensures Valid() && nodeCount == old(nodeCount) - 1
      ensures Nodes() == old(Nodes())[..i] + old(Nodes())[i + 1..]
      ensures Contents() == old(Contents())[..i] + old(Contents())[i + 1..]
      ensures next == At(Nodes(), i)
    {
      ghost var c0 := Contents();
      var y;
      next, y := UnlinkAt(arena, z, i, vals, nodeCount);
      SortedCut(keyOf, less, c0, i, i + 1);
      vals := vals - {y};
      nodeCount := nodeCount - 1;
    }

    /**
     * `erase(first, last)`: `clear()` when the range is the whole tree, otherwise the nodes
     * from first up to last are erased one by one. The values at the positions of the range
     * are taken out and the rest keep their order.
     */
    method EraseRange(first: int, last: int, ghost p: nat, ghost q: nat)
      requires Valid() && p <= q <= |Nodes()| && first == At(Nodes(), p) && last == At(Nodes(), q)
      modifies this, arena
      ensures Valid()
      ensures Nodes() == old(Nodes())[..p] + old(Nodes())[q..]
      ensures Contents() == old(Contents())[..p] + old(Contents())[q..]
      ensures nodeCount == old(nodeCount) - (q - p)
    {
      ghost var ids0 := Nodes();
      assert Unique(ids0) && Header !in ids0 by {
        TreeIds(arena.links, arena.tree);
      }
      if first == Begin() && last == Header {
        SamePosition(ids0, p, 0);
        SamePosition(ids0, q, |ids0|);
        Clear();
        assert Nodes() == [];
      } else {
        EraseEach(first, last, p, q);
      }
    }

    /** The loop of `erase(first, last)`: erases the nodes from first up to last one at a time. */
    method EraseEach(first: int, last: int, ghost p: nat, ghost q: nat)
      requires Valid() && p <= q <= |Nodes()| && first == At(Nodes(), p) && last == At(Nodes(), q)
      modifies this, arena
      ensures Valid()
      ensures Nodes() == old(Nodes())[..p] + old(Nodes())[q..]
      ensures Contents() == old(Contents())[..p] + old(Contents())[q..]
      ensures nodeCount == old(nodeCount) - (q - p)
    {
      ghost var ids0, c0 := Nodes(), Contents();
      ErasingStart(ids0, c0, p, q, first, last);
      ghost var k: nat := 0;
      var f := first;
      while f != last
        invariant Valid() && nodeCount == |ids0| - k
        invariant Erasing(Nodes(), Contents(), ids0, c0, p, k, q, f, last)
        decreases q - k
      {
        k := ErasingStep(Nodes(), Contents(), ids0, c0, p, k, q, f, last);
        f := EraseAt(f, p);
      }
      assert Unique(Nodes()) && Header !in Nodes() by {
        TreeIds(arena.links, arena.tree);
      }
      ErasingEnd(Nodes(), Contents(), ids0, c0, p, k, q, f, last);
    }

    /**
     * `erase_multi(key)`: erases the equal range of k and returns its length; the values with
     * keys equivalent to k are gone and every other value stays, in order.
     */
    method EraseMulti(k: K) returns (n: nat)
      requires Valid()
      modifies this, arena
      ensures Valid()
      ensures var l, u := LowerIndex(keyOf, less, old(Contents()), k), UpperIndex(keyOf, less, old(Contents()), k);
              n == CountEquiv(keyOf, less, old(Contents()), k) && l <= u <= |old(Contents())| &&
              Contents() == old(Contents())[..l] + old(Contents())[u..]
      ensures !HasKey(keyOf, less, Contents(), k) && |Contents()| == |old(Contents())| - n
    {
      ghost var c0 := Contents();
      var lo, hi := EqualRangeMulti(k);
      TreeIds(arena.links, arena.tree);
      PosAt(Nodes(), LowerIndex(keyOf, less, c0, k));
      PosAt(Nodes(), UpperIndex(keyOf, less, c0, k));
      n := Distance(arena, lo, hi);
      EqualRange(keyOf, less, c0, k);
      EraseKeyLeaves(keyOf, less, c0, k);
      EraseRange(lo, hi, LowerIndex(keyOf, less, c0, k), UpperIndex(keyOf, less, c0, k));
    }

    /**
     * `erase_unique(key)`, with the count it evidently means to return: 1 when a key
     * equivalent to k was found and its node erased, 0 when none was and nothing changed.
     */
    method EraseUnique(k: K) returns (n: nat)
      requires Valid()
      modifies this, arena
      ensures Valid()
      ensures var l := LowerIndex(keyOf, less, old(Contents()), k);
              if HasKey(keyOf, less, old(Contents()), k)
              then n == 1 && l < |old(Contents())| && Contents() == old(Contents())[..l] + old(Contents())[l + 1..]
              else n == 0 && unchanged(this, arena)
    {
      ghost var c0 := Contents();
      var p := Find(k);
      if p != Header {
        ghost var l := LowerIndex(keyOf, less, c0, k);
        TreeIds(arena.links, arena.tree);
        FoundAt(keyOf, less, c0, Nodes(), k, p);
        var _ := EraseAt(p, l);
        n := 1;
      } else {
        n := 0;
        TreeIds(arena.links, arena.tree);
        EqualRange(keyOf, less, c0, k);
      }
    }

    /**
     * `erase_unique(key)` as written: erases the found node like EraseUnique but returns 1 on
     * both branches, so a key that is absent is reported as one erased value.
     */
    method EraseUniqueAsWritten(k: K) returns (n: nat)
      requires Valid()
      modifies this, arena
      ensures Valid() && n == 1
      ensures !HasKey(keyOf, less, old(Contents()), k) ==>
                Contents() == old(Contents()) && CountEquiv(keyOf, less, old(Contents()), k) == 0
    {
      var p := Find(k);
      if p != Header {
        TreeIds(arena.links, arena.tree);
        FoundAt(keyOf, less, Contents(), Nodes(), k, p);
        var _ := EraseAt(p, LowerIndex(keyOf, less, Contents(), k));
        return 1;
      }
      EqualRange(keyOf, less, Contents(), k);
      return 1;
    }
  }
}
