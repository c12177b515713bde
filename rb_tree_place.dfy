/**
 * Positions in a red-black tree: iterators as node indices, with the header as `end()`; the path
 * to a node; one step of the descent that lookups and inserts make from the root; and the links
 * after a new leaf has been hooked under its parent (`insert_node_at`).
 */
module RbPlace {
  import opened RbShape
  import opened RbNodes
  import opened RbUnlink
  import opened RbIter

  /** The iterator at position i of ids: the node there, or the header (`end()`) past the last. */
  function At(ids: seq<int>, i: nat): int
  {
    if i < |ids| then ids[i] else Header
  }

  /** The position of iterator n: its index in ids, or |ids| for the header. */
  function Pos(ids: seq<int>, n: int): (i: nat)
    requires n == Header || n in ids
    ensures i <= |ids|
  {
    if n in ids then IndexOf(ids, n) else |ids|
  }

  /** Iterators and positions correspond one to one. */
  lemma PosAt(ids: seq<int>, i: nat)
    requires Unique(ids) && Header !in ids && i <= |ids|
    ensures At(ids, i) == Header || At(ids, i) in ids
    ensures Pos(ids, At(ids, i)) == i
  {
    if i < |ids| {
      IndexOfUnique(ids, i);
    }
  }

  lemma AtPos(ids: seq<int>, n: int)
    requires Header !in ids && (n == Header || n in ids)
    ensures At(ids, Pos(ids, n)) == n
  {
  }

  /** The nodes of a represented tree are distinct indices of real nodes, never the header. */
  lemma TreeIds(a: seq<Link>, t: Tree)
    requires TreeRepr(a, t)
    ensures Unique(Ids(t)) && Header !in Ids(t)
    ensures forall i :: i in Ids(t) <==> i in IdSet(t)
    ensures forall i :: i in Ids(t) ==> 0 < i < |a|
  {
    ReprIds(a, t, Header);
    IdsIdSet(t);
    DistinctIds(t);
  }

  /** The path from the root to node x. */
  ghost function PathTo(t: Tree, x: int): (p: seq<Dir>)
    requires x in IdSet(t)
    ensures IsPath(t, p) && Sub(t, p).Node? && Sub(t, p).id == x
  {
    if t.id == x then []
    else
      var d := if x in IdSet(t.left) then Left else Right;
      var q := PathTo(Child(t, d), x);
      assert ([d] + q)[1..] == q;
      [d] + q
  }

  /** One step down from the node at p toward its child d, and the nodes before and after it. */
  lemma DescendStep(t: Tree, p: seq<Dir>, d: Dir)
    requires IsPath(t, p) && Sub(t, p).Node?
    ensures var s := Sub(t, p);
            IsPath(t, p + [d]) && Sub(t, p + [d]) == Child(s, d) &&
            Before(t, p + [d]) == Before(t, p) + (if d == Left then [] else Ids(s.left) + [s.id]) &&
            After(t, p + [d]) == (if d == Left then [s.id] + Ids(s.right) else []) + After(t, p)
  {
    var s := Sub(t, p);
    PathConcat(t, p, [d]);
    assert [d][1..] == [];
    assert IsPath(s, [d]) && Sub(s, [d]) == Child(s, d);
    ClimbStep(t, p + [d]);
    assert (p + [d])[..|p + [d]| - 1] == p;
  }

  /** The in-order nodes around the node at p. */
  lemma IdsAround(t: Tree, p: seq<Dir>)
    requires Sub(t, p).Node?
    ensures var s := Sub(t, p); Ids(t) == Before(t, p) + Ids(s.left) + [s.id] + Ids(s.right) + After(t, p)
  {
    IdsSplit(t, p);
  }

  lemma {:induction false} ReprExtend(a: seq<Link>, t: Tree, p: int, k: Link)
    requires Repr(a, t, p)
    ensures Repr(a + [k], t, p)
  {
    if t.Node? {
      ReprExtend(a, t.left, t.id, k);
      ReprExtend(a, t.right, t.id, k);
    }
  }

  /** A new index hung at an empty place keeps the indices distinct. */
  lemma {:induction false} DistinctLeaf(t: Tree, p: seq<Dir>, z: int)
    requires Distinct(t) && IsPath(t, p) && Sub(t, p).Nil? && z !in IdSet(t)
    ensures Distinct(Replace(t, p, Node(false, Nil, z, Nil)))
    ensures IdSet(Replace(t, p, Node(false, Nil, z, Nil))) == IdSet(t) + {z}
  {
    if p != [] {
      DistinctLeaf(Child(t, p[0]), p[1..], z);
    }
  }

  /**
   * The links after `insert_node_at` has appended the node z (parent y, no children) and
   * hooked it under y on the side the path names (as the root when the tree is empty)
   * represent the tree with the red leaf z at that place.
   */
  lemma LinkLeaf(a: seq<Link>, t: Tree, ps: seq<Dir>, a2: seq<Link>)
    requires TreeRepr(a, t) && IsPath(t, ps) && Sub(t, ps).Nil?
    requires 0 <= Up(t, ps) < |a| && |a2| == |a| + 1
    requires a2[|a|] == Link(false, Up(t, ps), Null, Null)
    requires a2[Up(t, ps)] == Hook(a[Up(t, ps)], ps, |a|)
    requires forall i :: 0 <= i < |a| && i != Up(t, ps) ==> a2[i] == a[i]
    ensures TreeRepr(a2, Replace(t, ps, Node(false, Nil, |a|, Nil)))
  {
    var z, y := |a|, Up(t, ps);
    var a1 := a + [Link(false, y, Null, Null)];
    ReprExtend(a, t, Header, Link(false, y, Null, Null));
    ReprIds(a, t, Header);
    DistinctLeaf(t, ps, z);
    var leaf := Node(false, Nil, z, Nil);
    assert a2 == a1[y := Hook(a1[y], ps, z)];
    TreeReplace(a1, a2, t, ps, leaf);
  }

  /**
   * A node z put between b and c, where c starts with y: it becomes the first node exactly when
   * y was the first one, and the last node stays.
   */
  lemma PutBeforeNode(b: seq<int>, c: seq<int>, y: int, z: int, hl: int, hr: int)
    requires Unique(b + c) && c != [] && c[0] == y
    requires hl == (if (b + c)[0] == y then z else (b + c)[0]) && hr == (b + c)[|b + c| - 1]
    ensures hl == (b + [z] + c)[0] && hr == (b + [z] + c)[|b + [z] + c| - 1]
  {
    if b != [] {
      assert (b + c)[0] == b[0] && (b + c)[|b|] == y;
    }
  }

  /** A node z put between b and c, where b ends with y: it becomes the last node exactly when y was. */
  lemma PutAfterNode(b: seq<int>, c: seq<int>, y: int, z: int, hl: int, hr: int)
    requires Unique(b + c) && b != [] && b[|b| - 1] == y
    requires hl == (b + c)[0] && hr == (if (b + c)[|b + c| - 1] == y then z else (b + c)[|b + c| - 1])
    ensures hl == (b + [z] + c)[0] && hr == (b + [z] + c)[|b + [z] + c| - 1]
  {
    if c != [] {
      assert (b + c)[|b + c| - 1] == c[|c| - 1] && (b + c)[|b| - 1] == y;
    }
  }

  /**
   * The leftmost and rightmost pointers after `insert_node_at`: the new node becomes leftmost
   * when hooked to the left of the old leftmost node, rightmost when hooked to the right of the
   * old rightmost node, and both in an empty tree.
   */
  lemma LeafExtremes(a: seq<Link>, t: Tree, ps: seq<Dir>, z: int, h: Link)
    requires TreeRepr(a, t) && Extremes(a, t) && IsPath(t, ps) && Sub(t, ps).Nil?
    requires h.left == (if ps == [] || (ps[|ps| - 1] == Left && a[Header].left == Up(t, ps)) then z else a[Header].left)
    requires h.right == (if ps == [] || (ps[|ps| - 1] == Right && a[Header].right == Up(t, ps)) then z else a[Header].right)
    ensures var u := Replace(t, ps, Node(false, Nil, z, Nil));
            Ids(u) == Before(t, ps) + [z] + After(t, ps) &&
            h.left == Ids(u)[0] && h.right == Ids(u)[|Ids(u)| - 1]
  {
    LeafIds(t, ps, z);
    if ps != [] {
      TreeIds(a, t);
      ClimbStep(t, ps);
      var b, c := Before(t, ps), After(t, ps);
      assert Ids(t) == b + c && t.Node?;
      assert a[Header].left == (b + c)[0] && a[Header].right == (b + c)[|b + c| - 1];
      if ps[|ps| - 1] == Left {
        PutBeforeNode(b, c, Up(t, ps), z, h.left, h.right);
      } else {
        PutAfterNode(b, c, Up(t, ps), z, h.left, h.right);
      }
    }
  }

  /** The in-order nodes with a leaf z hung at the empty place ps. */
  lemma LeafIds(t: Tree, ps: seq<Dir>, z: int)
    requires IsPath(t, ps) && Sub(t, ps).Nil?
    ensures Ids(Replace(t, ps, Node(false, Nil, z, Nil))) == Before(t, ps) + [z] + After(t, ps)
    ensures Ids(t) == Before(t, ps) + After(t, ps)
    ensures ps == [] ==> t.Nil? && Before(t, ps) == [] && After(t, ps) == []
    ensures ps != [] ==> t.Node?
  {
    IdsReplace(t, ps, Node(false, Nil, z, Nil));
    assert Ids(Node(false, Nil, z, Nil)) == [z];
    IdsSplit(t, ps);
  }

  /**
   * The neighbours of an empty place below the node y: a left place comes just before y in
   * order, a right place just after it.
   */
  lemma SlotNeighbours(a: seq<Link>, t: Tree, ps: seq<Dir>)
    requires TreeRepr(a, t) && IsPath(t, ps) && Sub(t, ps).Nil? && ps != []
    ensures var b, c, y := Before(t, ps), After(t, ps), Up(t, ps);
            Ids(t) == b + c && 0 < y < |a| && y in IdSet(t) &&
            (ps[|ps| - 1] == Left ==> c != [] && c[0] == y && Ids(t)[|b|] == y) &&
            (ps[|ps| - 1] == Right ==> b != [] && b[|b| - 1] == y && Ids(t)[|b| - 1] == y)
  {
    LeafIds(t, ps, 0);
    ClimbStep(t, ps);
    UpNode(a, t, ps);
    UpOutside(t, ps);
  }

  /** Removing the element at i shifts the later positions down by one. */
  lemma AtCut(s: seq<int>, i: nat, j: nat)
    requires i < |s| && i <= j
    ensures At(s[..i] + s[i + 1..], j) == At(s, j + 1)
  {
  }

  /** Taking out one more element at position p after k elements were already taken out there. */
  lemma CutMore<T>(s: seq<T>, p: nat, k: nat)
    requires p + k < |s|
    ensures var w := s[..p] + s[p + k..]; w[..p] + w[p + 1..] == s[..p] + s[p + k + 1..]
  {
    var w := s[..p] + s[p + k..];
    assert w[..p] == s[..p];
    assert w[p + 1..] == s[p + k + 1..];
  }

  /**
   * One step of a bounding descent (`lower_bound`, `upper_bound`): the sought position lies in
   * the current subtree, and y is the node just after it. Going left when the position is not
   * after the node at p makes that node the new y; going right when it is after keeps y.
   */
  lemma DescendBound(t: Tree, p: seq<Dir>, y: int, d: Dir, bound: nat)
    requires IsPath(t, p) && Sub(t, p).Node?
    requires |Before(t, p)| <= bound <= |Before(t, p)| + |Ids(Sub(t, p))|
    requires y == At(Ids(t), |Before(t, p)| + |Ids(Sub(t, p))|)
    requires var m := |Before(t, p)| + |Ids(Sub(t, p).left)|; if d == Left then bound <= m else m < bound
    ensures var s := Sub(t, p); var y' := if d == Left then s.id else y;
            IsPath(t, p + [d]) && Sub(t, p + [d]) == Child(s, d) && |Ids(Child(s, d))| < |Ids(s)| &&
            |Before(t, p + [d])| <= bound <= |Before(t, p + [d])| + |Ids(Sub(t, p + [d]))| &&
            y' == At(Ids(t), |Before(t, p + [d])| + |Ids(Sub(t, p + [d]))|)
  {
    var s := Sub(t, p);
    DescendStep(t, p, d);
    IdsAround(t, p);
    assert |Ids(s)| == |Ids(s.left)| + 1 + |Ids(s.right)|;
    if d == Left {
      var m := |Before(t, p)| + |Ids(s.left)|;
      assert Ids(t)[m] == s.id;
    }
  }

  /** The node at p of a represented tree: its position in order and its child links. */
  lemma NodeOnPath(a: seq<Link>, t: Tree, p: seq<Dir>)
    requires TreeRepr(a, t) && IsPath(t, p) && Sub(t, p).Node?
    ensures var s := Sub(t, p); var m := |Before(t, p)| + |Ids(s.left)|;
            m < |Ids(t)| && Ids(t)[m] == s.id && 0 < s.id < |a| &&
            a[s.id].left == Ptr(s.left) && a[s.id].right == Ptr(s.right) &&
            (s.left.Nil? <==> a[s.id].left == Null) && (s.right.Nil? <==> a[s.id].right == Null)
  {
    IdsAround(t, p);
    NodeLinks(a, t, p);
    ChildrenNotUp(a, t, p);
  }

  /**
   * One step of the lookup descent from node x at p, to its left child (remembering x as y) when
   * left holds and to its right child otherwise: the position bound stays inside the subtree
   * reached, y stays the iterator just after that subtree, and the subtree shrinks.
   */
  lemma DescendLink(a: seq<Link>, t: Tree, p: seq<Dir>, x: int, y: int, bound: nat, left: bool)
    requires TreeRepr(a, t) && IsPath(t, p) && x == Ptr(Sub(t, p)) && Sub(t, p).Node?
    requires |Before(t, p)| <= bound <= |Before(t, p)| + |Ids(Sub(t, p))|
    requires y == At(Ids(t), |Before(t, p)| + |Ids(Sub(t, p))|)
    requires left <==> bound <= |Before(t, p)| + |Ids(Sub(t, p).left)|
    ensures 0 < x < |a|
    ensures var p', x', y' := p + [if left then Left else Right], if left then a[x].left else a[x].right, if left then x else y;
            IsPath(t, p') && x' == Ptr(Sub(t, p')) && (x' == Null <==> Sub(t, p').Nil?) &&
            |Before(t, p')| <= bound <= |Before(t, p')| + |Ids(Sub(t, p'))| &&
            y' == At(Ids(t), |Before(t, p')| + |Ids(Sub(t, p'))|) &&
            |Ids(Sub(t, p'))| < |Ids(Sub(t, p))|
  {
    NodeOnPath(a, t, p);
    DescendBound(t, p, y, if left then Left else Right, bound);
  }

  /** The iterator after the node at position i is the one at position i + 1. */
  lemma NextIsAt(ids: seq<int>, i: nat)
    requires Unique(ids) && i < |ids|
    ensures Next(ids, ids[i]) == At(ids, i + 1)
  {
    IndexOfUnique(ids, i);
  }

  /** The members of a sequence after z is put at position u. */
  lemma MembersInsert(s: seq<int>, u: nat, z: int)
    requires u <= |s|
    ensures forall x :: x in s[..u] + [z] + s[u..] <==> x in s || x == z
  {
    assert s == s[..u] + s[u..];
  }

  /** In a sequence without repetitions, the element at i occurs neither before nor after i. */
  lemma NotInCut(s: seq<int>, i: nat)
    requires Unique(s) && i < |s|
    ensures s[i] !in s[..i] && s[i] !in s[i + 1..]
  {
  }

  /** The members of a sequence without repetitions after the element at i is taken out. */
  lemma MembersCut(s: seq<int>, i: nat)
    requires Unique(s) && i < |s|
    ensures forall x :: x in s[..i] + s[i + 1..] <==> x in s && x != s[i]
  {
    assert s == s[..i] + [s[i]] + s[i + 1..];
    var w := s[..i] + s[i + 1..];
    forall j | 0 <= j < |w|
      ensures w[j] != s[i]
    {
      if j < i {
        assert w[j] == s[j];
      } else {
        assert w[j] == s[j + 1];
      }
    }
  }
}
