/**
 * Stepping an iterator through a red-black tree (`rb_tree_base_iterator::increment` and
 * `decrement`) on the node arena, specified against the in-order sequence of nodes. The header
 * stands for the past-the-end position.
 */
module RbIter {
  import opened RbShape
  import opened RbNodes
  import opened RbUnlink

  /** The position of x in s. */
  function IndexOf(s: seq<int>, x: int): (i: nat)
    requires x in s
    ensures i < |s| && s[i] == x && x !in s[..i]
  {
    if s[0] == x then 0
    else
      var j := IndexOf(s[1..], x);
      assert s[..j + 1] == [s[0]] + s[1..][..j];
      j + 1
  }

  /** The node after n in ids, or the header when n is last. */
  function Next(ids: seq<int>, n: int): int
    requires n in ids
  {
    var i := IndexOf(ids, n);
    if i + 1 < |ids| then ids[i + 1] else Header
  }

  /** The node before n in ids; before the header, the last node. */
  function Prev(ids: seq<int>, n: int): int
    requires if n == Header then ids != [] else n in ids && IndexOf(ids, n) > 0
  {
    if n == Header then ids[|ids| - 1] else ids[IndexOf(ids, n) - 1]
  }

  /** No element of s occurs twice. */
  ghost predicate Unique(s: seq<int>)
  {
    forall i, j :: 0 <= i < j < |s| ==> s[i] != s[j]
  }

  lemma IndexOfUnique(s: seq<int>, i: int)
    requires Unique(s) && 0 <= i < |s|
    ensures IndexOf(s, s[i]) == i
  {
  }

  lemma {:induction false} IndexOfSplit(u: seq<int>, x: int, v: seq<int>)
    requires x !in u
    ensures IndexOf(u + [x] + v, x) == |u|
  {
    var w := u + [x] + v;
    var k := IndexOf(w, x);
    assert w[|u|] == x;
  }

  /** Stepping back from the step forward returns to n, and the other way round. */
  lemma NextPrev(ids: seq<int>, n: int)
    requires Unique(ids) && n in ids && Header !in ids
    ensures var m := Next(ids, n);
            (if m == Header then ids != [] else m in ids && IndexOf(ids, m) > 0) && Prev(ids, m) == n
  {
    var i := IndexOf(ids, n);
    if i + 1 < |ids| {
      IndexOfUnique(ids, i + 1);
    }
  }

  lemma PrevNext(ids: seq<int>, n: int)
    requires Unique(ids) && Header !in ids
    requires if n == Header then ids != [] else n in ids && IndexOf(ids, n) > 0
    ensures Next(ids, Prev(ids, n)) == n
  {
    if n == Header {
      IndexOfUnique(ids, |ids| - 1);
    } else {
      IndexOfUnique(ids, IndexOf(ids, n) - 1);
    }
  }

  /** The in-order sequence around a descent: what follows p + q is what follows q in the subtree at p, then what follows p. */
  lemma {:induction false} AroundConcat(t: Tree, p: seq<Dir>, q: seq<Dir>)
    ensures After(t, p + q) == After(Sub(t, p), q) + After(t, p)
    ensures Before(t, p + q) == Before(t, p) + Before(Sub(t, p), q)
  {
    if p == [] {
      assert p + q == q;
    } else if t.Nil? {
      if q != [] {
        assert Sub(t, p) == Nil;
      }
    } else {
      assert (p + q)[0] == p[0] && (p + q)[1..] == p[1..] + q;
      AroundConcat(Child(t, p[0]), p[1..], q);
    }
  }

  /**
   * One step up from p to its parent p': after a left step the parent follows the subtree,
   * then the parent's right subtree; after a right step the parent and its left subtree precede it.
   */
  lemma ClimbStep(t: Tree, p: seq<Dir>)
    requires IsPath(t, p) && p != []
    ensures var p', d := p[..|p| - 1], p[|p| - 1];
            var u := Sub(t, p');
            p == p' + [d] && IsPath(t, p') && u.Node? && u.id == Up(t, p) &&
            After(t, p) == (if d == Left then [u.id] + Ids(u.right) else []) + After(t, p') &&
            Before(t, p) == Before(t, p') + (if d == Right then Ids(u.left) + [u.id] else [])
  {
    var p', d := p[..|p| - 1], p[|p| - 1];
    assert p == p' + [d];
    PathConcat(t, p', [d]);
    UpLast(t, p', d);
    AroundConcat(t, p', [d]);
    var u := Sub(t, p');
    assert [d][1..] == [];
    assert After(u, [d]) == (if d == Left then [u.id] + Ids(u.right) else []);
    assert Before(u, [d]) == (if d == Right then Ids(u.left) + [u.id] else []);
  }

  /** The node after the one at p: the first of its right subtree, else the first node after its subtree. */
  lemma NextAt(t: Tree, p: seq<Dir>)
    requires Distinct(t) && IsPath(t, p) && Sub(t, p).Node?
    ensures var s := Sub(t, p); var a := After(t, p);
            s.id in Ids(t) &&
            Next(Ids(t), s.id) == (if s.right.Node? then Ids(s.right)[0] else if a == [] then Header else a[0])
  {
    var s := Sub(t, p);
    var b, l, r, a := Before(t, p), Ids(s.left), Ids(s.right), After(t, p);
    NodePosition(t, p);
    IndexOfSplit(b + l, s.id, r + a);
    if s.right.Node? {
      MinMaxIds(s.right);
    }
  }

  /** The node before the one at p, when it is not first: the last of its left subtree, else the last node before its subtree. */
  lemma PrevAt(t: Tree, p: seq<Dir>)
    requires Distinct(t) && IsPath(t, p) && Sub(t, p).Node? && Sub(t, p).id != Header
    requires Ids(t)[0] != Sub(t, p).id
    ensures var s := Sub(t, p); var b := Before(t, p);
            s.id in Ids(t) && IndexOf(Ids(t), s.id) > 0 && (s.left.Nil? ==> b != []) &&
            Prev(Ids(t), s.id) == (if s.left.Node? then Ids(s.left)[|Ids(s.left)| - 1] else b[|b| - 1])
  {
    var s := Sub(t, p);
    var b, l, r, a := Before(t, p), Ids(s.left), Ids(s.right), After(t, p);
    NodePosition(t, p);
    IndexOfSplit(b + l, s.id, r + a);
    if s.left.Node? {
      MinMaxIds(s.left);
    }
  }

  /** The links of the node at p never point at the header, and its right link is not its parent. */
  lemma ChildrenNotUp(a: seq<Link>, t: Tree, p: seq<Dir>)
    requires TreeRepr(a, t) && IsPath(t, p) && Sub(t, p).Node?
    ensures var n := Sub(t, p).id;
            0 < n < |a| && a[n].right != Header && a[n].right != a[n].parent && a[n].left != Header &&
            (a[n].left == Null <==> Sub(t, p).left.Nil?) && (a[n].right == Null <==> Sub(t, p).right.Nil?)
  {
    var s := Sub(t, p);
    NodeLinks(a, t, p);
    ReprIds(a, t, Header);
    UpOutside(t, p);
    if s.right.Node? {
      assert s.right.id in IdSet(s);
    }
    if s.left.Node? {
      assert s.left.id in IdSet(s);
    }
  }

  /** A node's grandparent link is never the node itself, except the root's (through the header). */
  lemma GrandNotSelf(a: seq<Link>, t: Tree, p: seq<Dir>)
    requires TreeRepr(a, t) && IsPath(t, p) && Sub(t, p).Node? && p != []
    ensures var n := Sub(t, p).id;
            0 < n < |a| && 0 <= a[n].parent < |a| && a[a[n].parent].parent != n
  {
    NodeLinks(a, t, p);
    ClimbStep(t, p);
    var p' := p[..|p| - 1];
    NodeLinks(a, t, p');
    UpOutside(t, p');
    DistinctSub(t, p');
    ReprIds(a, t, Header);
    PathConcat(t, p', [p[|p| - 1]]);
    assert Sub(t, p).id in IdSet(Sub(t, p'));
  }

  /** The parent of a node below the root is a node, not the header. */
  lemma UpNode(a: seq<Link>, t: Tree, p: seq<Dir>)
    requires TreeRepr(a, t) && IsPath(t, p)
    ensures p != [] ==> 0 < Up(t, p) < |a|
  {
    if p != [] {
      UpOutside(t, p);
      ReprIds(a, t, Header);
    }
  }

  /**
   * `increment()` from the node n at pn: the next node in order, or the header after the last
   * one. With a right child it descends to that subtree's leftmost node; otherwise it climbs
   * while the node is its parent's right child. When the root is the last node the climb passes
   * through the header (whose right link is the root) and stops at the root; the final test
   * `node->right != y` then leaves the header as the result.
   */
  method Increment(arena: Arena, n: int, ghost pn: seq<Dir>) returns (r: int)
    requires arena.Valid() && Extremes(arena.links, arena.tree)
    requires IsPath(arena.tree, pn) && Sub(arena.tree, pn).Node? && n == Sub(arena.tree, pn).id
    ensures n in Ids(arena.tree) && r == Next(Ids(arena.tree), n)
  {
    ghost var t := arena.tree;
    NodeLinks(arena.links, t, pn);
    ChildrenNotUp(arena.links, t, pn);
    NextAt(t, pn);
    var node := n;
    if arena.links[node].right != Null {
      PathConcat(t, pn, [Right]);
      assert Sub(Sub(t, pn), [Right]) == Sub(t, pn).right;
      node := arena.Minimum(arena.links[node].right, pn + [Right]);
    } else {
      var y := arena.links[node].parent;
      ghost var p := pn;
      ghost var atHeader := false;
      while node == arena.links[y].right
        invariant 0 <= y < |arena.links| && 0 <= node < |arena.links|
        invariant !atHeader ==> IsPath(t, p) && Sub(t, p).Node? && node == Sub(t, p).id && y == Up(t, p) &&
                                After(t, p) == After(t, pn)
        invariant atHeader ==> p == [] && node == Header && t.Node? && y == t.id && arena.links[Header].right == y &&
                               After(t, pn) == [] && arena.links[y].right != Header
        decreases |p| + (if atHeader then 0 else 1)
      {
        if atHeader {
          assert false;
        }
        NodeLinks(arena.links, t, p);
        UpNode(arena.links, t, p);
        if y == Header {
          // the root is the last node: the climb passes through the header
          ChildrenNotUp(arena.links, t, []);
          atHeader := true;
        } else {
          ClimbStep(t, p);
          p := p[..|p| - 1];
          NodeLinks(arena.links, t, p);
        }
        node := y;
        y := arena.links[y].parent;
      }
      if !atHeader {
        NodeLinks(arena.links, t, p);
        ChildrenNotUp(arena.links, t, p);
        if p != [] {
          ClimbStep(t, p);
        }
      }
      if arena.links[node].right != y {
        node := y;
      }
      assert atHeader ==> node == Header;
      assert !atHeader && p == [] ==> node == Header;
      assert !atHeader && p != [] ==> node == After(t, p)[0];
    }
    assert node == Next(Ids(t), n);
    r := node;
  }

  /**
   * `decrement()` from the node n at pn, or from the header when n is the header: the previous
   * node in order, and from the header (recognised as the red node whose grandparent link is
   * itself) the last node. With a left child it descends to that subtree's rightmost node;
   * otherwise it climbs while the node is its parent's left child, and takes the parent.
   */
  method Decrement(arena: Arena, n: int, ghost pn: seq<Dir>) returns (r: int)
    requires arena.Valid() && Extremes(arena.links, arena.tree) && !IsRed(arena.tree)
    requires !arena.links[Header].black
    requires n == Header ==> arena.tree.Node?
    requires n != Header ==> IsPath(arena.tree, pn) && Sub(arena.tree, pn).Node? && n == Sub(arena.tree, pn).id &&
                             Ids(arena.tree)[0] != n
    ensures if n == Header then Ids(arena.tree) != [] else n in Ids(arena.tree) && IndexOf(Ids(arena.tree), n) > 0
    ensures r == Prev(Ids(arena.tree), n)
  {
    ghost var t := arena.tree;
    var node := n;
    if n == Header {
      NodeLinks(arena.links, t, []);
      MinMaxIds(t);
    } else {
      NodeLinks(arena.links, t, pn);
      ChildrenNotUp(arena.links, t, pn);
      PrevAt(t, pn);
      if pn != [] {
        GrandNotSelf(arena.links, t, pn);
      }
    }
    assert n == Header ==> arena.links[arena.links[node].parent].parent == node;
    assert n != Header && arena.links[node].left == Null ==> pn != [] && Before(t, pn) != [];
    if !arena.links[node].black && arena.links[arena.links[node].parent].parent == node {
      // the header: step back to the rightmost node
      node := arena.links[node].right;
    } else if arena.links[node].left != Null {
      PathConcat(t, pn, [Left]);
      assert Sub(Sub(t, pn), [Left]) == Sub(t, pn).left;
      node := arena.Maximum(arena.links[node].left, pn + [Left]);
    } else {
      var y := arena.links[node].parent;
      ghost var p := pn;
      while node == arena.links[y].left
        invariant IsPath(t, p) && p != [] && Sub(t, p).Node? && node == Sub(t, p).id && y == Up(t, p)
        invariant Before(t, p) == Before(t, pn) && Before(t, p) != [] && 0 <= y < |arena.links|
        decreases |p|
      {
        NodeLinks(arena.links, t, p);
        ClimbStep(t, p);
        p := p[..|p| - 1];
        NodeLinks(arena.links, t, p);
        node := y;
        y := arena.links[y].parent;
      }
      NodeLinks(arena.links, t, p);
      ClimbStep(t, p);
      node := y;
    }
    r := node;
  }
}
