/**
 * The node links of a red-black tree (`rb_tree_node_base`: colour, parent, left, right) kept in
 * an arena indexed by int, with index 0 the header and -1 the null pointer, and the free
 * functions over them: `minimum`, `maximum`, the rotations, and recolouring.
 */
module RbNodes {
  import opened RbShape

  datatype Link = Link(black: bool, parent: int, left: int, right: int)

  function ChildLink(k: Link, d: Dir): int
  {
    if d == Left then k.left else k.right
  }

  /** k with its pointer toward the subtree at the end of path p set to c: the root link for p = []. */
  function Hook(k: Link, p: seq<Dir>, c: int): Link
  {
    if p == [] then k.(parent := c) else if p[|p| - 1] == Left then k.(left := c) else k.(right := c)
  }

  /** The links of t's nodes represent t, and t's root has parent p. */
  ghost predicate Repr(a: seq<Link>, t: Tree, p: int)
  {
    match t
    case Nil => true
    case Node(b, l, id, r) =>
      0 < id < |a| && a[id].parent == p && a[id].black == b &&
      a[id].left == Ptr(l) && a[id].right == Ptr(r) && Repr(a, l, id) && Repr(a, r, id)
  }

  /** The arena represents t below the header. */
  ghost predicate TreeRepr(a: seq<Link>, t: Tree)
  {
    |a| > 0 && a[Header].parent == Ptr(t) && Repr(a, t, Header) && Distinct(t)
  }

  lemma {:induction false} ReprIds(a: seq<Link>, t: Tree, p: int)
    requires Repr(a, t, p)
    ensures forall i :: i in IdSet(t) ==> 0 < i < |a|
  {
    if t.Node? {
      ReprIds(a, t.left, t.id);
      ReprIds(a, t.right, t.id);
    }
  }

  /**
   * Links that agree on every node of t, except that t's root may have a new parent, still
   * represent t under that parent.
   */
  lemma {:induction false} ReprMove(a: seq<Link>, a': seq<Link>, t: Tree, p: int, p': int)
    requires Repr(a, t, p) && Distinct(t) && |a'| == |a|
    requires forall i :: 0 <= i < |a| && i in IdSet(t) && i != Ptr(t) ==> a'[i] == a[i]
    requires t.Node? ==> a'[t.id] == a[t.id].(parent := p')
    ensures Repr(a', t, p')
  {
    if t.Node? {
      ReprIds(a, t.left, t.id);
      ReprIds(a, t.right, t.id);
      ReprFrame(a, a', t.left, t.id);
      ReprFrame(a, a', t.right, t.id);
    }
  }

  lemma {:induction false} ReprFrame(a: seq<Link>, a': seq<Link>, t: Tree, p: int)
    requires Repr(a, t, p) && |a'| == |a|
    requires forall i :: 0 <= i < |a| && i in IdSet(t) ==> a'[i] == a[i]
    ensures Repr(a', t, p)
  {
    if t.Node? {
      ReprIds(a, t.left, t.id);
      ReprIds(a, t.right, t.id);
      ReprFrame(a, a', t.left, t.id);
      ReprFrame(a, a', t.right, t.id);
    }
  }

  /** The subtree at p is represented below its parent's link. */
  lemma {:induction false} ReprAt(a: seq<Link>, t: Tree, h: int, p: seq<Dir>)
    requires Repr(a, t, h) && IsPath(t, p)
    ensures Repr(a, Sub(t, p), if p == [] then h else Up(t, p))
  {
    if p != [] {
            ReprAt(a, Child(t, p[0]), t.id, p[1..]);
    }
  }

  /**
   * The links of the node at p: its parent, colour and children as the tree has them, and at
   * its parent, the pointer toward p is p's node and the other one is not.
   */
  lemma NodeLinks(a: seq<Link>, t: Tree, p: seq<Dir>)
    requires TreeRepr(a, t) && IsPath(t, p) && Sub(t, p).Node?
    ensures var s, n := Sub(t, p), Sub(t, p).id;
            0 < n < |a| && a[n].parent == Up(t, p) && a[n].black == s.black &&
            a[n].left == Ptr(s.left) && a[n].right == Ptr(s.right) &&
            0 <= Up(t, p) < |a| && (p == [] ==> a[Header].parent == n) &&
            (p != [] ==> ChildLink(a[Up(t, p)], p[|p| - 1]) == n && ChildLink(a[Up(t, p)], Other(p[|p| - 1])) != n) &&
            (p != [] ==> a[Header].parent != n)
  {
    ReprIds(a, t, Header);
    ReprAt(a, t, Header, p);
    if p != [] {
      var ip := p[..|p| - 1];
      assert p == ip + [p[|p| - 1]];
      PathConcat(t, ip, [p[|p| - 1]]);
      UpConcat(t, ip, [p[|p| - 1]]);
      ReprAt(a, t, Header, ip);
      var u := Sub(t, ip);
      UpOutside(t, p);
      assert Up(t, p) == u.id;
      assert IdSet(u) <= IdSet(t) by { UpOutside(t, ip); }
      DistinctSub(t, ip);
      ReprIds(a, u, if ip == [] then Header else Up(t, ip));
      assert Child(u, Other(p[|p| - 1])) != Sub(t, p) ==> ChildLink(a[u.id], Other(p[|p| - 1])) != Sub(t, p).id by {
        var o := Child(u, Other(p[|p| - 1]));
        ReprIds(a, o, u.id);
        assert o.Node? ==> o.id in IdSet(o);
      }
      assert Sub(t, p).id in IdSet(Sub(t, p));
    }
  }

  lemma {:induction false} DistinctSub(t: Tree, p: seq<Dir>)
    requires Distinct(t) && IsPath(t, p)
    ensures Distinct(Sub(t, p))
  {
    if p != [] {
      DistinctSub(Child(t, p[0]), p[1..]);
    }
  }

  /**
   * Replacing the subtree at p (p non-empty) by s: links that represent s under p's parent,
   * with that parent's pointer now at s and every node outside the old subtree unchanged,
   * represent the tree with s in place.
   */
  lemma {:induction false} ReprReplace(a: seq<Link>, a': seq<Link>, t: Tree, h: int, p: seq<Dir>, s: Tree)
    requires Repr(a, t, h) && Distinct(t) && IsPath(t, p) && p != [] && |a'| == |a|
    requires Repr(a', s, Up(t, p))
    requires forall i :: 0 <= i < |a| && i in IdSet(t) && i !in IdSet(Sub(t, p)) && i != Up(t, p) ==> a'[i] == a[i]
    requires 0 <= Up(t, p) < |a| && a'[Up(t, p)] == Hook(a[Up(t, p)], p, Ptr(s))
    ensures Repr(a', Replace(t, p, s), h)
  {
    var c := Child(t, p[0]);
    var o := Child(t, Other(p[0]));
    ReprIds(a, c, t.id);
    ReprIds(a, o, t.id);
    UpOutside(t, p);
    assert IdSet(o) !! IdSet(c);
    if p[1..] == [] {
      assert Up(t, p) == t.id && Sub(t, p) == c;
      ReprFrame(a, a', o, t.id);
    } else {
      UpOutside(c, p[1..]);
      assert t.id !in IdSet(c);
      assert a'[t.id] == a[t.id];
      assert Hook(a[Up(t, p)], p, Ptr(s)) == Hook(a[Up(c, p[1..])], p[1..], Ptr(s));
      ReprReplace(a, a', c, t.id, p[1..], s);
      ReprFrame(a, a', o, t.id);
    }
  }

  /** The same at the top: the new subtree hangs from the header, or from its parent node. */
  lemma TreeReplace(a: seq<Link>, a': seq<Link>, t: Tree, p: seq<Dir>, s: Tree)
    requires TreeRepr(a, t) && IsPath(t, p) && |a'| == |a|
    requires Repr(a', s, Up(t, p)) && Distinct(Replace(t, p, s))
    requires forall i :: 0 <= i < |a| && i !in IdSet(Sub(t, p)) && i != Up(t, p) ==> a'[i] == a[i]
    requires 0 <= Up(t, p) < |a| && a'[Up(t, p)] == Hook(a[Up(t, p)], p, Ptr(s))
    ensures TreeRepr(a', Replace(t, p, s))
  {
    ReprIds(a, t, Header);
    if p != [] {
      UpOutside(t, p);
      ReprReplace(a, a', t, Header, p, s);
      RootReplace(t, p, s);
    }
  }

  /** The leftmost node of t. */
  function MinId(t: Tree): int
    requires t.Node?
  {
    if t.left.Nil? then t.id else MinId(t.left)
  }

  /** The rightmost node of t. */
  function MaxId(t: Tree): int
    requires t.Node?
  {
    if t.right.Nil? then t.id else MaxId(t.right)
  }

  /** The leftmost node is first in order, the rightmost last. */
  lemma {:induction false} MinMaxIds(t: Tree)
    requires t.Node?
    ensures |Ids(t)| > 0 && Ids(t)[0] == MinId(t) && Ids(t)[|Ids(t)| - 1] == MaxId(t)
  {
    if t.left.Node? {
      MinMaxIds(t.left);
    }
    if t.right.Node? {
      MinMaxIds(t.right);
    }
  }

  /** The arena of node links; `tree` is the tree they represent below the header. */
  class Arena {
    var links: seq<Link>
    ghost var tree: Tree

    ghost predicate Valid()
      reads this
    {
      TreeRepr(links, tree)
    }

    /** An arena whose links l hold the empty tree: only the header is allocated. */
    constructor (l: seq<Link>)
      requires TreeRepr(l, Nil)
      ensures Valid() && links == l && tree == Nil
    {
      links := l;
      tree := Nil;
    }

    /** The header keeps its colour and its leftmost and rightmost pointers. */
    ghost predicate HeaderKept(h: Link)
      reads this
    {
      |links| > 0 && links[Header].black == h.black && links[Header].left == h.left && links[Header].right == h.right
    }

    /** `rb_tree_node_base::minimum(x)`: from the node at p, left while there is a left child. */
    method Minimum(x: int, ghost p: seq<Dir>) returns (r: int)
      requires Valid() && IsPath(tree, p) && Sub(tree, p).Node? && x == Sub(tree, p).id
      ensures r == MinId(Sub(tree, p)) && r == Ids(Sub(tree, p))[0]
    {
      ghost var s := Sub(tree, p);
      ghost var up := Up(tree, p);
      ReprIds(links, tree, Header);
      ReprAt(links, tree, Header, p);
      MinMaxIds(s);
      ghost var t := s;
      r := x;
      while links[r].left != Null
        invariant t.Node? && r == t.id && Repr(links, t, up) && MinId(t) == MinId(s)
        decreases t
      {
        up := r;
        t := t.left;
        r := links[r].left;
      }
    }

    /** `rb_tree_node_base::maximum(x)`: from the node at p, right while there is a right child. */
    method Maximum(x: int, ghost p: seq<Dir>) returns (r: int)
      requires Valid() && IsPath(tree, p) && Sub(tree, p).Node? && x == Sub(tree, p).id
      ensures r == MaxId(Sub(tree, p)) && r == Ids(Sub(tree, p))[|Ids(Sub(tree, p))| - 1]
    {
      ghost var s := Sub(tree, p);
      ghost var up := Up(tree, p);
      ReprIds(links, tree, Header);
      ReprAt(links, tree, Header, p);
      MinMaxIds(s);
      ghost var t := s;
      r := x;
      while links[r].right != Null
        invariant t.Node? && r == t.id && Repr(links, t, up) && MaxId(t) == MaxId(s)
        decreases t
      {
        up := r;
        t := t.right;
        r := links[r].right;
      }
    }

    /** Colouring the node at p black (b) or red: the tree with that node recoloured. */
    method SetColor(x: int, b: bool, ghost p: seq<Dir>)
      requires Valid() && IsPath(tree, p) && Sub(tree, p).Node? && x == Sub(tree, p).id
      modifies this
      ensures Valid() && tree == RecolorAt(old(tree), p, b) && HeaderKept(old(links[Header]))
      ensures links[Header].parent == old(links[Header].parent)
    {
      ghost var a := links;
      ghost var s := Sub(tree, p);
      NodeLinks(links, tree, p);
      links := links[x := links[x].(black := b)];
      RecolorRepr(a, links, tree, p, b);
      tree := RecolorAt(tree, p, b);
    }

    /**
     * `rb_tree_rotate_left(x, root)`: x's right child y takes x's place under x's parent (or as
     * the root), x becomes y's left child and y's left subtree becomes x's right subtree.
     */
    method RotateLeft(x: int, ghost p: seq<Dir>)
      requires Valid() && IsPath(tree, p) && Sub(tree, p).Node? && x == Sub(tree, p).id
      requires Sub(tree, p).right.Node?
      modifies this
      ensures Valid() && tree == RotLAt(old(tree), p) && HeaderKept(old(links[Header]))
    {
      ghost var a := links;
      RotateFacts(a, tree, p, Right);
      var l := links;
      var y := l[x].right;
      var b := l[y].left;
      l := l[x := l[x].(right := b)];
      if b != Null {
        l := l[b := l[b].(parent := x)];
      }
      var xp := l[x].parent;
      l := l[y := l[y].(parent := xp)];
      ghost var l3 := l;
      if x == l[Header].parent {
        l := l[Header := l[Header].(parent := y)];
      } else if x == l[xp].left {
        l := l[xp := l[xp].(left := y)];
      } else {
        l := l[xp := l[xp].(right := y)];
      }
      assert l == l3[xp := Hook(l3[xp], p, y)];
      l := l[y := l[y].(left := x)];
      l := l[x := l[x].(parent := y)];
      links := l;
      RotateRepr(a, links, tree, p, Right);
      tree := RotLAt(tree, p);
    }

    /**
     * `rb_tree_rotate_right(x, root)`: x's left child y takes x's place, x becomes y's right
     * child and y's right subtree becomes x's left subtree.
     */
    method RotateRight(x: int, ghost p: seq<Dir>)
      requires Valid() && IsPath(tree, p) && Sub(tree, p).Node? && x == Sub(tree, p).id
      requires Sub(tree, p).left.Node?
      modifies this
      ensures Valid() && tree == RotRAt(old(tree), p) && HeaderKept(old(links[Header]))
    {
      ghost var a := links;
      RotateFacts(a, tree, p, Left);
      var l := links;
      var y := l[x].left;
      var b := l[y].right;
      l := l[x := l[x].(left := b)];
      if b != Null {
        l := l[b := l[b].(parent := x)];
      }
      var xp := l[x].parent;
      l := l[y := l[y].(parent := xp)];
      ghost var l3 := l;
      if x == l[Header].parent {
        l := l[Header := l[Header].(parent := y)];
      } else if x == l[xp].right {
        l := l[xp := l[xp].(right := y)];
      } else {
        l := l[xp := l[xp].(left := y)];
      }
      assert l == l3[xp := Hook(l3[xp], p, y)];
      l := l[y := l[y].(right := x)];
      l := l[x := l[x].(parent := y)];
      links := l;
      RotateRepr(a, links, tree, p, Left);
      tree := RotRAt(tree, p);
    }
  }

  /** What a rotation at p toward child d needs to know about the nodes it relinks. */
  lemma RotateFacts(a: seq<Link>, t: Tree, p: seq<Dir>, d: Dir)
    requires TreeRepr(a, t) && IsPath(t, p) && Sub(t, p).Node? && Child(Sub(t, p), d).Node?
    ensures var s := Sub(t, p); var q := Up(t, p); var y := Child(s, d); var b := Child(y, Other(d));
            0 < s.id < |a| && 0 < y.id < |a| && 0 <= q < |a| && a[s.id].parent == q &&
            ChildLink(a[s.id], d) == y.id && ChildLink(a[y.id], Other(d)) == Ptr(b) &&
            s.id != y.id && q != s.id && q != y.id && (b.Node? ==> 0 < b.id < |a| && b.id != s.id && b.id != y.id && b.id != q) &&
            (p == [] <==> a[Header].parent == s.id) &&
            (p != [] ==> 0 < q && ChildLink(a[q], p[|p| - 1]) == s.id && ChildLink(a[q], Other(p[|p| - 1])) != s.id)
  {
    var s := Sub(t, p);
    NodeLinks(a, t, p);
    PathConcat(t, p, [d]);
    assert Sub(t, p + [d]) == Child(s, d);
    NodeLinks(a, t, p + [d]);
    UpConcat(t, p, [d]);
    DistinctSub(t, p);
    ReprIds(a, t, Header);
    if p != [] {
      UpOutside(t, p);
    }
    UpOutside(t, p + [d]);
    var y := Child(s, d);
    var b := Child(y, Other(d));
    if b.Node? {
      PathConcat(t, p + [d], [Other(d)]);
      NodeLinks(a, t, p + [d] + [Other(d)]);
      assert b.id in IdSet(y);
      assert s.id !in IdSet(y);
      if p != [] {
        assert b.id in IdSet(s);
      }
    }
  }

  /** Recolouring one node of the arena and the same node of the tree. */
  lemma RecolorRepr(a: seq<Link>, a': seq<Link>, t: Tree, p: seq<Dir>, b: bool)
    requires TreeRepr(a, t) && IsPath(t, p) && Sub(t, p).Node?
    requires var x := Sub(t, p).id; 0 < x < |a| && a' == a[x := a[x].(black := b)]
    ensures TreeRepr(a', RecolorAt(t, p, b))
  {
    var s := Sub(t, p);
    NodeLinks(a, t, p);
    ReprAt(a, t, Header, p);
    DistinctSub(t, p);
    ReprIds(a, s, Up(t, p));
    ReprFrame(a, a', s.left, s.id);
    ReprFrame(a, a', s.right, s.id);
    var s' := s.(black := b);
    IdSetReplace(t, p, s');
    UpOutside(t, p);
    assert a'[Up(t, p)] == a[Up(t, p)];
    assert Hook(a[Up(t, p)], p, Ptr(s')) == a[Up(t, p)];
    TreeReplace(a, a', t, p, s');
  }

  function WithChildLink(k: Link, d: Dir, c: int): Link
  {
    if d == Left then k.(left := c) else k.(right := c)
  }

  /**
   * The links after a rotation at p toward child d, written as the rotation's sequence of
   * pointer writes (`rb_tree_rotate_left` for d = Right, `rb_tree_rotate_right` for d = Left),
   * represent the rotated tree and leave the header's colour and extreme pointers alone.
   */
  lemma RotateRepr(a: seq<Link>, a': seq<Link>, t: Tree, p: seq<Dir>, d: Dir)
    requires TreeRepr(a, t) && IsPath(t, p) && Sub(t, p).Node? && Child(Sub(t, p), d).Node?
    requires var s := Sub(t, p); var q := Up(t, p); var x, y := s.id, Child(s, d).id;
             var b := Ptr(Child(Child(s, d), Other(d)));
             0 < x < |a| && 0 < y < |a| && 0 <= q < |a| && (b != Null ==> 0 < b < |a|) &&
             x != y && q != x && q != y && (b != Null ==> b != x && b != y && b != q) &&
             var a1 := a[x := WithChildLink(a[x], d, b)];
             var a2 := if b != Null then a1[b := a1[b].(parent := x)] else a1;
             var a3 := a2[y := a2[y].(parent := q)];
             var a4 := a3[q := Hook(a3[q], p, y)];
             var a5 := a4[y := WithChildLink(a4[y], Other(d), x)];
             a' == a5[x := a5[x].(parent := y)]
    ensures TreeRepr(a', Rotate(t, p, d))
    ensures a'[Header].black == a[Header].black && a'[Header].left == a[Header].left && a'[Header].right == a[Header].right
  {
    RotateLinks(a, a', t, p, d);
    var s := Sub(t, p);
    var q := Up(t, p);
    ReprAt(a, t, Header, p);
    DistinctSub(t, p);
    ReprIds(a, t, Header);
    if p != [] {
      UpOutside(t, p);
    }
    var r := RotateLocal(a, a', s, q, d);
    assert r == if d == Right then RotL(s) else RotR(s);
    IdSetReplace(t, p, r);
    TreeReplace(a, a', t, p, r);
  }

  /** The rotated subtree is represented by the links after the rotation's writes. */
  lemma RotateLocal(a: seq<Link>, a': seq<Link>, s: Tree, q: int, d: Dir) returns (r: Tree)
    requires Repr(a, s, q) && Distinct(s) && s.Node? && Child(s, d).Node? && q !in IdSet(s)
    requires var x, y := s.id, Child(s, d).id; var b := Ptr(Child(Child(s, d), Other(d)));
             |a'| == |a| && 0 <= q < |a| && 0 < x < |a| && 0 < y < |a| && (b != Null ==> 0 < b < |a|) &&
             a'[x] == WithChildLink(a[x], d, b).(parent := y) &&
             a'[y] == WithChildLink(a[y].(parent := q), Other(d), x) &&
             (b != Null ==> a'[b] == a[b].(parent := x)) &&
             forall i :: 0 <= i < |a| && i != x && i != y && i != b && i != q ==> a'[i] == a[i]
    ensures r == (if d == Right then RotL(s) else RotR(s)) && Repr(a', r, q)
  {
    var y := Child(s, d);
    ReprIds(a, s, q);
    ReprFrame(a, a', Child(s, Other(d)), s.id);
    ReprMove(a, a', Child(y, Other(d)), y.id, s.id);
    ReprFrame(a, a', Child(y, d), y.id);
    r := if d == Right then RotL(s) else RotR(s);
    assert Repr(a', Child(r, Other(d)), y.id);
  }

  /** The rotation's pointer writes, node by node. */
  lemma RotateLinks(a: seq<Link>, a': seq<Link>, t: Tree, p: seq<Dir>, d: Dir)
    requires TreeRepr(a, t) && IsPath(t, p) && Sub(t, p).Node? && Child(Sub(t, p), d).Node?
    requires var s := Sub(t, p); var q := Up(t, p); var x, y := s.id, Child(s, d).id;
             var b := Ptr(Child(Child(s, d), Other(d)));
             0 < x < |a| && 0 < y < |a| && 0 <= q < |a| && (b != Null ==> 0 < b < |a|) &&
             x != y && q != x && q != y && (b != Null ==> b != x && b != y && b != q) &&
             var a1 := a[x := WithChildLink(a[x], d, b)];
             var a2 := if b != Null then a1[b := a1[b].(parent := x)] else a1;
             var a3 := a2[y := a2[y].(parent := q)];
             var a4 := a3[q := Hook(a3[q], p, y)];
             var a5 := a4[y := WithChildLink(a4[y], Other(d), x)];
             a' == a5[x := a5[x].(parent := y)]
    ensures var s := Sub(t, p); var q := Up(t, p); var x, y := s.id, Child(s, d).id;
            var b := Ptr(Child(Child(s, d), Other(d)));
            |a'| == |a| &&
            a'[x] == WithChildLink(a[x], d, b).(parent := y) &&
            a'[y] == WithChildLink(a[y].(parent := q), Other(d), x) &&
            (b != Null ==> a'[b] == a[b].(parent := x)) &&
            a'[q] == Hook(a[q], p, y) &&
            forall i :: 0 <= i < |a| && i != x && i != y && i != b && i != q ==> a'[i] == a[i]
  {
  }
}
