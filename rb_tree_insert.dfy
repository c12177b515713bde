/**
 * `rb_tree_reblance`: the loop that restores the red-black conditions after a node has been
 * linked in as a leaf, on the node arena.
 */
module RbInsert {
  import opened RbShape
  import opened RbNodes
  import opened RbFixup

  /**
   * What the loop reads about x at p while x's parent is red: the parent and grandparent
   * indices, which side each hangs on, and the uncle's link and colour.
   */
  lemma Neighbours(a: seq<Link>, t: Tree, p: seq<Dir>)
    requires TreeRepr(a, t) && InsertInv(t, p) && UpRed(t, p)
    ensures |p| >= 2
    ensures var g, dp, dx := p[..|p| - 2], p[|p| - 2], p[|p| - 1];
            p == g + [dp, dx] && IsPath(t, g) && Sub(t, g).Node? &&
            IsPath(t, g + [dp]) && Sub(t, g + [dp]).Node? && IsPath(t, g + [Other(dp)]) &&
            Sub(t, g + [Other(dp)]) == Child(Sub(t, g), Other(dp)) &&
            var x, xp, xpp := Sub(t, p).id, Sub(t, g + [dp]).id, Sub(t, g).id;
            var u := Sub(t, g + [Other(dp)]);
            0 < x < |a| && 0 < xp < |a| && 0 < xpp < |a| &&
            a[x].parent == xp && a[xp].parent == xpp &&
            (a[xpp].left == xp <==> dp == Left) && ChildLink(a[xpp], Other(dp)) == Ptr(u) &&
            (u.Node? ==> 0 < u.id < |a| && a[u.id].black == u.black) &&
            (a[xp].right == x <==> dx == Right) && (a[xp].left == x <==> dx == Left)
  {
    InsertDepth(t, p);
    var g, dp, dx := p[..|p| - 2], p[|p| - 2], p[|p| - 1];
    assert p == g + [dp, dx];
    assert p == g + [dp] + [dx];
    PathConcat(t, g, [dp, dx]);
    PathConcat(t, g + [dp], [dx]);
    PathConcat(t, g, [dp]);
    InsertShape(t, g, dp, dx);
    OneStep(Sub(t, g), Other(dp), Sub(t, g));
    PathConcat(t, g, [Other(dp)]);
    NodeLinks(a, t, p);
    NodeLinks(a, t, g + [dp]);
    NodeLinks(a, t, g);
    UpLast(t, g + [dp], dx);
    UpLast(t, g, dp);
    var u := Sub(t, g + [Other(dp)]);
    if u.Node? {
      NodeLinks(a, t, g + [Other(dp)]);
      UpLast(t, g, Other(dp));
    }
  }

  /** What the loop condition reads about x at p. */
  lemma LoopFacts(a: seq<Link>, t: Tree, p: seq<Dir>)
    requires TreeRepr(a, t) && IsPath(t, p) && Sub(t, p).Node?
    ensures var x := Sub(t, p).id;
            0 < x < |a| && 0 <= a[x].parent < |a| && (x == a[Header].parent <==> p == []) &&
            (p != [] ==> (!a[a[x].parent].black <==> UpRed(t, p)))
  {
    NodeLinks(a, t, p);
    if p != [] {
      var q := p[..|p| - 1];
      assert p == q + [p[|p| - 1]];
      PathConcat(t, q, [p[|p| - 1]]);
      UpLast(t, q, p[|p| - 1]);
      UpRedLast(t, q, p[|p| - 1]);
      NodeLinks(a, t, q);
    }
  }

  /** The loop invariant of `rb_tree_reblance` with x at p, over the in-order sequence ids. */
  ghost predicate Inv(arena: Arena, x: int, p: seq<Dir>, ids: seq<int>, h0: Link)
    reads arena
  {
    arena.Valid() && InsertInv(arena.tree, p) && Ids(arena.tree) == ids && arena.HeaderKept(h0) &&
    Sub(arena.tree, p).Node? && x == Sub(arena.tree, p).id
  }

  /**
   * Case 1 of the loop: the uncle y is red. Parent and uncle are coloured black, the grandparent
   * red, and x moves up to the grandparent.
   */
  method RecolorCase1(arena: Arena, x: int, xp: int, xpp: int, y: int, ghost p: seq<Dir>, ghost ids: seq<int>, ghost h0: Link)
    returns (nx: int, ghost np: seq<Dir>)
    requires Inv(arena, x, p, ids, h0) && UpRed(arena.tree, p)
    requires 0 < x < |arena.links| && xp == arena.links[x].parent && 0 < xp < |arena.links| && xpp == arena.links[xp].parent
    requires 0 < xpp < |arena.links| && y == (if xp == arena.links[xpp].left then arena.links[xpp].right else arena.links[xpp].left)
    requires y != Null && 0 < y < |arena.links| && !arena.links[y].black
    modifies arena
    ensures Inv(arena, nx, np, ids, h0) && |np| < |p|
  {
    Neighbours(arena.links, arena.tree, p);
    ghost var g, dp, dx := p[..|p| - 2], p[|p| - 2], p[|p| - 1];
    InsertRecolor(arena.tree, g, dp, dx);
    arena.SetColor(xp, true, g + [dp]);
    arena.SetColor(y, true, g + [Other(dp)]);
    arena.SetColor(xpp, false, g);
    nx, np := xpp, g;
  }

  /**
   * Cases 2 and 3: the uncle is black. When x is the inner child, x moves up to its parent,
   * which is rotated toward the outside; then x's parent is coloured black, the grandparent
   * red, and the grandparent is rotated the other way, which ends the loop.
   */
  method RotateCase23(arena: Arena, x: int, xp: int, xpp: int, ghost p: seq<Dir>, ghost ids: seq<int>, ghost h0: Link)
    returns (nx: int, ghost np: seq<Dir>)
    requires Inv(arena, x, p, ids, h0) && UpRed(arena.tree, p)
    requires 0 < x < |arena.links| && xp == arena.links[x].parent && 0 < xp < |arena.links| && xpp == arena.links[xp].parent
    requires 0 < xpp < |arena.links|
    requires var y := if xp == arena.links[xpp].left then arena.links[xpp].right else arena.links[xpp].left;
             y == Null || (0 < y < |arena.links| && arena.links[y].black)
    modifies arena
    ensures Inv(arena, nx, np, ids, h0) && |np| < |p| && np != [] && !UpRed(arena.tree, np)
  {
    Neighbours(arena.links, arena.tree, p);
    ghost var g, dp, dx := p[..|p| - 2], p[|p| - 2], p[|p| - 1];
    var onLeft := xp == arena.links[xpp].left;
    var z := x;
    if (onLeft && x == arena.links[xp].right) || (!onLeft && x == arena.links[xp].left) {
      // case 2: x is the inner child
      assert dx == Other(dp);
      InsertInner(arena.tree, g, dp);
      z := xp;
      if onLeft {
        arena.RotateLeft(z, g + [dp]);
      } else {
        arena.RotateRight(z, g + [dp]);
      }
    } else {
      assert dx == dp;
    }
    Neighbours(arena.links, arena.tree, g + [dp, dp]);
    // case 3: z is the outer child
    InsertOuter(arena.tree, g, dp);
    arena.SetColor(arena.links[z].parent, true, g + [dp]);
    arena.SetColor(xpp, false, g);
    if onLeft {
      arena.RotateRight(xpp, g);
    } else {
      arena.RotateLeft(xpp, g);
    }
    nx, np := z, g + [dp];
  }

  /**
   * `rb_tree_reblance(x, root)`: x, linked in as a leaf at p0 of a red-black tree, is coloured
   * red; then, while x's parent is red, case 1 (red uncle) recolours and moves x to its
   * grandparent, case 2 (x the inner child) rotates at the parent, and case 3 recolours and
   * rotates at the grandparent. Finally the root is coloured black. The result is a red-black
   * tree with the same in-order sequence of nodes, and the header's colour and extreme
   * pointers are untouched.
   */
  method Rebalance(arena: Arena, x0: int, ghost p0: seq<Dir>)
    requires arena.Valid() && IsPath(arena.tree, p0) && Sub(arena.tree, p0).Node?
    requires x0 == Sub(arena.tree, p0).id && Sub(arena.tree, p0).left.Nil? && Sub(arena.tree, p0).right.Nil?
    requires RedBlack(Replace(arena.tree, p0, Nil))
    modifies arena
    ensures arena.Valid() && RedBlack(arena.tree) && Ids(arena.tree) == Ids(old(arena.tree))
    ensures arena.HeaderKept(old(arena.links[Header]))
  {
    ghost var h0 := arena.links[Header];
    ghost var t0 := arena.tree;
    ghost var base := Replace(t0, p0, Nil);
    // x->color = rb_tree_red
    arena.SetColor(x0, false, p0);
    assert InsertInv(arena.tree, p0) && Ids(arena.tree) == Ids(t0) && Sub(arena.tree, p0).id == x0 by {
      SubReplace(t0, p0, Sub(t0, p0).(black := false));
      ReplaceTwice(t0, p0, Nil, Node(false, Nil, x0, Nil));
      SubReplace(t0, p0, Nil);
      InsertStart(base, p0, x0);
      ReplaceSame(t0, p0);
      SameIds(t0, p0, Node(false, Nil, x0, Nil));
    }
    var x := x0;
    ghost var p := p0;
    LoopFacts(arena.links, arena.tree, p);
    while x != arena.links[Header].parent && !arena.links[arena.links[x].parent].black
      invariant Inv(arena, x, p, Ids(t0), h0)
      invariant 0 < x < |arena.links| && 0 <= arena.links[x].parent < |arena.links|
      invariant (x == arena.links[Header].parent <==> p == [])
      invariant p != [] ==> (!arena.links[arena.links[x].parent].black <==> UpRed(arena.tree, p))
      decreases |p|
    {
      Neighbours(arena.links, arena.tree, p);
      var xp := arena.links[x].parent;
      var xpp := arena.links[xp].parent;
      if xp == arena.links[xpp].left {
        var y := arena.links[xpp].right;
        if y != Null && !arena.links[y].black {
          x, p := RecolorCase1(arena, x, xp, xpp, y, p, Ids(t0), h0);
        } else {
          x, p := RotateCase23(arena, x, xp, xpp, p, Ids(t0), h0);
        }
      } else {
        var y := arena.links[xpp].left;
        if y != Null && !arena.links[y].black {
          x, p := RecolorCase1(arena, x, xp, xpp, y, p, Ids(t0), h0);
        } else {
          x, p := RotateCase23(arena, x, xp, xpp, p, Ids(t0), h0);
        }
      }
      LoopFacts(arena.links, arena.tree, p);
    }
    InsertFinish(arena.tree, p);
    NodeLinks(arena.links, arena.tree, []);
    arena.SetColor(arena.links[Header].parent, true, []);
  }
}
