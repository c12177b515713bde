/**
 * `rb_tree_rebalance_for_erase`: unlinking a node from the arena and the colour fix-up loop
 * that follows when the unlinked position lost a black node.
 */
module RbErase {
  import opened RbShape
  import opened RbNodes
  import opened RbEraseFixup
  import opened RbUnlink

  /**
   * What the loop reads while x at px (possibly null) is black and not the root: x's parent,
   * which side x hangs on, and the sibling w with the colours of its children.
   */
  lemma Sibling(a: seq<Link>, t: Tree, px: seq<Dir>)
    requires TreeRepr(a, t) && EraseInv(t, px) && px != [] && !RedAt(t, px)
    ensures var pp, dx := px[..|px| - 1], px[|px| - 1]; var od := Other(dx);
            px == pp + [dx] && IsPath(t, pp) && Sub(t, pp).Node? && IsPath(t, pp + [od]) && Sub(t, pp + [od]).Node? &&
            var xp, w := Sub(t, pp).id, Sub(t, pp + [od]);
            Up(t, px) == xp && 0 < xp < |a| && a[xp].black == Sub(t, pp).black && a[xp].parent == Up(t, pp) &&
            (Ptr(Sub(t, px)) == a[xp].left <==> dx == Left) && ChildLink(a[xp], od) == w.id &&
            0 < w.id < |a| && a[w.id].black == w.black && a[w.id].left == Ptr(w.left) && a[w.id].right == Ptr(w.right) &&
            (w.left.Node? ==> 0 < w.left.id < |a| && a[w.left.id].black == w.left.black) &&
            (w.right.Node? ==> 0 < w.right.id < |a| && a[w.right.id].black == w.right.black)
  {
    var pp, dx := px[..|px| - 1], px[|px| - 1];
    var od := Other(dx);
    assert px == pp + [dx];
    EraseShape(t, pp, dx);
    NodeLinks(a, t, pp);
    NodeLinks(a, t, pp + [od]);
    UpLast(t, pp, dx);
    if Sub(t, px).Node? {
      NodeLinks(a, t, px);
    }
    var w := Sub(t, pp + [od]);
    if w.left.Node? {
      StepDown(t, pp + [od], Left);
      NodeLinks(a, t, pp + [od] + [Left]);
    }
    if w.right.Node? {
      StepDown(t, pp + [od], Right);
      NodeLinks(a, t, pp + [od] + [Right]);
    }
  }

  /** What the loop condition reads about x at px. */
  lemma FixLoopFacts(a: seq<Link>, t: Tree, px: seq<Dir>)
    requires TreeRepr(a, t) && IsPath(t, px)
    ensures var x := Ptr(Sub(t, px));
            (x != Null ==> 0 < x < |a| && a[x].black == Sub(t, px).black) &&
            (x == a[Header].parent <==> px == []) &&
            ((x == Null || a[x].black) <==> !RedAt(t, px))
  {
    if Sub(t, px).Node? {
      NodeLinks(a, t, px);
    } else if px != [] {
      NodeLinks(a, t, []);
    }
  }

  /**
   * The loop invariant of the erase fix-up with x (possibly null) at px and its parent xp, over
   * the in-order sequence ids.
   */
  ghost predicate FixInv(arena: Arena, x: int, xp: int, px: seq<Dir>, ids: seq<int>, h0: Link)
    reads arena
  {
    arena.Valid() && EraseInv(arena.tree, px) && Ids(arena.tree) == ids && arena.HeaderKept(h0) &&
    x == Ptr(Sub(arena.tree, px)) && xp == Up(arena.tree, px)
  }

  /** After case D: the tree is red-black and x at px is black or null. */
  ghost predicate Settled(arena: Arena, x: int, px: seq<Dir>, ids: seq<int>, h0: Link)
    reads arena
  {
    arena.Valid() && RedBlack(arena.tree) && Ids(arena.tree) == ids && arena.HeaderKept(h0) &&
    IsPath(arena.tree, px) && x == Ptr(Sub(arena.tree, px)) && !RedAt(arena.tree, px)
  }

  /**
   * Case A: the sibling w is red. w is coloured black, x's parent red, the parent is rotated
   * toward x, and w becomes the parent's new child on the other side, which is black.
   */
  method FixCaseA(arena: Arena, x: int, xp: int, w: int, dx: Dir, ghost px: seq<Dir>, ghost ids: seq<int>, ghost h0: Link)
    returns (nw: int, ghost npx: seq<Dir>)
    requires FixInv(arena, x, xp, px, ids, h0) && px != [] && !RedAt(arena.tree, px) && px[|px| - 1] == dx
    requires 0 < xp < |arena.links| && w == ChildLink(arena.links[xp], Other(dx)) && 0 < w < |arena.links| && !arena.links[w].black
    modifies arena
    ensures FixInv(arena, x, xp, npx, ids, h0) && npx != [] && !RedAt(arena.tree, npx) && npx[|npx| - 1] == dx
    ensures |npx| == |px| + 1 && 0 < xp < |arena.links| && !arena.links[xp].black
    ensures nw == ChildLink(arena.links[xp], Other(dx)) && 0 < nw < |arena.links| && arena.links[nw].black
  {
    Sibling(arena.links, arena.tree, px);
    ghost var pp := px[..|px| - 1];
    var od := Other(dx);
    EraseCaseA(arena.tree, pp, dx);
    arena.SetColor(w, true, pp + [od]);
    ghost var t1 := arena.tree;
    arena.SetColor(xp, false, pp);
    SubReplace(t1, pp, Sub(t1, pp).(black := false));
    if dx == Left {
      arena.RotateLeft(xp, pp);
    } else {
      arena.RotateRight(xp, pp);
    }
    npx := pp + [dx, dx];
    assert npx[..|npx| - 1] == pp + [dx] && npx == pp + [dx] + [dx];
    Sibling(arena.links, arena.tree, npx);
    assert pp + [dx] + [od] == pp + [dx, od];
    NodeLinks(arena.links, arena.tree, pp + [dx]);
    nw := if dx == Left then arena.links[xp].right else arena.links[xp].left;
  }

  /**
   * Case B: the sibling w and both its children are black. w is coloured red and x moves up to
   * its parent.
   */
  method FixCaseB(arena: Arena, x: int, xp: int, w: int, dx: Dir, ghost px: seq<Dir>, ghost ids: seq<int>, ghost h0: Link)
    returns (nx: int, nxp: int, ghost npx: seq<Dir>)
    requires FixInv(arena, x, xp, px, ids, h0) && px != [] && !RedAt(arena.tree, px) && px[|px| - 1] == dx
    requires 0 < xp < |arena.links| && w == ChildLink(arena.links[xp], Other(dx)) && 0 < w < |arena.links| && arena.links[w].black
    requires var l, r := arena.links[w].left, arena.links[w].right;
             (l == Null || (0 < l < |arena.links| && arena.links[l].black)) && (r == Null || (0 < r < |arena.links| && arena.links[r].black))
    modifies arena
    ensures FixInv(arena, nx, nxp, npx, ids, h0) && |npx| + 1 == |px|
    ensures !old(arena.links[xp].black) ==> RedAt(arena.tree, npx)
  {
    Sibling(arena.links, arena.tree, px);
    ghost var pp := px[..|px| - 1];
    var od := Other(dx);
    EraseCaseB(arena.tree, pp, dx);
    arena.SetColor(w, false, pp + [od]);
    NodeLinks(arena.links, arena.tree, pp);
    nx := xp;
    nxp := arena.links[xp].parent;
    npx := pp;
  }

  /**
   * The state before case D with x at pp + [dx] under its parent xp and the sibling s: the tree
   * satisfies `PreD`, and x is black or null.
   */
  ghost predicate DInv(arena: Arena, x: int, xp: int, s: int, dx: Dir, pp: seq<Dir>, ids: seq<int>, h0: Link)
    reads arena
  {
    arena.Valid() && PreD(arena.tree, pp, dx) && Ids(arena.tree) == ids && arena.HeaderKept(h0) &&
    IsPath(arena.tree, pp) && Sub(arena.tree, pp).Node? && Sub(arena.tree, pp).id == xp &&
    IsPath(arena.tree, pp + [dx]) && x == Ptr(Sub(arena.tree, pp + [dx])) && !RedAt(arena.tree, pp + [dx]) &&
    0 < xp < |arena.links| && s == ChildLink(arena.links[xp], Other(dx))
  }

  /**
   * Case C: the sibling w is black, its far child black and its near child red. w is coloured
   * red, its near child black when `blacken`, and w is rotated away from x, so that its near
   * child becomes the sibling, whose far child (w) is red.
   */
  method FixCaseC(arena: Arena, x: int, xp: int, w: int, dx: Dir, blacken: bool, ghost px: seq<Dir>, ghost ids: seq<int>, ghost h0: Link)
    returns (s: int)
    requires FixInv(arena, x, xp, px, ids, h0) && px != [] && !RedAt(arena.tree, px) && px[|px| - 1] == dx
    requires 0 < xp < |arena.links| && w == ChildLink(arena.links[xp], Other(dx)) && 0 < w < |arena.links| && arena.links[w].black
    requires var far, near := ChildLink(arena.links[w], Other(dx)), ChildLink(arena.links[w], dx);
             (far == Null || (0 < far < |arena.links| && arena.links[far].black)) &&
             near != Null && 0 < near < |arena.links| && !arena.links[near].black
    modifies arena
    ensures DInv(arena, x, xp, s, dx, px[..|px| - 1], ids, h0)
  {
    Sibling(arena.links, arena.tree, px);
    ghost var pp := px[..|px| - 1];
    var od := Other(dx);
    EraseCaseC(arena.tree, pp, dx, blacken);
    StepDown(arena.tree, pp, od);
    CSteps(arena.tree, pp, dx, blacken);
    if blacken {
      var near := ChildLink(arena.links[w], dx);
      StepDown(arena.tree, pp + [od], dx);
      assert pp + [od] + [dx] == pp + [od, dx];
      if near != Null {
        arena.SetColor(near, true, pp + [od, dx]);
      }
    }
    arena.SetColor(w, false, pp + [od]);
    if dx == Left {
      arena.RotateRight(w, pp + [od]);
    } else {
      arena.RotateLeft(w, pp + [od]);
    }
    NodeLinks(arena.links, arena.tree, pp);
    StepDown(arena.tree, pp, dx);
    s := ChildLink(arena.links[xp], od);
  }

  /**
   * Case D: the sibling s is black (or about to be overwritten) with a red far child. s takes
   * the parent's colour, the parent and s's far child are coloured black, and the parent is
   * rotated toward x: the tree is red-black again.
   */
  method FixCaseD(arena: Arena, x: int, xp: int, s: int, dx: Dir, ghost pp: seq<Dir>, ghost ids: seq<int>, ghost h0: Link)
    returns (ghost npx: seq<Dir>)
    requires DInv(arena, x, xp, s, dx, pp, ids, h0)
    modifies arena
    ensures Settled(arena, x, npx, ids, h0)
  {
    ghost var t := arena.tree;
    var od := Other(dx);
    EraseCaseD(t, pp, dx);
    DSteps(t, pp, dx);
    StepDown(t, pp, od);
    StepDown(t, pp + [od], od);
    assert pp + [od] + [od] == pp + [od, od];
    NodeLinks(arena.links, t, pp);
    NodeLinks(arena.links, t, pp + [od]);
    NodeLinks(arena.links, t, pp + [od, od]);
    var far := ChildLink(arena.links[s], od);
    arena.SetColor(s, arena.links[xp].black, pp + [od]);
    arena.SetColor(xp, true, pp);
    if far != Null {
      arena.SetColor(far, true, pp + [od, od]);
    }
    if dx == Left {
      arena.RotateLeft(xp, pp);
    } else {
      arena.RotateRight(xp, pp);
    }
    npx := pp + [dx, dx];
  }

  /** Without case C: a black sibling with a red far child is already the state before case D. */
  lemma SkipCaseC(arena: Arena, x: int, xp: int, w: int, dx: Dir, px: seq<Dir>, ids: seq<int>, h0: Link)
    requires FixInv(arena, x, xp, px, ids, h0) && px != [] && !RedAt(arena.tree, px) && px[|px| - 1] == dx
    requires 0 < xp < |arena.links| && w == ChildLink(arena.links[xp], Other(dx)) && 0 < w < |arena.links| && arena.links[w].black
    requires var far := ChildLink(arena.links[w], Other(dx)); far != Null && 0 < far < |arena.links| && !arena.links[far].black
    ensures DInv(arena, x, xp, w, dx, px[..|px| - 1], ids, h0)
  {
    Sibling(arena.links, arena.tree, px);
    var pp := px[..|px| - 1];
    ErasePreD(arena.tree, pp, dx);
    StepDown(arena.tree, pp, Other(dx));
  }

  /**
   * One round of the fix-up loop with x on side dx of its parent: case A if the sibling w is
   * red, then case B (x moves up) when both of w's children are black, otherwise case C if
   * w's far child is black and then case D, which settles the tree.
   */
  method FixSide(arena: Arena, x: int, xp: int, dx: Dir, ghost px: seq<Dir>, ghost ids: seq<int>, ghost h0: Link)
    returns (nx: int, nxp: int, ghost npx: seq<Dir>, done: bool)
    requires FixInv(arena, x, xp, px, ids, h0) && px != [] && !RedAt(arena.tree, px) && px[|px| - 1] == dx
    modifies arena
    ensures done ==> nx == x && Settled(arena, x, npx, ids, h0)
    ensures !done ==> FixInv(arena, nx, nxp, npx, ids, h0) &&
                      2 * |npx| + (if RedAt(arena.tree, npx) then 0 else 1) < 2 * |px| + 1
  {
    Sibling(arena.links, arena.tree, px);
    ghost var p := px;
    var w := ChildLink(arena.links[xp], Other(dx));
    if !arena.links[w].black {
      w, p := FixCaseA(arena, x, xp, w, dx, px, ids, h0);
      Sibling(arena.links, arena.tree, p);
    }
    var far, near := ChildLink(arena.links[w], Other(dx)), ChildLink(arena.links[w], dx);
    if (near == Null || arena.links[near].black) && (far == Null || arena.links[far].black) {
      nx, nxp, npx := FixCaseB(arena, x, xp, w, dx, p, ids, h0);
      done := false;
    } else {
      if far == Null || arena.links[far].black {
        w := FixCaseC(arena, x, xp, w, dx, dx == Right, p, ids, h0);
      } else {
        SkipCaseC(arena, x, xp, w, dx, p, ids, h0);
      }
      npx := FixCaseD(arena, x, xp, w, dx, p[..|p| - 1], ids, h0);
      nx, nxp, done := x, xp, true;
    }
  }

  /**
   * The colour fix-up of `rb_tree_rebalance_for_erase`: x (possibly null) at px, under its
   * parent xp, is one black short. While x is not the root and is black or null, the cases
   * on its sibling w run, on the side on which x hangs: A (w red) turns into B, C or D; B (w's
   * children black) moves x up; C (w's far child black) turns into D; D ends the loop. Then x,
   * if not null, is coloured black. The result is a red-black tree with the same in-order
   * sequence of nodes, and the header's colour and extreme pointers are untouched. In the
   * mirror branch case C also colours w's near child black and rotates w toward the far side,
   * the rotation that rb_tree.h:439-445 leaves out.
   */
  method EraseFixup(arena: Arena, x0: int, xp0: int, ghost px0: seq<Dir>)
    requires arena.Valid() && EraseInv(arena.tree, px0) && x0 == Ptr(Sub(arena.tree, px0)) && xp0 == Up(arena.tree, px0)
    modifies arena
    ensures arena.Valid() && RedBlack(arena.tree) && Ids(arena.tree) == Ids(old(arena.tree))
    ensures arena.HeaderKept(old(arena.links[Header]))
  {
    ghost var ids := Ids(arena.tree);
    ghost var h0 := arena.links[Header];
    var x, xp := x0, xp0;
    ghost var px := px0;
    var settled := false;
    FixLoopFacts(arena.links, arena.tree, px);
    while x != arena.links[Header].parent && (x == Null || arena.links[x].black)
      invariant FixInv(arena, x, xp, px, ids, h0) && !settled
      invariant x != Null ==> 0 < x < |arena.links|
      invariant (x == arena.links[Header].parent <==> px == [])
      invariant ((x == Null || arena.links[x].black) <==> !RedAt(arena.tree, px))
      decreases 2 * |px| + (if RedAt(arena.tree, px) then 0 else 1)
    {
      Sibling(arena.links, arena.tree, px);
      if x == arena.links[xp].left {
        x, xp, px, settled := FixSide(arena, x, xp, Left, px, ids, h0);
      } else {
        x, xp, px, settled := FixSide(arena, x, xp, Right, px, ids, h0);
      }
      if settled {
        break;
      }
      FixLoopFacts(arena.links, arena.tree, px);
    }
    if settled {
      if Sub(arena.tree, px).Node? {
        assert Sub(arena.tree, px).(black := true) == Sub(arena.tree, px);
        ReplaceSame(arena.tree, px);
      }
    } else {
      EraseFinish(arena.tree, px);
    }
    if x != Null {
      FixLoopFacts(arena.links, arena.tree, px);
      SameIds(arena.tree, px, Sub(arena.tree, px).(black := true));
      arena.SetColor(x, true, px);
    }
  }

  /** The header with its leftmost pointer set to m: `leftmost = m`. */
  method SetLeftmost(arena: Arena, m: int)
    requires arena.Valid()
    modifies arena
    ensures arena.Valid() && arena.tree == old(arena.tree)
    ensures arena.links == old(arena.links[Header := arena.links[Header].(left := m)])
  {
    ghost var a := arena.links;
    arena.links := arena.links[Header := arena.links[Header].(left := m)];
    HeaderFrame(a, arena.links, arena.tree);
  }

  /** The header with its rightmost pointer set to m: `rightmost = m`. */
  method SetRightmost(arena: Arena, m: int)
    requires arena.Valid()
    modifies arena
    ensures arena.Valid() && arena.tree == old(arena.tree)
    ensures arena.links == old(arena.links[Header := arena.links[Header].(right := m)])
  {
    ghost var a := arena.links;
    arena.links := arena.links[Header := arena.links[Header].(right := m)];
    HeaderFrame(a, arena.links, arena.tree);
  }

  /**
   * The relinking of a node z at pz with at most one child: that child x (possibly null) takes
   * z's place under z's parent, or as the root. Only x's parent link and the link that pointed
   * at z change; z's own link is left as it was.
   */
  method RelinkOne(arena: Arena, z: int, ghost pz: seq<Dir>) returns (x: int, xp: int)
    requires arena.Valid() && IsPath(arena.tree, pz) && Sub(arena.tree, pz).Node?
    requires z == Sub(arena.tree, pz).id && (Sub(arena.tree, pz).left.Nil? || Sub(arena.tree, pz).right.Nil?)
    modifies arena
    ensures var s := Sub(old(arena.tree), pz);
            arena.tree == Replace(old(arena.tree), pz, if s.left.Nil? then s.right else s.left)
    ensures arena.Valid() && |arena.links| == old(|arena.links|)
    ensures arena.links[Header].left == old(arena.links[Header].left)
    ensures arena.links[Header].right == old(arena.links[Header].right)
    ensures arena.links[Header].black == old(arena.links[Header].black)
    ensures 0 < z < |arena.links| && arena.links[z] == old(arena.links[z])
    ensures x == Ptr(Sub(arena.tree, pz)) && xp == Up(old(arena.tree), pz)
  {
    ghost var t := arena.tree;
    ghost var a := arena.links;
    ghost var s := Sub(t, pz);
    ghost var c := if s.left.Nil? then s.right else s.left;
    NodeLinks(a, t, pz);
    ReprIds(a, t, Header);
    UpOutside(t, pz);
    assert c.Node? ==> c.id in IdSet(s) && c.id != z by {
      DistinctSub(t, pz);
    }
    var l := arena.links;
    x := if l[z].left == Null then l[z].right else l[z].left;
    xp := l[z].parent;
    if x != Null {
      l := l[x := l[x].(parent := xp)];
    }
    ghost var l1 := l;
    if z == l[Header].parent {
      l := l[Header := l[Header].(parent := x)];
    } else if l[xp].left == z {
      l := l[xp := l[xp].(left := x)];
    } else {
      l := l[xp := l[xp].(right := x)];
    }
    assert l == l1[xp := Hook(l1[xp], pz, x)];
    arena.links := l;
    UnlinkRepr(a, l, t, pz);
    arena.tree := Replace(t, pz, c);
    SubReplace(t, pz, c);
  }

  /** The first node of t, or the header when t is empty: what the leftmost pointer holds. */
  function First(t: Tree): int
  {
    if t.Nil? then Header else Ids(t)[0]
  }

  /** The last node of t, or the header when t is empty: what the rightmost pointer holds. */
  function Last(t: Tree): int
  {
    if t.Nil? then Header else Ids(t)[|Ids(t)| - 1]
  }

  /**
   * `if (leftmost == z)`: after z has been relinked away, a leftmost pointer at z moves to z's
   * old parent when z had no right child, and to the leftmost node below x otherwise.
   */
  method FixLeftmost(arena: Arena, z: int, x: int, xp: int, ghost pz: seq<Dir>)
    requires arena.Valid() && IsPath(arena.tree, pz) && x == Ptr(Sub(arena.tree, pz)) && 0 < z < |arena.links|
    requires arena.links[Header].left != z ==> arena.links[Header].left == First(arena.tree)
    requires arena.links[Header].left == z && arena.links[z].right == Null ==> xp == First(arena.tree)
    requires arena.links[Header].left == z && arena.links[z].right != Null ==>
               Sub(arena.tree, pz).Node? && Ids(Sub(arena.tree, pz))[0] == First(arena.tree)
    modifies arena
    ensures arena.Valid() && arena.tree == old(arena.tree) && arena.links[Header].left == First(arena.tree)
    ensures arena.links == old(arena.links)[Header := old(arena.links)[Header].(left := arena.links[Header].left)]
  {
    if arena.links[Header].left == z {
      if arena.links[z].right == Null {
        SetLeftmost(arena, xp);
      } else {
        var m := arena.Minimum(x, pz);
        SetLeftmost(arena, m);
      }
    }
  }

  /** `if (rightmost == z)`: the mirror image of FixLeftmost. */
  method FixRightmost(arena: Arena, z: int, x: int, xp: int, ghost pz: seq<Dir>)
    requires arena.Valid() && IsPath(arena.tree, pz) && x == Ptr(Sub(arena.tree, pz)) && 0 < z < |arena.links|
    requires arena.links[Header].right != z ==> arena.links[Header].right == Last(arena.tree)
    requires arena.links[Header].right == z && arena.links[z].left == Null ==> xp == Last(arena.tree)
    requires arena.links[Header].right == z && arena.links[z].left != Null ==>
               Sub(arena.tree, pz).Node? && Ids(Sub(arena.tree, pz))[|Ids(Sub(arena.tree, pz))| - 1] == Last(arena.tree)
    modifies arena
    ensures arena.Valid() && arena.tree == old(arena.tree) && arena.links[Header].right == Last(arena.tree)
    ensures arena.links == old(arena.links)[Header := old(arena.links)[Header].(right := arena.links[Header].right)]
  {
    if arena.links[Header].right == z {
      if arena.links[z].left == Null {
        SetRightmost(arena, xp);
      } else {
        var m := arena.Maximum(x, pz);
        SetRightmost(arena, m);
      }
    }
  }

  /**
   * Where the header's leftmost pointer must go once z at p, with at most one child c, is
   * replaced by c: a pointer not at z stays, a pointer at z moves to z's parent when z has no
   * right child, and to the first node of c otherwise.
   */
  lemma OneChildLeftmost(a: seq<Link>, t: Tree, p: seq<Dir>)
    requires TreeRepr(a, t) && Extremes(a, t) && IsPath(t, p) && Sub(t, p).Node?
    requires Sub(t, p).left.Nil? || Sub(t, p).right.Nil?
    ensures var s := Sub(t, p); var c := if s.left.Nil? then s.right else s.left;
            var t', z, xp := Replace(t, p, c), s.id, Up(t, p);
            0 < z < |a| &&
            (a[Header].left != z ==> a[Header].left == First(t')) &&
            (a[Header].left == z && a[z].right == Null ==> xp == First(t')) &&
            (a[Header].left == z && a[z].right != Null ==> c.Node? && First(c) == First(t'))
  {
    NodeLinks(a, t, p);
    assert t.Node?;
    ChildPtrs(a, t, p);
    OneChildIds(t, p);
    OneChildFirst(t, p);
  }

  /** The mirror image of OneChildLeftmost, for the rightmost pointer. */
  lemma OneChildRightmost(a: seq<Link>, t: Tree, p: seq<Dir>)
    requires TreeRepr(a, t) && Extremes(a, t) && IsPath(t, p) && Sub(t, p).Node?
    requires Sub(t, p).left.Nil? || Sub(t, p).right.Nil?
    ensures var s := Sub(t, p); var c := if s.left.Nil? then s.right else s.left;
            var t', z, xp := Replace(t, p, c), s.id, Up(t, p);
            0 < z < |a| &&
            (a[Header].right != z ==> a[Header].right == Last(t')) &&
            (a[Header].right == z && a[z].left == Null ==> xp == Last(t')) &&
            (a[Header].right == z && a[z].left != Null ==> c.Node? && Last(c) == Last(t'))
  {
    NodeLinks(a, t, p);
    assert t.Node?;
    ChildPtrs(a, t, p);
    OneChildLast(t, p);
  }

  /** The child pointers of the node at p are null exactly for its empty children. */
  lemma ChildPtrs(a: seq<Link>, t: Tree, p: seq<Dir>)
    requires TreeRepr(a, t) && IsPath(t, p) && Sub(t, p).Node?
    ensures var s := Sub(t, p);
            0 < s.id < |a| && (a[s.id].left == Null <==> s.left.Nil?) && (a[s.id].right == Null <==> s.right.Nil?)
  {
    var s := Sub(t, p);
    NodeLinks(a, t, p);
    ReprIds(a, t, Header);
    UpOutside(t, p);
    assert s.left.Node? ==> s.left.id in IdSet(t);
    assert s.right.Node? ==> s.right.id in IdSet(t);
  }

  /**
   * The unlinking step of `rb_tree_rebalance_for_erase` for a node z at pz with at most one
   * child: z is relinked away and the header's leftmost and rightmost pointers are moved off z.
   * The in-order sequence loses z and nothing else; x and its parent are where the colour
   * fix-up starts.
   */
  method SpliceOne(arena: Arena, z: int, ghost pz: seq<Dir>) returns (x: int, xp: int)
    requires arena.Valid() && Extremes(arena.links, arena.tree) && IsPath(arena.tree, pz) && Sub(arena.tree, pz).Node?
    requires z == Sub(arena.tree, pz).id && (Sub(arena.tree, pz).left.Nil? || Sub(arena.tree, pz).right.Nil?)
    modifies arena
    ensures var s := Sub(old(arena.tree), pz);
            arena.tree == Replace(old(arena.tree), pz, if s.left.Nil? then s.right else s.left)
    ensures arena.Valid() && Extremes(arena.links, arena.tree) && arena.links[Header].black == old(arena.links[Header].black)
    ensures Ids(arena.tree) == Remove(Ids(old(arena.tree)), z)
    ensures IsPath(arena.tree, pz) && x == Ptr(Sub(arena.tree, pz)) && xp == Up(arena.tree, pz)
    ensures 0 < z < |arena.links| && arena.links[z].black == Sub(old(arena.tree), pz).black
  {
    ghost var t := arena.tree;
    ghost var s := Sub(t, pz);
    ghost var c := if s.left.Nil? then s.right else s.left;
    NodeLinks(arena.links, t, pz);
    OneChildLeftmost(arena.links, t, pz);
    OneChildRightmost(arena.links, t, pz);
    OneChildIds(t, pz);
    x, xp := RelinkOne(arena, z, pz);
    SubReplace(t, pz, c);
    assert xp == Up(arena.tree, pz);
    FixExtremes(arena, z, x, xp, pz);
  }

  /** Both extreme pointers moved off z, as FixLeftmost and FixRightmost do; nothing else changes. */
  method FixExtremes(arena: Arena, z: int, x: int, xp: int, ghost pz: seq<Dir>)
    requires arena.Valid() && IsPath(arena.tree, pz) && x == Ptr(Sub(arena.tree, pz)) && 0 < z < |arena.links|
    requires arena.links[Header].left != z ==> arena.links[Header].left == First(arena.tree)
    requires arena.links[Header].left == z && arena.links[z].right == Null ==> xp == First(arena.tree)
    requires arena.links[Header].left == z && arena.links[z].right != Null ==>
               Sub(arena.tree, pz).Node? && First(Sub(arena.tree, pz)) == First(arena.tree)
    requires arena.links[Header].right != z ==> arena.links[Header].right == Last(arena.tree)
    requires arena.links[Header].right == z && arena.links[z].left == Null ==> xp == Last(arena.tree)
    requires arena.links[Header].right == z && arena.links[z].left != Null ==>
               Sub(arena.tree, pz).Node? && Last(Sub(arena.tree, pz)) == Last(arena.tree)
    modifies arena
    ensures arena.Valid() && arena.tree == old(arena.tree) && Extremes(arena.links, arena.tree)
    ensures arena.links[Header].black == old(arena.links[Header].black)
    ensures |arena.links| == old(|arena.links|) && arena.links[z] == old(arena.links[z])
  {
    FixLeftmost(arena, z, x, xp, pz);
    FixRightmost(arena, z, x, xp, pz);
  }

  /**
   * What the two-child rewrite needs of z (children zl and zr, parent zp) and its successor y
   * (no left child, right child x, parent yp): they are in the arena, and different wherever
   * the tree makes them different.
   */
  ghost predicate TwoChildReady(a: seq<Link>, z: int, y: int, pz: seq<Dir>)
  {
    |a| > 0 && 0 < z < |a| && 0 < y < |a| &&
    var zl, zr, zp, yp, x := a[z].left, a[z].right, a[z].parent, a[y].parent, a[y].right;
    0 < zl < |a| && 0 < zr < |a| && 0 <= zp < |a| && 0 < yp < |a| && (x != Null ==> 0 < x < |a|) &&
    a[y].left == Null && y != z && y != zl && y != zp && zl != zr && zl != yp && zl != zp && zl != z &&
    zr != zp && zr != z && yp != zp && zp != z &&
    (x != Null ==> x != y && x != zl && x != zr && x != yp && x != zp && x != z) &&
    (y == zr ==> yp == z) && (y != zr ==> yp != z && a[yp].left == y) &&
    (pz == [] <==> a[Header].parent == z) && (pz == [] ==> zp == Header) &&
    (pz != [] ==> 0 < zp && ChildLink(a[zp], pz[|pz| - 1]) == z && ChildLink(a[zp], Other(pz[|pz| - 1])) != z)
  }

  /** The links after `z->left->parent = y; y->left = z->left`. */
  ghost function AdoptStep(a: seq<Link>, z: int, y: int): (r: seq<Link>)
    requires 0 < z < |a| && 0 < y < |a| && 0 < a[z].left < |a|
    ensures |r| == |a|
  {
    var zl := a[z].left;
    var a1 := a[zl := a[zl].(parent := y)];
    a1[y := a1[y].(left := zl)]
  }

  /** The links after the `y != z->right` block, or unchanged when y is z's right child. */
  ghost function DetachStep(a: seq<Link>, z: int, y: int): (r: seq<Link>)
    requires 0 < z < |a| && 0 < y < |a| && 0 < a[z].right < |a| && 0 <= a[y].parent < |a|
    requires a[y].right != Null ==> 0 < a[y].right < |a|
    ensures |r| == |a|
  {
    var zr, yp, x := a[z].right, a[y].parent, a[y].right;
    if y == zr then a
    else
      var a1 := if x != Null then a[x := a[x].(parent := yp)] else a;
      var a2 := a1[yp := a1[yp].(left := x)];
      var a3 := a2[y := a2[y].(right := zr)];
      a3[zr := a3[zr].(parent := y)]
  }

  /** The links after y is hooked under z's parent, takes z's parent and swaps colours with z. */
  ghost function PlaceStep(a: seq<Link>, z: int, y: int, pz: seq<Dir>): (r: seq<Link>)
    requires 0 < z < |a| && 0 < y < |a| && 0 <= a[z].parent < |a|
    ensures |r| == |a|
  {
    var zp := a[z].parent;
    var a1 := a[zp := Hook(a[zp], pz, y)];
    var a2 := a1[y := a1[y].(parent := zp)];
    var a3 := a2[y := a2[y].(black := a2[z].black)];
    a3[z := a3[z].(black := a2[y].black)]
  }

  /** The links after the whole two-child rewrite. */
  ghost function Relinked(a: seq<Link>, z: int, y: int, pz: seq<Dir>): (r: seq<Link>)
    requires TwoChildReady(a, z, y, pz)
    ensures |r| == |a|
  {
    var a1 := AdoptStep(a, z, y);
    assert a1[z] == a[z] && a1[y].parent == a[y].parent && a1[y].right == a[y].right;
    var a2 := DetachStep(a1, z, y);
    assert a2[z] == a[z];
    PlaceStep(a2, z, y, pz)
  }

  /**
   * Each link after the two-child rewrite: y carries z's colour, parent and left child, and
   * z's right child unless that was y itself; the children's parent pointers and the parents'
   * child pointers are redirected; z carries y's colour; every other link is unchanged.
   */
  lemma RelinkedFacts(a: seq<Link>, z: int, y: int, pz: seq<Dir>)
    requires TwoChildReady(a, z, y, pz)
    ensures var l := Relinked(a, z, y, pz);
            var zl, zr, zp, yp, x := a[z].left, a[z].right, a[z].parent, a[y].parent, a[y].right;
            |l| == |a| &&
            l[y] == Link(a[z].black, zp, zl, if y == zr then x else zr) &&
            l[zl] == a[zl].(parent := y) &&
            (y != zr ==> l[zr] == (if yp == zr then a[zr].(left := x) else a[zr]).(parent := y)) &&
            (y != zr && x != Null ==> l[x] == a[x].(parent := yp)) &&
            (y == zr && x != Null ==> l[x] == a[x]) &&
            (y != zr && yp != zr ==> l[yp] == a[yp].(left := x)) &&
            l[zp] == Hook(a[zp], pz, y) && l[z] == a[z].(black := a[y].black) &&
            forall i :: 0 <= i < |a| && i != y && i != zl && i != zr && i != x && i != yp && i != zp && i != z ==> l[i] == a[i]
  {
    DetachedFacts(a, z, y, pz);
  }

  /** The links after the first two steps of the two-child rewrite, before y takes z's place. */
  lemma DetachedFacts(a: seq<Link>, z: int, y: int, pz: seq<Dir>)
    requires TwoChildReady(a, z, y, pz)
    ensures var a1 := AdoptStep(a, z, y);
            a1[z] == a[z] && a1[y].parent == a[y].parent && a1[y].right == a[y].right &&
            var a2 := DetachStep(a1, z, y);
            var zl, zr, zp, yp, x := a[z].left, a[z].right, a[z].parent, a[y].parent, a[y].right;
            a2[y] == Link(a[y].black, yp, zl, if y == zr then x else zr) &&
            a2[zl] == a[zl].(parent := y) &&
            (y != zr ==> a2[zr] == (if yp == zr then a[zr].(left := x) else a[zr]).(parent := y)) &&
            (y != zr && x != Null ==> a2[x] == a[x].(parent := yp)) &&
            (y == zr && x != Null ==> a2[x] == a[x]) &&
            (y != zr && yp != zr ==> a2[yp] == a[yp].(left := x)) &&
            a2[zp] == a[zp] && a2[z] == a[z] &&
            forall i :: 0 <= i < |a| && i != y && i != zl && i != zr && i != x && i != yp ==> a2[i] == a[i]
  {
  }

  /**
   * The link rewrites of the two-child case, in the order `rb_tree_rebalance_for_erase` makes
   * them: y adopts z's left child, then (unless y is z's right child) y is detached and adopts
   * z's right child, then y takes z's place and colour. x is y's right child and xp the node
   * the fix-up starts under.
   */
  method RewriteTwo(arena: Arena, z: int, y: int, ghost pz: seq<Dir>) returns (x: int, xp: int)
    requires TwoChildReady(arena.links, z, y, pz)
    modifies arena
    ensures arena.tree == old(arena.tree)
    ensures arena.links == Relinked(old(arena.links), z, y, pz)
    ensures x == old(arena.links[y].right) && xp == (if y == old(arena.links[z].right) then y else old(arena.links[y].parent))
  {
    AdoptLeft(arena, z, y);
    x, xp := DetachSuccessor(arena, z, y);
    TakePlace(arena, z, y, pz);
  }

  /** `z->left->parent = y; y->left = z->left`: y takes over z's left child zl. */
  method AdoptLeft(arena: Arena, z: int, y: int)
    requires 0 < z < |arena.links| && 0 < y < |arena.links| && 0 < arena.links[z].left < |arena.links|
    modifies arena
    ensures arena.tree == old(arena.tree) && arena.links == AdoptStep(old(arena.links), z, y)
  {
    var l := arena.links;
    var zl := l[z].left;
    l := l[zl := l[zl].(parent := y)];
    l := l[y := l[y].(left := zl)];
    arena.links := l;
  }

  /**
   * When y is not z's right child zr: y's right child x (possibly null) takes y's place as the
   * left child of y's parent yp, which is where the fix-up starts; y takes over zr. When y is
   * zr, x stays below y and the fix-up starts at y.
   */
  method DetachSuccessor(arena: Arena, z: int, y: int) returns (x: int, xp: int)
    requires var a := arena.links;
             0 < z < |a| && 0 < y < |a| && 0 < a[z].right < |a| && 0 <= a[y].parent < |a| &&
             (a[y].right != Null ==> 0 < a[y].right < |a|)
    modifies arena
    ensures arena.tree == old(arena.tree) && arena.links == DetachStep(old(arena.links), z, y)
    ensures x == old(arena.links[y].right) && xp == (if y == old(arena.links[z].right) then y else old(arena.links[y].parent))
  {
    var zr := arena.links[z].right;
    x := arena.links[y].right;
    var l := arena.links;
    if y != zr {
      xp := l[y].parent;
      if x != Null {
        l := l[x := l[x].(parent := xp)];
      }
      l := l[xp := l[xp].(left := x)];
      l := l[y := l[y].(right := zr)];
      l := l[zr := l[zr].(parent := y)];
    } else {
      xp := y;
    }
    arena.links := l;
  }

  /** y takes z's place under z's parent zp (or as the root), and y and z swap colours. */
  method TakePlace(arena: Arena, z: int, y: int, ghost pz: seq<Dir>)
    requires var a := arena.links;
             |a| > 0 && 0 < z < |a| && 0 < y < |a| && y != z &&
             var zp := a[z].parent;
             0 <= zp < |a| && zp != z && zp != y &&
             (pz == [] <==> a[Header].parent == z) && (pz == [] ==> zp == Header) &&
             (pz != [] ==> 0 < zp && ChildLink(a[zp], pz[|pz| - 1]) == z && ChildLink(a[zp], Other(pz[|pz| - 1])) != z)
    modifies arena
    ensures arena.tree == old(arena.tree) && arena.links == PlaceStep(old(arena.links), z, y, pz)
  {
    var l := arena.links;
    var zp := l[z].parent;
    if z == l[Header].parent {
      l := l[Header := l[Header].(parent := y)];
    } else if l[zp].left == z {
      l := l[zp := l[zp].(left := y)];
    } else {
      l := l[zp := l[zp].(right := y)];
    }
    l := l[y := l[y].(parent := zp)];
    var yc := l[y].black;
    l := l[y := l[y].(black := l[z].black)];
    l := l[z := l[z].(black := yc)];
    arena.links := l;
  }

  /** The links of z and its successor y as the tree lays them out. */
  lemma TwoChildValues(a: seq<Link>, t: Tree, pz: seq<Dir>, qy: seq<Dir>)
    requires TreeRepr(a, t) && IsPath(t, pz) && Sub(t, pz).Node? && Sub(t, pz).left.Node? && Sub(t, pz).right.Node?
    requires var r := Sub(t, pz).right;
             IsPath(r, qy) && Sub(r, qy).Node? && Sub(r, qy).left.Nil? && (forall i :: 0 <= i < |qy| ==> qy[i] == Left)
    ensures var s := Sub(t, pz); var ys := Sub(s.right, qy); var py := pz + [Right] + qy;
            IsPath(t, py) && Sub(t, py) == ys && 0 < s.id < |a| && 0 < ys.id < |a| &&
            0 <= Up(t, pz) < |a| && 0 <= Up(t, py) < |a| &&
            a[s.id] == Link(s.black, Up(t, pz), s.left.id, s.right.id) &&
            a[ys.id] == Link(ys.black, Up(t, py), Null, Ptr(ys.right)) &&
            (ys.right.Node? ==> 0 < ys.right.id < |a| && a[ys.right.id].parent == ys.id) &&
            (pz == [] <==> a[Header].parent == s.id) &&
            (pz != [] ==> ChildLink(a[Up(t, pz)], pz[|pz| - 1]) == s.id && ChildLink(a[Up(t, pz)], Other(pz[|pz| - 1])) != s.id) &&
            (qy != [] ==> a[Up(t, py)].left == ys.id)
  {
    var s := Sub(t, pz);
    var ys := Sub(s.right, qy);
    var py := pz + [Right] + qy;
    assert Sub(s, [Right]) == s.right;
    PathConcat(t, pz, [Right]);
    PathConcat(t, pz + [Right], qy);
    NodeLinks(a, t, pz);
    assert a[s.id] == Link(s.black, Up(t, pz), s.left.id, s.right.id);
    SuccessorValues(a, t, py);
    if qy != [] {
      assert py[|py| - 1] == qy[|qy| - 1];
    }
  }

  /** The links of a node y at py without a left child, and of its right child. */
  lemma SuccessorValues(a: seq<Link>, t: Tree, py: seq<Dir>)
    requires TreeRepr(a, t) && IsPath(t, py) && Sub(t, py).Node? && Sub(t, py).left.Nil?
    ensures var ys := Sub(t, py);
            0 < ys.id < |a| && 0 <= Up(t, py) < |a| &&
            a[ys.id] == Link(ys.black, Up(t, py), Null, Ptr(ys.right)) &&
            (ys.right.Node? ==> 0 < ys.right.id < |a| && a[ys.right.id].parent == ys.id) &&
            (py != [] ==> ChildLink(a[Up(t, py)], py[|py| - 1]) == ys.id)
  {
    var ys := Sub(t, py);
    NodeLinks(a, t, py);
    if ys.right.Node? {
      PathConcat(t, py, [Right]);
      NodeLinks(a, t, py + [Right]);
      UpLast(t, py, Right);
    }
  }

  /**
   * The nodes of the two-child case are in the arena and different wherever TwoChildReady
   * asks, given the links TwoChildValues describes.
   */
  lemma TwoChildLinks(a: seq<Link>, t: Tree, pz: seq<Dir>, qy: seq<Dir>)
    requires TreeRepr(a, t) && IsPath(t, pz) && Sub(t, pz).Node? && Sub(t, pz).left.Node? && Sub(t, pz).right.Node?
    requires var r := Sub(t, pz).right;
             IsPath(r, qy) && Sub(r, qy).Node? && Sub(r, qy).left.Nil? && (forall i :: 0 <= i < |qy| ==> qy[i] == Left)
    ensures TwoChildReady(a, Sub(t, pz).id, Sub(Sub(t, pz).right, qy).id, pz)
  {
    var s := Sub(t, pz);
    var ys := Sub(s.right, qy);
    var py := pz + [Right] + qy;
    TwoChildValues(a, t, pz, qy);
    TwoChildPlaces(t, pz, qy);
    ReprIds(a, t, Header);
    UpOutside(t, pz);
    if ys.right.Node? {
      assert ys.right.id in IdSet(ys.right);
    }
    assert s.left.id in IdSet(s.left);
    assert Header !in IdSet(t);
  }

  /**
   * The links before the colour-free part of the two-child rewrite: y detached from under its
   * parent yp, its right child x (possibly null) taking its place.
   */
  ghost function Unlinked(a: seq<Link>, z: int, y: int, pz: seq<Dir>): seq<Link>
    requires TwoChildReady(a, z, y, pz)
  {
    var zr, yp, x := a[z].right, a[y].parent, a[y].right;
    var a0 := if x != Null then a[x := a[x].(parent := yp)] else a;
    a0[yp := if y == zr then a0[yp].(right := x) else a0[yp].(left := x)]
  }

  /**
   * Against the links with y detached, the two-child rewrite gives y z's colour, parent and
   * children, points z's children and z's parent at y, and changes no other link but z's.
   */
  lemma RelinkedFromUnlinked(a: seq<Link>, z: int, y: int, pz: seq<Dir>)
    requires TwoChildReady(a, z, y, pz) && (a[y].right != Null ==> a[a[y].right].parent == y)
    ensures var zl, zr, zp, x := a[z].left, a[z].right, a[z].parent, a[y].right;
            var a1, l := Unlinked(a, z, y, pz), Relinked(a, z, y, pz);
            var rp := if y == zr then x else zr;
            |l| == |a1| == |a| && l[y] == Link(a[z].black, zp, zl, rp) &&
            l[zl] == a1[zl].(parent := y) && (rp != Null ==> 0 < rp < |a| && l[rp] == a1[rp].(parent := y)) &&
            l[zp] == Hook(a1[zp], pz, y) &&
            forall i :: 0 <= i < |a| && i != y && i != zl && i != rp && i != zp && i != z ==> l[i] == a1[i]
  {
    RelinkedFacts(a, z, y, pz);
  }

  /**
   * The two-child rewrite is the removal of y from its place at py = pz + [Right] + qy (y's
   * right child x moving up) followed by giving z's node the index y: the rewritten links
   * represent that tree.
   */
  lemma TwoChildRepr(a: seq<Link>, t: Tree, pz: seq<Dir>, qy: seq<Dir>)
    requires TreeRepr(a, t) && IsPath(t, pz) && Sub(t, pz).Node? && Sub(t, pz).left.Node? && Sub(t, pz).right.Node?
    requires var s := Sub(t, pz); var r := s.right;
             IsPath(r, qy) && Sub(r, qy).Node? && Sub(r, qy).left.Nil? && (forall i :: 0 <= i < |qy| ==> qy[i] == Left) &&
             var ys := Sub(r, qy); var r' := Replace(r, qy, ys.right);
             var t1 := Replace(t, pz + [Right] + qy, ys.right);
             IsPath(t1, pz) && Sub(t1, pz) == s.(right := r') && Up(t1, pz) == Up(t, pz) &&
             Ptr(r') == (if qy == [] then Ptr(ys.right) else r.id) && ys.id !in IdSet(t1)
    requires TwoChildReady(a, Sub(t, pz).id, Sub(Sub(t, pz).right, qy).id, pz)
    ensures var s := Sub(t, pz); var ys := Sub(s.right, qy);
            var t1 := Replace(t, pz + [Right] + qy, ys.right);
            TreeRepr(Relinked(a, s.id, ys.id, pz), Replace(t1, pz, Sub(t1, pz).(id := ys.id)))
  {
    var s := Sub(t, pz);
    var ys := Sub(s.right, qy);
    var py := pz + [Right] + qy;
    var z, y := s.id, ys.id;
    TwoChildValues(a, t, pz, qy);
    var x, yp := a[y].right, a[y].parent;
    var a0 := if x != Null then a[x := a[x].(parent := yp)] else a;
    assert Unlinked(a, z, y, pz) == a0[yp := Hook(a0[yp], py, x)] by {
      if qy != [] {
        assert py[|py| - 1] == qy[|qy| - 1];
      }
    }
    UnlinkRepr(a, Unlinked(a, z, y, pz), t, py);
    RelinkedFromUnlinked(a, z, y, pz);
    ReIdRepr(Unlinked(a, z, y, pz), Relinked(a, z, y, pz), Replace(t, py, ys.right), pz, y);
  }

  /** The header after the two-child rewrite: only its root pointer may change. */
  lemma RelinkedHeader(a: seq<Link>, z: int, y: int, pz: seq<Dir>)
    requires TwoChildReady(a, z, y, pz)
    ensures var l := Relinked(a, z, y, pz);
            |l| == |a| && l[Header].left == a[Header].left && l[Header].right == a[Header].right &&
            l[Header].black == a[Header].black && l[z].black == a[y].black
  {
    RelinkedFacts(a, z, y, pz);
  }

  /**
   * The two-child rewrite as a whole, on links a representing t: its links represent z's node
   * renamed y with y's old place filled by y's right child.
   */
  lemma TwoChildRelinked(a: seq<Link>, t: Tree, pz: seq<Dir>, qy: seq<Dir>)
    requires TreeRepr(a, t) && SuccessorPath(t, pz, qy)
    requires TwoChildReady(a, Sub(t, pz).id, Sub(Sub(t, pz).right, qy).id, pz)
    ensures var s := Sub(t, pz); var ys := Sub(s.right, qy);
            TreeRepr(Relinked(a, s.id, ys.id, pz), Replace(t, pz, Node(s.black, s.left, ys.id, Replace(s.right, qy, ys.right))))
  {
    TwoChildShape(t, pz, qy);
    TwoChildRepr(a, t, pz, qy);
  }

  /**
   * The links around the two-child rewrite: the header's extreme pointers and colour stay, z's
   * link takes y's colour, and y's right child and parent are where the fix-up starts.
   */
  lemma TwoChildRelinkedLinks(a: seq<Link>, t: Tree, pz: seq<Dir>, qy: seq<Dir>)
    requires TreeRepr(a, t) && SuccessorPath(t, pz, qy)
    requires TwoChildReady(a, Sub(t, pz).id, Sub(Sub(t, pz).right, qy).id, pz)
    ensures var s := Sub(t, pz); var ys := Sub(s.right, qy); var z, y := s.id, ys.id;
            var l := Relinked(a, z, y, pz);
            |l| == |a| && l[Header].left == a[Header].left && l[Header].right == a[Header].right &&
            l[Header].black == a[Header].black && l[z].black == ys.black &&
            a[y].right == Ptr(ys.right) && (y == a[z].right <==> qy == []) &&
            (qy != [] ==> a[y].parent == Up(t, pz + [Right] + qy))
  {
    TwoChildValues(a, t, pz, qy);
    RelinkedHeader(a, Sub(t, pz).id, Sub(Sub(t, pz).right, qy).id, pz);
  }

  /**
   * The two-child rewrite on a represented tree, for z at pz and its successor y at qy inside
   * z's right subtree: the links afterwards represent z's node renamed y with y's old place
   * filled by y's right child x; the header's extreme pointers and colour stay; z's link keeps
   * y's old colour. The fix-up starts at x, under y's old parent, or under y itself when y was
   * z's right child.
   */
  method RelinkTwo(arena: Arena, z: int, y: int, ghost pz: seq<Dir>, ghost qy: seq<Dir>) returns (x: int, xp: int)
    requires arena.Valid() && SuccessorPath(arena.tree, pz, qy)
    requires z == Sub(arena.tree, pz).id && y == Sub(Sub(arena.tree, pz).right, qy).id
    modifies arena
    ensures arena.tree == old(arena.tree) && |arena.links| == old(|arena.links|)
    ensures var t := old(arena.tree); var s := Sub(t, pz); var ys := Sub(s.right, qy);
            TreeRepr(arena.links, Replace(t, pz, Node(s.black, s.left, y, Replace(s.right, qy, ys.right)))) &&
            x == Ptr(ys.right) && xp == (if qy == [] then y else Up(t, pz + [Right] + qy)) &&
            0 < z < |arena.links| && arena.links[z].black == ys.black
    ensures arena.links[Header].left == old(arena.links[Header].left)
    ensures arena.links[Header].right == old(arena.links[Header].right)
    ensures arena.links[Header].black == old(arena.links[Header].black)
  {
    ghost var t := arena.tree;
    ghost var a := arena.links;
    TwoChildLinks(a, t, pz, qy);
    TwoChildRelinked(a, t, pz, qy);
    TwoChildRelinkedLinks(a, t, pz, qy);
    x, xp := RewriteTwo(arena, z, y, pz);
  }

  /**
   * The unlinking step of `rb_tree_rebalance_for_erase` for a node z at pz with two children,
   * with the successor search corrected (see README): y, the leftmost node of z's right
   * subtree (at px, with no left child), takes over z's left child; unless y is z's right
   * child, y's right child x takes y's place under y's parent and y takes over z's right child;
   * then y takes z's place under z's parent, and y and z swap colours. The resulting tree is z's
   * node renamed y with y's old place filled by x, the in-order sequence loses z, and z's link
   * now carries the colour of the node removed from px, where the colour fix-up starts.
   */
  method SpliceTwo(arena: Arena, z: int, ghost pz: seq<Dir>) returns (x: int, xp: int, ghost px: seq<Dir>)
    requires arena.Valid() && Extremes(arena.links, arena.tree) && IsPath(arena.tree, pz) && Sub(arena.tree, pz).Node?
    requires z == Sub(arena.tree, pz).id && Sub(arena.tree, pz).left.Node? && Sub(arena.tree, pz).right.Node?
    modifies arena
    ensures |px| > |pz| && px[..|pz| + 1] == pz + [Right]
    ensures var t := old(arena.tree);
            IsPath(t, px) && Sub(t, px).Node? && Sub(t, px).left.Nil? && Sub(t, px).id == MinId(Sub(t, pz).right)
    ensures var t := old(arena.tree); var ys := Sub(t, px); var t1 := Replace(t, px, ys.right);
            IsPath(t1, pz) && Sub(t1, pz).Node? && arena.tree == Replace(t1, pz, Sub(t1, pz).(id := ys.id))
    ensures arena.Valid() && Extremes(arena.links, arena.tree) && arena.links[Header].black == old(arena.links[Header].black)
    ensures Ids(arena.tree) == Remove(Ids(old(arena.tree)), z)
    ensures IsPath(arena.tree, px) && x == Ptr(Sub(arena.tree, px)) && xp == Up(arena.tree, px)
    ensures 0 < z < |arena.links| && arena.links[z].black == Sub(old(arena.tree), px).black
  {
    ghost var t := arena.tree;
    ghost var s := Sub(t, pz);
    ghost var qy := SuccessorOf(t, pz);
    px := pz + [Right] + qy;
    ghost var ys := Sub(s.right, qy);
    ghost var t2 := Replace(t, pz, Node(s.black, s.left, ys.id, Replace(s.right, qy, ys.right)));
    assert px[..|pz| + 1] == pz + [Right];
    TwoChildShape(t, pz, qy);
    TwoChildIds(t, pz, qy);
    TwoChildUp(t, pz, qy);
    PathConcat(t, pz, [Right]);
    assert Sub(s, [Right]) == s.right;
    NodeLinks(arena.links, t, pz);
    var zr := arena.links[z].right;
    var y := arena.Minimum(zr, pz + [Right]);
    x, xp := RelinkTwo(arena, z, y, pz, qy);
    arena.tree := t2;
  }

  /** Renaming the node at p keeps a red-black tree red-black. */
  lemma ReIdRedBlack(t: Tree, p: seq<Dir>, i: int)
    requires RedBlack(t) && IsPath(t, p) && Sub(t, p).Node?
    ensures RedBlack(Replace(t, p, Sub(t, p).(id := i)))
  {
    var s := Sub(t, p);
    BalancedSub(t, p);
    BalancedReplace(t, p, s.(id := i));
    RedOkAtStrict(t, p, false, false);
    ReIdAt(t, p, [], i);
    assert p + [] == p;
    SubReplace(t, p, s.(id := i));
    RedOkAtStrict(Replace(t, p, s.(id := i)), p, false, false);
  }

  /** Renaming the node at p keeps the fix-up invariant at a place p + q below it. */
  lemma ReIdEraseInv(t: Tree, p: seq<Dir>, q: seq<Dir>, i: int)
    requires EraseInv(t, p + q) && IsPath(t, p) && Sub(t, p).Node? && q != []
    ensures EraseInv(Replace(t, p, Sub(t, p).(id := i)), p + q)
  {
    ReIdAt(t, p, q, i);
  }

  /**
   * `rb_tree_rebalance_for_erase(z, root, leftmost, rightmost)`, with the corrections listed
   * in the README: z, a node of a red-black tree, is unlinked (directly when it has at most one
   * child, by its successor taking its place otherwise), the header's leftmost and rightmost
   * pointers are moved off z, and when the removed colour was black the erase fix-up restores
   * the red-black conditions. The result is z, now out of the tree and ready to be freed: the
   * tree is red-black, its in-order sequence is the old one without z, the header's extreme
   * pointers name its first and last nodes, and the header keeps its colour.
   */
  method RebalanceForErase(arena: Arena, z: int, ghost pz: seq<Dir>) returns (y: int)
    requires arena.Valid() && RedBlack(arena.tree) && Extremes(arena.links, arena.tree)
    requires IsPath(arena.tree, pz) && Sub(arena.tree, pz).Node? && z == Sub(arena.tree, pz).id
    modifies arena
    ensures arena.Valid() && RedBlack(arena.tree) && Extremes(arena.links, arena.tree)
    ensures Ids(arena.tree) == Remove(Ids(old(arena.tree)), z) && y == z
    ensures arena.links[Header].black == old(arena.links[Header].black)
  {
    ghost var t := arena.tree;
    ghost var s := Sub(t, pz);
    var x, xp;
    ghost var px;
    ChildPtrs(arena.links, t, pz);
    if arena.links[z].left == Null || arena.links[z].right == Null {
      x, xp := SpliceOne(arena, z, pz);
      px := pz;
      RemoveOne(t, pz);
    } else {
      x, xp, px := SpliceTwo(arena, z, pz);
      ghost var ys := Sub(t, px);
      ghost var t1 := Replace(t, px, ys.right);
      RemoveOne(t, px);
      ghost var q := px[|pz|..];
      assert px == pz + q && q != [] by {
        assert px[..|pz| + 1] == pz + [Right];
        assert px == px[..|pz|] + px[|pz|..];
        assert px[..|pz|] == (pz + [Right])[..|pz|] == pz;
      }
      if ys.black {
        ReIdEraseInv(t1, pz, q, ys.id);
      } else {
        ReIdRedBlack(t1, pz, ys.id);
      }
    }
    if arena.links[z].black {
      EraseFixup(arena, x, xp, px);
    }
    y := z;
  }
}
