/**
 * The colour fix-ups of `rb_tree_reblance` (after inserting a node) on tree values. Each step of
 * the source's loop is one lemma, stated generically over the side (`dp`) on which x's parent hangs
 * from x's grandparent, so that one lemma covers both mirrored branches of the source.
 */
module RbFixup {
  import opened RbShape

  /**
   * The insertion loop's invariant with x at p: x is red, black heights agree, the only red node
   * with a red child is x's parent, and the root is black unless it is x.
   */
  ghost predicate InsertInv(t: Tree, p: seq<Dir>)
  {
    RedAt(t, p) && Balanced(t) && RedOkAt(t, p, true, false) && (!IsRed(t) || p == [])
  }

  /** A red leaf x put where an empty subtree of a red-black tree was satisfies the invariant. */
  lemma InsertStart(t: Tree, p: seq<Dir>, x: int)
    requires IsPath(t, p) && Sub(t, p).Nil? && RedBlack(t)
    ensures InsertInv(Replace(t, p, Node(false, Nil, x, Nil)), p)
  {
    var leaf := Node(false, Nil, x, Nil);
    SubReplace(t, p, leaf);
    BalancedReplace(t, p, leaf);
    RedOkAtStrict(t, p, true, false);
    assert p + [] == p;
    RedOkAtReplace(t, p, [], leaf, [], true, false);
    if p != [] {
      RootReplace(t, p, leaf);
    }
  }

  /** When x is the root or its parent is black, colouring the root black gives a red-black tree. */
  lemma InsertFinish(t: Tree, p: seq<Dir>)
    requires InsertInv(t, p) && !UpRed(t, p)
    ensures t.Node? && RedBlack(RecolorAt(t, [], true))
  {
    RedOkAtSettled(t, p, true);
    Recolored(t, true);
  }

  /** While x's parent is red, x lies two levels or more below the root. */
  lemma InsertDepth(t: Tree, p: seq<Dir>)
    requires InsertInv(t, p) && UpRed(t, p)
    ensures |p| >= 2
  {
  }

  /**
   * Case 1: x's parent (toward dp from the grandparent at g) and uncle are red. Colouring parent
   * and uncle black and the grandparent red moves the invariant up to the grandparent.
   */
  lemma InsertRecolor(t: Tree, g: seq<Dir>, dp: Dir, dx: Dir)
    requires InsertInv(t, g + [dp, dx]) && UpRed(t, g + [dp, dx])
    requires IsPath(t, g) && Sub(t, g).Node? && IsRed(Child(Sub(t, g), Other(dp)))
    ensures IsPath(t, g + [dp]) && IsPath(t, g + [Other(dp)])
    ensures Sub(t, g + [dp]).Node? && Sub(t, g + [Other(dp)]).Node?
    ensures var t1 := RecolorAt(t, g + [dp], true);
            IsPath(t1, g + [Other(dp)]) && Sub(t1, g + [Other(dp)]).Node? &&
            Sub(t1, g + [Other(dp)]).id == Sub(t, g + [Other(dp)]).id &&
            var t2 := RecolorAt(t1, g + [Other(dp)], true);
            IsPath(t2, g) && Sub(t2, g).Node? && Sub(t2, g).id == Sub(t, g).id &&
            var t3 := RecolorAt(t2, g, false);
            InsertInv(t3, g) && Ids(t3) == Ids(t) && Sub(t3, g).id == Sub(t, g).id
  {
    var s := Sub(t, g);
    var px := g + [dp, dx];
    assert px == g + [dp] + [dx];
    PathConcat(t, g, [dp, dx]);
    PathConcat(t, g, [dp]);
    PathConcat(t, g, [Other(dp)]);
    UpRedLast(t, g + [dp], dx);
    PathConcat(t, g, [dp]);
    ReplaceSame(t, g);
    OneStep(s, dp, Child(s, dp).(black := true));
    var s1 := RecolorAt(s, [dp], true);
    OneStep(s1, Other(dp), Child(s, Other(dp)).(black := true));
    RecolorLocal(t, g, s, [dp], true);
    var t1 := RecolorAt(t, g + [dp], true);
    assert t1 == Replace(t, g, s1);
    var s2 := RecolorAt(s1, [Other(dp)], true);
    RecolorLocal(t, g, s1, [Other(dp)], true);
    var t2 := RecolorAt(t1, g + [Other(dp)], true);
    assert t2 == Replace(t, g, s2);
    var s3 := s2.(black := false);
    SubReplace(t, g, s2);
    ReplaceTwice(t, g, s2, s3);
    var t3 := RecolorAt(t2, g, false);
    assert t3 == Replace(t, g, s3);
    RecolorCase(t, g, dp, dx, s3);
    SameIds(t, g, s3);
    SubReplace(t, g, s3);
    if g != [] {
      RootReplace(t, g, s3);
    }
  }

  /** The local part of case 1 on the grandparent's subtree. */
  lemma RecolorCase(t: Tree, g: seq<Dir>, dp: Dir, dx: Dir, s3: Tree)
    requires IsPath(t, g + [dp, dx]) && IsPath(t, g) && Sub(t, g).Node?
    requires Balanced(t) && RedOkAt(t, g + [dp, dx], true, false)
    requires IsRed(Child(Sub(t, g), dp)) && IsRed(Child(Sub(t, g), Other(dp)))
    requires var s := Sub(t, g);
             s3 == WithChild(WithChild(s, dp, Child(s, dp).(black := true)), Other(dp), Child(s, Other(dp)).(black := true)).(black := false)
    ensures Balanced(Replace(t, g, s3)) && RedOkAt(Replace(t, g, s3), g, true, false)
    ensures Ids(s3) == Ids(Sub(t, g)) && IsRed(s3)
  {
    var s := Sub(t, g);
    BalancedSub(t, g);
    RedOkAtSub(t, g, [dp, dx], true, false);
    var p := Child(s, dp);
    assert [dp, dx][1..] == [dx];
    RedOkAtPair(p, dx);
    var u := Child(s, Other(dp));
    Recolored(p, true);
    Recolored(u, true);
    assert Balanced(s3);
    BalancedReplace(t, g, s3);
    assert g + [] == g;
    RedOkAtReplace(t, g, [dp, dx], s3, [], true, false);
  }

  /** Recolouring a node keeps its subtrees balanced and moves its black height by one at most. */
  lemma Recolored(t: Tree, b: bool)
    requires t.Node? && Balanced(t)
    ensures Balanced(t.(black := b)) && BH(t.(black := b)) == BH(t.left) + (if b then 1 else 0)
    ensures RedOk(t) ==> RedOk(t.(black := true))
  {
  }

  /** Below a red parent at the end of the path, x's subtree and its sibling satisfy RedOk. */
  lemma RedOkAtPair(p: Tree, dx: Dir)
    requires RedOkAt(p, [dx], true, false)
    ensures p.Node? && RedOk(Child(p, dx)) && RedOk(Child(p, Other(dx)))
    ensures !p.black ==> !IsRed(Child(p, Other(dx)))
    ensures IsRed(Child(p, dx)) ==> !IsRed(Child(Child(p, dx), Left)) && !IsRed(Child(Child(p, dx), Right))
  {
    assert [dx][1..] == [];
  }

  /** A node with its child toward d and its other child given: the mirror-free way to build one. */
  function Mk(b: bool, d: Dir, near: Tree, id: int, far: Tree): (r: Tree)
    ensures r.Node? && r.black == b && r.id == id && Child(r, d) == near && Child(r, Other(d)) == far
  {
    if d == Left then Node(b, near, id, far) else Node(b, far, id, near)
  }

  lemma MkOf(t: Tree, d: Dir)
    requires t.Node?
    ensures t == Mk(t.black, d, Child(t, d), t.id, Child(t, Other(d)))
    ensures t == Mk(t.black, Other(d), Child(t, Other(d)), t.id, Child(t, d))
  {
  }

  /** The colour conditions on a node built by Mk, one level down. */
  lemma MkFacts(b: bool, d: Dir, n: Tree, i: int, f: Tree)
    ensures Balanced(Mk(b, d, n, i, f)) <==> Balanced(n) && Balanced(f) && BH(n) == BH(f)
    ensures BH(n) == BH(f) ==> BH(Mk(b, d, n, i, f)) == BH(n) + (if b then 1 else 0)
    ensures RedOk(Mk(b, d, n, i, f)) <==> RedOk(n) && RedOk(f) && (b || (!IsRed(n) && !IsRed(f)))
    ensures forall o :: RedOkAt(Mk(b, d, n, i, f), [], true, o) <==> RedOk(n) && RedOk(f) && (o || b || (!IsRed(n) && !IsRed(f)))
  {
  }

  /** RedOkAt along a path through the child toward d of a node built by Mk. */
  lemma MkRedOkAt(b: bool, d: Dir, n: Tree, i: int, f: Tree, q: seq<Dir>)
    ensures RedOkAt(Mk(b, d, n, i, f), [d] + q, true, false) <==>
            RedOkAt(n, q, true, false) && RedOk(f) && (b || !IsRed(f)) && (b || !IsRed(n) || q == [])
  {
    assert ([d] + q)[0] == d && ([d] + q)[1..] == q;
  }

  /** The rotation that lifts the child toward d, on nodes built by Mk. */
  lemma MkRot(b: bool, d: Dir, c: bool, x: Tree, j: int, y: Tree, i: int, f: Tree)
    ensures RotSub(Mk(b, d, Mk(c, d, x, j, y), i, f), d) == Mk(c, d, x, j, Mk(b, d, y, i, f))
  {
  }

  /**
   * The neighbourhood of x while its parent is red: the grandparent is black, and the subtrees
   * hanging off the parent and x satisfy RedOk, with black roots (the uncle's colour is the case).
   */
  lemma InsertShape(t: Tree, g: seq<Dir>, dp: Dir, dx: Dir)
    requires InsertInv(t, g + [dp, dx]) && UpRed(t, g + [dp, dx]) && IsPath(t, g) && Sub(t, g).Node?
    ensures var s := Sub(t, g);
            var p := Child(s, dp);
            IsPath(t, g + [dp]) && Sub(t, g + [dp]) == p && p.Node? &&
            var x := Child(p, dx);
            x.Node? && Sub(t, g + [dp, dx]) == x &&
            s.black && !p.black && !x.black && RedOk(Child(s, Other(dp))) &&
            RedOk(Child(p, Other(dx))) && !IsRed(Child(p, Other(dx))) &&
            RedOk(x.left) && RedOk(x.right) && !IsRed(x.left) && !IsRed(x.right)
  {
    var s := Sub(t, g);
    assert g + [dp, dx] == g + [dp] + [dx];
    PathConcat(t, g, [dp, dx]);
    PathConcat(t, g, [dp]);
    PathConcat(t, g + [dp], [dx]);
    UpRedLast(t, g + [dp], dx);
    OneStep(s, dp, s);
    var p := Child(s, dp);
    OneStep(p, dx, p);
    var x := Child(p, dx);
    RedOkAtSub(t, g, [dp, dx], true, false);
    assert [dp, dx] == [dp] + [dx];
    MkOf(s, dp);
    MkRedOkAt(s.black, dp, p, s.id, Child(s, Other(dp)), [dx]);
    MkOf(p, dx);
    MkRedOkAt(false, dx, x, p.id, Child(p, Other(dx)), []);
    assert [dx] + [] == [dx];
    MkOf(x, Left);
    MkFacts(false, Left, x.left, x.id, x.right);
  }

  /**
   * Case 2: x is the inner child of its red parent and the uncle is black. Rotating at the parent,
   * lifting x, makes the old parent the outer child of x, with the invariant at its new place.
   */
  lemma InsertInner(t: Tree, g: seq<Dir>, dp: Dir)
    requires InsertInv(t, g + [dp, Other(dp)]) && UpRed(t, g + [dp, Other(dp)])
    requires IsPath(t, g) && Sub(t, g).Node? && !IsRed(Child(Sub(t, g), Other(dp)))
    ensures IsPath(t, g + [dp]) && Sub(t, g + [dp]).Node? && Child(Sub(t, g + [dp]), Other(dp)).Node?
    ensures var t1 := Rotate(t, g + [dp], Other(dp));
            InsertInv(t1, g + [dp, dp]) && UpRed(t1, g + [dp, dp]) && Ids(t1) == Ids(t) &&
            IsPath(t1, g) && Sub(t1, g).Node? && !IsRed(Child(Sub(t1, g), Other(dp))) &&
            Sub(t1, g).id == Sub(t, g).id && Sub(t1, g + [dp, dp]).id == Sub(t, g + [dp]).id
  {
    var od := Other(dp);
    var s := Sub(t, g);
    InsertShape(t, g, dp, od);
    var p := Child(s, dp);
    var x := Child(p, od);
    MkOf(s, dp);
    MkOf(p, od);
    MkOf(x, od);
    var a, b, c, u := Child(p, dp), Child(x, dp), Child(x, od), Child(s, od);
    // the rotation on the grandparent's subtree
    var s1 := Mk(true, dp, Mk(false, dp, Mk(false, dp, a, p.id, b), x.id, c), s.id, u);
    MkRot(false, od, false, c, x.id, b, p.id, a);
    assert RotSub(p, od) == Mk(false, dp, Mk(false, dp, a, p.id, b), x.id, c);
    ReplaceSame(t, g);
    RotateLocal(t, g, s, [dp], od);
    OneStep(s, dp, RotSub(p, od));
    var t1 := Rotate(t, g + [dp], od);
    assert t1 == Replace(t, g, s1);
    BalancedSub(t, g);
    MkOf(p, dp);
    MkOf(x, dp);
    assert s == Mk(true, dp, Mk(false, dp, a, p.id, Mk(false, od, c, x.id, b)), s.id, u);
    InnerCase(dp, a, p.id, b, x.id, c, s.id, u);
    BalancedReplace(t, g, s1);
    RedOkAtReplace(t, g, [dp, od], s1, [dp, dp], true, false);
    SameIds(s, [dp], RotSub(p, od));
    SameIds(t, g, s1);
    SubReplace(t, g, s1);
    assert g + [dp, dp] == g + [dp] + [dp];
    PathConcat(t1, g, [dp, dp]);
    PathConcat(t1, g, [dp]);
    UpRedLast(t1, g + [dp], dp);
    assert [dp, dp][1..] == [dp] && [dp][1..] == [];
    if g != [] {
      RootReplace(t, g, s1);
    }
  }

  /** The colours of case 2 on the grandparent's subtree, with p's subtree a and x's subtrees b and c. */
  lemma InnerCase(dp: Dir, a: Tree, p: int, b: Tree, x: int, c: Tree, g: int, u: Tree)
    requires Balanced(Mk(true, dp, Mk(false, dp, a, p, Mk(false, Other(dp), c, x, b)), g, u))
    requires RedOk(a) && RedOk(b) && RedOk(c) && RedOk(u)
    requires !IsRed(a) && !IsRed(b) && !IsRed(c) && !IsRed(u)
    ensures var s1 := Mk(true, dp, Mk(false, dp, Mk(false, dp, a, p, b), x, c), g, u);
            Balanced(s1) && BH(s1) == BH(Mk(true, dp, Mk(false, dp, a, p, Mk(false, Other(dp), c, x, b)), g, u)) &&
            RedOkAt(s1, [dp, dp], true, false) && IsRed(Child(s1, dp)) && IsPath(s1, [dp, dp]) &&
            IsRed(Sub(s1, [dp, dp])) && Sub(s1, [dp, dp]).id == p
  {
    var xs := Mk(false, Other(dp), c, x, b);
    var ps := Mk(false, dp, a, p, xs);
    MkFacts(true, dp, ps, g, u);
    MkFacts(false, dp, a, p, xs);
    MkFacts(false, Other(dp), c, x, b);
    var l := Mk(false, dp, a, p, b);
    var m := Mk(false, dp, l, x, c);
    MkFacts(false, dp, a, p, b);
    MkFacts(false, dp, l, x, c);
    MkFacts(true, dp, m, g, u);
    MkRedOkAt(true, dp, m, g, u, [dp]);
    MkRedOkAt(false, dp, l, x, c, []);
    assert [dp] + [dp] == [dp, dp] && [dp] + [] == [dp];
    var s1 := Mk(true, dp, m, g, u);
    OneStep(s1, dp, s1);
    OneStep(m, dp, m);
    assert [dp, dp] == [dp] + [dp];
    PathConcat(s1, [dp], [dp]);
  }

  /**
   * Case 3: x is the outer child of its red parent and the uncle is black. Colouring the parent
   * black and the grandparent red and rotating at the grandparent, lifting the parent, ends the
   * loop: x's new parent is black.
   */
  lemma InsertOuter(t: Tree, g: seq<Dir>, dp: Dir)
    requires InsertInv(t, g + [dp, dp]) && UpRed(t, g + [dp, dp])
    requires IsPath(t, g) && Sub(t, g).Node? && !IsRed(Child(Sub(t, g), Other(dp)))
    ensures IsPath(t, g + [dp]) && Sub(t, g + [dp]).Node?
    ensures var t2 := RecolorAt(t, g + [dp], true);
            IsPath(t2, g) && Sub(t2, g).Node? && Sub(t2, g).id == Sub(t, g).id &&
            var t3 := RecolorAt(t2, g, false);
            IsPath(t3, g) && Sub(t3, g).Node? && Sub(t3, g).id == Sub(t, g).id && Child(Sub(t3, g), dp).Node? &&
            var t4 := Rotate(t3, g, dp);
            InsertInv(t4, g + [dp]) && !UpRed(t4, g + [dp]) && Ids(t4) == Ids(t) &&
            Sub(t4, g + [dp]).id == Sub(t, g + [dp, dp]).id
  {
    var od := Other(dp);
    var s := Sub(t, g);
    InsertShape(t, g, dp, dp);
    var p := Child(s, dp);
    var x := Child(p, dp);
    MkOf(s, dp);
    MkOf(p, dp);
    OneStep(s, dp, s);
    assert RedOk(x) by {
      MkOf(x, dp);
      MkFacts(false, dp, Child(x, dp), x.id, Child(x, od));
    }
    var b, u := Child(p, od), Child(s, od);
    // the two recolourings and the rotation on the grandparent's subtree
    var s2 := Mk(true, dp, Mk(true, dp, x, p.id, b), s.id, u);
    var s3 := s2.(black := false);
    assert s3 == Mk(false, dp, Mk(true, dp, x, p.id, b), s.id, u);
    MkRot(false, dp, true, x, p.id, b, s.id, u);
    var s4 := Mk(true, dp, x, p.id, Mk(false, dp, b, s.id, u));
    ReplaceSame(t, g);
    RecolorLocal(t, g, s, [dp], true);
    OneStep(s, dp, p.(black := true));
    var t2 := RecolorAt(t, g + [dp], true);
    assert t2 == Replace(t, g, s2);
    SubReplace(t, g, s2);
    ReplaceTwice(t, g, s2, s3);
    var t3 := RecolorAt(t2, g, false);
    assert t3 == Replace(t, g, s3);
    SubReplace(t, g, s3);
    ReplaceTwice(t, g, s3, s4);
    var t4 := Rotate(t3, g, dp);
    assert t4 == Replace(t, g, s4);
    BalancedSub(t, g);
    assert s == Mk(true, dp, Mk(false, dp, x, p.id, b), s.id, u);
    OuterCase(dp, x, p.id, b, s.id, u);
    BalancedReplace(t, g, s4);
    RedOkAtReplace(t, g, [dp, dp], s4, [dp], true, false);
    SameIds(s, [dp], p.(black := true));
    assert Ids(s4) == Ids(s3);
    SameIds(t, g, s4);
    SubReplace(t, g, s4);
    PathConcat(t4, g, [dp]);
    UpRedLast(t4, g, dp);
    OneStep(s4, dp, s4);
    if g != [] {
      RootReplace(t, g, s4);
    }
  }

  /** The colours of case 3 on the grandparent's subtree, with x's subtree x, p's other subtree b. */
  lemma OuterCase(dp: Dir, x: Tree, p: int, b: Tree, g: int, u: Tree)
    requires Balanced(Mk(true, dp, Mk(false, dp, x, p, b), g, u))
    requires RedOk(x) && RedOk(b) && RedOk(u) && IsRed(x) && !IsRed(b) && !IsRed(u)
    ensures var s4 := Mk(true, dp, x, p, Mk(false, dp, b, g, u));
            Balanced(s4) && BH(s4) == BH(Mk(true, dp, Mk(false, dp, x, p, b), g, u)) &&
            RedOkAt(s4, [dp], true, false)
  {
    MkFacts(true, dp, Mk(false, dp, x, p, b), g, u);
    MkFacts(false, dp, x, p, b);
    MkFacts(false, dp, b, g, u);
    var r := Mk(false, dp, b, g, u);
    MkFacts(true, dp, x, p, r);
    MkRedOkAt(true, dp, x, p, r, []);
    assert [dp] + [] == [dp];
    RedOkAtStrict(x, [], true, false);
  }
}
