/**
 * The colour fix-up of `rb_tree_rebalance_for_erase` on tree values. The node x at px (possibly
 * an empty subtree) carries one extra black; each lemma is one case of the source's loop, stated
 * over the side `dx` on which x hangs from its parent, so that one lemma covers both mirrored
 * branches.
 */
module RbEraseFixup {
  import opened RbShape
  import opened RbFixup

  /**
   * The erase loop's invariant with x at p: black heights agree once x counts one extra black,
   * the only red-red edges are into or out of x, and the root is black unless it is x.
   */
  ghost predicate EraseInv(t: Tree, p: seq<Dir>)
  {
    EBalanced(t, p) && RedOkAt(t, p, true, true) && (!IsRed(t) || p == [])
  }

  /** A red node's parent is not red. */
  lemma {:induction false} RedNoRedParent(t: Tree, p: seq<Dir>)
    requires IsPath(t, p) && RedOk(t) && IsRed(Sub(t, p))
    ensures !UpRed(t, p)
  {
    if |p| == 1 {
      assert p[1..] == [] && Sub(t, p) == Child(t, p[0]);
    } else if p != [] {
      RedNoRedParent(Child(t, p[0]), p[1..]);
    }
  }

  lemma {:induction false} EBalancedIsPath(t: Tree, p: seq<Dir>)
    requires EBalanced(t, p)
    ensures IsPath(t, p)
  {
  }

  /** The subtree at p + [d] is the child toward d of the subtree at p. */
  lemma StepDown(t: Tree, p: seq<Dir>, d: Dir)
    requires IsPath(t, p) && Sub(t, p).Node?
    ensures IsPath(t, p + [d]) && Sub(t, p + [d]) == Child(Sub(t, p), d)
  {
    PathConcat(t, p, [d]);
    OneStep(Sub(t, p), d, Sub(t, p));
  }

  /** Two steps down from s, toward d and then e, and the replacement of the grandchild there. */
  lemma TwoDown(s: Tree, d: Dir, e: Dir, u: Tree)
    requires s.Node? && Child(s, d).Node?
    ensures IsPath(s, [d, e]) && Sub(s, [d, e]) == Child(Child(s, d), e)
    ensures Replace(s, [d, e], u) == WithChild(s, d, WithChild(Child(s, d), e, u))
  {
    assert [d, e][0] == d && [d, e][1..] == [e] && [e][1..] == [];
    assert Replace(Child(s, d), [e], u) == WithChild(Child(s, d), e, u);
    assert Sub(Child(s, d), [e]) == Child(Child(s, d), e);
  }

  /**
   * When x at pp + [dx] is black and not the root: x's parent, x and its sibling w, with the
   * sibling a node whose black height is one more than x's, and the whole tree free of red-red
   * edges.
   */
  lemma EraseShape(t: Tree, pp: seq<Dir>, dx: Dir)
    requires EraseInv(t, pp + [dx]) && !RedAt(t, pp + [dx])
    ensures IsPath(t, pp) && Sub(t, pp).Node? && RedOk(t)
    ensures IsPath(t, pp + [dx]) && Sub(t, pp + [dx]) == Child(Sub(t, pp), dx)
    ensures IsPath(t, pp + [Other(dx)]) && Sub(t, pp + [Other(dx)]) == Child(Sub(t, pp), Other(dx))
    ensures var s := Sub(t, pp); var x, w := Child(s, dx), Child(s, Other(dx));
            w.Node? && !IsRed(x) && Balanced(x) && Balanced(w) && BH(x) + 1 == BH(w) &&
            RedOk(s) && RedOk(x) && RedOk(w) &&
            EBalanced(s, [dx]) && EBH(s, [dx]) == BH(x) + 1 + (if s.black then 1 else 0)
    ensures IsRed(Sub(t, pp)) ==> !UpRed(t, pp)
    ensures pp == [] ==> !IsRed(t)
  {
    EBalancedIsPath(t, pp + [dx]);
    PathConcat(t, pp, [dx]);
    RedOkAtBlack(t, pp + [dx], true, true);
    EBalancedSub(t, pp, [dx]);
    var s := Sub(t, pp);
    StepDown(t, pp, dx);
    StepDown(t, pp, Other(dx));
    RedOkSub(t, pp);
    assert [dx][1..] == [];
    if IsRed(s) {
      RedNoRedParent(t, pp);
    }
  }

  lemma {:induction false} RedOkSub(t: Tree, p: seq<Dir>)
    requires IsPath(t, p) && RedOk(t)
    ensures RedOk(Sub(t, p))
  {
    if p != [] {
      RedOkSub(Child(t, p[0]), p[1..]);
    }
  }

  /** Two recolourings below p and one at p, on a tree holding s at p, act on s. */
  lemma RecolorTwice(t: Tree, p: seq<Dir>, s: Tree, q: seq<Dir>, b: bool, c: bool)
    requires IsPath(t, p) && IsPath(s, q) && Sub(s, q).Node? && s.Node?
    ensures IsPath(Replace(t, p, s), p + q) && Sub(Replace(t, p, s), p + q) == Sub(s, q)
    ensures RecolorAt(Replace(t, p, s), p + q, b) == Replace(t, p, RecolorAt(s, q, b))
    ensures IsPath(Replace(t, p, s), p) && Sub(Replace(t, p, s), p) == s
    ensures RecolorAt(Replace(t, p, s), p, c) == Replace(t, p, s.(black := c))
  {
    RecolorLocal(t, p, s, q, b);
    SubReplace(t, p, s);
    ReplaceTwice(t, p, s, s.(black := c));
  }

  /** The in-order sequence of a node built by Mk does not depend on its colour. */
  lemma MkIds(b: bool, c: bool, d: Dir, n: Tree, i: int, f: Tree, n': Tree, f': Tree)
    requires Ids(n) == Ids(n') && Ids(f) == Ids(f')
    ensures Ids(Mk(b, d, n, i, f)) == Ids(Mk(c, d, n', i, f'))
  {
  }

  /** One step down a path: the definitions of the path predicates unfolded once. */
  lemma ConsStep(s: Tree, d: Dir, q: seq<Dir>, i: bool, o: bool)
    requires s.Node?
    ensures IsPath(s, [d] + q) == IsPath(Child(s, d), q) && Sub(s, [d] + q) == Sub(Child(s, d), q)
    ensures forall u :: Replace(s, [d] + q, u) == WithChild(s, d, Replace(Child(s, d), q, u))
    ensures EBalanced(s, [d] + q) <==>
            EBalanced(Child(s, d), q) && Balanced(Child(s, Other(d))) && EBH(Child(s, d), q) == BH(Child(s, Other(d)))
    ensures EBH(s, [d] + q) == EBH(Child(s, d), q) + (if s.black then 1 else 0)
    ensures RedOkAt(s, [d] + q, i, o) <==>
            RedOkAt(Child(s, d), q, i, o) && RedOk(Child(s, Other(d))) && (s.black || !IsRed(Child(s, Other(d)))) &&
            (s.black || !IsRed(Child(s, d)) || (q == [] && i))
  {
    assert ([d] + q)[0] == d && ([d] + q)[1..] == q;
  }

  /**
   * Case A on the parent's subtree: with w red (so the parent and w's children black), after
   * the recolouring and the rotation x sits two levels down under a red parent, beside w's old
   * near child.
   */
  lemma ACase(dx: Dir, x: Tree, pid: int, wn: Tree, wid: int, wf: Tree)
    requires Balanced(x) && Balanced(wn) && Balanced(wf) && BH(wn) == BH(x) + 1 && BH(wf) == BH(x) + 1
    requires RedOk(x) && RedOk(wn) && RedOk(wf) && !IsRed(x) && !IsRed(wn)
    ensures var od := Other(dx);
            var s3 := Mk(true, od, wf, wid, Mk(false, od, wn, pid, x));
            EBalanced(s3, [dx, dx]) && EBH(s3, [dx, dx]) == BH(x) + 2 && RedOkAt(s3, [dx, dx], true, true) &&
            IsPath(s3, [dx, od]) && Sub(s3, [dx, od]) == wn && IsPath(s3, [dx, dx]) && Sub(s3, [dx, dx]) == x &&
            !IsRed(s3) && IsPath(s3, [dx]) && Sub(s3, [dx]).Node? && Sub(s3, [dx]).id == pid
  {
    var od := Other(dx);
    var pn := Mk(false, od, wn, pid, x);
    var s3 := Mk(true, od, wf, wid, pn);
    assert Child(pn, dx) == x && Child(pn, od) == wn && Child(s3, dx) == pn && Child(s3, od) == wf;
    assert [dx] + [] == [dx] && [dx] + [dx] == [dx, dx] && [dx] + [od] == [dx, od];
    ConsStep(pn, dx, [], true, true);
    ConsStep(pn, od, [], true, true);
    ConsStep(s3, dx, [], true, true);
    ConsStep(s3, dx, [dx], true, true);
    ConsStep(s3, dx, [od], true, true);
  }

  /**
   * Case A on the parent's subtree s with a red sibling w: the parent is black, w's children
   * are black nodes as high as x plus one, and the rotation of s (w black, the parent red)
   * keeps the nodes in order.
   */
  lemma ALocal(s: Tree, dx: Dir)
    requires s.Node? && RedOk(s)
    requires var x, w := Child(s, dx), Child(s, Other(dx));
             w.Node? && IsRed(w) && Balanced(x) && Balanced(w) && BH(x) + 1 == BH(w)
    ensures var od := Other(dx);
            var x, w := Child(s, dx), Child(s, od);
            var wn, wf := Child(w, dx), Child(w, od);
            var s1 := Mk(true, dx, x, s.id, Mk(true, dx, wn, w.id, wf));
            var s3 := Mk(true, od, wf, w.id, Mk(false, od, wn, s.id, x));
            s.black && wn.Node? && !IsRed(wn) && Balanced(wn) && Balanced(wf) &&
            BH(wn) == BH(x) + 1 && BH(wf) == BH(x) + 1 && RedOk(wn) && RedOk(wf) &&
            s1 == s.(left := if dx == Left then x else w.(black := true), right := if dx == Left then w.(black := true) else x) &&
            RotSub(s1.(black := false), od) == s3 && Ids(s3) == Ids(s)
  {
    var od := Other(dx);
    var x, w := Child(s, dx), Child(s, od);
    var wn, wf := Child(w, dx), Child(w, od);
    MkOf(s, dx);
    MkOf(w, dx);
    MkFacts(false, dx, wn, w.id, wf);
    var s1 := Mk(true, dx, x, s.id, Mk(true, dx, wn, w.id, wf));
    var s2 := s1.(black := false);
    assert s2 == Mk(false, od, Mk(true, od, wf, w.id, wn), s.id, x);
    MkRot(false, od, true, wf, w.id, wn, s.id, x);
    MkIds(true, false, dx, wn, w.id, wf, wn, wf);
    MkIds(false, s.black, dx, x, s.id, Mk(true, dx, wn, w.id, wf), x, w);
  }

  /**
   * Case A: the sibling w is red. Colouring w black and the parent red and rotating at the
   * parent toward x's side leaves x at pp + [dx, dx] under its (now red) parent, with a black
   * sibling: w's old near child.
   */
  lemma EraseCaseA(t: Tree, pp: seq<Dir>, dx: Dir)
    requires EraseInv(t, pp + [dx]) && !RedAt(t, pp + [dx])
    requires IsPath(t, pp + [Other(dx)]) && IsRed(Sub(t, pp + [Other(dx)]))
    ensures IsPath(t, pp) && Sub(t, pp).Node?
    ensures var t1 := RecolorAt(t, pp + [Other(dx)], true);
            IsPath(t1, pp) && Sub(t1, pp).Node? && Sub(t1, pp).id == Sub(t, pp).id &&
            var t2 := RecolorAt(t1, pp, false);
            IsPath(t2, pp) && Sub(t2, pp).Node? && Child(Sub(t2, pp), Other(dx)).Node? &&
            var t3 := Rotate(t2, pp, Other(dx));
            EraseInv(t3, pp + [dx, dx]) && !RedAt(t3, pp + [dx, dx]) && Ids(t3) == Ids(t) &&
            IsPath(t3, pp + [dx]) && Sub(t3, pp + [dx]).Node? && Sub(t3, pp + [dx]).id == Sub(t, pp).id &&
            !Sub(t3, pp + [dx]).black &&
            IsPath(t3, pp + [dx, Other(dx)]) && Sub(t3, pp + [dx, Other(dx)]).Node? &&
            !IsRed(Sub(t3, pp + [dx, Other(dx)])) &&
            Sub(t3, pp + [dx, Other(dx)]) == Child(Sub(t, pp + [Other(dx)]), dx) &&
            Sub(t3, pp + [dx, dx]) == Sub(t, pp + [dx])
  {
    var od := Other(dx);
    EraseShape(t, pp, dx);
    var s := Sub(t, pp);
    var x, w := Child(s, dx), Child(s, od);
    var wn, wf := Child(w, dx), Child(w, od);
    ALocal(s, dx);
    ACase(dx, x, s.id, wn, w.id, wf);
    // the recolourings and the rotation on the parent's subtree
    var s1 := Mk(true, dx, x, s.id, Mk(true, dx, wn, w.id, wf));
    var s2 := s1.(black := false);
    var s3 := Mk(true, od, wf, w.id, Mk(false, od, wn, s.id, x));
    ReplaceSame(t, pp);
    OneStep(s, od, w.(black := true));
    RecolorTwice(t, pp, s, [od], true, false);
    var t1 := RecolorAt(t, pp + [od], true);
    assert t1 == Replace(t, pp, s1);
    RecolorTwice(t, pp, s1, [od], true, false);
    var t2 := RecolorAt(t1, pp, false);
    assert t2 == Replace(t, pp, s2);
    SubReplace(t, pp, s2);
    ReplaceTwice(t, pp, s2, s3);
    var t3 := Rotate(t2, pp, od);
    assert t3 == Replace(t, pp, s3);
    EBalancedReplace(t, pp, [dx], s3, [dx, dx]);
    RedOkAtReplace(t, pp, [dx], s3, [dx, dx], true, true);
    SameIds(t, pp, s3);
    LocalStep(t, pp, s3, [dx], s3);
    LocalStep(t, pp, s3, [dx, dx], s3);
    LocalStep(t, pp, s3, [dx, od], s3);
    StepDown(t, pp, od);
    if pp != [] {
      RootReplace(t, pp, s3);
    }
  }

  /**
   * Case B: the sibling w and both its children are black. Colouring w red moves the extra
   * black up to the parent.
   */
  lemma EraseCaseB(t: Tree, pp: seq<Dir>, dx: Dir)
    requires EraseInv(t, pp + [dx]) && !RedAt(t, pp + [dx])
    requires IsPath(t, pp + [Other(dx)]) && Sub(t, pp + [Other(dx)]).Node?
    requires !IsRed(Sub(t, pp + [Other(dx)])) && !IsRed(Sub(t, pp + [Other(dx)]).left) && !IsRed(Sub(t, pp + [Other(dx)]).right)
    ensures IsPath(t, pp) && Sub(t, pp).Node?
    ensures var t1 := RecolorAt(t, pp + [Other(dx)], false);
            EraseInv(t1, pp) && Ids(t1) == Ids(t) && IsPath(t1, pp) && Up(t1, pp) == Up(t, pp) &&
            Sub(t1, pp).Node? && Sub(t1, pp).id == Sub(t, pp).id && Sub(t1, pp).black == Sub(t, pp).black
  {
    var od := Other(dx);
    EraseShape(t, pp, dx);
    var s := Sub(t, pp);
    var x, w := Child(s, dx), Child(s, od);
    MkOf(s, dx);
    MkOf(w, dx);
    var w1 := w.(black := false);
    var s1 := Mk(s.black, dx, x, s.id, w1);
    ReplaceSame(t, pp);
    OneStep(s, od, w1);
    RecolorTwice(t, pp, s, [od], false, false);
    var t1 := RecolorAt(t, pp + [od], false);
    assert t1 == Replace(t, pp, s1);
    MkFacts(true, dx, Child(w, dx), w.id, Child(w, od));
    MkFacts(false, dx, Child(w, dx), w.id, Child(w, od));
    MkFacts(s.black, dx, x, s.id, w1);
    assert EBalanced(s1, []) && EBH(s1, []) == EBH(s, [dx]);
    assert RedOkAt(s1, [], true, true);
    assert pp + [] == pp;
    EBalancedReplace(t, pp, [dx], s1, []);
    RedOkAtReplace(t, pp, [dx], s1, [], true, true);
    SameIds(t, pp, s1);
    SubReplace(t, pp, s1);
    if pp != [] {
      RootReplace(t, pp, s1);
    }
  }

  /**
   * The state before case D: with the sibling w coloured black the invariant holds, x is black
   * and w's far child is red. (Case D overwrites w's colour, so w's own colour is free.)
   */
  ghost predicate PreD(t: Tree, pp: seq<Dir>, dx: Dir)
  {
    IsPath(t, pp + [Other(dx)]) && Sub(t, pp + [Other(dx)]).Node? &&
    var tb := RecolorAt(t, pp + [Other(dx)], true);
    EraseInv(tb, pp + [dx]) && !RedAt(tb, pp + [dx]) && IsRed(Child(Sub(t, pp + [Other(dx)]), Other(dx)))
  }

  /** Without case C: a black sibling with a red far child is the state before case D. */
  lemma ErasePreD(t: Tree, pp: seq<Dir>, dx: Dir)
    requires EraseInv(t, pp + [dx]) && !RedAt(t, pp + [dx])
    requires IsPath(t, pp + [Other(dx)]) && Sub(t, pp + [Other(dx)]).Node? && !IsRed(Sub(t, pp + [Other(dx)]))
    requires IsRed(Child(Sub(t, pp + [Other(dx)]), Other(dx)))
    ensures PreD(t, pp, dx)
  {
    var q := pp + [Other(dx)];
    assert Sub(t, q).(black := true) == Sub(t, q);
    ReplaceSame(t, q);
  }

  /**
   * Replacing the parent's subtree by s2, whose extra black height and red exceptions at q
   * match the parent's with x at [dx], keeps the erase invariant with x at pp + q.
   */
  lemma Lift(t: Tree, pp: seq<Dir>, dx: Dir, s2: Tree, q: seq<Dir>)
    requires EraseInv(t, pp + [dx]) && !RedAt(t, pp + [dx]) && IsPath(t, pp)
    requires EBalanced(s2, q) && EBH(s2, q) == EBH(Sub(t, pp), [dx]) && RedOkAt(s2, q, true, true)
    requires IsRed(s2) && q != [] ==> IsRed(Sub(t, pp))
    requires pp == [] && q != [] ==> !IsRed(s2)
    ensures EraseInv(Replace(t, pp, s2), pp + q)
    ensures IsPath(Replace(t, pp, s2), pp + q) && Sub(Replace(t, pp, s2), pp + q) == Sub(s2, q)
    ensures Ids(s2) == Ids(Sub(t, pp)) ==> Ids(Replace(t, pp, s2)) == Ids(t)
  {
    EraseShape(t, pp, dx);
    EBalancedReplace(t, pp, [dx], s2, q);
    RedOkAtReplace(t, pp, [dx], s2, q, true, true);
    EBalancedIsPath(s2, q);
    LocalStep(t, pp, s2, q, s2);
    if pp != [] {
      RootReplace(t, pp, s2);
    } else {
      assert pp + q == q;
    }
    if Ids(s2) == Ids(Sub(t, pp)) {
      SameIds(t, pp, s2);
    }
  }

  /**
   * Case C on the parent's subtree, seen with the new sibling coloured black: w's near child
   * (whose children a and b were black) is lifted above w, now red, and the invariant at x holds.
   */
  lemma CCase(dx: Dir, x: Tree, pb: bool, pid: int, a: Tree, nid: int, b: Tree, wid: int, wf: Tree)
    requires Balanced(x) && Balanced(a) && Balanced(b) && Balanced(wf)
    requires BH(a) == BH(x) && BH(b) == BH(x) && BH(wf) == BH(x)
    requires RedOk(x) && RedOk(a) && RedOk(b) && RedOk(wf) && !IsRed(x) && !IsRed(b) && !IsRed(wf)
    ensures var s2b := Mk(pb, dx, x, pid, Mk(true, dx, a, nid, Mk(false, dx, b, wid, wf)));
            EBalanced(s2b, [dx]) && EBH(s2b, [dx]) == BH(x) + 1 + (if pb then 1 else 0) &&
            RedOkAt(s2b, [dx], true, true)
  {
    var w2b := Mk(true, dx, a, nid, Mk(false, dx, b, wid, wf));
    var s2b := Mk(pb, dx, x, pid, w2b);
    MkFacts(false, dx, b, wid, wf);
    MkFacts(true, dx, a, nid, Mk(false, dx, b, wid, wf));
    assert [dx] + [] == [dx];
    ConsStep(s2b, dx, [], true, true);
  }

  /** The parent's subtree after case C's rotation, with the lifted near child coloured nb. */
  function AfterC(s: Tree, dx: Dir, nb: bool): Tree
    requires s.Node? && Child(s, Other(dx)).Node? && Child(Child(s, Other(dx)), dx).Node?
  {
    var od := Other(dx);
    var w := Child(s, od);
    var wn := Child(w, dx);
    Mk(s.black, dx, Child(s, dx), s.id, Mk(nb, dx, Child(wn, dx), wn.id, Mk(false, dx, Child(wn, od), w.id, Child(w, od))))
  }

  /** Case C's recolourings and rotation act on the parent's subtree as AfterC says. */
  lemma CSteps(t: Tree, pp: seq<Dir>, dx: Dir, blacken: bool)
    requires IsPath(t, pp) && Sub(t, pp).Node? && Child(Sub(t, pp), Other(dx)).Node?
    requires Child(Sub(t, pp), Other(dx)).black && IsRed(Child(Child(Sub(t, pp), Other(dx)), dx))
    ensures IsPath(t, pp + [Other(dx), dx]) && Sub(t, pp + [Other(dx), dx]) == Child(Child(Sub(t, pp), Other(dx)), dx)
    ensures var t0 := if blacken then RecolorAt(t, pp + [Other(dx), dx], true) else t;
            IsPath(t0, pp + [Other(dx)]) && Sub(t0, pp + [Other(dx)]).Node? &&
            Sub(t0, pp + [Other(dx)]).id == Child(Sub(t, pp), Other(dx)).id &&
            var t1 := RecolorAt(t0, pp + [Other(dx)], false);
            IsPath(t1, pp + [Other(dx)]) && Sub(t1, pp + [Other(dx)]).Node? && Child(Sub(t1, pp + [Other(dx)]), dx).Node? &&
            Sub(t1, pp + [Other(dx)]).id == Child(Sub(t, pp), Other(dx)).id &&
            Rotate(t1, pp + [Other(dx)], dx) == Replace(t, pp, AfterC(Sub(t, pp), dx, blacken))
  {
    var od := Other(dx);
    var s := Sub(t, pp);
    var x, w := Child(s, dx), Child(s, od);
    var wn, wf := Child(w, dx), Child(w, od);
    var a, b := Child(wn, dx), Child(wn, od);
    MkOf(s, dx);
    MkOf(w, dx);
    MkOf(wn, dx);
    ConsStep(s, od, [], true, true);
    ConsStep(s, od, [dx], true, true);
    ConsStep(w, dx, [], true, true);
    assert [od] + [] == [od] && [od] + [dx] == [od, dx] && pp + [od] + [dx] == pp + [od, dx];
    ReplaceSame(t, pp);
    RecolorLocal(t, pp, s, [od, dx], true);
    PathConcat(t, pp, [od, dx]);
    var nb := if blacken then true else false;
    var w0 := Mk(true, dx, Mk(nb, dx, a, wn.id, b), w.id, wf);
    var s0 := Mk(s.black, dx, x, s.id, w0);
    var w1 := w0.(black := false);
    var s1 := Mk(s.black, dx, x, s.id, w1);
    MkRot(false, dx, nb, a, wn.id, b, w.id, wf);
    var t0 := if blacken then RecolorAt(t, pp + [od, dx], true) else t;
    assert t0 == Replace(t, pp, s0) by {
      if blacken {
        var wnb := wn.(black := true);
        assert Replace(s, [od] + [dx], wnb) == WithChild(s, od, Replace(w, [dx], wnb));
        assert Replace(w, [dx] + [], wnb) == WithChild(w, dx, wnb);
        assert RecolorAt(s, [od, dx], true) == s0;
      } else {
        assert s0 == s;
      }
    }
    ConsStep(s0, od, [], true, true);
    RecolorLocal(t, pp, s0, [od], false);
    var t1 := RecolorAt(t0, pp + [od], false);
    assert t1 == Replace(t, pp, s1);
    ConsStep(s1, od, [], true, true);
    RotateLocal(t, pp, s1, [od], dx);
  }

  /**
   * Case C: the sibling w is black, its far child black and its near child red. Colouring w red
   * (and, when `blacken`, the near child black) and rotating at w away from x makes the near
   * child the new sibling, whose far child is the red w: the state before case D.
   */
  lemma EraseCaseC(t: Tree, pp: seq<Dir>, dx: Dir, blacken: bool)
    requires EraseInv(t, pp + [dx]) && !RedAt(t, pp + [dx])
    requires IsPath(t, pp + [Other(dx)]) && Sub(t, pp + [Other(dx)]).Node? && !IsRed(Sub(t, pp + [Other(dx)]))
    requires !IsRed(Child(Sub(t, pp + [Other(dx)]), Other(dx))) && IsRed(Child(Sub(t, pp + [Other(dx)]), dx))
    ensures IsPath(t, pp + [Other(dx), dx]) && Sub(t, pp + [Other(dx), dx]).Node? && IsPath(t, pp) && Sub(t, pp).Node?
    ensures var s := Sub(t, pp);
            Child(s, Other(dx)).Node? && Child(s, Other(dx)).black && IsRed(Child(Child(s, Other(dx)), dx)) &&
            var t2 := Replace(t, pp, AfterC(s, dx, blacken));
            PreD(t2, pp, dx) && Ids(t2) == Ids(t) && IsPath(t2, pp) && Sub(t2, pp).Node? &&
            Sub(t2, pp).id == s.id && Sub(t2, pp + [dx]) == Sub(t, pp + [dx]) &&
            Sub(t2, pp + [Other(dx)]).id == Sub(t, pp + [Other(dx), dx]).id
  {
    var od := Other(dx);
    EraseShape(t, pp, dx);
    var s := Sub(t, pp);
    var x, w := Child(s, dx), Child(s, od);
    var wn, wf := Child(w, dx), Child(w, od);
    var a, b := Child(wn, dx), Child(wn, od);
    StepDown(t, pp, od);
    StepDown(t, pp + [od], dx);
    assert pp + [od] + [dx] == pp + [od, dx];
    var s2 := AfterC(s, dx, blacken);
    var t2 := Replace(t, pp, s2);
    var w2 := Mk(blacken, dx, a, wn.id, Mk(false, dx, b, w.id, wf));
    CLocal(s, dx, blacken);
    var s2b := Mk(s.black, dx, x, s.id, w2.(black := true));
    ConsStep(s2, od, [], true, true);
    assert [od] + [] == [od];
    RecolorLocal(t, pp, s2, [od], true);
    var tb := RecolorAt(t2, pp + [od], true);
    assert tb == Replace(t, pp, s2b);
    Lift(t, pp, dx, s2b, [dx]);
    ConsStep(s2b, dx, [], true, true);
    assert [dx] + [] == [dx];
    assert !RedAt(tb, pp + [dx]);
    SameIds(t, pp, s2);
    SubReplace(t, pp, s2);
    LocalStep(t, pp, s2, [dx], s2);
    ConsStep(s2, dx, [], true, true);
    ConsStep(s, dx, [], true, true);
    StepDown(t, pp, od);
  }

  /**
   * Case C on the parent's subtree s: the result has the same nodes in order, the new sibling's
   * far child (w) is red, and seen with the new sibling black the subtree has x one black short
   * with red-red edges only at x.
   */
  lemma CLocal(s: Tree, dx: Dir, blacken: bool)
    requires s.Node? && Child(s, Other(dx)).Node? && Child(s, Other(dx)).black
    requires var x, w := Child(s, dx), Child(s, Other(dx));
             IsRed(Child(w, dx)) && !IsRed(Child(w, Other(dx))) && !IsRed(x) &&
             Balanced(x) && Balanced(w) && BH(x) + 1 == BH(w) && RedOk(x) && RedOk(w)
    ensures var od := Other(dx);
            var x, w := Child(s, dx), Child(s, od);
            var wn := Child(w, dx);
            var w2 := Mk(blacken, dx, Child(wn, dx), wn.id, Mk(false, dx, Child(wn, od), w.id, Child(w, od)));
            var s2b := Mk(s.black, dx, x, s.id, w2.(black := true));
            AfterC(s, dx, blacken) == Mk(s.black, dx, x, s.id, w2) &&
            Ids(AfterC(s, dx, blacken)) == Ids(s) && IsRed(Child(w2, od)) &&
            EBalanced(s2b, [dx]) && EBH(s2b, [dx]) == BH(x) + 1 + (if s.black then 1 else 0) &&
            RedOkAt(s2b, [dx], true, true)
  {
    var od := Other(dx);
    var x, w := Child(s, dx), Child(s, od);
    var wn, wf := Child(w, dx), Child(w, od);
    var a, b := Child(wn, dx), Child(wn, od);
    var w2 := Mk(blacken, dx, a, wn.id, Mk(false, dx, b, w.id, wf));
    MkOf(s, dx);
    MkOf(w, dx);
    MkOf(wn, dx);
    MkRot(false, dx, blacken, a, wn.id, b, w.id, wf);
    MkIds(blacken, false, dx, a, wn.id, b, a, b);
    MkIds(false, true, dx, Mk(blacken, dx, a, wn.id, b), w.id, wf, wn, wf);
    MkIds(s.black, s.black, dx, x, s.id, w2, x, w);
    MkFacts(true, dx, wn, w.id, wf);
    MkFacts(false, dx, a, wn.id, b);
    CCase(dx, x, s.black, s.id, a, wn.id, b, w.id, wf);
  }

  /**
   * Case D on the parent's subtree: the far child r of the sibling is red; afterwards the
   * sibling, with the parent's colour, is on top of the black parent (over x and the sibling's
   * near child) and the blackened r.
   */
  lemma DCase(dx: Dir, x: Tree, pb: bool, pid: int, wn: Tree, wid: int, wf: Tree)
    requires Balanced(x) && Balanced(wn) && Balanced(wf) && BH(wn) == BH(x) && BH(wf) == BH(x) && IsRed(wf)
    requires RedOk(x) && RedOk(wn) && RedOk(wf)
    ensures var od := Other(dx);
            var s4 := Mk(pb, od, wf.(black := true), wid, Mk(true, od, wn, pid, x));
            Balanced(s4) && BH(s4) == BH(x) + 1 + (if pb then 1 else 0) && RedOk(s4) &&
            IsPath(s4, [dx, dx]) && Sub(s4, [dx, dx]) == x
  {
    var od := Other(dx);
    var inner := Mk(true, od, wn, pid, x);
    var s4 := Mk(pb, od, wf.(black := true), wid, inner);
    MkFacts(true, od, wn, pid, x);
    MkFacts(pb, od, wf.(black := true), wid, inner);
    assert [dx] + [dx] == [dx, dx] && [dx] + [] == [dx];
    ConsStep(s4, dx, [dx], true, true);
    ConsStep(inner, dx, [], true, true);
  }

  /** The parent's subtree after case D's recolourings and rotation. */
  function AfterD(s: Tree, dx: Dir): Tree
    requires s.Node? && Child(s, Other(dx)).Node? && Child(Child(s, Other(dx)), Other(dx)).Node?
  {
    var od := Other(dx);
    var w := Child(s, od);
    Mk(s.black, od, Child(w, od).(black := true), w.id, Mk(true, od, Child(w, dx), s.id, Child(s, dx)))
  }

  /** Case D's recolourings and rotation act on the parent's subtree as AfterD says. */
  lemma DSteps(t: Tree, pp: seq<Dir>, dx: Dir)
    requires IsPath(t, pp) && Sub(t, pp).Node? && Child(Sub(t, pp), Other(dx)).Node?
    requires Child(Child(Sub(t, pp), Other(dx)), Other(dx)).Node?
    ensures var pb := Sub(t, pp).black;
            IsPath(t, pp + [Other(dx)]) && Sub(t, pp + [Other(dx)]) == Child(Sub(t, pp), Other(dx)) &&
            var t1 := RecolorAt(t, pp + [Other(dx)], pb);
            IsPath(t1, pp) && Sub(t1, pp).Node? && Sub(t1, pp).id == Sub(t, pp).id &&
            var t2 := RecolorAt(t1, pp, true);
            IsPath(t2, pp + [Other(dx), Other(dx)]) && Sub(t2, pp + [Other(dx), Other(dx)]).Node? &&
            Sub(t2, pp + [Other(dx), Other(dx)]).id == Child(Child(Sub(t, pp), Other(dx)), Other(dx)).id &&
            var t3 := RecolorAt(t2, pp + [Other(dx), Other(dx)], true);
            IsPath(t3, pp) && Sub(t3, pp).Node? && Sub(t3, pp).id == Sub(t, pp).id && Child(Sub(t3, pp), Other(dx)).Node? &&
            Rotate(t3, pp, Other(dx)) == Replace(t, pp, AfterD(Sub(t, pp), dx))
  {
    var od := Other(dx);
    var s := Sub(t, pp);
    StepDown(t, pp, od);
    var x, w := Child(s, dx), Child(s, od);
    var wn, wf := Child(w, dx), Child(w, od);
    var pb := s.black;
    DRecolor(s, dx);
    var s1 := Mk(pb, dx, x, s.id, Mk(pb, dx, wn, w.id, wf));
    var s2 := s1.(black := true);
    var s3 := Mk(true, dx, x, s.id, Mk(pb, dx, wn, w.id, wf.(black := true)));
    ReplaceSame(t, pp);
    RecolorLocal(t, pp, s, [od], pb);
    var t1 := RecolorAt(t, pp + [od], pb);
    assert t1 == Replace(t, pp, s1);
    RecolorTwice(t, pp, s1, [od], pb, true);
    var t2 := RecolorAt(t1, pp, true);
    assert t2 == Replace(t, pp, s2);
    assert pp + [od, od] == pp + [od] + [od];
    RecolorLocal(t, pp, s2, [od, od], true);
    var t3 := RecolorAt(t2, pp + [od, od], true);
    assert t3 == Replace(t, pp, s3);
    SubReplace(t, pp, s3);
    ReplaceTwice(t, pp, s3, AfterD(s, dx));
  }

  /** Case D's recolourings and rotation on the parent's subtree s itself. */
  lemma DRecolor(s: Tree, dx: Dir)
    requires s.Node? && Child(s, Other(dx)).Node? && Child(Child(s, Other(dx)), Other(dx)).Node?
    ensures var od, pb := Other(dx), s.black;
            var x, w := Child(s, dx), Child(s, od);
            var wn, wf := Child(w, dx), Child(w, od);
            var s1 := Mk(pb, dx, x, s.id, Mk(pb, dx, wn, w.id, wf));
            var s2 := s1.(black := true);
            var s3 := Mk(true, dx, x, s.id, Mk(pb, dx, wn, w.id, wf.(black := true)));
            IsPath(s, [od]) && Sub(s, [od]) == w && RecolorAt(s, [od], pb) == s1 &&
            IsPath(s1, [od]) && Sub(s1, [od]).Node? &&
            IsPath(s2, [od, od]) && Sub(s2, [od, od]) == wf && RecolorAt(s2, [od, od], true) == s3 &&
            Child(s3, od).Node? && RotSub(s3, od) == AfterD(s, dx)
  {
    var od, pb := Other(dx), s.black;
    var x, w := Child(s, dx), Child(s, od);
    var wn, wf := Child(w, dx), Child(w, od);
    var s1 := Mk(pb, dx, x, s.id, Mk(pb, dx, wn, w.id, wf));
    var s2 := s1.(black := true);
    var wfb := wf.(black := true);
    var s3 := Mk(true, dx, x, s.id, Mk(pb, dx, wn, w.id, wfb));
    MkOf(s, dx);
    MkOf(w, dx);
    OneStep(s, od, w.(black := pb));
    OneStep(s1, od, s1);
    TwoDown(s2, od, od, wfb);
    assert s3 == Mk(true, od, Mk(pb, od, wfb, w.id, wn), s.id, x);
    MkRot(true, od, pb, wfb, w.id, wn, s.id, x);
  }

  /**
   * Case D: the far child of the sibling w is red. w takes the parent's colour, the parent and
   * the far child are coloured black, and the parent is rotated toward x's side. The tree is
   * then balanced with no red-red edge, and the loop ends.
   */
  lemma EraseCaseD(t: Tree, pp: seq<Dir>, dx: Dir)
    requires PreD(t, pp, dx) && IsPath(t, pp) && Sub(t, pp).Node?
    ensures var s := Sub(t, pp);
            Child(s, Other(dx)).Node? && Child(Child(s, Other(dx)), Other(dx)).Node? &&
            var t4 := Replace(t, pp, AfterD(s, dx));
            Balanced(t4) && RedOk(t4) && !IsRed(t4) && Ids(t4) == Ids(t) &&
            IsPath(t4, pp + [dx, dx]) && Sub(t4, pp + [dx, dx]) == Sub(t, pp + [dx])
  {
    var od := Other(dx);
    var s := Sub(t, pp);
    StepDown(t, pp, od);
    StepDown(t, pp, dx);
    var x, w := Child(s, dx), Child(s, od);
    var wn, wf := Child(w, dx), Child(w, od);
    var pb := s.black;
    var s4 := AfterD(s, dx);
    var t4 := Replace(t, pp, s4);
    // the tree seen with w black holds sb at pp
    var tb := RecolorAt(t, pp + [od], true);
    var sb := Mk(pb, dx, x, s.id, Mk(true, dx, wn, w.id, wf));
    assert tb == Replace(t, pp, sb) by {
      MkOf(s, dx);
      MkOf(w, dx);
      ConsStep(s, od, [], true, true);
      assert [od] + [] == [od];
      ReplaceSame(t, pp);
      RecolorLocal(t, pp, s, [od], true);
    }
    SubReplace(t, pp, sb);
    EraseShape(tb, pp, dx);
    MkOf(w, dx);
    DLocal(s, dx);
    // balance and colours
    EBalancedResolve(tb, pp, [dx], s4);
    ReplaceTwice(t, pp, sb, s4);
    RedOkAtStrict(tb, pp + [dx], false, false);
    assert RedOkAt(s4, [], false, false);
    RedOkAtReplace(tb, pp, [dx], s4, [], false, false);
    assert pp + [] == pp;
    SubReplace(tb, pp, s4);
    RedOkAtStrict(Replace(tb, pp, s4), pp, false, false);
    if pp != [] {
      RootReplace(t, pp, s4);
      RootReplace(t, pp, sb);
    }
    // the in-order sequence and x's place
    SameIds(t, pp, s4);
    LocalStep(t, pp, s4, [dx, dx], s4);
  }

  /**
   * Case D on the parent's subtree s, whose sibling side, seen with the sibling black, is one
   * black higher than x: the result is balanced, one black higher than x plus the parent's
   * colour, with no red-red edge, the same nodes in order, and x two steps down toward dx.
   */
  lemma DLocal(s: Tree, dx: Dir)
    requires s.Node? && Child(s, Other(dx)).Node? && IsRed(Child(Child(s, Other(dx)), Other(dx)))
    requires var x, wb := Child(s, dx), Child(s, Other(dx)).(black := true);
             Balanced(x) && Balanced(wb) && BH(x) + 1 == BH(wb) && RedOk(x) && RedOk(wb)
    ensures var x, s4 := Child(s, dx), AfterD(s, dx);
            Balanced(s4) && BH(s4) == BH(x) + 1 + (if s.black then 1 else 0) && RedOk(s4) &&
            Ids(s4) == Ids(s) && IsPath(s4, [dx, dx]) && Sub(s4, [dx, dx]) == x
  {
    var od := Other(dx);
    var x, w := Child(s, dx), Child(s, od);
    var wn, wf := Child(w, dx), Child(w, od);
    var pb := s.black;
    MkOf(s, dx);
    MkOf(w, dx);
    assert w.(black := true) == Mk(true, dx, wn, w.id, wf);
    MkFacts(true, dx, wn, w.id, wf);
    DCase(dx, x, pb, s.id, wn, w.id, wf);
    var wfb := wf.(black := true);
    var s3 := Mk(true, dx, x, s.id, Mk(pb, dx, wn, w.id, wfb));
    assert s3 == Mk(true, od, Mk(pb, od, wfb, w.id, wn), s.id, x);
    MkRot(true, od, pb, wfb, w.id, wn, s.id, x);
    MkIds(pb, w.black, dx, wn, w.id, wfb, wn, wf);
    MkIds(true, pb, dx, x, s.id, Mk(pb, dx, wn, w.id, wfb), x, w);
  }

  // ---------------------------------------------------------------------------------------
  // Entering and leaving the loop.

  /** Putting a subtree one black short in place of the subtree at p leaves p one black short. */
  lemma {:induction false} Deficit(t: Tree, p: seq<Dir>, c: Tree)
    requires Balanced(t) && IsPath(t, p) && Balanced(c) && BH(c) + 1 == BH(Sub(t, p))
    ensures EBalanced(Replace(t, p, c), p) && EBH(Replace(t, p, c), p) == BH(t)
  {
    if p != [] {
      Deficit(Child(t, p[0]), p[1..], c);
      SubReplace(Child(t, p[0]), p[1..], c);
    }
  }

  /**
   * Removing a node with at most one child c from a red-black tree, c taking its place: a red
   * node has no children and the tree stays red-black; for a black node the erase invariant
   * holds with x = c at the node's place.
   */
  lemma RemoveOne(t: Tree, p: seq<Dir>)
    requires RedBlack(t) && IsPath(t, p) && Sub(t, p).Node? && (Sub(t, p).left.Nil? || Sub(t, p).right.Nil?)
    ensures var s := Sub(t, p);
            var c := if s.left.Nil? then s.right else s.left;
            (s.black ==> EraseInv(Replace(t, p, c), p)) && (!s.black ==> c.Nil? && RedBlack(Replace(t, p, c)))
  {
    var s := Sub(t, p);
    var c := if s.left.Nil? then s.right else s.left;
    BalancedSub(t, p);
    RedOkSub(t, p);
    assert Balanced(c) && RedOk(c) && BH(s) == BH(c) + (if s.black then 1 else 0);
    RedOkAtStrict(t, p, true, true);
    RedOkAtStrict(t, p, false, false);
    assert p + [] == p;
    if s.black {
      Deficit(t, p, c);
      RedOkAtReplace(t, p, [], c, [], true, true);
    } else {
      BalancedReplace(t, p, c);
      RedOkAtReplace(t, p, [], c, [], false, false);
      SubReplace(t, p, c);
      RedOkAtStrict(Replace(t, p, c), p, false, false);
    }
    if p != [] {
      RootReplace(t, p, c);
    }
  }

  /**
   * Giving the node at p another index changes none of the colour conditions along a path
   * through it, nor what lies strictly below it.
   */
  lemma {:induction false} ReIdAt(t: Tree, p: seq<Dir>, q: seq<Dir>, i: int)
    requires IsPath(t, p) && Sub(t, p).Node?
    ensures var t2 := Replace(t, p, Sub(t, p).(id := i));
            IsPath(t2, p + q) == IsPath(t, p + q) && EBalanced(t2, p + q) == EBalanced(t, p + q) &&
            (forall a, b :: RedOkAt(t2, p + q, a, b) == RedOkAt(t, p + q, a, b)) && IsRed(t2) == IsRed(t) &&
            (q != [] ==> Sub(t2, p + q) == Sub(t, p + q))
  {
    if p == [] {
      assert p + q == q;
      if q != [] {
        var s := t.(id := i);
        assert Child(s, q[0]) == Child(t, q[0]) && Child(s, Other(q[0])) == Child(t, Other(q[0]));
      }
    } else {
      assert (p + q)[0] == p[0] && (p + q)[1..] == p[1..] + q;
      ReIdAt(Child(t, p[0]), p[1..], q, i);
    }
  }

  /**
   * Leaving the loop because x is the root or red: colouring x black (when it is a node)
   * gives a red-black tree.
   */
  lemma EraseFinish(t: Tree, p: seq<Dir>)
    requires EraseInv(t, p) && (p == [] || RedAt(t, p))
    ensures Sub(t, p).Node? ==> RedBlack(RecolorAt(t, p, true))
    ensures Sub(t, p).Nil? ==> RedBlack(t)
  {
    EBalancedIsPath(t, p);
    var s := Sub(t, p);
    if s.Node? {
      RedOkAtBlacken(t, p, true, true);
      assert p + [] == p;
      EBalancedSub(t, p, []);
      if !s.black {
        EBalancedResolve(t, p, [], s.(black := true));
      } else {
        assert p == [] && Balanced(t) && Balanced(s.(black := true));
      }
      if p != [] {
        RootReplace(t, p, s.(black := true));
      }
    } else {
      assert p == [];
    }
  }
}
