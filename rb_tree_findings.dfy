/**
 * Steps of `rb_tree_rebalance_for_erase` as they are written, next to the corrected steps that
 * RbErase performs: the successor search, the parent's child link in the one-child splice,
 * the update of the root, the case-B test of the fix-up loop, and the mirror of case C.
 */
module RbAsWritten {
  import opened Wrappers
  import opened RbShape
  import opened RbNodes
  import opened RbEraseFixup
  import opened RbIter

  /**
   * The successor search of lines 325-327 as written: from z's right child y it loops while
   * y's left link IS null, so y is left at z's right child when that has a left child, and
   * otherwise becomes null and is dereferenced by the next test (None).
   */
  function SuccessorAsWritten(a: seq<Link>, z: int): (r: Option<int>)
    requires 0 < z < |a| && 0 < a[z].right < |a|
    ensures r.Some? ==> r.value == a[z].right
    ensures r.None? <==> a[a[z].right].left == Null
  {
    var y := a[z].right;
    if a[y].left == Null then None else Some(y)
  }

  /** As written, the search never finds the successor: the leftmost node of z's right subtree. */
  lemma SuccessorAsWrittenMisses(a: seq<Link>, t: Tree, pz: seq<Dir>)
    requires TreeRepr(a, t) && IsPath(t, pz) && Sub(t, pz).Node? && Sub(t, pz).right.Node?
    ensures var z := Sub(t, pz).id;
            0 < z < |a| && 0 < a[z].right < |a| && SuccessorAsWritten(a, z) != Some(MinId(Sub(t, pz).right))
  {
    var s := Sub(t, pz);
    var r := s.right;
    NodeLinks(a, t, pz);
    PathConcat(t, pz, [Right]);
    assert Sub(s, [Right]) == r;
    NodeLinks(a, t, pz + [Right]);
    ChildrenNotUp(a, t, pz + [Right]);
    if r.left.Node? {
      DistinctSub(t, pz + [Right]);
      MinMaxIds(r.left);
      IdsIdSet(r.left);
      assert MinId(r) == MinId(r.left) && MinId(r.left) in IdSet(r.left);
    }
  }

  /**
   * The parent's link in the one-child splice, lines 364-367 as written: `z->parent->left = z`
   * assigns instead of comparing, so the test always holds and x always replaces the left link.
   */
  function HookAsWritten(k: Link, x: int): (r: Link)
    ensures r.left == x && r.right == k.right && r.parent == k.parent && r.black == k.black
  {
    k.(left := x)
  }

  /**
   * When z is a right child, the splice as written leaves z in its parent's right link and
   * overwrites the left link, while the corrected hook replaces z by its child x.
   */
  lemma HookAsWrittenKeepsZ(a: seq<Link>, t: Tree, pz: seq<Dir>)
    requires TreeRepr(a, t) && IsPath(t, pz) && pz != [] && pz[|pz| - 1] == Right && Sub(t, pz).Node?
    requires Sub(t, pz).left.Nil? || Sub(t, pz).right.Nil?
    ensures var s := Sub(t, pz); var x := Ptr(if s.left.Nil? then s.right else s.left);
            0 <= Up(t, pz) < |a| && x != s.id &&
            HookAsWritten(a[Up(t, pz)], x).right == s.id && Hook(a[Up(t, pz)], pz, x).right == x
  {
    var s := Sub(t, pz);
    NodeLinks(a, t, pz);
    DistinctSub(t, pz);
    if s.left.Node? {
      assert s.left.id in IdSet(s.left);
    }
    if s.right.Node? {
      assert s.right.id in IdSet(s.right);
    }
  }

  /**
   * The root update of the one-child splice as written: `root` is a copy of the header's
   * parent link (line 310 passes it by value), so `root = x` at line 363 changes the copy and
   * only x's parent link is written.
   */
  function RootSpliceAsWritten(a: seq<Link>, z: int): (r: seq<Link>)
    requires 0 < z < |a| && (a[z].left == Null || a[z].right == Null)
    requires a[z].left != Header && a[z].right != Header
    ensures |r| == |a| && r[Header] == a[Header]
  {
    var x := if a[z].left == Null then a[z].right else a[z].left;
    if 0 <= x < |a| then a[x := a[x].(parent := a[z].parent)] else a
  }

  /**
   * Erasing a root with at most one child as written leaves the header pointing at the erased
   * node, so the links no longer represent the remaining tree c.
   */
  lemma RootSpliceAsWrittenLosesRoot(a: seq<Link>, t: Tree)
    requires TreeRepr(a, t) && t.Node? && (t.left.Nil? || t.right.Nil?)
    ensures 0 < t.id < |a| && a[t.id].left != Header && a[t.id].right != Header
    ensures var c := if t.left.Nil? then t.right else t.left;
            var r := RootSpliceAsWritten(a, t.id);
            r[Header].parent == t.id && !TreeRepr(r, c)
  {
    NodeLinks(a, t, []);
    ChildrenNotUp(a, t, []);
    if t.left.Node? {
      assert t.left.id in IdSet(t.left);
    }
    if t.right.Node? {
      assert t.right.id in IdSet(t.right);
    }
  }

  /**
   * The case-B test of lines 398-399 as written, `(A && nullptr == w->right) || w->right->color
   * == black` with A the test on w's left child: None where it dereferences a null right child.
   */
  function CaseBTestAsWritten(wl: Tree, wr: Tree): (r: Option<bool>)
    ensures r.None? <==> IsRed(wl) && wr.Nil?
  {
    var leftBlack := wl.Nil? || wl.black;
    if leftBlack && wr.Nil? then Some(true) else if wr.Nil? then None else Some(wr.black)
  }

  /**
   * With a right child, the test as written looks at that child only: a red left child and a
   * black right one send the loop into case B, and case B's colouring of w red then puts a red
   * node over a red child; the intended test, both children black, rejects the case.
   */
  lemma CaseBTestAsWrittenMisroutes(wl: Tree, wid: int, wr: Tree)
    requires IsRed(wl) && wr.Node? && wr.black
    ensures CaseBTestAsWritten(wl, wr) == Some(true)
    ensures !(!IsRed(wl) && !IsRed(wr))
    ensures !RedOk(Node(false, wl, wid, wr))
  {
  }

  /**
   * The mirror of case C (x a right child) followed by case D, lines 438-450 as written on the
   * parent's subtree s: w's near (right) child is coloured black and w red, but w is not rotated,
   * so case D goes on with the same w and its left child.
   */
  function MirrorCaseCAsWritten(s: Tree): (r: Tree)
    requires s.Node? && s.left.Node? && s.left.right.Node?
    ensures Ids(r) == Ids(s)
  {
    var w := s.left;
    var w1 := w.(black := false, right := w.right.(black := true));
    var w2 := w1.(black := s.black, left := if w1.left.Node? then w1.left.(black := true) else w1.left);
    assert Ids(w2) == Ids(w);
    RotR(s.(black := true, left := w2))
  }

  /**
   * From a valid fix-up state, the mirror of case C as written leaves an unbalanced subtree,
   * while case C with the rotation, then case D, balances it.
   */
  lemma MirrorCaseCAsWrittenUnbalanced()
    ensures var s := Node(true, Node(true, Nil, 2, Node(false, Nil, 3, Nil)), 1, Nil);
            EraseInv(s, [Right]) && !Balanced(MirrorCaseCAsWritten(s)) &&
            Balanced(AfterD(AfterC(s, Right, true), Right)) && RedOk(AfterD(AfterC(s, Right, true), Right))
  {
    var s := Node(true, Node(true, Nil, 2, Node(false, Nil, 3, Nil)), 1, Nil);
    assert [Right][1..] == [];
    assert Sub(s, [Right]) == Nil;
  }
}
