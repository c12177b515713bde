/**
 * Unlinking a node from the arena: the in-order sequence without the node, the header's
 * leftmost and rightmost pointers, and the link rewrites that take a node out of the tree or
 * put another node in its place.
 */
module RbUnlink {
  import opened RbShape
  import opened RbNodes

  /** s without the occurrences of z. */
  function Remove(s: seq<int>, z: int): (r: seq<int>)
    ensures forall i :: i in r <==> i in s && i != z
    ensures |r| <= |s|
  {
    if s == [] then [] else (if s[0] == z then [] else [s[0]]) + Remove(s[1..], z)
  }

  lemma {:induction false} RemoveAbsent(s: seq<int>, z: int)
    requires z !in s
    ensures Remove(s, z) == s
  {
    if s != [] {
      RemoveAbsent(s[1..], z);
    }
  }

  lemma {:induction false} RemoveConcat(a: seq<int>, b: seq<int>, z: int)
    ensures Remove(a + b, z) == Remove(a, z) + Remove(b, z)
  {
    if a != [] {
      assert (a + b)[0] == a[0] && (a + b)[1..] == a[1..] + b;
      RemoveConcat(a[1..], b, z);
    } else {
      assert a + b == b;
    }
  }

  /** Removing an index that occurs once, between a and b, leaves a and b. */
  lemma RemoveOnce(a: seq<int>, z: int, b: seq<int>)
    requires z !in a && z !in b
    ensures Remove(a + [z] + b, z) == a + b
  {
    var w := a + [z];
    assert [z][1..] == [];
    assert Remove([z], z) == [];
    RemoveConcat(a, [z], z);
    RemoveAbsent(a, z);
    assert Remove(w, z) == a;
    RemoveConcat(w, b, z);
    RemoveAbsent(b, z);
  }

  /**
   * The header's leftmost and rightmost pointers: the first and last nodes in order, or the
   * header itself when the tree is empty.
   */
  ghost predicate Extremes(a: seq<Link>, t: Tree)
  {
    |a| > 0 &&
    a[Header].left == (if t.Nil? then Header else Ids(t)[0]) &&
    a[Header].right == (if t.Nil? then Header else Ids(t)[|Ids(t)| - 1])
  }

  /** When nothing precedes the subtree at p, its parent comes right after it. */
  lemma {:induction false} FirstAfter(t: Tree, p: seq<Dir>)
    requires IsPath(t, p) && p != [] && Before(t, p) == []
    ensures After(t, p) != [] && After(t, p)[0] == Up(t, p)
  {
    if p[1..] != [] {
      FirstAfter(t.left, p[1..]);
    }
  }

  /** When nothing follows the subtree at p, its parent comes right before it. */
  lemma {:induction false} LastBefore(t: Tree, p: seq<Dir>)
    requires IsPath(t, p) && p != [] && After(t, p) == []
    ensures Before(t, p) != [] && Before(t, p)[|Before(t, p)| - 1] == Up(t, p)
  {
    if p[1..] != [] {
      LastBefore(t.right, p[1..]);
    }
  }

  /** The path to the leftmost node: all steps to the left, and nothing before it. */
  lemma {:induction false} MinPath(t: Tree) returns (q: seq<Dir>)
    requires t.Node?
    ensures IsPath(t, q) && Sub(t, q).Node? && Sub(t, q).id == MinId(t) && Sub(t, q).left.Nil?
    ensures Before(t, q) == [] && forall i :: 0 <= i < |q| ==> q[i] == Left
  {
    if t.left.Nil? {
      q := [];
    } else {
      var q' := MinPath(t.left);
      q := [Left] + q';
      assert q[1..] == q';
    }
  }

  /** Giving the node at p an index new to t keeps the indices distinct. */
  lemma {:induction false} DistinctReId(t: Tree, p: seq<Dir>, y: int)
    requires Distinct(t) && IsPath(t, p) && Sub(t, p).Node? && y !in IdSet(t)
    ensures var t2 := Replace(t, p, Sub(t, p).(id := y));
            Distinct(t2) && IdSet(t2) == IdSet(t) - {Sub(t, p).id} + {y}
  {
    if p != [] {
      DistinctReId(Child(t, p[0]), p[1..], y);
      UpOutside(Child(t, p[0]), p[1..]);
      assert Sub(t, p).id in IdSet(Child(t, p[0]));
    }
  }

  /**
   * Taking out the node at p, which has at most one child c: c's parent becomes p's parent,
   * and the parent's pointer toward p (the header's root pointer when p is the root) becomes c.
   */
  lemma UnlinkRepr(a: seq<Link>, a': seq<Link>, t: Tree, p: seq<Dir>)
    requires TreeRepr(a, t) && IsPath(t, p) && Sub(t, p).Node? && (Sub(t, p).left.Nil? || Sub(t, p).right.Nil?)
    requires var s := Sub(t, p); var c := if s.left.Nil? then s.right else s.left;
             var q, x := Up(t, p), Ptr(c);
             0 <= q < |a| && (x != Null ==> 0 < x < |a|) &&
             var a1 := if x != Null then a[x := a[x].(parent := q)] else a;
             a' == a1[q := Hook(a1[q], p, x)]
    ensures var s := Sub(t, p); TreeRepr(a', Replace(t, p, if s.left.Nil? then s.right else s.left))
  {
    var s := Sub(t, p);
    var c := if s.left.Nil? then s.right else s.left;
    var q := Up(t, p);
    NodeLinks(a, t, p);
    ReprAt(a, t, Header, p);
    DistinctSub(t, p);
    ReprIds(a, t, Header);
    UpOutside(t, p);
    assert q !in IdSet(s) by {
      if p == [] {
        assert Header !in IdSet(t);
      }
    }
    ReprMove(a, a', c, s.id, q);
    IdSetReplace(t, p, c);
    TreeReplace(a, a', t, p, c);
  }

  /**
   * Putting node y, new to the tree, in the place of the node at p: y takes that node's colour,
   * parent and children, the children's parent pointers and the parent's pointer toward p
   * become y; the old node's own link is free.
   */
  lemma ReIdRepr(a: seq<Link>, a': seq<Link>, t: Tree, p: seq<Dir>, y: int)
    requires TreeRepr(a, t) && IsPath(t, p) && Sub(t, p).Node? && 0 < y < |a| && y !in IdSet(t) && |a'| == |a|
    requires var s := Sub(t, p); var q := Up(t, p); var l, r := Ptr(s.left), Ptr(s.right);
             0 <= q < |a| && a'[y] == Link(s.black, q, l, r) &&
             (l != Null ==> 0 < l < |a| && a'[l] == a[l].(parent := y)) &&
             (r != Null ==> 0 < r < |a| && a'[r] == a[r].(parent := y)) &&
             a'[q] == Hook(a[q], p, y) &&
             forall i :: 0 <= i < |a| && i != y && i != l && i != r && i != q && i != s.id ==> a'[i] == a[i]
    ensures TreeRepr(a', Replace(t, p, Sub(t, p).(id := y)))
  {
    var s := Sub(t, p);
    var q := Up(t, p);
    var s' := s.(id := y);
    NodeLinks(a, t, p);
    ReprAt(a, t, Header, p);
    DistinctSub(t, p);
    ReprIds(a, t, Header);
    UpOutside(t, p);
    assert q !in IdSet(s) by {
      if p == [] {
        assert Header !in IdSet(t);
      }
    }
    var a0 := a[y := a'[y]];
    ReprFrame(a, a0, t, Header);
    assert TreeRepr(a0, t);
    ReprMove(a, a', s.left, s.id, y);
    ReprMove(a, a', s.right, s.id, y);
    assert Repr(a', s', q);
    DistinctReId(t, p, y);
    TreeReplace(a0, a', t, p, s');
  }

  /** Removing an index other than the first keeps the first. */
  lemma RemoveFirst(s: seq<int>, z: int)
    requires s != [] && s[0] != z
    ensures Remove(s, z) != [] && Remove(s, z)[0] == s[0]
  {
  }

  /** Removing an index other than the last keeps the last. */
  lemma RemoveLast(s: seq<int>, z: int)
    requires s != [] && s[|s| - 1] != z
    ensures Remove(s, z) != [] && Remove(s, z)[|Remove(s, z)| - 1] == s[|s| - 1]
  {
    var n := |s| - 1;
    assert s == s[..n] + [s[n]];
    RemoveConcat(s[..n], [s[n]], z);
    RemoveAbsent([s[n]], z);
  }

  /** Changing the header's leftmost and rightmost pointers leaves the tree represented. */
  lemma HeaderFrame(a: seq<Link>, a': seq<Link>, t: Tree)
    requires TreeRepr(a, t) && |a'| == |a| && a'[Header].parent == a[Header].parent
    requires forall i :: 0 < i < |a| ==> a'[i] == a[i]
    ensures TreeRepr(a', t)
  {
    ReprIds(a, t, Header);
    ReprFrame(a, a', t, Header);
  }

  /**
   * Where node z at p sits in the in-order sequence: after the nodes before its subtree and its
   * left subtree, each other index occurring elsewhere. When z is first, nothing precedes its
   * subtree and it has no left child; symmetrically when it is last.
   */
  lemma NodePosition(t: Tree, p: seq<Dir>)
    requires Distinct(t) && IsPath(t, p) && Sub(t, p).Node?
    ensures var s := Sub(t, p); var b, a := Before(t, p), After(t, p); var z := s.id;
            Ids(t) == (b + Ids(s.left)) + [z] + (Ids(s.right) + a) &&
            z !in b + Ids(s.left) && z !in Ids(s.right) + a &&
            (Ids(t)[0] == z ==> b == [] && s.left.Nil?) &&
            (Ids(t)[|Ids(t)| - 1] == z ==> a == [] && s.right.Nil?)
  {
    var s := Sub(t, p);
    var b, l, r, a := Before(t, p), Ids(s.left), Ids(s.right), After(t, p);
    IdsSplit(t, p);
    assert Ids(s) == l + [s.id] + r;
    DistinctIds(t);
    Position(Ids(t), b, l, s.id, r, a);
  }

  /**
   * An element z of a sequence without repetitions, with b and l before it and r and a after
   * it: z occurs in neither side, and nothing precedes it when it is first, nothing follows
   * it when it is last.
   */
  lemma Position(w: seq<int>, b: seq<int>, l: seq<int>, z: int, r: seq<int>, a: seq<int>)
    requires w == b + (l + [z] + r) + a && forall i, j :: 0 <= i < j < |w| ==> w[i] != w[j]
    ensures w == (b + l) + [z] + (r + a) && z !in b + l && z !in r + a
    ensures (w[0] == z ==> b == [] && l == []) && (w[|w| - 1] == z ==> a == [] && r == [])
  {
    assert b + (l + [z] + r) + a == (b + l) + [z] + (r + a);
    UniqueSplit(w, b + l, z, r + a);
  }

  /** In a sequence without repetitions, an element between u and v occurs in neither. */
  lemma UniqueSplit(w: seq<int>, u: seq<int>, z: int, v: seq<int>)
    requires w == u + [z] + v && forall i, j :: 0 <= i < j < |w| ==> w[i] != w[j]
    ensures z !in u && z !in v
    ensures w[0] == z ==> u == []
    ensures w[|w| - 1] == z ==> v == []
  {
    assert w[|u|] == z;
    forall i | 0 <= i < |u|
      ensures u[i] != z
    {
      assert w[i] == u[i];
    }
    forall i | 0 <= i < |v|
      ensures v[i] != z
    {
      assert w[|u| + 1 + i] == v[i];
    }
  }

  /**
   * The in-order sequence after taking out the node z at p, which has at most one child c:
   * z is gone and nothing else moves.
   */
  lemma OneChildIds(t: Tree, p: seq<Dir>)
    requires Distinct(t) && IsPath(t, p) && Sub(t, p).Node? && (Sub(t, p).left.Nil? || Sub(t, p).right.Nil?)
    ensures var s := Sub(t, p); var c := if s.left.Nil? then s.right else s.left;
            var t' := Replace(t, p, c);
            Ids(t') == Remove(Ids(t), s.id) && Ids(t') == Before(t, p) + Ids(c) + After(t, p) &&
            (t'.Nil? <==> p == [] && c.Nil?)
  {
    var s := Sub(t, p);
    var c := if s.left.Nil? then s.right else s.left;
    var b, l, r, a := Before(t, p), Ids(s.left), Ids(s.right), After(t, p);
    NodePosition(t, p);
    RemoveOnce(b + l, s.id, r + a);
    JoinAround(b, l, r, a);
    assert Ids(c) == if l == [] then r else l;
    IdsReplace(t, p, c);
    if p != [] {
      RootReplace(t, p, c);
    }
  }

  lemma JoinAround(b: seq<int>, l: seq<int>, r: seq<int>, a: seq<int>)
    requires l == [] || r == []
    ensures (b + l) + (r + a) == b + (if l == [] then r else l) + a
  {
    if l == [] {
      assert (b + l) + (r + a) == b + r + a;
    } else {
      assert (b + l) + (r + a) == b + l + a;
    }
  }

  /**
   * The first node after taking out z: unchanged unless z was first; then z had no left child,
   * and the new first node is the first node of z's right child c or, when c is empty, z's
   * parent.
   */
  lemma OneChildFirst(t: Tree, p: seq<Dir>)
    requires Distinct(t) && IsPath(t, p) && Sub(t, p).Node? && (Sub(t, p).left.Nil? || Sub(t, p).right.Nil?)
    ensures var s := Sub(t, p); var c := if s.left.Nil? then s.right else s.left;
            var t' := Replace(t, p, c); var z := s.id;
            (Ids(t)[0] == z ==>
              s.left.Nil? && (c.Node? ==> t'.Node? && Ids(t')[0] == Ids(c)[0]) &&
              (c.Nil? && p != [] ==> t'.Node? && Ids(t')[0] == Up(t, p))) &&
            (Ids(t)[0] != z ==> t'.Node? && Ids(t')[0] == Ids(t)[0])
  {
    var s := Sub(t, p);
    var c := if s.left.Nil? then s.right else s.left;
    NodePosition(t, p);
    OneChildIds(t, p);
    var ids := Ids(t);
    if ids[0] != s.id {
      RemoveFirst(ids, s.id);
    } else if c.Nil? && p != [] {
      FirstAfter(t, p);
    }
  }

  /** The last node after taking out z, symmetrically. */
  lemma OneChildLast(t: Tree, p: seq<Dir>)
    requires Distinct(t) && IsPath(t, p) && Sub(t, p).Node? && (Sub(t, p).left.Nil? || Sub(t, p).right.Nil?)
    ensures var s := Sub(t, p); var c := if s.left.Nil? then s.right else s.left;
            var t' := Replace(t, p, c); var z := s.id;
            (Ids(t)[|Ids(t)| - 1] == z ==>
              s.right.Nil? && (c.Node? ==> t'.Node? && Ids(t')[|Ids(t')| - 1] == Ids(c)[|Ids(c)| - 1]) &&
              (c.Nil? && p != [] ==> t'.Node? && Ids(t')[|Ids(t')| - 1] == Up(t, p))) &&
            (Ids(t)[|Ids(t)| - 1] != z ==> t'.Node? && Ids(t')[|Ids(t')| - 1] == Ids(t)[|Ids(t)| - 1])
  {
    var s := Sub(t, p);
    var ids := Ids(t);
    if ids[|ids| - 1] == s.id {
      LastToChild(t, p);
      if s.left.Nil? && s.right.Nil? && p != [] {
        LastToParent(t, p);
      }
    } else {
      LastKept(t, p);
    }
  }

  /** When z was last and had a child c, c's last node becomes the last node. */
  lemma LastToChild(t: Tree, p: seq<Dir>)
    requires Distinct(t) && IsPath(t, p) && Sub(t, p).Node? && (Sub(t, p).left.Nil? || Sub(t, p).right.Nil?)
    requires Ids(t)[|Ids(t)| - 1] == Sub(t, p).id
    ensures var s := Sub(t, p); var c := if s.left.Nil? then s.right else s.left;
            var t' := Replace(t, p, c);
            s.right.Nil? && (c.Node? ==> t'.Node? && Ids(t')[|Ids(t')| - 1] == Ids(c)[|Ids(c)| - 1])
  {
    var s := Sub(t, p);
    var c := if s.left.Nil? then s.right else s.left;
    var b, m, a := Before(t, p), Ids(c), After(t, p);
    LastAtEnd(t, p);
    if c.Node? {
      IdsReplace(t, p, c);
      assert Ids(Replace(t, p, c)) == b + m + a;
      assert m != [];
      JoinLast(b, m, a);
      if p != [] {
        RootReplace(t, p, c);
      }
    }
  }

  /** When z was last and had no children, its parent becomes the last node. */
  lemma LastToParent(t: Tree, p: seq<Dir>)
    requires Distinct(t) && IsPath(t, p) && p != [] && Sub(t, p).Node? && Sub(t, p).left.Nil? && Sub(t, p).right.Nil?
    requires Ids(t)[|Ids(t)| - 1] == Sub(t, p).id
    ensures var t' := Replace(t, p, Nil); t'.Node? && Ids(t')[|Ids(t')| - 1] == Up(t, p)
  {
    var b, a := Before(t, p), After(t, p);
    LastAtEnd(t, p);
    IdsReplace(t, p, Nil);
    assert Ids(Replace(t, p, Nil)) == b + [] + a;
    LastBefore(t, p);
    JoinLast(b, [], a);
    RootReplace(t, p, Nil);
  }

  /** The last node of a distinct tree has no right child, and nothing follows its subtree. */
  lemma LastAtEnd(t: Tree, p: seq<Dir>)
    requires Distinct(t) && IsPath(t, p) && Sub(t, p).Node? && Ids(t)[|Ids(t)| - 1] == Sub(t, p).id
    ensures After(t, p) == [] && Sub(t, p).right.Nil?
  {
    NodePosition(t, p);
  }

  /** The last element of b + m + a when a is empty: m's last, or b's when m is empty too. */
  lemma JoinLast(b: seq<int>, m: seq<int>, a: seq<int>)
    requires a == []
    ensures m != [] ==> (b + m + a)[|b + m + a| - 1] == m[|m| - 1]
    ensures m == [] && b != [] ==> (b + m + a)[|b + m + a| - 1] == b[|b| - 1]
  {
  }

  /** When z was not last, the last node stays. */
  lemma LastKept(t: Tree, p: seq<Dir>)
    requires Distinct(t) && IsPath(t, p) && Sub(t, p).Node? && (Sub(t, p).left.Nil? || Sub(t, p).right.Nil?)
    requires Ids(t)[|Ids(t)| - 1] != Sub(t, p).id
    ensures var s := Sub(t, p); var c := if s.left.Nil? then s.right else s.left;
            var t' := Replace(t, p, c);
            t'.Node? && Ids(t')[|Ids(t')| - 1] == Ids(t)[|Ids(t)| - 1]
  {
    OneChildIds(t, p);
    RemoveLast(Ids(t), Sub(t, p).id);
  }


  /**
   * qy leads, inside the right subtree of the node at pz (which has two children), to that
   * subtree's first node y: leftward all the way to a node without a left child.
   */
  ghost predicate SuccessorPath(t: Tree, pz: seq<Dir>, qy: seq<Dir>)
  {
    IsPath(t, pz) && Sub(t, pz).Node? && Sub(t, pz).left.Node? && Sub(t, pz).right.Node? &&
    var r := Sub(t, pz).right;
    IsPath(r, qy) && Sub(r, qy).Node? && Sub(r, qy).left.Nil? && Before(r, qy) == [] &&
    forall i :: 0 <= i < |qy| ==> qy[i] == Left
  }

  /** The path to the first node of the right subtree of the node at pz. */
  lemma SuccessorOf(t: Tree, pz: seq<Dir>) returns (qy: seq<Dir>)
    requires IsPath(t, pz) && Sub(t, pz).Node? && Sub(t, pz).left.Node? && Sub(t, pz).right.Node?
    ensures SuccessorPath(t, pz, qy) && Sub(Sub(t, pz).right, qy).id == MinId(Sub(t, pz).right)
  {
    qy := MinPath(Sub(t, pz).right);
  }

  /**
   * The shape of the two-child case: the successor y of z at pz sits at qy inside z's right
   * subtree r. Taking y out (t1: y replaced by its right child) and then giving z's node y's
   * index yields z's node with index y and right subtree r without y.
   */
  lemma TwoChildShape(t: Tree, pz: seq<Dir>, qy: seq<Dir>)
    requires Distinct(t) && SuccessorPath(t, pz, qy)
    ensures var s := Sub(t, pz); var r := s.right; var py := pz + [Right] + qy;
            IsPath(t, py) && Sub(t, py) == Sub(r, qy) && (qy == [] <==> Sub(t, py).id == r.id) &&
            var ys := Sub(t, py); var y := ys.id;
            var r' := Replace(r, qy, ys.right);
            var t1 := Replace(t, py, ys.right);
            IsPath(t1, pz) && Sub(t1, pz) == s.(right := r') && Up(t1, pz) == Up(t, pz) &&
            Ptr(r') == (if qy == [] then Ptr(ys.right) else r.id) &&
            Distinct(t1) && y !in IdSet(t1) && y != s.id &&
            Replace(t1, pz, Sub(t1, pz).(id := y)) == Replace(t, pz, Node(s.black, s.left, y, r'))
  {
    var s := Sub(t, pz);
    var r := s.right;
    var py := pz + [Right] + qy;
    var ys := Sub(r, qy);
    var y := ys.id;
    var r' := Replace(r, qy, ys.right);
    assert Sub(s, [Right]) == r;
    PathConcat(t, pz, [Right]);
    PathConcat(t, pz + [Right], qy);
    ReplaceConcat(t, pz + [Right], qy, ys.right);
    ReplaceConcat(t, pz, [Right], r');
    assert Replace(s, [Right], r') == s.(right := r');
    var t1 := Replace(t, py, ys.right);
    assert t1 == Replace(t, pz, s.(right := r'));
    SubReplace(t, pz, s.(right := r'));
    ReplaceTwice(t, pz, s.(right := r'), Node(s.black, s.left, y, r'));
    DistinctSub(t, pz);
    DistinctSub(t, py);
    UpOutside(t, pz);
    UpOutside(t, py);
    assert Distinct(ys.right) && y !in IdSet(ys.right);
    IdSetReplace(t, py, ys.right);
    assert y !in IdSet(ys.right);
    if qy != [] {
      assert r'.id == r.id;
      assert y != r.id by {
        assert qy[0] == Left && Sub(r, qy) == Sub(r.left, qy[1..]);
        DistinctSub(t, pz + [Right]);
        UpOutside(r.left, qy[1..]);
        assert y in IdSet(r.left);
      }
    }
    assert y in IdSet(r) by {
      DistinctSub(t, pz + [Right]);
      UpOutside(r, qy);
    }
  }

  lemma Regroup(b: seq<int>, l: seq<int>, m: seq<int>, a: seq<int>)
    ensures b + (l + m) + a == (b + l) + (m + a)
  {
  }

  /** Taking the first node y of r out of r leaves the rest of r's in-order sequence. */
  lemma FirstOut(r: Tree, qy: seq<Dir>)
    requires IsPath(r, qy) && Sub(r, qy).Node? && Sub(r, qy).left.Nil? && Before(r, qy) == []
    ensures var ys := Sub(r, qy); Ids(r) == [ys.id] + Ids(Replace(r, qy, ys.right))
  {
    var ys := Sub(r, qy);
    IdsReplace(r, qy, ys.right);
    IdsSplit(r, qy);
    assert Ids(ys) == [ys.id] + Ids(ys.right);
  }

  /**
   * The in-order sequence of the two-child case: z is gone and every other node keeps its
   * place, since y came right after z. In particular the first and last nodes do not change.
   */
  lemma TwoChildIds(t: Tree, pz: seq<Dir>, qy: seq<Dir>)
    requires Distinct(t) && IsPath(t, pz) && Sub(t, pz).Node? && Sub(t, pz).left.Node? && Sub(t, pz).right.Node?
    requires var r := Sub(t, pz).right; IsPath(r, qy) && Sub(r, qy).Node? && Sub(r, qy).left.Nil? && Before(r, qy) == []
    ensures var s := Sub(t, pz); var ys := Sub(s.right, qy);
            var t2 := Replace(t, pz, Node(s.black, s.left, ys.id, Replace(s.right, qy, ys.right)));
            Ids(t2) == Remove(Ids(t), s.id) && t2.Node? &&
            Ids(t2)[0] == Ids(t)[0] && Ids(t2)[|Ids(t2)| - 1] == Ids(t)[|Ids(t)| - 1]
  {
    var s := Sub(t, pz);
    var r := s.right;
    var ys := Sub(r, qy);
    var r' := Replace(r, qy, ys.right);
    var b, l, a := Before(t, pz), Ids(s.left), After(t, pz);
    var u := Node(s.black, s.left, ys.id, r');
    var t2 := Replace(t, pz, u);
    var ids := Ids(t);
    NodePosition(t, pz);
    TwoChildJoin(t, pz, qy);
    RemoveBetween(ids, b + l, s.id, Ids(r) + a);
  }

  /** The in-order sequence of the two-child case, around the place where z was. */
  lemma TwoChildJoin(t: Tree, pz: seq<Dir>, qy: seq<Dir>)
    requires Distinct(t) && IsPath(t, pz) && Sub(t, pz).Node? && Sub(t, pz).left.Node? && Sub(t, pz).right.Node?
    requires var r := Sub(t, pz).right; IsPath(r, qy) && Sub(r, qy).Node? && Sub(r, qy).left.Nil? && Before(r, qy) == []
    ensures var s := Sub(t, pz); var ys := Sub(s.right, qy);
            var t2 := Replace(t, pz, Node(s.black, s.left, ys.id, Replace(s.right, qy, ys.right)));
            Ids(t2) == (Before(t, pz) + Ids(s.left)) + (Ids(s.right) + After(t, pz))
  {
    var s := Sub(t, pz);
    var r := s.right;
    var ys := Sub(r, qy);
    var r' := Replace(r, qy, ys.right);
    var b, l, a := Before(t, pz), Ids(s.left), After(t, pz);
    var u := Node(s.black, s.left, ys.id, r');
    var ir, ir' := Ids(r), Ids(r');
    FirstOut(r, qy);
    assert Ids(u) == l + [ys.id] + ir';
    assert Ids(u) == l + ir by {
      assert l + [ys.id] + ir' == l + ([ys.id] + ir');
    }
    IdsReplace(t, pz, u);
    Regroup(b, l, ir, a);
  }

  /** Removing an element that occurs once, neither first nor last, keeps the ends. */
  lemma RemoveBetween(w: seq<int>, u: seq<int>, z: int, v: seq<int>)
    requires w == u + [z] + v && z !in u && z !in v && w[0] != z && w[|w| - 1] != z
    ensures Remove(w, z) == u + v && u + v != [] && (u + v)[0] == w[0] && (u + v)[|u + v| - 1] == w[|w| - 1]
  {
    RemoveOnce(u, z, v);
    RemoveFirst(w, z);
    RemoveLast(w, z);
  }

  /**
   * Where the nodes of the two-child case sit: z at pz with children zl and zr and parent zp,
   * its successor y at pz + [Right] + qy with parent yp and right child x (possibly null). They
   * are pairwise different except where the shape forces y == zr (qy empty, then yp == z).
   */
  lemma TwoChildPlaces(t: Tree, pz: seq<Dir>, qy: seq<Dir>)
    requires Distinct(t) && IsPath(t, pz) && Sub(t, pz).Node? && Sub(t, pz).left.Node? && Sub(t, pz).right.Node?
    requires var r := Sub(t, pz).right; IsPath(r, qy) && Sub(r, qy).Node? && (forall i :: 0 <= i < |qy| ==> qy[i] == Left)
    ensures var s := Sub(t, pz); var r := s.right; var ys := Sub(r, qy); var py := pz + [Right] + qy;
            IsPath(t, py) && Sub(t, py) == ys && (py + [Right] == pz + [Right] + (qy + [Right])) &&
            IsPath(t, py + [Right]) && Sub(t, py + [Right]) == ys.right &&
            var z, zl, zr, zp, y, yp := s.id, s.left.id, r.id, Up(t, pz), ys.id, Up(t, py);
            var ins := IdSet(s);
            z in ins && zl in IdSet(s.left) && zr in IdSet(r) && y in IdSet(r) &&
            IdSet(ys.right) <= IdSet(r) && y !in IdSet(ys.right) && zr !in IdSet(ys.right) &&
            IdSet(s.left) !! IdSet(r) && z !in IdSet(s.left) && z !in IdSet(r) &&
            (pz != [] ==> zp !in ins && zp in IdSet(t)) &&
            (qy == [] <==> y == zr) && (qy == [] ==> yp == z) &&
            (qy != [] ==> yp in IdSet(r) && yp !in IdSet(ys) && py[|py| - 1] == Left)
  {
    var s := Sub(t, pz);
    var r := s.right;
    var ys := Sub(r, qy);
    var py := pz + [Right] + qy;
    assert Sub(s, [Right]) == r;
    PathConcat(t, pz, [Right]);
    PathConcat(t, pz + [Right], qy);
    PathConcat(t, py, [Right]);
    assert py + [Right] == pz + [Right] + (qy + [Right]);
    DistinctSub(t, pz);
    UpOutside(t, pz);
    UpOutside(r, qy);
    assert pz + ([Right] + qy) == py;
    UpConcat(t, pz, [Right] + qy);
    if qy != [] {
      UpConcat(s, [Right], qy);
      assert qy[0] == Left && Sub(r, qy) == Sub(r.left, qy[1..]);
      UpOutside(r.left, qy[1..]);
      assert py[|py| - 1] == qy[|qy| - 1];
    }
    DistinctSub(t, py);
    DistinctSub(t, pz + [Right]);
    assert ys.id in IdSet(ys);
  }

  /**
   * After the two-child rewrite the place y left, at pz + [Right] + qy, hangs below y itself
   * when y was z's right child, and below y's old parent otherwise.
   */
  lemma TwoChildUp(t: Tree, pz: seq<Dir>, qy: seq<Dir>)
    requires IsPath(t, pz) && Sub(t, pz).Node? && Sub(t, pz).right.Node?
    requires var r := Sub(t, pz).right; IsPath(r, qy) && Sub(r, qy).Node?
    ensures var s := Sub(t, pz); var r := s.right; var ys := Sub(r, qy); var py := pz + [Right] + qy;
            var t2 := Replace(t, pz, Node(s.black, s.left, ys.id, Replace(r, qy, ys.right)));
            IsPath(t, py) && IsPath(t2, py) && Sub(t2, py) == ys.right &&
            Up(t2, py) == (if qy == [] then ys.id else Up(t, py))
  {
    var s := Sub(t, pz);
    var r := s.right;
    var ys := Sub(r, qy);
    var r' := Replace(r, qy, ys.right);
    var u := Node(s.black, s.left, ys.id, r');
    var t2 := Replace(t, pz, u);
    var py := pz + [Right] + qy;
    assert py == pz + ([Right] + qy);
    assert Sub(s, [Right]) == r;
    PathConcat(s, [Right], qy);
    PathConcat(t, pz, [Right] + qy);
    SubReplace(t, pz, u);
    SubReplace(r, qy, ys.right);
    assert IsPath(u, [Right] + qy) && Sub(u, [Right] + qy) == ys.right by {
      assert Sub(u, [Right]) == r';
      PathConcat(u, [Right], qy);
    }
    PathConcat(t2, pz, [Right] + qy);
    UpConcat(t2, pz, [Right] + qy);
    UpConcat(t, pz, [Right] + qy);
    if qy != [] {
      UpConcat(u, [Right], qy);
      UpConcat(s, [Right], qy);
    }
  }
}
