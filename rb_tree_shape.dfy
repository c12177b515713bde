/**
 * The shape of a red-black tree as a value: each node carries its colour (`black`, with
 * red = false and black = true as in the source) and the index of its record in the node arena.
 * Positions in a tree are paths of directions from the root.
 */
module RbShape {
  /** The null link. */
  const Null: int := -1
  /** The index of the header node in the arena. */
  const Header: int := 0

  datatype Dir = Left | Right

  datatype Tree = Nil | Node(black: bool, left: Tree, id: int, right: Tree)

  function Other(d: Dir): Dir
  {
    if d == Left then Right else Left
  }

  /** The link to a subtree: its root's index, or null. */
  function Ptr(t: Tree): int
  {
    if t.Nil? then Null else t.id
  }

  function Child(t: Tree, d: Dir): Tree
    requires t.Node?
  {
    if d == Left then t.left else t.right
  }

  function WithChild(t: Tree, d: Dir, s: Tree): (r: Tree)
    requires t.Node?
    ensures r.Node? && r.black == t.black && r.id == t.id
    ensures Child(r, d) == s && Child(r, Other(d)) == Child(t, Other(d))
  {
    if d == Left then t.(left := s) else t.(right := s)
  }

  /** The indices of the nodes, in order. */
  function Ids(t: Tree): seq<int>
  {
    if t.Nil? then [] else Ids(t.left) + [t.id] + Ids(t.right)
  }

  function IdSet(t: Tree): set<int>
  {
    if t.Nil? then {} else IdSet(t.left) + {t.id} + IdSet(t.right)
  }

  /** No node index occurs twice. */
  ghost predicate Distinct(t: Tree)
  {
    t.Nil? ||
    (Distinct(t.left) && Distinct(t.right) && t.id !in IdSet(t.left) && t.id !in IdSet(t.right) &&
     IdSet(t.left) !! IdSet(t.right))
  }

  lemma {:induction false} IdsIdSet(t: Tree)
    ensures forall i :: i in Ids(t) <==> i in IdSet(t)
  {
    if t.Node? {
      IdsIdSet(t.left);
      IdsIdSet(t.right);
    }
  }

  /** A distinct tree lists every index once, in order. */
  lemma {:induction false} DistinctIds(t: Tree)
    requires Distinct(t)
    ensures forall i, j :: 0 <= i < j < |Ids(t)| ==> Ids(t)[i] != Ids(t)[j]
  {
    if t.Node? {
      DistinctIds(t.left);
      DistinctIds(t.right);
      IdsIdSet(t.left);
      IdsIdSet(t.right);
      var a, b := Ids(t.left), Ids(t.right);
      forall i, j | 0 <= i < j < |Ids(t)| ensures Ids(t)[i] != Ids(t)[j] {
        if i < |a| && j > |a| {
          assert Ids(t)[i] in IdSet(t.left) && Ids(t)[j] == b[j - |a| - 1];
        }
      }
    }
  }

  /** p leads from the root to a subtree (possibly empty) of t. */
  ghost predicate IsPath(t: Tree, p: seq<Dir>)
  {
    p == [] || (t.Node? && IsPath(Child(t, p[0]), p[1..]))
  }

  /** The subtree at p. */
  function Sub(t: Tree, p: seq<Dir>): Tree
  {
    if p == [] || t.Nil? then t else Sub(Child(t, p[0]), p[1..])
  }

  /** t with the subtree at p replaced by s. */
  function Replace(t: Tree, p: seq<Dir>, s: Tree): Tree
  {
    if p == [] then s else if t.Nil? then t else WithChild(t, p[0], Replace(Child(t, p[0]), p[1..], s))
  }

  /** The index of the parent of the node at p: the header for the root. */
  function Up(t: Tree, p: seq<Dir>): int
  {
    if p == [] then Header else if t.Nil? then Null else if |p| == 1 then t.id else Up(Child(t, p[0]), p[1..])
  }

  /** The node at p is red. */
  ghost predicate RedAt(t: Tree, p: seq<Dir>)
  {
    IsPath(t, p) && IsRed(Sub(t, p))
  }

  lemma {:induction false} SubReplace(t: Tree, p: seq<Dir>, s: Tree)
    requires IsPath(t, p)
    ensures IsPath(Replace(t, p, s), p) && Sub(Replace(t, p, s), p) == s
    ensures Up(Replace(t, p, s), p) == Up(t, p)
  {
    if p != [] {
      SubReplace(Child(t, p[0]), p[1..], s);
    }
  }

  lemma {:induction false} PathConcat(t: Tree, p: seq<Dir>, q: seq<Dir>)
    ensures IsPath(t, p + q) <==> IsPath(t, p) && IsPath(Sub(t, p), q)
    ensures IsPath(t, p + q) ==> Sub(t, p + q) == Sub(Sub(t, p), q)
  {
    if p == [] {
      assert p + q == q;
    } else {
      assert (p + q)[0] == p[0] && (p + q)[1..] == p[1..] + q;
      if t.Node? {
        PathConcat(Child(t, p[0]), p[1..], q);
      }
    }
  }

  lemma {:induction false} ReplaceConcat(t: Tree, p: seq<Dir>, q: seq<Dir>, s: Tree)
    requires IsPath(t, p + q)
    ensures IsPath(t, p) && IsPath(Sub(t, p), q)
    ensures Replace(t, p + q, s) == Replace(t, p, Replace(Sub(t, p), q, s))
  {
    PathConcat(t, p, q);
    if p == [] {
      assert p + q == q;
    } else {
      assert (p + q)[0] == p[0] && (p + q)[1..] == p[1..] + q;
      ReplaceConcat(Child(t, p[0]), p[1..], q, s);
    }
  }

  lemma {:induction false} ReplaceTwice(t: Tree, p: seq<Dir>, a: Tree, b: Tree)
    requires IsPath(t, p)
    ensures IsPath(Replace(t, p, a), p) && Replace(Replace(t, p, a), p, b) == Replace(t, p, b)
  {
    SubReplace(t, p, a);
    if p != [] {
      ReplaceTwice(Child(t, p[0]), p[1..], a, b);
    }
  }

  /** Replacing a subtree at a path with itself changes nothing. */
  lemma {:induction false} ReplaceSame(t: Tree, p: seq<Dir>)
    requires IsPath(t, p)
    ensures Replace(t, p, Sub(t, p)) == t
  {
    if p != [] {
      ReplaceSame(Child(t, p[0]), p[1..]);
    }
  }

  /**
   * The step of a local rewrite: a change at q inside the subtree s at p, made on the tree that
   * has s at p, is the change of s at p.
   */
  lemma LocalStep(t: Tree, p: seq<Dir>, s: Tree, q: seq<Dir>, u: Tree)
    requires IsPath(t, p) && IsPath(s, q)
    ensures IsPath(Replace(t, p, s), p + q) && Sub(Replace(t, p, s), p + q) == Sub(s, q)
    ensures Replace(Replace(t, p, s), p + q, u) == Replace(t, p, Replace(s, q, u))
    ensures Up(Replace(t, p, s), p + q) == if q == [] then Up(t, p) else Up(s, q)
  {
    SubReplace(t, p, s);
    PathConcat(Replace(t, p, s), p, q);
    ReplaceConcat(Replace(t, p, s), p, q, u);
    ReplaceTwice(t, p, s, Replace(s, q, u));
    UpConcat(Replace(t, p, s), p, q);
  }

  lemma {:induction false} UpConcat(t: Tree, p: seq<Dir>, q: seq<Dir>)
    requires IsPath(t, p + q)
    ensures IsPath(t, p) && IsPath(Sub(t, p), q)
    ensures Up(t, p + q) == if q == [] then Up(t, p) else if p == [] then Up(t, q) else Up(Sub(t, p), q)
  {
    PathConcat(t, p, q);
    if p == [] {
      assert p + q == q;
    } else if q == [] {
      assert p + q == p;
    } else {
      assert (p + q)[0] == p[0] && (p + q)[1..] == p[1..] + q;
      UpConcat(Child(t, p[0]), p[1..], q);
      if p[1..] == [] {
        assert Up(Child(t, p[0]), q) == Up(Sub(t, p), q);
      }
    }
  }

  /** The in-order indices before and after the subtree at p. */
  function Before(t: Tree, p: seq<Dir>): seq<int>
  {
    if p == [] || t.Nil? then []
    else if p[0] == Left then Before(t.left, p[1..])
    else Ids(t.left) + [t.id] + Before(t.right, p[1..])
  }

  function After(t: Tree, p: seq<Dir>): seq<int>
  {
    if p == [] || t.Nil? then []
    else if p[0] == Left then After(t.left, p[1..]) + [t.id] + Ids(t.right)
    else After(t.right, p[1..])
  }

  /** The in-order sequence around the subtree at p. */
  lemma {:induction false} IdsSplit(t: Tree, p: seq<Dir>)
    ensures Ids(t) == Before(t, p) + Ids(Sub(t, p)) + After(t, p)
  {
    if p != [] && t.Node? {
      var c := Child(t, p[0]);
      IdsSplit(c, p[1..]);
      var a, b := Before(c, p[1..]), After(c, p[1..]);
      assert Sub(t, p) == Sub(c, p[1..]);
      if p[0] == Left {
        assert Ids(t) == (a + Ids(Sub(t, p)) + b) + [t.id] + Ids(t.right);
      } else {
        assert Ids(t) == Ids(t.left) + [t.id] + (a + Ids(Sub(t, p)) + b);
      }
    }
  }

  /** A replacement rewrites only its own stretch of the in-order sequence. */
  lemma {:induction false} IdsReplace(t: Tree, p: seq<Dir>, s: Tree)
    requires IsPath(t, p)
    ensures Ids(Replace(t, p, s)) == Before(t, p) + Ids(s) + After(t, p)
  {
    if p != [] {
      var c := Child(t, p[0]);
      IdsReplace(c, p[1..], s);
      if p[0] == Left {
        IdsLeftStep(t, Before(c, p[1..]), Ids(s), After(c, p[1..]), Replace(c, p[1..], s));
      } else {
        IdsRightStep(t, Before(c, p[1..]), Ids(s), After(c, p[1..]), Replace(c, p[1..], s));
      }
    }
  }

  lemma IdsLeftStep(t: Tree, a: seq<int>, m: seq<int>, b: seq<int>, r: Tree)
    requires t.Node? && Ids(r) == a + m + b
    ensures Ids(t.(left := r)) == a + m + (b + [t.id] + Ids(t.right))
  {
    assert Ids(t.(left := r)) == (a + m + b) + [t.id] + Ids(t.right);
  }

  lemma IdsRightStep(t: Tree, a: seq<int>, m: seq<int>, b: seq<int>, r: Tree)
    requires t.Node? && Ids(r) == a + m + b
    ensures Ids(t.(right := r)) == (Ids(t.left) + [t.id] + a) + m + b
  {
    assert Ids(t.(right := r)) == Ids(t.left) + [t.id] + (a + m + b);
  }

  /** The index sets of a tree and its replacement differ in the replaced subtree only. */
  lemma {:induction false} IdSetReplace(t: Tree, p: seq<Dir>, s: Tree)
    requires IsPath(t, p) && Distinct(t) && Distinct(s)
    requires IdSet(s) <= IdSet(Sub(t, p))
    ensures IdSet(Replace(t, p, s)) == IdSet(t) - IdSet(Sub(t, p)) + IdSet(s)
    ensures IdSet(Sub(t, p)) <= IdSet(t)
    ensures Distinct(Replace(t, p, s))
  {
    if p != [] {
      IdSetReplace(Child(t, p[0]), p[1..], s);
    }
  }

  /** In a distinct tree the parent of the node at p is not in the subtree at p, and is a node of t or the header. */
  lemma {:induction false} UpOutside(t: Tree, p: seq<Dir>)
    requires IsPath(t, p) && Distinct(t)
    ensures p != [] ==> Up(t, p) !in IdSet(Sub(t, p)) && Up(t, p) in IdSet(t)
    ensures IdSet(Sub(t, p)) <= IdSet(t)
  {
    if p != [] {
      UpOutside(Child(t, p[0]), p[1..]);
    }
  }

  /** The left rotation at the root: `rb_tree_rotate_left` on values, colours staying with their nodes. */
  function RotL(t: Tree): (r: Tree)
    requires t.Node? && t.right.Node?
    ensures Ids(r) == Ids(t) && IdSet(r) == IdSet(t)
  {
    var y := t.right;
    Node(y.black, Node(t.black, t.left, t.id, y.left), y.id, y.right)
  }

  /** The right rotation at the root. */
  function RotR(t: Tree): (r: Tree)
    requires t.Node? && t.left.Node?
    ensures Ids(r) == Ids(t) && IdSet(r) == IdSet(t)
  {
    var y := t.left;
    Node(y.black, y.left, y.id, Node(t.black, y.right, t.id, t.right))
  }

  function RotLAt(t: Tree, p: seq<Dir>): Tree
    requires IsPath(t, p) && Sub(t, p).Node? && Sub(t, p).right.Node?
  {
    Replace(t, p, RotL(Sub(t, p)))
  }

  function RotRAt(t: Tree, p: seq<Dir>): Tree
    requires IsPath(t, p) && Sub(t, p).Node? && Sub(t, p).left.Node?
  {
    Replace(t, p, RotR(Sub(t, p)))
  }

  function RecolorAt(t: Tree, p: seq<Dir>, b: bool): Tree
    requires IsPath(t, p) && Sub(t, p).Node?
  {
    Replace(t, p, Sub(t, p).(black := b))
  }

  /** The rotation at the root that lifts the child toward d. */
  function RotSub(t: Tree, d: Dir): (r: Tree)
    requires t.Node? && Child(t, d).Node?
    ensures Ids(r) == Ids(t) && IdSet(r) == IdSet(t)
  {
    if d == Right then RotL(t) else RotR(t)
  }

  /** The rotation at p that lifts the child toward d: `rb_tree_rotate_left` for d = Right. */
  function Rotate(t: Tree, p: seq<Dir>, d: Dir): Tree
    requires IsPath(t, p) && Sub(t, p).Node? && Child(Sub(t, p), d).Node?
  {
    Replace(t, p, RotSub(Sub(t, p), d))
  }

  /** A recolouring at p + q, on a tree holding s at p, recolours inside s. */
  lemma RecolorLocal(t: Tree, p: seq<Dir>, s: Tree, q: seq<Dir>, b: bool)
    requires IsPath(t, p) && IsPath(s, q) && Sub(s, q).Node?
    ensures IsPath(Replace(t, p, s), p + q) && Sub(Replace(t, p, s), p + q) == Sub(s, q)
    ensures RecolorAt(Replace(t, p, s), p + q, b) == Replace(t, p, RecolorAt(s, q, b))
  {
    LocalStep(t, p, s, q, Sub(s, q).(black := b));
  }

  /** A rotation at p + q, on a tree holding s at p, rotates inside s. */
  lemma RotateLocal(t: Tree, p: seq<Dir>, s: Tree, q: seq<Dir>, d: Dir)
    requires IsPath(t, p) && IsPath(s, q) && Sub(s, q).Node? && Child(Sub(s, q), d).Node?
    ensures IsPath(Replace(t, p, s), p + q) && Sub(Replace(t, p, s), p + q) == Sub(s, q)
    ensures Rotate(Replace(t, p, s), p + q, d) == Replace(t, p, Rotate(s, q, d))
  {
    LocalStep(t, p, s, q, RotSub(Sub(s, q), d));
  }

  /** One step down from a node: the child toward d, and replacing it. */
  lemma OneStep(t: Tree, d: Dir, u: Tree)
    requires t.Node?
    ensures IsPath(t, [d]) && Sub(t, [d]) == Child(t, d) && Replace(t, [d], u) == WithChild(t, d, u)
  {
    assert [d][1..] == [];
  }

  /** The parent of the node at p + [d] is the node at p. */
  lemma UpLast(t: Tree, p: seq<Dir>, d: Dir)
    requires IsPath(t, p + [d]) && Sub(t, p).Node?
    ensures Up(t, p + [d]) == Sub(t, p).id
  {
    UpConcat(t, p, [d]);
  }

  /** The node above p + [d] is red exactly when the node at p is. */
  lemma {:induction false} UpRedLast(t: Tree, p: seq<Dir>, d: Dir)
    requires IsPath(t, p + [d])
    ensures UpRed(t, p + [d]) <==> IsRed(Sub(t, p))
  {
    if p != [] {
      assert (p + [d])[1..] == p[1..] + [d];
      UpRedLast(Child(t, p[0]), p[1..], d);
    }
  }

  /** Replacing a subtree by one with the same in-order sequence keeps the tree's sequence. */
  lemma SameIds(t: Tree, p: seq<Dir>, s: Tree)
    requires IsPath(t, p) && Ids(s) == Ids(Sub(t, p))
    ensures Ids(Replace(t, p, s)) == Ids(t)
  {
    IdsSplit(t, p);
    IdsReplace(t, p, s);
  }

  /** A rotation keeps the in-order sequence, and so the order of the keys. */
  lemma RotationKeepsOrder(t: Tree, p: seq<Dir>)
    requires IsPath(t, p) && Sub(t, p).Node?
    ensures Sub(t, p).right.Node? ==> Ids(RotLAt(t, p)) == Ids(t)
    ensures Sub(t, p).left.Node? ==> Ids(RotRAt(t, p)) == Ids(t)
  {
    IdsSplit(t, p);
    if Sub(t, p).right.Node? {
      IdsReplace(t, p, RotL(Sub(t, p)));
    }
    if Sub(t, p).left.Node? {
      IdsReplace(t, p, RotR(Sub(t, p)));
    }
  }

  // ---------------------------------------------------------------------------------------
  // Colour invariants.

  predicate IsRed(t: Tree)
  {
    t.Node? && !t.black
  }

  /** Black nodes on the leftmost path. */
  function BH(t: Tree): nat
  {
    if t.Nil? then 0 else BH(t.left) + (if t.black then 1 else 0)
  }

  /** Every path from a node down to an empty subtree meets the same number of black nodes. */
  ghost predicate Balanced(t: Tree)
  {
    t.Nil? || (Balanced(t.left) && Balanced(t.right) && BH(t.left) == BH(t.right))
  }

  /** No red node has a red child. */
  ghost predicate RedOk(t: Tree)
  {
    t.Nil? || (RedOk(t.left) && RedOk(t.right) && (t.black || (!IsRed(t.left) && !IsRed(t.right))))
  }

  /** The red-black conditions: balanced, no red node with a red child, and a black root. */
  ghost predicate RedBlack(t: Tree)
  {
    Balanced(t) && RedOk(t) && !IsRed(t)
  }

  /**
   * No red node has a red child, except that the node x at p may be a red child of a red node
   * when `into` holds, and may have red children when `out` holds.
   */
  ghost predicate RedOkAt(t: Tree, p: seq<Dir>, into: bool, out: bool)
    decreases p
  {
    if p == [] then
      t.Nil? || (RedOk(t.left) && RedOk(t.right) && (out || t.black || (!IsRed(t.left) && !IsRed(t.right))))
    else
      t.Node? && RedOkAt(Child(t, p[0]), p[1..], into, out) && RedOk(Child(t, Other(p[0]))) &&
      (t.black || !IsRed(Child(t, Other(p[0])))) &&
      (t.black || !IsRed(Child(t, p[0])) || (|p| == 1 && into))
  }

  /** Black height counting one extra black at p: the erase fix-up's doubly black node. */
  function EBH(t: Tree, p: seq<Dir>): nat
    decreases p
  {
    if p == [] then BH(t) + 1
    else if t.Nil? then 0
    else EBH(Child(t, p[0]), p[1..]) + (if t.black then 1 else 0)
  }

  /** Balanced once the subtree at p counts one extra black. */
  ghost predicate EBalanced(t: Tree, p: seq<Dir>)
    decreases p
  {
    IsPath(t, p) &&
    if p == [] then Balanced(t)
    else
      EBalanced(Child(t, p[0]), p[1..]) && Balanced(Child(t, Other(p[0]))) &&
      EBH(Child(t, p[0]), p[1..]) == BH(Child(t, Other(p[0])))
  }

  lemma {:induction false} RedOkAtIsPath(t: Tree, p: seq<Dir>, i: bool, o: bool)
    requires RedOkAt(t, p, i, o)
    ensures IsPath(t, p)
  {
    if p != [] {
      RedOkAtIsPath(Child(t, p[0]), p[1..], i, o);
    }
  }

  /** Without exceptions, RedOkAt is RedOk. */
  lemma {:induction false} RedOkAtStrict(t: Tree, p: seq<Dir>, i: bool, o: bool)
    requires IsPath(t, p)
    ensures RedOk(t) ==> RedOkAt(t, p, i, o)
    ensures RedOkAt(t, p, false, false) ==> RedOk(t)
  {
    if p != [] {
      RedOkAtStrict(Child(t, p[0]), p[1..], i, o);
    }
  }

  /** The exceptions only matter when x is red. */
  lemma {:induction false} RedOkAtBlack(t: Tree, p: seq<Dir>, i: bool, o: bool)
    requires RedOkAt(t, p, i, o) && !RedAt(t, p)
    ensures RedOk(t)
  {
    if p != [] {
      RedOkAtBlack(Child(t, p[0]), p[1..], i, o);
    }
  }

  lemma {:induction false} RedOkAtWeaken(t: Tree, p: seq<Dir>)
    requires RedOkAt(t, p, false, true) || RedOkAt(t, p, true, false)
    ensures RedOkAt(t, p, true, true)
  {
    if p != [] {
      RedOkAtWeaken(Child(t, p[0]), p[1..]);
    }
  }

  lemma {:induction false} RedOkAtSub(t: Tree, p: seq<Dir>, q: seq<Dir>, i: bool, o: bool)
    requires RedOkAt(t, p + q, i, o)
    ensures IsPath(t, p) && RedOkAt(Sub(t, p), q, i, o)
  {
    if p == [] {
      assert p + q == q;
    } else {
      assert (p + q)[0] == p[0] && (p + q)[1..] == p[1..] + q;
      RedOkAtSub(Child(t, p[0]), p[1..], q, i, o);
    }
  }

  /** The node above p is red. */
  ghost predicate UpRed(t: Tree, p: seq<Dir>)
    decreases p
  {
    p != [] && t.Node? && if |p| == 1 then !t.black else UpRed(Child(t, p[0]), p[1..])
  }

  /**
   * Replacing the subtree at p by one whose own exceptions at q' match keeps RedOkAt, provided a
   * red replacement under a red parent is x itself and red children of x's parent are allowed.
   */
  lemma {:induction false} RedOkAtReplace(t: Tree, p: seq<Dir>, q: seq<Dir>, s: Tree, q': seq<Dir>, i: bool, o: bool)
    requires RedOkAt(t, p + q, i, o) && RedOkAt(s, q', i, o)
    requires IsRed(s) && UpRed(t, p) ==> q' == [] && i
    ensures IsPath(t, p) && RedOkAt(Replace(t, p, s), p + q', i, o)
  {
    RedOkAtIsPath(t, p + q, i, o);
    PathConcat(t, p, q);
    if p == [] {
      assert p + q' == q';
    } else {
      assert (p + q)[0] == p[0] && (p + q)[1..] == p[1..] + q;
      assert (p + q')[0] == p[0] && (p + q')[1..] == p[1..] + q';
      var c := Child(t, p[0]);
      if p[1..] != [] {
        RedOkAtReplace(c, p[1..], q, s, q', i, o);
        var c' := Replace(c, p[1..], s);
        assert c'.Node? && c'.black == c.black;
      }
    }
  }

  /** Setting a node black keeps RedOkAt about it, and when it is x it ends every exception. */
  lemma {:induction false} RedOkAtBlacken(t: Tree, p: seq<Dir>, i: bool, o: bool)
    requires RedOkAt(t, p, i, o) && IsPath(t, p) && Sub(t, p).Node?
    ensures RedOk(Replace(t, p, Sub(t, p).(black := true)))
  {
    if p != [] {
      RedOkAtBlacken(Child(t, p[0]), p[1..], i, o);
    }
  }

  /** With x at p: when x is the root or its parent is black, RedOkAt without `out` is RedOk. */
  lemma {:induction false} RedOkAtSettled(t: Tree, p: seq<Dir>, i: bool)
    requires RedOkAt(t, p, i, false) && !UpRed(t, p)
    ensures RedOk(t)
  {
    if p != [] {
      RedOkAtSettled(Child(t, p[0]), p[1..], i);
    }
  }

  lemma {:induction false} BalancedReplace(t: Tree, p: seq<Dir>, s: Tree)
    requires IsPath(t, p) && Balanced(t) && Balanced(s) && BH(s) == BH(Sub(t, p))
    ensures Balanced(Replace(t, p, s)) && BH(Replace(t, p, s)) == BH(t)
  {
    if p != [] {
      BalancedReplace(Child(t, p[0]), p[1..], s);
    }
  }

  lemma {:induction false} BalancedSub(t: Tree, p: seq<Dir>)
    requires IsPath(t, p) && Balanced(t)
    ensures Balanced(Sub(t, p))
  {
    if p != [] {
      BalancedSub(Child(t, p[0]), p[1..]);
    }
  }

  lemma {:induction false} EBalancedSub(t: Tree, p: seq<Dir>, q: seq<Dir>)
    requires EBalanced(t, p + q)
    ensures IsPath(t, p) && EBalanced(Sub(t, p), q)
  {
    if p == [] {
      assert p + q == q;
    } else {
      assert (p + q)[0] == p[0] && (p + q)[1..] == p[1..] + q;
      EBalancedSub(Child(t, p[0]), p[1..], q);
    }
  }

  /** Replacing the subtree at p by one of the same extra black height keeps EBalanced. */
  lemma {:induction false} EBalancedReplace(t: Tree, p: seq<Dir>, q: seq<Dir>, s: Tree, q': seq<Dir>)
    requires EBalanced(t, p + q) && EBalanced(s, q')
    requires IsPath(t, p) && EBH(s, q') == EBH(Sub(t, p), q)
    ensures IsPath(Replace(t, p, s), p + q') && EBalanced(Replace(t, p, s), p + q')
    ensures EBH(Replace(t, p, s), p + q') == EBH(t, p + q)
  {
    PathConcat(t, p, q);
    if p == [] {
      assert p + q == q && p + q' == q';
    } else {
      assert (p + q)[0] == p[0] && (p + q)[1..] == p[1..] + q;
      assert (p + q')[0] == p[0] && (p + q')[1..] == p[1..] + q';
      EBalancedReplace(Child(t, p[0]), p[1..], q, s, q');
    }
  }

  /** When the replacement is balanced at the extra black height, the whole tree is balanced. */
  lemma {:induction false} EBalancedResolve(t: Tree, p: seq<Dir>, q: seq<Dir>, s: Tree)
    requires EBalanced(t, p + q) && Balanced(s)
    requires IsPath(t, p) && BH(s) == EBH(Sub(t, p), q)
    ensures Balanced(Replace(t, p, s))
  {
    PathConcat(t, p, q);
    if p == [] {
      assert p + q == q;
    } else {
      assert (p + q)[0] == p[0] && (p + q)[1..] == p[1..] + q;
      EBalancedResolve(Child(t, p[0]), p[1..], q, s);
      ResolveHeight(Child(t, p[0]), p[1..], q, s);
    }
  }

  lemma {:induction false} ResolveHeight(t: Tree, p: seq<Dir>, q: seq<Dir>, s: Tree)
    requires EBalanced(t, p + q) && Balanced(s)
    requires IsPath(t, p) && BH(s) == EBH(Sub(t, p), q)
    ensures BH(Replace(t, p, s)) == EBH(t, p + q)
  {
    PathConcat(t, p, q);
    if p == [] {
      assert p + q == q;
    } else {
      assert (p + q)[0] == p[0] && (p + q)[1..] == p[1..] + q;
      ResolveHeight(Child(t, p[0]), p[1..], q, s);
      EBalancedResolve(Child(t, p[0]), p[1..], q, s);
    }
  }

  /** A balanced tree is EBalanced at the root. */
  lemma EBalancedRoot(t: Tree)
    requires Balanced(t)
    ensures EBalanced(t, []) && EBH(t, []) == BH(t) + 1
  {
  }

  /** Replacing below the root keeps the root's colour. */
  lemma RootReplace(t: Tree, p: seq<Dir>, s: Tree)
    requires IsPath(t, p) && p != []
    ensures Replace(t, p, s).Node? && Replace(t, p, s).black == t.black && Replace(t, p, s).id == t.id
  {
  }
}
