/**
 * Two loops of `segtree` as they are written, next to the corrected ones in SegTree: the build
 * loop of the constructor counts up instead of down, and the exit test of `max_right` compares
 * the lowest set bit of l with 1 instead of with l.
 */
module SegTreeAsWritten {
  import opened Wrappers
  import opened SegTree

  /**
   * The build loop as written: it starts at slot size - 1 but steps i upwards while i >= 1, and
   * `update(i)` reads slot 2i + 1, out of range once that passes the end.
   */
  function BuildAsWritten<S>(op: (S, S) -> S, d: seq<S>, i: int): (r: Result<seq<S>>)
    decreases |d| - i
  {
    if i < 1 then Ok(d)
    else if 2 * i + 1 >= |d| then Fail(OutOfRange)
    else BuildAsWritten(op, d[i := op(d[2 * i], d[2 * i + 1])], i + 1)
  }

  /** Once the loop has entered (i >= 1) it never leaves within the buffer. */
  lemma {:induction false} BuildAsWrittenRunsOff<S>(op: (S, S) -> S, d: seq<S>, i: int)
    requires 1 <= i
    ensures BuildAsWritten(op, d, i) == Fail(OutOfRange)
    decreases |d| - i
  {
    if 2 * i + 1 < |d| {
      BuildAsWrittenRunsOff(op, d[i := op(d[2 * i], d[2 * i + 1])], i + 1);
    }
  }

  /**
   * On the 2 * size slots of the constructor, the loop as written finishes only when it never
   * starts, that is when size = 1 (n <= 1): every tree over two or more values reads out of range.
   */
  lemma BuildAsWrittenOkIff<S>(op: (S, S) -> S, d: seq<S>, size: nat)
    requires 1 <= size && |d| == 2 * size
    ensures BuildAsWritten(op, d, size - 1).Ok? <==> size == 1
  {
    if size > 1 {
      BuildAsWrittenRunsOff(op, d, size - 1);
    }
  }

  /** The climb of `max_right` while l is even: the odd number left once the factors of two are gone. */
  function ClimbEven(x: nat): (y: nat)
    requires x >= 1
    ensures 1 <= y <= x && y % 2 == 1
    decreases x
  {
    if x % 2 == 0 then ClimbEven(x / 2) else x
  }

  /** The descent of `max_right` (the inner loop): into the left child, or past it into the right. */
  function DescendAsWritten<S>(op: (S, S) -> S, t: seq<S>, size: nat, f: S -> bool, x: nat, sm: S): (leaf: nat)
    requires |t| == 2 * size && 1 <= x < |t|
    ensures size <= leaf < |t|
    decreases size - x
  {
    if x >= size then x
    else if f(op(sm, t[2 * x])) then DescendAsWritten(op, t, size, f, 2 * x + 1, op(sm, t[2 * x]))
    else DescendAsWritten(op, t, size, f, 2 * x, sm)
  }

  /**
   * The do-while loop of `max_right` as written, from slot x with fold sm, for at most `fuel`
   * rounds (None when they run out): the loop goes on while `(l & -l) != 1`.
   */
  function ScanAsWritten<S>(op: (S, S) -> S, t: seq<S>, size: nat, n: nat, f: S -> bool, x: nat, sm: S, fuel: nat): (r: Option<int>)
    requires |t| == 2 * size && 1 <= x <= |t|
    decreases fuel
  {
    if fuel == 0 then None
    else
      var y := ClimbEven(x);
      if y == |t| then None
      else if !f(op(sm, t[y])) then Some(DescendAsWritten(op, t, size, f, y, sm) - size)
      else if LowBit(y + 1) != 1 then ScanAsWritten(op, t, size, n, f, y + 1, op(sm, t[y]), fuel - 1)
      else Some(n)
  }

  /** `max_right(l, f)` as written, with at most `fuel` rounds of its do-while loop. */
  function MaxRightAsWritten<S>(op: (S, S) -> S, e: S, t: seq<S>, size: nat, n: nat, l: nat, f: S -> bool, fuel: nat): (r: Option<int>)
    requires |t| == 2 * size && l <= n <= size
    ensures l == n ==> r == Some(n)
  {
    if l == n then Some(n) else ScanAsWritten(op, t, size, n, f, size + l, e, fuel)
  }

  /** The sum tree over the single value 1: slot 0 unused, leaf 1 holds 1. */
  const OneLeaf: seq<int> := [0, 1]

  /**
   * As written, on the sum tree over [1] with f = (x <= 1), `max_right(0, f)` returns 0: the
   * loop does not stop after adding the only leaf, climbs to the root and adds it a second time.
   */
  lemma MaxRightAsWrittenOnOne(fuel: nat)
    requires fuel >= 2
    ensures MaxRightAsWritten((a: int, b: int) => a + b, 0, OneLeaf, 1, 1, 0, (x: int) => x <= 1, fuel) == Some(0)
  {
    var op := (a: int, b: int) => a + b;
    var f := (x: int) => x <= 1;
    assert ClimbEven(1) == 1 && ClimbEven(2) == 1 && LowBit(2) == 2;
    assert ScanAsWritten(op, OneLeaf, 1, 1, f, 2, 1, fuel - 1) == Some(0);
  }

  /**
   * The answer `max_right` promises on the values [1] from l = 0 with f = (x <= 1) is 1: the
   * contract of SegTree.Tree.MaxRight holds of r = 1 and of no other r.
   */
  lemma MaxRightIntendedOnOne(r: nat)
    requires r <= 1
    ensures (var op, f, v := (a: int, b: int) => a + b, (x: int) => x <= 1, [1];
             f(Fold(op, 0, v[0..r])) && (r < 1 ==> !f(Fold(op, 0, v[0..r + 1])))) <==> r == 1
  {
    var op := (a: int, b: int) => a + b;
    assert Fold(op, 0, [1][0..1]) == 1 by {
      assert [1][0..1][..0] == [];
    }
  }

  /** With the values [0] and f = (x <= 0), which holds of every fold, the loop as written never ends. */
  lemma {:induction false} MaxRightAsWrittenOnZero(fuel: nat, x: nat)
    requires x == 1 || x == 2
    ensures ScanAsWritten((a: int, b: int) => a + b, [0, 0], 1, 1, (y: int) => y <= 0, x, 0, fuel) == None
    decreases fuel
  {
    if fuel > 0 {
      assert ClimbEven(x) == 1 && LowBit(2) == 2;
      MaxRightAsWrittenOnZero(fuel - 1, 2);
    }
  }

  /** The sum of integers is a monoid with identity 0. */
  lemma SumMonoid()
    ensures Monoid((a: int, b: int) => a + b, 0)
  {
  }
}
