/**
 * `segtree<S, op, e>`: a segment tree over a monoid (op associative, e its identity) stored in
 * an array `d` of 2 * size slots, size = 2^log >= n. Leaf i is slot size + i; slot k < size holds
 * op of its children 2k and 2k + 1; slot 0 is unused.
 */
module SegTree {

  /** 2^k. */
  function Pow2(k: nat): (r: nat)
    ensures r >= 1
  {
    if k == 0 then 1 else 2 * Pow2(k - 1)
  }

  lemma {:induction false} Pow2Add(a: nat, b: nat)
    ensures Pow2(a + b) == Pow2(a) * Pow2(b)
    decreases b
  {
    if b > 0 {
      Pow2Add(a, b - 1);
      assert Pow2(a + b) == 2 * Pow2(a + b - 1);
    }
  }

  lemma {:induction false} Pow2Below(a: nat, b: nat)
    requires a < b
    ensures 2 * Pow2(a) <= Pow2(b)
    decreases b
  {
    if a + 1 < b {
      Pow2Below(a, b - 1);
    }
  }

  /** `ceil_pow2(n)`: the least x with n <= 2^x. */
  function CeilPow2(n: nat): (x: nat)
    ensures n <= Pow2(x) && (x == 0 || Pow2(x - 1) < n)
  {
    if n <= 1 then 0 else 1 + CeilPow2((n + 1) / 2)
  }

  /** `x & -x` for x > 0: the lowest set bit of x. */
  function LowBit(x: nat): (r: nat)
    requires x > 0
    ensures 1 <= r <= x
  {
    if x % 2 == 1 then 1 else 2 * LowBit(x / 2)
  }

  lemma {:induction false} LowBitOfPow2(m: nat)
    ensures LowBit(Pow2(m)) == Pow2(m)
  {
    if m > 0 {
      LowBitOfPow2(m - 1);
    }
  }

  /** x is its own lowest set bit only when it is a power of two. */
  lemma {:induction false} LowBitIsSelf(x: nat) returns (m: nat)
    requires x > 0 && LowBit(x) == x
    ensures x == Pow2(m)
  {
    if x % 2 == 1 {
      m := 0;
    } else {
      var k := LowBitIsSelf(x / 2);
      m := k + 1;
    }
  }

  /** An even number's lowest set bit is never 1. */
  lemma LowBitOfEven(x: nat)
    requires x > 0 && x % 2 == 0
    ensures LowBit(x) != 1
  {
  }

  /** op is associative at a, b, c. */
  ghost predicate AssocAt<S>(op: (S, S) -> S, a: S, b: S, c: S)
  {
    op(op(a, b), c) == op(a, op(b, c))
  }

  /** e is an identity of op at a. */
  ghost predicate IdAt<S>(op: (S, S) -> S, e: S, a: S)
  {
    op(e, a) == a && op(a, e) == a
  }

  /**
   * op is associative with identity e (stated through AssocAt and IdAt, so that each use of a
   * law is named where it is needed).
   */
  ghost predicate Monoid<S(!new)>(op: (S, S) -> S, e: S)
  {
    (forall a, b, c :: AssocAt(op, a, b, c)) && (forall a :: IdAt(op, e, a))
  }

  /** op folded left to right over s, starting from e. */
  function Fold<S>(op: (S, S) -> S, e: S, s: seq<S>): S
  {
    if |s| == 0 then e else op(Fold(op, e, s[..|s| - 1]), s[|s| - 1])
  }

  /** op folded left to right over slots lo .. hi - 1 of t, starting from e. */
  function FoldRange<S>(op: (S, S) -> S, e: S, t: seq<S>, lo: nat, hi: nat): S
    requires lo <= hi <= |t|
    decreases hi - lo
  {
    if lo == hi then e else op(FoldRange(op, e, t, lo, hi - 1), t[hi - 1])
  }

  /** Folding a range of slots is folding that slice. */
  lemma {:induction false} FoldRangeIsFold<S>(op: (S, S) -> S, e: S, t: seq<S>, lo: nat, hi: nat)
    requires lo <= hi <= |t|
    ensures FoldRange(op, e, t, lo, hi) == Fold(op, e, t[lo..hi])
    decreases hi - lo
  {
    if lo < hi {
      assert t[lo..hi][..hi - lo - 1] == t[lo..hi - 1];
      FoldRangeIsFold(op, e, t, lo, hi - 1);
    }
  }

  /** The fold of slots lo .. hi - 1 combines the folds of the two parts cut at mid. */
  lemma {:induction false} FoldHalves<S(!new)>(op: (S, S) -> S, e: S, t: seq<S>, lo: nat, mid: nat, hi: nat)
    requires Monoid(op, e) && lo <= mid <= hi <= |t|
    ensures FoldRange(op, e, t, lo, hi) == op(FoldRange(op, e, t, lo, mid), FoldRange(op, e, t, mid, hi))
    decreases hi - mid
  {
    if hi == mid {
      assert IdAt(op, e, FoldRange(op, e, t, lo, mid));
    } else {
      FoldHalves(op, e, t, lo, mid, hi - 1);
      assert AssocAt(op, FoldRange(op, e, t, lo, mid), FoldRange(op, e, t, mid, hi - 1), t[hi - 1]);
    }
  }

  /** The fold of the single slot k is the value in it. */
  lemma FoldSingle<S(!new)>(op: (S, S) -> S, e: S, t: seq<S>, k: nat)
    requires Monoid(op, e) && k < |t|
    ensures FoldRange(op, e, t, k, k + 1) == t[k]
  {
    assert IdAt(op, e, t[k]);
  }

  /** Slots mid .. hi - 1 holding e add nothing to a fold. */
  lemma {:induction false} FoldPadding<S(!new)>(op: (S, S) -> S, e: S, t: seq<S>, lo: nat, mid: nat, hi: nat)
    requires Monoid(op, e) && lo <= mid <= hi <= |t|
    requires forall i :: mid <= i < hi ==> t[i] == e
    ensures FoldRange(op, e, t, lo, hi) == FoldRange(op, e, t, lo, mid)
    decreases hi - mid
  {
    if mid < hi {
      FoldPadding(op, e, t, lo, mid, hi - 1);
      assert IdAt(op, e, FoldRange(op, e, t, lo, mid));
    }
  }

  /** Slot k of t holds op of its two children. */
  ghost predicate NodeOk<S>(op: (S, S) -> S, t: seq<S>, k: int)
  {
    0 < k && 2 * k + 1 < |t| && t[k] == op(t[2 * k], t[2 * k + 1])
  }

  /** t is a tree of 2 * size slots whose internal slots all hold op of their children. */
  ghost predicate TreeOk<S>(op: (S, S) -> S, t: seq<S>, size: nat)
  {
    |t| == 2 * size && forall k :: 0 < k < size ==> NodeOk(op, t, k)
  }

  /** The first leaf position under slot x shifted up h levels: x * 2^h. */
  function Start(x: nat, h: nat): nat
  {
    if h == 0 then x else 2 * Start(x, h - 1)
  }

  lemma {:induction false} StartNext(x: nat, h: nat)
    ensures Start(x + 1, h) == Start(x, h) + Pow2(h)
  {
    if h > 0 {
      StartNext(x, h - 1);
    }
  }

  lemma {:induction false} StartDouble(x: nat, h: nat)
    ensures Start(2 * x, h) == 2 * Start(x, h) == Start(x, h + 1)
  {
    if h > 0 {
      StartDouble(x, h - 1);
    }
  }

  lemma {:induction false} StartMono(x: nat, y: nat, h: nat)
    requires x <= y
    ensures Start(x, h) <= Start(y, h)
  {
    if h > 0 {
      StartMono(x, y, h - 1);
    }
  }

  lemma StartLe(x: nat, y: nat, h: nat)
    requires Start(x, h) <= Start(y, h)
    ensures x <= y
  {
    if y < x {
      StartMono(y + 1, x, h);
      StartNext(y, h);
    }
  }

  lemma StartStrict(x: nat, y: nat, h: nat)
    requires Start(x, h) < Start(y, h)
    ensures x < y
  {
    if y <= x {
      StartMono(y, x, h);
    }
  }

  lemma {:induction false} StartAtLeast(x: nat, h: nat)
    ensures Start(x, h) >= x && (h > 0 ==> Start(x, h) >= 2 * x)
  {
    if h > 0 {
      StartAtLeast(x, h - 1);
    }
  }

  /** Children of slot x at height h + 1: 2x starts with x, 2x + 1 halfway through. */
  lemma Children(x: nat, h: nat)
    ensures Start(2 * x, h) == Start(x, h + 1)
    ensures Start(2 * x + 1, h) == Start(x, h + 1) + Pow2(h)
    ensures Pow2(h + 1) == 2 * Pow2(h)
  {
    StartDouble(x, h);
    StartNext(2 * x, h);
  }

  /** Children of slot x at height h >= 1, one level down. */
  lemma ChildrenBelow(x: nat, h: nat)
    requires h >= 1
    ensures Start(2 * x, h - 1) == Start(x, h)
    ensures Start(2 * x + 1, h - 1) == Start(x, h) + Pow2(h - 1)
    ensures Pow2(h) == 2 * Pow2(h - 1)
  {
    Children(x, h - 1);
  }

  /** Going up from slot x to x / 2: the parent starts with x when x is even, one slot earlier when odd. */
  lemma HalfUp(x: nat, h: nat)
    ensures x % 2 == 0 ==> Start(x / 2, h + 1) == Start(x, h)
    ensures x % 2 == 1 ==> Start(x / 2, h + 1) + Pow2(h) == Start(x, h)
  {
    Children(x / 2, h);
  }

  /** Slot k at height h holds the fold of the 2^h leaf slots from lo = Start(k, h). */
  lemma {:induction false} NodeFold<S(!new)>(op: (S, S) -> S, e: S, t: seq<S>, size: nat, k: nat, h: nat, lo: nat)
    requires Monoid(op, e) && TreeOk(op, t, size)
    requires 1 <= k && lo == Start(k, h) && size <= lo && lo + Pow2(h) <= 2 * size
    ensures k < |t| && t[k] == FoldRange(op, e, t, lo, lo + Pow2(h))
    decreases h
  {
    if h == 0 {
      FoldSingle(op, e, t, k);
    } else {
      var q := Pow2(h - 1);
      Children(k, h - 1);
      StartNext(k, h);
      StartAtLeast(k + 1, h);
      NodeFold(op, e, t, size, 2 * k, h - 1, lo);
      NodeFold(op, e, t, size, 2 * k + 1, h - 1, lo + q);
      assert NodeOk(op, t, k);
      FoldHalves(op, e, t, lo, lo + q, lo + q + q);
    }
  }

  /** 2^a < 2^b exactly when a < b. */
  lemma Pow2Strict(a: nat, b: nat)
    ensures a < b <==> Pow2(a) < Pow2(b)
  {
    if a < b {
      Pow2Below(a, b);
    } else if b < a {
      Pow2Below(b, a);
    }
  }

  /** A power of two shifted up h levels is a power of two. */
  lemma {:induction false} StartOfPow2(m: nat, h: nat)
    ensures Start(Pow2(m), h) == Pow2(m + h)
  {
    if h > 0 {
      StartOfPow2(m, h - 1);
    }
  }

  /** Only a power of two shifted up h levels lands on a power of two. */
  lemma {:induction false} StartIsPow(x: nat, h: nat, k: nat)
    requires x >= 1 && Start(x, h) == Pow2(k)
    ensures h <= k && x == Pow2(k - h)
  {
    if h > 0 {
      StartAtLeast(x, h);
      assert k > 0;
      StartIsPow(x, h - 1, k - 1);
    }
  }

  /**
   * A slot x at height h whose leaves lie in [size, 2 size) of a tree with size = 2^log is no
   * higher than the root, is internal exactly when it is above the leaves, and is a leaf slot
   * at height 0.
   */
  lemma NodeBounds(x: nat, h: nat, log: nat)
    requires x >= 1 && Pow2(log) <= Start(x, h) && Start(x, h) + Pow2(h) <= 2 * Pow2(log)
    ensures h <= log
    ensures x < Pow2(log) <==> h > 0
  {
    if h > log {
      Pow2Below(log, h);
    }
    if h > 0 {
      StartNext(x, h);
      StartAtLeast(x + 1, h);
    }
  }

  /** A slot of height h starting before 2^k (with at least one slot) ends by 2^k. */
  lemma {:induction false} NextSlotFits(x: nat, h: nat, k: nat)
    requires x >= 1 && Start(x, h) < Pow2(k)
    ensures Start(x, h) + Pow2(h) <= Pow2(k)
  {
    if h > 0 {
      StartAtLeast(x, h);
      NextSlotFits(x, h - 1, k - 1);
    }
  }

  /**
   * With its leaves ending in (size, 2 size], slot x is a power of two exactly when they end at
   * 2 size, the end of the tree.
   */
  lemma EndIsPow2(x: nat, h: nat, log: nat)
    requires x >= 1 && Pow2(log) < Start(x, h) <= 2 * Pow2(log)
    ensures LowBit(x) == x <==> Start(x, h) == 2 * Pow2(log)
  {
    if LowBit(x) == x {
      var m := LowBitIsSelf(x);
      StartOfPow2(m, h);
      Pow2Strict(log, m + h);
      Pow2Strict(m + h, log + 1);
    }
    if Start(x, h) == 2 * Pow2(log) {
      StartIsPow(x, h, log + 1);
      LowBitOfPow2(log + 1 - h);
    }
  }

  /**
   * With its leaves starting in [size, 2 size), slot x is a power of two exactly when they
   * start at size, the start of the tree.
   */
  lemma StartIsPow2(x: nat, h: nat, log: nat)
    requires x >= 1 && Pow2(log) <= Start(x, h) < 2 * Pow2(log)
    ensures LowBit(x) == x <==> Start(x, h) == Pow2(log)
  {
    if LowBit(x) == x {
      var m := LowBitIsSelf(x);
      StartOfPow2(m, h);
      Pow2Strict(log, m + h);
      Pow2Strict(m + h, log + 1);
    }
    if Start(x, h) == Pow2(log) {
      StartIsPow(x, h, log);
      LowBitOfPow2(log - h);
    }
  }

  /** `x >> i`: x halved, rounding down, i times. */
  function Shr(x: nat, i: nat): nat
  {
    if i == 0 then x else Shr(x, i - 1) / 2
  }

  /** Shifting a leaf slot q of a tree with size = 2^log right by i <= log lands in level log - i. */
  lemma {:induction false} ShrLevel(q: nat, i: nat, log: nat)
    requires Pow2(log) <= q < 2 * Pow2(log) && i <= log
    ensures Pow2(log - i) <= Shr(q, i) < 2 * Pow2(log - i)
  {
    if i > 0 {
      ShrLevel(q, i - 1, log);
    }
  }

  /** For a leaf slot q of a tree with size = 2^log and 1 <= i <= log, q >> i is an internal slot. */
  lemma ShrBounds(q: nat, i: nat, log: nat)
    requires Pow2(log) <= q < 2 * Pow2(log) && 1 <= i <= log
    ensures 1 <= Shr(q, i) < Pow2(log)
  {
    ShrLevel(q, i, log);
    Pow2Below(log - i, log);
  }

  /** Shifting a leaf slot right by log + 1 leaves 0. */
  lemma ShrPastRoot(q: nat, log: nat)
    requires Pow2(log) <= q < 2 * Pow2(log)
    ensures Shr(q, log + 1) == 0
  {
    ShrLevel(q, log, log);
  }

  /** In a range of height-h slots [lo, hi) starting at or after size >= 1, slots lo and hi - 1 exist. */
  lemma RangeArith(lo: nat, hi: nat, h: nat, bl: nat, br: nat, size: nat)
    requires bl == Start(lo, h) && br == Start(hi, h) && 1 <= size <= bl && lo < hi
    ensures 1 <= lo && Start(lo + 1, h) == bl + Pow2(h) <= br
    ensures 2 <= hi && Start(hi - 1, h) == br - Pow2(h) && bl <= br - Pow2(h)
  {
    StartNext(lo, h);
    StartNext(hi - 1, h);
    StartMono(lo + 1, hi, h);
    StartMono(lo, hi - 1, h);
    if lo == 0 {
      StartMono(0, 0, h);
      ZeroStart(h);
    }
  }

  lemma {:induction false} ZeroStart(h: nat)
    ensures Start(0, h) == 0
  {
    if h > 0 {
      ZeroStart(h - 1);
    }
  }

  /** Slot lo, covering [bl, bl + 2^h), joins a left fold that ends at bl. */
  lemma LeftSlot<S(!new)>(op: (S, S) -> S, e: S, t: seq<S>, size: nat, lo0: nat, lo: nat, h: nat, bl: nat)
    requires Monoid(op, e) && TreeOk(op, t, size) && bl == Start(lo, h) && 1 <= lo
    requires size <= lo0 <= bl && bl + Pow2(h) <= 2 * size
    ensures lo < |t| && FoldRange(op, e, t, lo0, bl + Pow2(h)) == op(FoldRange(op, e, t, lo0, bl), t[lo])
  {
    NodeFold(op, e, t, size, lo, h, bl);
    FoldHalves(op, e, t, lo0, bl, bl + Pow2(h));
  }

  /** Slot k, covering [a, a + 2^h), joins a right fold that starts at a + 2^h. */
  lemma RightSlot<S(!new)>(op: (S, S) -> S, e: S, t: seq<S>, size: nat, hi0: nat, k: nat, h: nat, a: nat)
    requires Monoid(op, e) && TreeOk(op, t, size) && a == Start(k, h) && 1 <= k
    requires size <= a && a + Pow2(h) <= hi0 <= 2 * size
    ensures k < |t| && FoldRange(op, e, t, a, hi0) == op(t[k], FoldRange(op, e, t, a + Pow2(h), hi0))
  {
    NodeFold(op, e, t, size, k, h, a);
    FoldHalves(op, e, t, a, a + Pow2(h), hi0);
  }

  /**
   * The state of `prod` over leaves [lo0, hi0): slots lo .. hi - 1 at height h cover [bl, br),
   * sml folds [lo0, bl) and smr folds [br, hi0).
   */
  ghost predicate ProdRange<S(!new)>(op: (S, S) -> S, e: S, t: seq<S>, size: nat, lo0: nat, hi0: nat, lo: nat, hi: nat, h: nat, sml: S, smr: S)
  {
    |t| == 2 * size && 1 <= size <= lo0 &&
    lo0 <= Start(lo, h) <= Start(hi, h) <= hi0 <= 2 * size &&
    sml == FoldRange(op, e, t, lo0, Start(lo, h)) && smr == FoldRange(op, e, t, Start(hi, h), hi0)
  }

  /** `sml = op(sml, d[l++])`. */
  lemma ProdLeft<S(!new)>(op: (S, S) -> S, e: S, t: seq<S>, size: nat, lo0: nat, hi0: nat, lo: nat, hi: nat, h: nat, sml: S, smr: S)
    requires Monoid(op, e) && TreeOk(op, t, size)
    requires ProdRange(op, e, t, size, lo0, hi0, lo, hi, h, sml, smr) && lo < hi
    ensures lo < |t| && ProdRange(op, e, t, size, lo0, hi0, lo + 1, hi, h, op(sml, t[lo]), smr)
  {
    var bl := Start(lo, h);
    RangeArith(lo, hi, h, bl, Start(hi, h), size);
    LeftSlot(op, e, t, size, lo0, lo, h, bl);
  }

  /** `smr = op(d[--r], smr)`. */
  lemma ProdRight<S(!new)>(op: (S, S) -> S, e: S, t: seq<S>, size: nat, lo0: nat, hi0: nat, lo: nat, hi: nat, h: nat, sml: S, smr: S)
    requires Monoid(op, e) && TreeOk(op, t, size)
    requires ProdRange(op, e, t, size, lo0, hi0, lo, hi, h, sml, smr) && hi % 2 == 1 && lo % 2 == 0
    ensures hi >= 1 && hi - 1 < |t| && ProdRange(op, e, t, size, lo0, hi0, lo, hi - 1, h, sml, op(t[hi - 1], smr))
  {
    var br := Start(hi, h);
    StartLe(lo, hi, h);
    RangeArith(lo, hi, h, Start(lo, h), br, size);
    RightSlot(op, e, t, size, hi0, hi - 1, h, br - Pow2(h));
  }

  /** Halving both bounds of `prod` once they are even. */
  lemma ProdUp<S(!new)>(op: (S, S) -> S, e: S, t: seq<S>, size: nat, lo0: nat, hi0: nat, lo: nat, hi: nat, h: nat, sml: S, smr: S)
    requires Monoid(op, e) && TreeOk(op, t, size)
    requires ProdRange(op, e, t, size, lo0, hi0, lo, hi, h, sml, smr) && lo % 2 == 0 && hi % 2 == 0
    ensures ProdRange(op, e, t, size, lo0, hi0, lo / 2, hi / 2, h + 1, sml, smr)
    ensures hi / 2 - lo / 2 < hi - lo || hi == lo
  {
    HalfUp(lo, h);
    HalfUp(hi, h);
    StartLe(lo, hi, h);
  }

  /** Once l meets r, the two folds meet. */
  lemma ProdDone<S(!new)>(op: (S, S) -> S, e: S, t: seq<S>, size: nat, lo0: nat, hi0: nat, lo: nat, hi: nat, h: nat, sml: S, smr: S)
    requires Monoid(op, e) && TreeOk(op, t, size)
    requires ProdRange(op, e, t, size, lo0, hi0, lo, hi, h, sml, smr) && hi <= lo
    ensures op(sml, smr) == FoldRange(op, e, t, lo0, hi0)
  {
    StartMono(hi, lo, h);
    FoldHalves(op, e, t, lo0, Start(lo, h), hi0);
  }

  /** Slot k is a or one of a's ancestors. */
  ghost predicate AncestorOf(k: int, a: int)
    decreases a
  {
    k == a || (a > 1 && AncestorOf(k, a / 2))
  }

  lemma {:induction false} AncestorBelow(k: int, a: int)
    requires AncestorOf(k, a)
    ensures k <= a
    decreases a
  {
    if k != a {
      AncestorBelow(k, a / 2);
    }
  }

  /** Recomputing slot a from its children repairs it; only a's parent may then be out of date. */
  lemma SetStep<S>(op: (S, S) -> S, t: seq<S>, size: nat, a: nat)
    requires |t| == 2 * size && 1 <= a < size
    requires forall k :: 0 < k < size && !AncestorOf(k, a) ==> NodeOk(op, t, k)
    ensures forall k :: 0 < k < size && !AncestorOf(k, a / 2) ==>
      NodeOk(op, t[a := op(t[2 * a], t[2 * a + 1])], k)
  {
    var u := t[a := op(t[2 * a], t[2 * a + 1])];
    forall k | 0 < k < size && !AncestorOf(k, a / 2)
      ensures NodeOk(op, u, k)
    {
      if k != a {
        assert !AncestorOf(k, a);
        assert NodeOk(op, t, k);
        assert 2 * k != a && 2 * k + 1 != a;
      }
    }
  }

  /** Writing leaf q of a tree leaves only q's ancestors possibly out of date. */
  lemma SetLeaf<S>(op: (S, S) -> S, t: seq<S>, size: nat, q: nat, x: S)
    requires TreeOk(op, t, size) && size <= q < 2 * size
    ensures forall k :: 0 < k < size && !AncestorOf(k, q / 2) ==> NodeOk(op, t[q := x], k)
  {
    forall k | 0 < k < size && !AncestorOf(k, q / 2)
      ensures NodeOk(op, t[q := x], k)
    {
      assert NodeOk(op, t, k);
      assert 2 * k != q && 2 * k + 1 != q;
    }
  }

  /** Filling slot i from its children keeps every slot above i, and i, consistent. */
  lemma BuildStep<S>(op: (S, S) -> S, t: seq<S>, size: nat, i: nat, u: seq<S>)
    requires |t| == 2 * size && 1 <= i < size && u == t[i := op(t[2 * i], t[2 * i + 1])]
    requires forall k :: i < k < size ==> NodeOk(op, t, k)
    ensures forall k :: i <= k < size ==> NodeOk(op, u, k)
  {
    forall k | i <= k < size
      ensures NodeOk(op, u, k)
    {
      if k != i {
        assert NodeOk(op, t, k);
      }
    }
  }

  /** Going left from slot x past the tree's first leaf is impossible: x - 1 is still a slot. */
  lemma LeftNeighbour(x: nat, h: nat, log: nat)
    requires x >= 1 && h <= log && Pow2(log) < Start(x, h)
    ensures x >= 2 && Pow2(log) <= Start(x - 1, h) && Start(x - 1, h) + Pow2(h) == Start(x, h)
  {
    StartOfPow2(log - h, h);
    StartStrict(Pow2(log - h), x, h);
    StartMono(Pow2(log - h), x - 1, h);
    StartNext(x - 1, h);
  }

  /** Going up from an odd slot x > 1 whose leaves lie in the tree: the parent's leaves end where x's do. */
  lemma UpLeft(x: nat, h: nat, log: nat)
    requires x > 1 && x % 2 == 1 && Pow2(log) <= Start(x, h) && Start(x, h) + Pow2(h) <= 2 * Pow2(log)
    ensures h + 1 <= log && Pow2(log) <= Start(x / 2, h + 1)
    ensures Start(x / 2, h + 1) + Pow2(h + 1) == Start(x, h) + Pow2(h)
  {
    NodeBounds(x, h, log);
    if h == log {
      StartOfPow2(0, log);
      StartLe(x, 1, log);
    }
    StartOfPow2(log - h, h);
    StartLe(Pow2(log - h), x, h);
    var m := log - h - 1;
    assert Pow2(log - h) == 2 * Pow2(m);
    StartOfPow2(m, h + 1);
    StartMono(Pow2(m), x / 2, h + 1);
    HalfUp(x, h);
  }

  /**
   * A tree over n values: 2 * size slots with size the least power of two at least n, the
   * padding leaves past the values holding e, and every internal slot op of its children.
   */
  ghost predicate Shape<S(!new)>(op: (S, S) -> S, e: S, n: nat, log: nat, size: nat, t: seq<S>)
  {
    Monoid(op, e) && log == CeilPow2(n) && size == Pow2(log) && |t| == 2 * size &&
    (forall i :: size + n <= i < 2 * size ==> t[i] == e) &&
    TreeOk(op, t, size)
  }

  /** The neighbours of an odd number are even. */
  lemma Parity(x: nat)
    requires x % 2 == 1
    ensures x >= 1 && (x - 1) % 2 == 0 && (x + 1) % 2 == 0
  {
  }

  /** The root slot holds the fold of the n values: the padding leaves add nothing. */
  lemma RootFold<S(!new)>(op: (S, S) -> S, e: S, n: nat, log: nat, size: nat, t: seq<S>)
    requires Shape(op, e, n, log, size, t)
    ensures 1 < |t| && t[1] == Fold(op, e, t[size..size + n])
  {
    StartOfPow2(0, log);
    NodeFold(op, e, t, size, 1, log, size);
    FoldPadding(op, e, t, size, size + n, 2 * size);
    FoldRangeIsFold(op, e, t, size, size + n);
  }

  /**
   * One level of `prod`: take the odd slot at the left end into sml and the slot left of an odd
   * right end into smr, then go up to the parents.
   */
  method ProdLevel<S(!new)>(op: (S, S) -> S, e: S, t: seq<S>, size: nat, lo0: nat, hi0: nat,
                            lo: nat, hi: nat, ghost h: nat, sml: S, smr: S)
    returns (lo': nat, hi': nat, sml': S, smr': S)
    requires Monoid(op, e) && TreeOk(op, t, size)
    requires ProdRange(op, e, t, size, lo0, hi0, lo, hi, h, sml, smr) && lo < hi
    ensures ProdRange(op, e, t, size, lo0, hi0, lo', hi', h + 1, sml', smr')
    ensures hi' - lo' < hi - lo
  {
    lo', hi', sml', smr' := lo, hi, sml, smr;
    if lo % 2 == 1 {
      ProdLeft(op, e, t, size, lo0, hi0, lo, hi, h, sml, smr);
      sml' := op(sml, t[lo]);
      Parity(lo);
      lo' := lo + 1;
    }
    assert ProdRange(op, e, t, size, lo0, hi0, lo', hi', h, sml', smr') && lo' % 2 == 0;
    if hi % 2 == 1 {
      ProdRight(op, e, t, size, lo0, hi0, lo', hi', h, sml', smr');
      Parity(hi);
      hi' := hi - 1;
      smr' := op(t[hi'], smr);
    }
    assert ProdRange(op, e, t, size, lo0, hi0, lo', hi', h, sml', smr') && hi' % 2 == 0;
    ProdUp(op, e, t, size, lo0, hi0, lo', hi', h, sml', smr');
    lo', hi' := lo' / 2, hi' / 2;
  }

  /**
   * The loop of `prod(l, r)` on slots l .. r - 1 of the leaf level: the fold of those slots,
   * combining whole subtrees from both ends.
   */
  method ProdSlots<S(!new)>(op: (S, S) -> S, e: S, t: seq<S>, size: nat, l: nat, r: nat) returns (x: S)
    requires Monoid(op, e) && TreeOk(op, t, size) && 1 <= size <= l <= r <= 2 * size
    ensures x == FoldRange(op, e, t, l, r)
  {
    var sml, smr := e, e;
    var lo: nat, hi: nat := l, r;
    ghost var h := 0;
    assert FoldRange(op, e, t, lo, lo) == e && FoldRange(op, e, t, hi, hi) == e;
    while lo < hi
      invariant ProdRange(op, e, t, size, l, r, lo, hi, h, sml, smr)
      decreases hi - lo
    {
      lo, hi, sml, smr := ProdLevel(op, e, t, size, l, r, lo, hi, h, sml, smr);
      h := h + 1;
    }
    ProdDone(op, e, t, size, l, r, lo, hi, h, sml, smr);
    x := op(sml, smr);
  }

  /** The climb of `max_right`: from slot x up while it is a left child; its leaves start where x's do. */
  method ClimbRight(x: nat, ghost h: nat) returns (x': nat, ghost h': nat)
    requires x >= 1
    ensures x' >= 1 && h <= h' && Start(x', h') == Start(x, h)
  {
    x', h' := x, h;
    while x' % 2 == 0
      invariant x' >= 1 && h <= h' && Start(x', h') == Start(x, h)
      decreases x'
    {
      HalfUp(x', h');
      x' := x' / 2;
      h' := h' + 1;
    }
  }

  /**
   * The state of the scan of `max_right` from leaf slot lo0: sm folds the leaves from lo0 up to
   * the first leaf of slot x at height h, and f holds of it.
   */
  ghost predicate RightScan<S(!new)>(op: (S, S) -> S, e: S, t: seq<S>, size: nat, lo0: nat, f: S -> bool, x: nat, h: nat, sm: S)
  {
    |t| == 2 * size && x >= 1 && size <= lo0 <= Start(x, h) < 2 * size &&
    sm == FoldRange(op, e, t, lo0, Start(x, h)) && f(sm)
  }

  /**
   * The state of the descent of `max_right`: as in the scan, and f fails once slot x at height
   * h is added.
   */
  ghost predicate RightDescent<S(!new)>(op: (S, S) -> S, e: S, t: seq<S>, size: nat, lo0: nat, f: S -> bool, x: nat, h: nat, sm: S)
  {
    |t| == 2 * size && 1 <= x < 2 * size && size <= lo0 <= Start(x, h) && Start(x, h) + Pow2(h) <= 2 * size &&
    sm == FoldRange(op, e, t, lo0, Start(x, h)) && f(sm) && !f(op(sm, t[x]))
  }

  /**
   * One round of the scan of `max_right`: climb while a left child, then either stop at a slot
   * whose addition makes f fail, or add it and step right, stopping at the end of the leaves.
   */
  method RightScanStep<S(!new)>(op: (S, S) -> S, e: S, t: seq<S>, size: nat, log: nat, lo0: nat, f: S -> bool, x: nat, ghost h: nat, sm: S)
    returns (x': nat, ghost h': nat, sm': S, fail: bool, done: bool)
    requires Monoid(op, e) && TreeOk(op, t, size) && size == Pow2(log)
    requires RightScan(op, e, t, size, lo0, f, x, h, sm)
    ensures fail ==> RightDescent(op, e, t, size, lo0, f, x', h', sm')
    ensures !fail && done ==> sm' == FoldRange(op, e, t, lo0, 2 * size) && f(sm')
    ensures !fail && !done ==> RightScan(op, e, t, size, lo0, f, x', h', sm') && Start(x, h) < Start(x', h')
  {
    x', h' := ClimbRight(x, h);
    NextSlotFits(x', h', log + 1);
    StartAtLeast(x', h');
    sm' := sm;
    fail, done := !f(op(sm, t[x'])), false;
    if fail {
      return;
    }
    RightScanAdd(op, e, t, size, log, lo0, f, x', h', sm);
    sm' := op(sm, t[x']);
    x' := x' + 1;
    done := LowBit(x') == x';
  }

  /**
   * Adding slot x at height h to the scan of `max_right` and stepping right: the scan goes on
   * from x + 1 unless x + 1 is a power of two, when the leaves have run out.
   */
  lemma RightScanAdd<S(!new)>(op: (S, S) -> S, e: S, t: seq<S>, size: nat, log: nat, lo0: nat, f: S -> bool, x: nat, h: nat, sm: S)
    requires Monoid(op, e) && TreeOk(op, t, size) && size == Pow2(log)
    requires |t| == 2 * size && x >= 1 && size <= lo0 <= Start(x, h) && Start(x, h) + Pow2(h) <= 2 * size
    requires sm == FoldRange(op, e, t, lo0, Start(x, h)) && x < |t| && f(op(sm, t[x]))
    ensures Start(x, h) < Start(x + 1, h)
    ensures LowBit(x + 1) == x + 1 ==> op(sm, t[x]) == FoldRange(op, e, t, lo0, 2 * size)
    ensures LowBit(x + 1) != x + 1 ==> RightScan(op, e, t, size, lo0, f, x + 1, h, op(sm, t[x]))
  {
    LeftSlot(op, e, t, size, lo0, x, h, Start(x, h));
    StartNext(x, h);
    EndIsPow2(x + 1, h, log);
  }

  /**
   * `max_right(l, f)` for f with f(e), on the leaf slots: the r with l <= r <= n such that f
   * holds of the fold of values l .. r - 1 and, unless r = n, fails once value r is added.
   */
  method MaxRightOn<S(!new)>(op: (S, S) -> S, e: S, n: nat, log: nat, size: nat, t: seq<S>, l: nat, f: S -> bool) returns (r: nat)
    requires Shape(op, e, n, log, size, t) && l <= n && f(e)
    ensures l <= r <= n
    ensures f(FoldRange(op, e, t, size + l, size + r))
    ensures r < n ==> !f(FoldRange(op, e, t, size + l, size + r + 1))
  {
    if l == n {
      assert FoldRange(op, e, t, size + l, size + l) == e;
      return n;
    }
    var x, h, sm, fail := RightScanAll(op, e, n, log, size, t, l, f);
    if fail {
      r := DescendRightOn(op, e, n, log, size, t, l, f, x, h, sm);
    } else {
      RightPadding(op, e, n, log, size, t, l, sm);
      r := n;
    }
  }

  /** The scan of `max_right` from leaf slot size + l: it stops at a slot whose addition makes f fail, or at the end of the leaves. */
  method RightScanAll<S(!new)>(op: (S, S) -> S, e: S, n: nat, log: nat, size: nat, t: seq<S>, l: nat, f: S -> bool)
    returns (x: nat, ghost h: nat, sm: S, fail: bool)
    requires Shape(op, e, n, log, size, t) && l < n && f(e)
    ensures fail ==> RightDescent(op, e, t, size, size + l, f, x, h, sm)
    ensures !fail ==> sm == FoldRange(op, e, t, size + l, 2 * size) && f(sm)
  {
    x, sm, h := size + l, e, 0;
    assert FoldRange(op, e, t, x, x) == e;
    while true
      invariant RightScan(op, e, t, size, size + l, f, x, h, sm)
      decreases 2 * size - Start(x, h)
    {
      var done;
      x, h, sm, fail, done := RightScanStep(op, e, t, size, log, size + l, f, x, h, sm);
      if fail || done {
        return;
      }
    }
  }

  /** A fold from value l to the end of the leaves is the fold of values l .. n - 1. */
  lemma RightPadding<S(!new)>(op: (S, S) -> S, e: S, n: nat, log: nat, size: nat, t: seq<S>, l: nat, sm: S)
    requires Shape(op, e, n, log, size, t) && l <= n && sm == FoldRange(op, e, t, size + l, 2 * size)
    ensures sm == FoldRange(op, e, t, size + l, size + n)
  {
    FoldPadding(op, e, t, size + l, size + n, 2 * size);
  }

  /** One step down the descent of `max_right`: into the left child, or past it into the right. */
  method DescendRightStep<S(!new)>(op: (S, S) -> S, e: S, t: seq<S>, size: nat, log: nat, lo0: nat, f: S -> bool, x: nat, ghost h: nat, sm: S)
    returns (x': nat, ghost h': nat, sm': S)
    requires Monoid(op, e) && TreeOk(op, t, size) && size == Pow2(log)
    requires RightDescent(op, e, t, size, lo0, f, x, h, sm) && x < size
    ensures h' < h && RightDescent(op, e, t, size, lo0, f, x', h', sm')
  {
    DescendRightChild(op, e, t, size, log, lo0, f, x, h, sm);
    x', h', sm' := 2 * x, h - 1, sm;
    if f(op(sm, t[2 * x])) {
      sm' := op(sm, t[2 * x]);
      x' := 2 * x + 1;
    }
  }

  /** The descent of `max_right` goes on in the left child, or with it added in the right child. */
  lemma DescendRightChild<S(!new)>(op: (S, S) -> S, e: S, t: seq<S>, size: nat, log: nat, lo0: nat, f: S -> bool, x: nat, h: nat, sm: S)
    requires Monoid(op, e) && TreeOk(op, t, size) && size == Pow2(log)
    requires RightDescent(op, e, t, size, lo0, f, x, h, sm) && x < size
    ensures h >= 1 && 2 * x + 1 < |t|
    ensures !f(op(sm, t[2 * x])) ==> RightDescent(op, e, t, size, lo0, f, 2 * x, h - 1, sm)
    ensures f(op(sm, t[2 * x])) ==> RightDescent(op, e, t, size, lo0, f, 2 * x + 1, h - 1, op(sm, t[2 * x]))
  {
    NodeBounds(x, h, log);
    assert NodeOk(op, t, x);
    assert AssocAt(op, sm, t[2 * x], t[2 * x + 1]);
    ChildrenBelow(x, h);
    if f(op(sm, t[2 * x])) {
      LeftSlot(op, e, t, size, lo0, 2 * x, h - 1, Start(2 * x, h - 1));
    }
  }

  /**
   * The descent of `max_right`: from slot x0, whose addition makes f fail, go down to the
   * first leaf whose addition makes f fail.
   */
  method DescendRightOn<S(!new)>(op: (S, S) -> S, e: S, n: nat, log: nat, size: nat, t: seq<S>, l: nat, f: S -> bool, x0: nat, ghost h0: nat, sm0: S) returns (r: nat)
    requires Shape(op, e, n, log, size, t) && l < n
    requires RightDescent(op, e, t, size, size + l, f, x0, h0, sm0)
    ensures l <= r < n
    ensures f(FoldRange(op, e, t, size + l, size + r))
    ensures !f(FoldRange(op, e, t, size + l, size + r + 1))
  {
    var x: nat, sm := x0, sm0;
    ghost var h: nat := h0;
    while x < size
      invariant RightDescent(op, e, t, size, size + l, f, x, h, sm)
      decreases h
    {
      x, h, sm := DescendRightStep(op, e, t, size, log, size + l, f, x, h, sm);
    }
    r := x - size;
    DescendRightLeaf(op, e, n, log, size, t, l, f, x, h, sm, r);
  }

  /** A descent of `max_right` ends at a leaf holding a value: adding it makes f fail, and the padding does not. */
  lemma DescendRightLeaf<S(!new)>(op: (S, S) -> S, e: S, n: nat, log: nat, size: nat, t: seq<S>, l: nat, f: S -> bool, x: nat, h: nat, sm: S, r: int)
    requires Shape(op, e, n, log, size, t) && l < n
    requires RightDescent(op, e, t, size, size + l, f, x, h, sm) && size <= x && r == x - size
    ensures l <= r < n
    ensures f(FoldRange(op, e, t, size + l, size + r))
    ensures !f(FoldRange(op, e, t, size + l, size + r + 1))
  {
    var lo0 := size + l;
    NodeBounds(x, h, log);
    assert IdAt(op, e, sm);
    FoldSingle(op, e, t, x);
    FoldHalves(op, e, t, lo0, x, x + 1);
  }

  /** The climb of `min_left` after the step left: from slot x up while it is a right child below the root; its leaves end where x's do. */
  method ClimbLeft(x: nat, ghost h: nat, ghost log: nat) returns (x': nat, ghost h': nat)
    requires x >= 1 && Pow2(log) <= Start(x, h) && Start(x, h) + Pow2(h) <= 2 * Pow2(log)
    ensures x' >= 1 && (x' == 1 || x' % 2 == 0) && h <= h' <= log
    ensures Pow2(log) <= Start(x', h') && Start(x', h') + Pow2(h') == Start(x, h) + Pow2(h)
  {
    x', h' := x, h;
    while x' > 1 && x' % 2 == 1
      invariant x' >= 1 && h <= h' && Pow2(log) <= Start(x', h')
      invariant Start(x', h') + Pow2(h') == Start(x, h) + Pow2(h)
      decreases x'
    {
      UpLeft(x', h', log);
      x' := x' / 2;
      h' := h' + 1;
    }
    NodeBounds(x', h', log);
  }

  /**
   * The state of the scan of `min_left` towards leaf slot hi0: sm folds the leaves from the
   * first leaf of slot x at height h up to hi0, and f holds of it.
   */
  ghost predicate LeftScan<S(!new)>(op: (S, S) -> S, e: S, t: seq<S>, size: nat, log: nat, hi0: nat, f: S -> bool, x: nat, h: nat, sm: S)
  {
    |t| == 2 * size && x >= 1 && h <= log && size < Start(x, h) <= hi0 <= 2 * size &&
    sm == FoldRange(op, e, t, Start(x, h), hi0) && f(sm)
  }

  /**
   * The state of the descent of `min_left`: sm folds the leaves after slot x at height h up to
   * hi0, f holds of it and fails once slot x is added.
   */
  ghost predicate LeftDescent<S(!new)>(op: (S, S) -> S, e: S, t: seq<S>, size: nat, hi0: nat, f: S -> bool, x: nat, h: nat, sm: S)
  {
    |t| == 2 * size && 1 <= x < 2 * size && size <= Start(x, h) && Start(x, h) + Pow2(h) <= hi0 <= 2 * size &&
    sm == FoldRange(op, e, t, Start(x, h) + Pow2(h), hi0) && f(sm) && !f(op(t[x], sm))
  }

  /**
   * One round of the scan of `min_left`: step left and climb while a right child, then either
   * stop at a slot whose addition makes f fail, or add it, stopping at the start of the leaves.
   */
  method LeftScanStep<S(!new)>(op: (S, S) -> S, e: S, t: seq<S>, size: nat, log: nat, hi0: nat, f: S -> bool, x: nat, ghost h: nat, sm: S)
    returns (x': nat, ghost h': nat, sm': S, fail: bool, done: bool)
    requires Monoid(op, e) && TreeOk(op, t, size) && size == Pow2(log)
    requires LeftScan(op, e, t, size, log, hi0, f, x, h, sm)
    ensures fail ==> LeftDescent(op, e, t, size, hi0, f, x', h', sm')
    ensures !fail && done ==> sm' == FoldRange(op, e, t, size, hi0) && f(sm')
    ensures !fail && !done ==> LeftScan(op, e, t, size, log, hi0, f, x', h', sm') && Start(x', h') < Start(x, h)
  {
    LeftNeighbour(x, h, log);
    x', h' := ClimbLeft(x - 1, h, log);
    StartAtLeast(x', h');
    sm' := sm;
    fail, done := !f(op(t[x'], sm)), false;
    if fail {
      return;
    }
    LeftScanAdd(op, e, t, size, log, hi0, f, x', h', sm);
    sm' := op(t[x'], sm);
    done := LowBit(x') == x';
  }

  /**
   * Adding slot x at height h to the scan of `min_left`: the scan goes on from x unless x is a
   * power of two, when the leaves have run out.
   */
  lemma LeftScanAdd<S(!new)>(op: (S, S) -> S, e: S, t: seq<S>, size: nat, log: nat, hi0: nat, f: S -> bool, x: nat, h: nat, sm: S)
    requires Monoid(op, e) && TreeOk(op, t, size) && size == Pow2(log)
    requires |t| == 2 * size && x >= 1 && h <= log && size <= Start(x, h) && Start(x, h) + Pow2(h) <= hi0 <= 2 * size
    requires sm == FoldRange(op, e, t, Start(x, h) + Pow2(h), hi0) && x < |t| && f(op(t[x], sm))
    ensures LowBit(x) == x ==> op(t[x], sm) == FoldRange(op, e, t, size, hi0)
    ensures LowBit(x) != x ==> LeftScan(op, e, t, size, log, hi0, f, x, h, op(t[x], sm))
  {
    RightSlot(op, e, t, size, hi0, x, h, Start(x, h));
    NodeBounds(x, h, log);
    StartIsPow2(x, h, log);
  }

  /**
   * `min_left(r, f)` for f with f(e), on the leaf slots: the l with 0 <= l <= r such that f
   * holds of the fold of values l .. r - 1 and, unless l = 0, fails once value l - 1 is added.
   * For r = 0 the source returns `n`, a name the class does not declare (it has `_n`), which
   * does not compile; the model returns 0, the only l the contract allows.
   */
  method MinLeftOn<S(!new)>(op: (S, S) -> S, e: S, n: nat, log: nat, size: nat, t: seq<S>, r: nat, f: S -> bool) returns (l: nat)
    requires Shape(op, e, n, log, size, t) && r <= n && f(e)
    ensures l <= r
    ensures f(FoldRange(op, e, t, size + l, size + r))
    ensures 0 < l ==> !f(FoldRange(op, e, t, size + l - 1, size + r))
  {
    if r == 0 {
      l := 0;
      assert FoldRange(op, e, t, size + l, size + r) == e;
      return;
    }
    var x, h, sm, fail := LeftScanAll(op, e, n, log, size, t, r, f);
    if fail {
      l := DescendLeftOn(op, e, n, log, size, t, r, f, x, h, sm);
    } else {
      l := 0;
      assert size + l == size;
    }
  }

  /** The scan of `min_left` from leaf slot size + r: it stops at a slot whose addition makes f fail, or at the start of the leaves. */
  method LeftScanAll<S(!new)>(op: (S, S) -> S, e: S, n: nat, log: nat, size: nat, t: seq<S>, r: nat, f: S -> bool)
    returns (x: nat, ghost h: nat, sm: S, fail: bool)
    requires Shape(op, e, n, log, size, t) && 0 < r <= n && f(e)
    ensures fail ==> LeftDescent(op, e, t, size, size + r, f, x, h, sm)
    ensures !fail ==> sm == FoldRange(op, e, t, size, size + r) && f(sm)
  {
    x, sm, h := size + r, e, 0;
    assert FoldRange(op, e, t, x, x) == e;
    while true
      invariant LeftScan(op, e, t, size, log, size + r, f, x, h, sm)
      decreases Start(x, h)
    {
      var done;
      x, h, sm, fail, done := LeftScanStep(op, e, t, size, log, size + r, f, x, h, sm);
      if fail || done {
        return;
      }
    }
  }

  /** One step down the descent of `min_left`: into the right child, or past it into the left. */
  method DescendLeftStep<S(!new)>(op: (S, S) -> S, e: S, t: seq<S>, size: nat, log: nat, hi0: nat, f: S -> bool, x: nat, ghost h: nat, sm: S)
    returns (x': nat, ghost h': nat, sm': S)
    requires Monoid(op, e) && TreeOk(op, t, size) && size == Pow2(log)
    requires LeftDescent(op, e, t, size, hi0, f, x, h, sm) && x < size
    ensures h' < h && LeftDescent(op, e, t, size, hi0, f, x', h', sm')
  {
    DescendLeftChild(op, e, t, size, log, hi0, f, x, h, sm);
    x', h', sm' := 2 * x + 1, h - 1, sm;
    if f(op(t[2 * x + 1], sm)) {
      sm' := op(t[2 * x + 1], sm);
      x' := 2 * x;
    }
  }

  /** The descent of `min_left` goes on in the right child, or with it added in the left child. */
  lemma DescendLeftChild<S(!new)>(op: (S, S) -> S, e: S, t: seq<S>, size: nat, log: nat, hi0: nat, f: S -> bool, x: nat, h: nat, sm: S)
    requires Monoid(op, e) && TreeOk(op, t, size) && size == Pow2(log)
    requires LeftDescent(op, e, t, size, hi0, f, x, h, sm) && x < size
    ensures h >= 1 && 2 * x + 1 < |t|
    ensures !f(op(t[2 * x + 1], sm)) ==> LeftDescent(op, e, t, size, hi0, f, 2 * x + 1, h - 1, sm)
    ensures f(op(t[2 * x + 1], sm)) ==> LeftDescent(op, e, t, size, hi0, f, 2 * x, h - 1, op(t[2 * x + 1], sm))
  {
    NodeBounds(x, h, log);
    assert NodeOk(op, t, x);
    assert AssocAt(op, t[2 * x], t[2 * x + 1], sm);
    ChildrenBelow(x, h);
    if f(op(t[2 * x + 1], sm)) {
      var a := Start(2 * x + 1, h - 1);
      RightSlot(op, e, t, size, hi0, 2 * x + 1, h - 1, a);
      StartNext(2 * x, h - 1);
      assert t[a + Pow2(h - 1)..hi0] == t[Start(x, h) + Pow2(h)..hi0];
      assert op(t[2 * x], op(t[2 * x + 1], sm)) == op(t[x], sm);
    }
  }

  /**
   * The descent of `min_left`: from slot x0, whose addition makes f fail, go down to the last
   * leaf whose addition makes f fail.
   */
  method DescendLeftOn<S(!new)>(op: (S, S) -> S, e: S, n: nat, log: nat, size: nat, t: seq<S>, r: nat, f: S -> bool, x0: nat, ghost h0: nat, sm0: S) returns (l: nat)
    requires Shape(op, e, n, log, size, t) && 0 < r <= n
    requires LeftDescent(op, e, t, size, size + r, f, x0, h0, sm0)
    ensures 0 < l <= r
    ensures f(FoldRange(op, e, t, size + l, size + r))
    ensures !f(FoldRange(op, e, t, size + l - 1, size + r))
  {
    var x: nat, sm := x0, sm0;
    ghost var h: nat := h0;
    while x < size
      invariant LeftDescent(op, e, t, size, size + r, f, x, h, sm)
      decreases h
    {
      x, h, sm := DescendLeftStep(op, e, t, size, log, size + r, f, x, h, sm);
    }
    l := x + 1 - size;
    DescendLeftLeaf(op, e, n, log, size, t, r, f, x, h, sm, l);
  }

  /** A descent of `min_left` ends at a leaf: adding it makes f fail, and the leaves after it do not. */
  lemma DescendLeftLeaf<S(!new)>(op: (S, S) -> S, e: S, n: nat, log: nat, size: nat, t: seq<S>, r: nat, f: S -> bool, x: nat, h: nat, sm: S, l: int)
    requires Shape(op, e, n, log, size, t) && 0 < r <= n
    requires LeftDescent(op, e, t, size, size + r, f, x, h, sm) && size <= x && l == x + 1 - size
    ensures 0 < l <= r
    ensures f(FoldRange(op, e, t, size + l, size + r))
    ensures !f(FoldRange(op, e, t, size + l - 1, size + r))
  {
    NodeBounds(x, h, log);
    RightSlot(op, e, t, size, size + r, x, 0, x);
  }

  /** Values a .. b - 1 of the leaves from slot size are slots size + a .. size + b - 1. */
  lemma LeafRange<S>(t: seq<S>, size: nat, n: nat, a: nat, b: nat)
    requires size + n <= |t| && a <= b <= n
    ensures t[size..size + n][a..b] == t[size + a..size + b]
  {
    var v := t[size..size + n];
    assert forall i :: 0 <= i < b - a ==> v[a..b][i] == v[a + i] == t[size + a + i];
  }

  /** The fold of leaf slots size + a .. size + b - 1 is the fold of values a .. b - 1. */
  lemma ValuesFold<S>(op: (S, S) -> S, e: S, t: seq<S>, size: nat, n: nat, a: nat, b: nat)
    requires size + n <= |t| && a <= b <= n
    ensures FoldRange(op, e, t, size + a, size + b) == Fold(op, e, t[size..size + n][a..b])
  {
    LeafRange(t, size, n, a, b);
    FoldRangeIsFold(op, e, t, size + a, size + b);
  }

  /** The answer of `max_right` on the leaf slots, stated on the values. */
  lemma MaxRightValues<S>(op: (S, S) -> S, e: S, n: nat, size: nat, t: seq<S>, v: seq<S>, l: nat, r: nat, f: S -> bool)
    requires size + n <= |t| && v == t[size..size + n] && l <= r <= n
    requires f(FoldRange(op, e, t, size + l, size + r))
    requires r < n ==> !f(FoldRange(op, e, t, size + l, size + r + 1))
    ensures f(Fold(op, e, v[l..r]))
    ensures r < n ==> !f(Fold(op, e, v[l..r + 1]))
  {
    ValuesFold(op, e, t, size, n, l, r);
    if r < n {
      ValuesFold(op, e, t, size, n, l, r + 1);
    }
  }

  /** The answer of `min_left` on the leaf slots, stated on the values. */
  lemma MinLeftValues<S>(op: (S, S) -> S, e: S, n: nat, size: nat, t: seq<S>, v: seq<S>, l: nat, r: nat, f: S -> bool)
    requires size + n <= |t| && v == t[size..size + n] && l <= r <= n
    requires f(FoldRange(op, e, t, size + l, size + r))
    requires 0 < l ==> !f(FoldRange(op, e, t, size + l - 1, size + r))
    ensures f(Fold(op, e, v[l..r]))
    ensures 0 < l ==> !f(Fold(op, e, v[l - 1..r]))
  {
    ValuesFold(op, e, t, size, n, l, r);
    if 0 < l {
      ValuesFold(op, e, t, size, n, l - 1, r);
    }
  }

  /**
   * Once leaf size + p holds x and every internal slot is repaired, the tree is well formed
   * again over the old values with value p replaced by x.
   */
  lemma SetDone<S(!new)>(op: (S, S) -> S, e: S, n: nat, log: nat, size: nat, t0: seq<S>, t: seq<S>, p: nat, x: S)
    requires Shape(op, e, n, log, size, t0) && p < n
    requires |t| == 2 * size && t[size..] == t0[size + p := x][size..]
    requires forall k :: 0 < k < size && !AncestorOf(k, 0) ==> NodeOk(op, t, k)
    ensures Shape(op, e, n, log, size, t) && t[size..size + n] == t0[size..size + n][p := x]
  {
    assert forall k :: 0 < k < size ==> !AncestorOf(k, 0);
    assert forall j :: size <= j < 2 * size ==> t[j] == t[size..][j - size] == t0[size + p := x][j];
  }

  /**
   * The tree: `d` holds 2 * size slots, the leaves size .. size + n hold the values and the
   * remaining leaves hold e.
   */
  class Tree<S(!new)> {
    const op: (S, S) -> S
    const e: S
    const n: nat
    const log: nat
    const size: nat
    var d: seq<S>

    ghost predicate Valid()
      reads this
    {
      Shape(op, e, n, log, size, d)
    }

    /** The n values the tree is over. */
    ghost function Values(): (s: seq<S>)
      reads this
      requires Valid()
      ensures |s| == n
    {
      d[size..size + n]
    }

    /** `segtree(v)`: leaves from v, padding e, then every internal slot from size - 1 down to 1. */
    constructor (op: (S, S) -> S, e: S, v: seq<S>)
      requires Monoid(op, e)
      ensures Valid() && Values() == v
      ensures this.op == op && this.e == e && n == |v|
    {
      this.op := op;
      this.e := e;
      n := |v|;
      log := CeilPow2(|v|);
      size := Pow2(CeilPow2(|v|));
      new;
      d := seq(2 * size, _ => e);
      for i := 0 to n
        invariant |d| == 2 * size
        invariant forall j :: 0 <= j < i ==> d[size + j] == v[j]
        invariant forall j :: size + i <= j < 2 * size ==> d[j] == e
      {
        d := d[size + i := v[i]];
      }
      ghost var leaves := d[size..];
      var i := size - 1;
      while i >= 1
        invariant 0 <= i < size && |d| == 2 * size
        invariant d[size..] == leaves
        invariant forall k :: i < k < size ==> NodeOk(op, d, k)
      {
        ghost var t := d;
        Update(i);
        BuildStep(op, t, size, i, d);
        assert d[size..] == leaves;
        i := i - 1;
      }
      assert forall j :: size <= j < 2 * size ==> d[j] == leaves[j - size];
      assert Values() == v;
    }

    /** `segtree(n)`: the tree over n copies of e. */
    constructor Sized(op: (S, S) -> S, e: S, n: nat)
      requires Monoid(op, e)
      ensures Valid() && Values() == seq(n, _ => e)
      ensures this.op == op && this.e == e && this.n == n
    {
      this.op := op;
      this.e := e;
      this.n := n;
      log := CeilPow2(n);
      size := Pow2(CeilPow2(n));
      new;
      d := seq(2 * size, _ => e);
      assert IdAt(op, e, e);
      assert forall k :: 0 < k < size ==> NodeOk(op, d, k);
    }

    /** `update(k)`: slot k := op of its children. */
    method Update(k: nat)
      requires 1 <= k < size && |d| == 2 * size
      modifies this
      ensures d == old(d)[k := op(old(d)[2 * k], old(d)[2 * k + 1])]
    {
      d := d[k := op(d[2 * k], d[2 * k + 1])];
    }

    /** `set(p, x)`: value p becomes x; the other values are unchanged. */
    method Set(p: nat, x: S)
      requires Valid() && p < n
      modifies this
      ensures Valid() && Values() == old(Values())[p := x]
    {
      ghost var t0 := d;
      var q := size + p;
      SetLeaf(op, d, size, q, x);
      d := d[q := x];
      Repair(q);
      SetDone(op, e, n, log, size, t0, d, p, x);
    }

    /**
     * The loop of `set`: `update(q >> i)` for i = 1 .. log repairs the ancestors of leaf q,
     * the only slots out of date, bottom up; the leaves are unchanged.
     */
    method Repair(q: nat)
      requires |d| == 2 * size && size == Pow2(log) && size <= q < 2 * size
      requires forall k :: 0 < k < size && !AncestorOf(k, q / 2) ==> NodeOk(op, d, k)
      modifies this
      ensures |d| == 2 * size && d[size..] == old(d[size..])
      ensures forall k :: 0 < k < size && !AncestorOf(k, 0) ==> NodeOk(op, d, k)
    {
      ghost var leaves := d[size..];
      for i := 1 to log + 1
        invariant |d| == 2 * size && d[size..] == leaves
        invariant forall k :: 0 < k < size && !AncestorOf(k, Shr(q, i)) ==> NodeOk(op, d, k)
      {
        ShrBounds(q, i, log);
        SetStep(op, d, size, Shr(q, i));
        Update(Shr(q, i));
        assert d[size..] == leaves;
      }
      ShrPastRoot(q, log);
    }

    /** `get(p)`: value p. */
    method Get(p: nat) returns (x: S)
      requires Valid() && p < n
      ensures x == Values()[p]
    {
      x := d[p + size];
    }

    /** `all_prod()`: slot 1, the fold of all values. */
    method AllProd() returns (x: S)
      requires Valid()
      ensures x == Fold(op, e, Values())
    {
      RootFold(op, e, n, log, size, d);
      x := d[1];
    }

    /** `prod(l, r)`: the fold of values l .. r - 1. */
    method Prod(l: nat, r: nat) returns (x: S)
      requires Valid() && l <= r <= n
      ensures x == Fold(op, e, Values()[l..r])
    {
      x := ProdSlots(op, e, d, size, size + l, size + r);
      ValuesFold(op, e, d, size, n, l, r);
    }

    /**
     * `max_right(l, f)` for f with f(e): the r with l <= r <= n such that f holds of the fold of
     * values l .. r - 1 and, unless r = n, fails once value r is added.
     */
    method MaxRight(l: nat, f: S -> bool) returns (r: nat)
      requires Valid() && l <= n && f(e)
      ensures l <= r <= n
      ensures f(Fold(op, e, Values()[l..r]))
      ensures r < n ==> !f(Fold(op, e, Values()[l..r + 1]))
    {
      r := MaxRightOn(op, e, n, log, size, d, l, f);
      MaxRightValues(op, e, n, size, d, Values(), l, r, f);
    }

    /**
     * `min_left(r, f)` for f with f(e): the l with 0 <= l <= r such that f holds of the fold of
     * values l .. r - 1 and, unless l = 0, fails once value l - 1 is added.
     */
    method MinLeft(r: nat, f: S -> bool) returns (l: nat)
      requires Valid() && r <= n && f(e)
      ensures l <= r
      ensures f(Fold(op, e, Values()[l..r]))
      ensures 0 < l ==> !f(Fold(op, e, Values()[l - 1..r]))
    {
      l := MinLeftOn(op, e, n, log, size, d, r, f);
      MinLeftValues(op, e, n, size, d, Values(), l, r, f);
    }
  }
}
