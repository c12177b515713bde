/**
 * `deque_iterator`: a position in a deque whose values live in equal-sized buffers reached
 * through a map of buffers. Addresses are integers; `bufs[k]` is the first address of buffer k, and an
 * iterator holds `cur`, the buffer bounds `first` and `last`, and `node`, its index in the map.
 */
module Deque {
  import opened Wrappers

  /** `deque_buf_size<T>::value`: 4096 / sizeof(T) values per buffer for small T, else 16. */
  function BufSize(elemSize: nat): (r: nat)
    requires elemSize > 0
    ensures r >= 16
    ensures elemSize < 256 ==> r * elemSize <= 4096 < (r + 1) * elemSize
    ensures elemSize >= 256 ==> r == 16
  {
    if elemSize < 256 then 4096 / elemSize else 16
  }

  /**
   * The node step of `operator+=` for an offset outside the current buffer: offset divided by
   * b, rounded down, as the source writes it with truncating division on non-negative operands.
   */
  function NodeOffset(offset: int, b: nat): (k: int)
    requires b > 0 && (offset < 0 || b <= offset)
    ensures k * b <= offset < k * b + b
  {
    if offset > 0 then CDiv(offset, b) else -CDiv(-offset - 1, b) - 1
  }

  /** Distinct buffers of the map do not overlap. */
  ghost predicate Disjoint(bufs: seq<int>, b: nat)
  {
    forall i, j :: 0 <= i < j < |bufs| ==> bufs[i] + b <= bufs[j] || bufs[j] + b <= bufs[i]
  }

  /** A linear position node * b + o with 0 <= o < b determines the node. */
  lemma NodeOfPosition(p: int, q: int, o: int, b: nat, node: int)
    requires b > 0 && 0 <= o < b && p == node * b + o
    ensures q <= node ==> q * b <= p
    ensures node < q ==> p < q * b
  {
    if q <= node {
      assert q * b <= node * b;
    } else {
      assert (node + 1) * b <= q * b;
    }
  }

  /** Positions n * b + o with offsets o in [0, b) order by node first, and equal ones share their node. */
  lemma PositionOrder(b: int, n1: int, o1: int, n2: int, o2: int)
    ensures b > 0 && 0 <= o1 < b && 0 <= o2 < b ==>
      (n1 < n2 ==> n1 * b + o1 < n2 * b + o2) && (n1 * b + o1 == n2 * b + o2 ==> n1 == n2)
  {
    if b > 0 && 0 <= o1 < b && 0 <= o2 < b {
      if n1 < n2 {
        assert (n1 + 1) * b <= n2 * b;
      } else if n2 < n1 {
        assert (n2 + 1) * b <= n1 * b;
      }
    }
  }

  class Iter {
    var cur: int
    var first: int
    var last: int
    var node: int
    /** `buffer_size`. */
    const b: nat
    /** The map of buffers (their first addresses) the iterator walks over. */
    const bufs: seq<int>

    /** `first <= cur < last`, and first, last bound buffer `node` of the map. */
    ghost predicate Valid()
      reads this
    {
      b > 0 && 0 <= node < |bufs| && first == bufs[node] && last == first + b && first <= cur < last
    }

    /** The linear position: buffer `node`, slot cur - first. */
    ghost function Pos(): (p: int)
      reads this
      requires Valid()
      ensures 0 <= p < |bufs| * b
    {
      NodeOfPosition(node * b + (cur - first), |bufs|, cur - first, b, node);
      node * b + (cur - first)
    }

    /**
     * `deque_iterator(x, y)` as evidently intended: at address x of buffer y, with `node` = y.
     * The source's initialiser list sets cur, first and last but never `node` (see `AtAsWritten`).
     */
    constructor At(x: int, y: int, bufs: seq<int>, b: nat)
      requires b > 0 && 0 <= y < |bufs| && bufs[y] <= x < bufs[y] + b
      ensures Valid() && this.bufs == bufs && this.b == b
      ensures cur == x && node == y && Pos() == y * b + (x - bufs[y])
    {
      this.bufs := bufs;
      this.b := b;
      cur := x;
      first := bufs[y];
      last := bufs[y] + b;
      node := y;
    }

    /**
     * `deque_iterator(x, y)` as written: cur, first and last are set from x and buffer y, and
     * `node` keeps whatever indeterminate value the storage held, given here as `junk`. The
     * iterator is valid only when `junk` happens to name a buffer at the same address as y.
     */
    constructor AtAsWritten(x: int, y: int, bufs: seq<int>, b: nat, junk: int)
      requires b > 0 && 0 <= y < |bufs| && bufs[y] <= x < bufs[y] + b
      ensures this.bufs == bufs && this.b == b
      ensures cur == x && first == bufs[y] && last == bufs[y] + b && node == junk
      ensures Valid() <==> 0 <= junk < |bufs| && bufs[junk] == bufs[y]
    {
      this.bufs := bufs;
      this.b := b;
      cur := x;
      first := bufs[y];
      last := bufs[y] + b;
      node := junk;
    }

    /** The copy constructor. */
    constructor Copy(other: Iter)
      requires other.Valid()
      ensures Valid() && bufs == other.bufs && b == other.b
      ensures cur == other.cur && first == other.first && last == other.last && node == other.node
    {
      bufs := other.bufs;
      b := other.b;
      cur := other.cur;
      first := other.first;
      last := other.last;
      node := other.node;
    }

    /** `set_node(new_node)`: move to buffer k of the map, keeping cur. */
    method SetNode(k: int)
      requires b > 0 && 0 <= k < |bufs|
      modifies this
      ensures node == k && first == bufs[k] && last == first + b && cur == old(cur)
    {
      node := k;
      first := bufs[k];
      last := first + b;
    }

    /** `operator-(x)`: the distance from x, in values. */
    function Difference(x: Iter): (r: int)
      reads this, x
      requires Valid() && x.Valid() && x.b == b
      ensures r == Pos() - x.Pos()
    {
      b * (node - x.node) + (cur - first) - (x.cur - x.first)
    }

    /** `operator++`: one slot on, to the first slot of the next buffer from the last slot. */
    method Incr()
      requires Valid() && (cur + 1 < last || node + 1 < |bufs|)
      modifies this
      ensures Valid() && Pos() == old(Pos()) + 1
      ensures old(cur) + 1 < old(last) ==> node == old(node) && cur == old(cur) + 1
      ensures old(cur) + 1 == old(last) ==> node == old(node) + 1 && cur == first
    {
      cur := cur + 1;
      if cur == last {
        SetNode(node + 1);
        cur := first;
      }
    }

    /** `operator--`: one slot back, to the last slot of the previous buffer from the first slot. */
    method Decr()
      requires Valid() && (first < cur || 0 < node)
      modifies this
      ensures Valid() && Pos() == old(Pos()) - 1
      ensures old(first) < old(cur) ==> node == old(node) && cur == old(cur) - 1
      ensures old(first) == old(cur) ==> node == old(node) - 1 && cur == last - 1
    {
      if cur == first {
        SetNode(node - 1);
        cur := last;
      }
      cur := cur - 1;
    }

    /**
     * `operator+=(n)`: n slots on (back for negative n), within the buffer when the new offset
     * fits and otherwise in the buffer the offset falls in; the target must lie within the map.
     */
    method AddAssign(n: int)
      requires Valid() && 0 <= Pos() + n < |bufs| * b
      modifies this
      ensures Valid() && Pos() == old(Pos()) + n
    {
      var offset := n + (cur - first);
      if 0 <= offset < b {
        cur := cur + n;
      } else {
        var k := NodeOffset(offset, b);
        ghost var p := Pos() + n;
        assert p == (node + k) * b + (offset - k * b);
        NodeOfPosition(p, |bufs|, offset - k * b, b, node + k);
        NodeOfPosition(p, 0, offset - k * b, b, node + k);
        SetNode(node + k);
        cur := first + (offset - k * b);
      }
    }

    /** `operator-=(n)`: `+= -n`. */
    method SubAssign(n: int)
      requires Valid() && 0 <= Pos() - n < |bufs| * b
      modifies this
      ensures Valid() && Pos() == old(Pos()) - n
    {
      AddAssign(-n);
    }

    /** `operator+(n)`: a copy moved n slots on; the receiver stays where it is. */
    method Plus(n: int) returns (it: Iter)
      requires Valid() && 0 <= Pos() + n < |bufs| * b
      ensures fresh(it) && it.Valid() && it.bufs == bufs && it.b == b
      ensures it.Pos() == Pos() + n
    {
      it := new Iter.Copy(this);
      it.AddAssign(n);
    }

    /** `operator-(n)`: a copy moved n slots back; the receiver stays where it is. */
    method Minus(n: int) returns (it: Iter)
      requires Valid() && 0 <= Pos() - n < |bufs| * b
      ensures fresh(it) && it.Valid() && it.bufs == bufs && it.b == b
      ensures it.Pos() == Pos() - n
    {
      it := new Iter.Copy(this);
      it.SubAssign(n);
    }

    /** `operator==`: the same address; over a map of disjoint buffers, the same position. */
    predicate Eq(rhs: Iter)
      reads this, rhs
      ensures Valid() && rhs.Valid() && rhs.bufs == bufs && rhs.b == b && Disjoint(bufs, b) ==>
                (Eq(rhs) <==> Pos() == rhs.Pos())
    {
      PositionOrder(b, node, cur - first, rhs.node, rhs.cur - rhs.first);
      cur == rhs.cur
    }

    /** `operator<`: by node, then by address; on one map, by position. */
    predicate Lt(rhs: Iter)
      reads this, rhs
      ensures Valid() && rhs.Valid() && rhs.bufs == bufs && rhs.b == b ==> (Lt(rhs) <==> Pos() < rhs.Pos())
    {
      PositionOrder(b, node, cur - first, rhs.node, rhs.cur - rhs.first);
      PositionOrder(b, rhs.node, rhs.cur - rhs.first, node, cur - first);
      if node == rhs.node then cur < rhs.cur else node < rhs.node
    }

    /** `operator!=`: not `==`. */
    predicate Ne(rhs: Iter)
      reads this, rhs
      ensures Ne(rhs) <==> !Eq(rhs)
    {
      !Eq(rhs)
    }

    /** `operator>`: `rhs < *this`. */
    predicate Gt(rhs: Iter)
      reads this, rhs
      ensures Valid() && rhs.Valid() && rhs.bufs == bufs && rhs.b == b ==> (Gt(rhs) <==> rhs.Pos() < Pos())
    {
      rhs.Lt(this)
    }

    /** `operator<=`: not `rhs < *this`. */
    predicate Le(rhs: Iter)
      reads this, rhs
      ensures Valid() && rhs.Valid() && rhs.bufs == bufs && rhs.b == b ==> (Le(rhs) <==> Pos() <= rhs.Pos())
    {
      !rhs.Lt(this)
    }

    /** `operator>=`: not `*this < rhs`. */
    predicate Ge(rhs: Iter)
      reads this, rhs
      ensures Valid() && rhs.Valid() && rhs.bufs == bufs && rhs.b == b ==> (Ge(rhs) <==> rhs.Pos() <= Pos())
    {
      !Lt(rhs)
    }
  }

  /**
   * A concrete iterator the as-written constructor leaves broken: placed in buffer 0 of a
   * two-buffer map while its `node` holds 1, it is not `Valid()`, so a later `++` that leaves
   * the buffer would step to buffer 2, past the end of the map.
   */
  method AtAsWrittenBroken() returns (it: Iter)
    ensures it.bufs == [0, 16] && it.b == 16 && it.cur == 15 && it.first == 0 && it.node == 1
    ensures !it.Valid()
  {
    it := new Iter.AtAsWritten(15, 0, [0, 16], 16, 1);
  }
}
