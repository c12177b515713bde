/**
 * `list<T>`: a circular doubly-linked list through a sentinel node `node_`. Nodes live in a
 * heap arena (node k is index k, with links `prev[k]`, `next[k]` and value `value[k]`); the
 * list holds its sentinel, its size, and (as a ghost) the nodes in order.
 */
module List {
  import opened Wrappers

  /** `max_size()`: `size_type(-1)` with a 64-bit size_type. */
  const MaxSize: nat := 0xFFFF_FFFF_FFFF_FFFF

  /** The nodes listed in xs. */
  function Members(xs: seq<int>): (r: set<int>)
    ensures forall x :: x in r <==> x in xs
  {
    set x | x in xs
  }

  /** Position i of the ring s, xs[0], ..., xs[|xs| - 1], s: the sentinel at both ends. */
  function At(s: int, xs: seq<int>, i: int): int
  {
    if 1 <= i <= |xs| then xs[i - 1] else s
  }

  /** xs are distinct nodes of an arena of n nodes, none of them the sentinel s, which is one too. */
  ghost predicate Nodes(n: int, s: int, xs: seq<int>)
  {
    0 <= s < n && s !in xs &&
    (forall i :: 0 <= i < |xs| ==> 0 <= xs[i] < n) &&
    (forall i, j :: 0 <= i < j < |xs| ==> xs[i] != xs[j])
  }

  /** Positions i and i + 1 of the ring link to each other. */
  ghost predicate LinkAt(prev: seq<int>, next: seq<int>, s: int, xs: seq<int>, i: int)
  {
    0 <= At(s, xs, i) < |next| && 0 <= At(s, xs, i + 1) < |prev| &&
    next[At(s, xs, i)] == At(s, xs, i + 1) && prev[At(s, xs, i + 1)] == At(s, xs, i)
  }

  /**
   * The links make the ring s, xs..., s: distinct nodes of the arena, each linked forward to the
   * next and back to the previous one, the sentinel s between the last and the first.
   */
  ghost predicate Ring(prev: seq<int>, next: seq<int>, s: int, xs: seq<int>)
  {
    |prev| == |next| && Nodes(|next|, s, xs) && forall i :: 0 <= i <= |xs| ==> LinkAt(prev, next, s, xs, i)
  }

  /** Every position of the ring holds the sentinel or a node of the list, inside the arena. */
  lemma InRing(n: int, s: int, xs: seq<int>, i: int)
    requires Nodes(n, s, xs)
    ensures 0 <= At(s, xs, i) < n && (At(s, xs, i) == s || At(s, xs, i) in xs)
  {
  }

  /** Distinct positions of the ring, other than its two ends, hold distinct nodes. */
  lemma AtDistinct(n: int, s: int, xs: seq<int>, p: int, q: int)
    requires Nodes(n, s, xs) && 0 <= p < q <= |xs| + 1 && (p != 0 || q != |xs| + 1)
    ensures At(s, xs, p) != At(s, xs, q)
  {
  }
  /** The positions of the ring once n is inserted after position k. */
  lemma AtInsert(s: int, xs: seq<int>, k: int, n: int, i: int)
    requires 0 <= k <= |xs|
    ensures var ys := xs[..k] + [n] + xs[k..];
            At(s, ys, i) == if i <= k then At(s, xs, i) else if i == k + 1 then n else At(s, xs, i - 1)
  {
  }

  /** The positions of the ring once positions i + 1 .. j are taken out. */
  lemma AtRemove(s: int, xs: seq<int>, i: int, j: int, k: int)
    requires 0 <= i <= j <= |xs|
    ensures var ys := xs[..i] + xs[j..];
            At(s, ys, k) == if k <= i then At(s, xs, k) else At(s, xs, k + (j - i))
  {
  }

  /** A link of the old ring that the relinking left alone is a link of the new one, at position i. */
  lemma KeepLink(prev: seq<int>, next: seq<int>, prev': seq<int>, next': seq<int>, s: int, xs: seq<int>, ys: seq<int>, i: int, j: int)
    requires LinkAt(prev, next, s, xs, j) && |prev'| == |prev| && |next'| == |next|
    requires At(s, ys, i) == At(s, xs, j) && At(s, ys, i + 1) == At(s, xs, j + 1)
    requires next'[At(s, xs, j)] == next[At(s, xs, j)] && prev'[At(s, xs, j + 1)] == prev[At(s, xs, j + 1)]
    ensures LinkAt(prev', next', s, ys, i)
  {
  }

  /** The ring with node n, not yet on it, linked in between positions k and k + 1. */
  lemma RingInsert(prev: seq<int>, next: seq<int>, s: int, xs: seq<int>, k: int, n: int)
    requires Ring(prev, next, s, xs) && 0 <= k <= |xs| && 0 <= n < |next| && n != s && n !in xs
    ensures var a, b := At(s, xs, k), At(s, xs, k + 1);
            Ring(prev[n := a][b := n], next[n := b][a := n], s, xs[..k] + [n] + xs[k..])
  {
    var a, b := At(s, xs, k), At(s, xs, k + 1);
    var ys := xs[..k] + [n] + xs[k..];
    var prev', next' := prev[n := a][b := n], next[n := b][a := n];
    assert forall i :: 0 <= i < |ys| ==> ys[i] == if i < k then xs[i] else if i == k then n else xs[i - 1];
    assert Nodes(|next'|, s, ys);
    InRing(|next|, s, xs, k);
    InRing(|next|, s, xs, k + 1);
    forall i | 0 <= i <= |ys|
      ensures LinkAt(prev', next', s, ys, i)
    {
      AtInsert(s, xs, k, n, i);
      AtInsert(s, xs, k, n, i + 1);
      if i < k {
        InsertKeepsBefore(prev, next, s, xs, k, n, i);
      } else if i > k + 1 {
        InsertKeepsAfter(prev, next, s, xs, k, n, i);
      }
    }
  }

  /** Inserting n after position k leaves the links before position k as they were. */
  lemma InsertKeepsBefore(prev: seq<int>, next: seq<int>, s: int, xs: seq<int>, k: int, n: int, i: int)
    requires Ring(prev, next, s, xs) && 0 <= k <= |xs| && 0 <= n < |next| && n != s && n !in xs
    requires 0 <= i < k
    ensures var a, b := At(s, xs, k), At(s, xs, k + 1);
            LinkAt(prev[n := a][b := n], next[n := b][a := n], s, xs[..k] + [n] + xs[k..], i)
  {
    var a, b := At(s, xs, k), At(s, xs, k + 1);
    AtInsert(s, xs, k, n, i);
    AtInsert(s, xs, k, n, i + 1);
    InRing(|next|, s, xs, i);
    InRing(|next|, s, xs, i + 1);
    AtDistinct(|next|, s, xs, i, k);
    AtDistinct(|next|, s, xs, i + 1, k + 1);
    assert At(s, xs, i) != a && At(s, xs, i) != n;
    assert At(s, xs, i + 1) != b && At(s, xs, i + 1) != n;
    KeepLink(prev, next, prev[n := a][b := n], next[n := b][a := n], s, xs, xs[..k] + [n] + xs[k..], i, i);
  }

  /** Inserting n after position k moves the links after position k + 1 one position on. */
  lemma InsertKeepsAfter(prev: seq<int>, next: seq<int>, s: int, xs: seq<int>, k: int, n: int, i: int)
    requires Ring(prev, next, s, xs) && 0 <= k <= |xs| && 0 <= n < |next| && n != s && n !in xs
    requires k + 1 < i <= |xs| + 1
    ensures var a, b := At(s, xs, k), At(s, xs, k + 1);
            LinkAt(prev[n := a][b := n], next[n := b][a := n], s, xs[..k] + [n] + xs[k..], i)
  {
    var a, b := At(s, xs, k), At(s, xs, k + 1);
    AtInsert(s, xs, k, n, i);
    AtInsert(s, xs, k, n, i + 1);
    InRing(|next|, s, xs, i - 1);
    InRing(|next|, s, xs, i);
    AtDistinct(|next|, s, xs, k, i - 1);
    AtDistinct(|next|, s, xs, k + 1, i);
    assert At(s, xs, i - 1) != a && At(s, xs, i - 1) != n;
    assert At(s, xs, i) != b && At(s, xs, i) != n;
    KeepLink(prev, next, prev[n := a][b := n], next[n := b][a := n], s, xs, xs[..k] + [n] + xs[k..], i, i - 1);
  }

  /** The ring with positions i + 1 .. j (the nodes xs[i..j]) unlinked: node i links to node j + 1. */
  lemma RingRemove(prev: seq<int>, next: seq<int>, s: int, xs: seq<int>, i: int, j: int)
    requires Ring(prev, next, s, xs) && 0 <= i <= j <= |xs|
    ensures var a, b := At(s, xs, i), At(s, xs, j + 1);
            Ring(prev[b := a], next[a := b], s, xs[..i] + xs[j..])
  {
    var a, b := At(s, xs, i), At(s, xs, j + 1);
    var ys := xs[..i] + xs[j..];
    var prev', next' := prev[b := a], next[a := b];
    NodesRemove(|next|, s, xs, i, j);
    InRing(|next|, s, xs, i);
    InRing(|next|, s, xs, j + 1);
    forall k | 0 <= k <= |ys|
      ensures LinkAt(prev', next', s, ys, k)
    {
      AtRemove(s, xs, i, j, k);
      AtRemove(s, xs, i, j, k + 1);
      if k < i {
        RemoveKeepsBefore(prev, next, s, xs, i, j, k);
      } else if k > i {
        RemoveKeepsAfter(prev, next, s, xs, i, j, k);
      }
    }
  }

  /** Taking positions i .. j - 1 out of the ring's nodes leaves distinct nodes of the arena. */
  lemma NodesRemove(n: int, s: int, xs: seq<int>, i: int, j: int)
    requires Nodes(n, s, xs) && 0 <= i <= j <= |xs|
    ensures Nodes(n, s, xs[..i] + xs[j..])
  {
    var ys := xs[..i] + xs[j..];
    assert forall k :: 0 <= k < |ys| ==> ys[k] == xs[if k < i then k else k + (j - i)];
  }

  /** Unlinking positions i + 1 .. j leaves the links before position i as they were. */
  lemma RemoveKeepsBefore(prev: seq<int>, next: seq<int>, s: int, xs: seq<int>, i: int, j: int, k: int)
    requires Ring(prev, next, s, xs) && 0 <= i <= j <= |xs| && 0 <= k < i
    ensures var a, b := At(s, xs, i), At(s, xs, j + 1);
            LinkAt(prev[b := a], next[a := b], s, xs[..i] + xs[j..], k)
  {
    var a, b := At(s, xs, i), At(s, xs, j + 1);
    AtRemove(s, xs, i, j, k);
    AtRemove(s, xs, i, j, k + 1);
    AtDistinct(|next|, s, xs, k, i);
    AtDistinct(|next|, s, xs, k + 1, j + 1);
    KeepLink(prev, next, prev[b := a], next[a := b], s, xs, xs[..i] + xs[j..], k, k);
  }

  /** Unlinking positions i + 1 .. j moves the links after position i back by j - i positions. */
  lemma RemoveKeepsAfter(prev: seq<int>, next: seq<int>, s: int, xs: seq<int>, i: int, j: int, k: int)
    requires Ring(prev, next, s, xs) && 0 <= i <= j <= |xs| && i < k <= |xs| - (j - i)
    ensures var a, b := At(s, xs, i), At(s, xs, j + 1);
            LinkAt(prev[b := a], next[a := b], s, xs[..i] + xs[j..], k)
  {
    var a, b := At(s, xs, i), At(s, xs, j + 1);
    var d := j - i;
    AtRemove(s, xs, i, j, k);
    AtRemove(s, xs, i, j, k + 1);
    AtDistinct(|next|, s, xs, i, k + d);
    AtDistinct(|next|, s, xs, j + 1, k + d + 1);
    KeepLink(prev, next, prev[b := a], next[a := b], s, xs, xs[..i] + xs[j..], k, k + d);
  }

  /** A ring stays a ring as the arena grows. */
  lemma RingGrow(prev: seq<int>, next: seq<int>, s: int, xs: seq<int>, p: int, q: int)
    requires Ring(prev, next, s, xs)
    ensures Ring(prev + [p], next + [q], s, xs)
  {
    forall i | 0 <= i <= |xs|
      ensures LinkAt(prev + [p], next + [q], s, xs, i)
    {
      assert LinkAt(prev, next, s, xs, i);
    }
  }

  /** After unlinking positions i + 1 .. j, the links from those positions onwards are as before. */
  lemma UnlinkedKeep(prev: seq<int>, next: seq<int>, s: int, xs: seq<int>, i: int, j: int)
    requires Ring(prev, next, s, xs) && 0 <= i < j <= |xs|
    ensures var next' := next[At(s, xs, i) := At(s, xs, j + 1)];
            forall k :: i + 1 <= k <= j ==> 0 <= At(s, xs, k) < |next'| && next'[At(s, xs, k)] == At(s, xs, k + 1)
  {
    forall k | i + 1 <= k <= j
      ensures 0 <= At(s, xs, k) < |next| && next[At(s, xs, i) := At(s, xs, j + 1)][At(s, xs, k)] == At(s, xs, k + 1)
    {
      assert LinkAt(prev, next, s, xs, k);
      AtDistinct(|next|, s, xs, i, k);
    }
  }

  /** The memory the nodes of every list live in; `freed` holds the nodes given back to it. */
  /** Taking positions i .. j - 1 out of distinct nodes xs, none of them freed, leaves none freed once those are. */
  lemma RemoveNodes(xs: seq<int>, i: int, j: int, freed: set<int>)
    requires 0 <= i <= j <= |xs| && (forall a, b :: 0 <= a < b < |xs| ==> xs[a] != xs[b])
    requires forall a :: 0 <= a < |xs| ==> xs[a] !in freed
    ensures var ys := xs[..i] + xs[j..];
            forall a :: 0 <= a < |ys| ==> ys[a] !in freed + Members(xs[i..j])
  {
    var ys := xs[..i] + xs[j..];
    forall a | 0 <= a < |ys|
      ensures ys[a] !in Members(xs[i..j])
    {
      assert ys[a] == xs[if a < i then a else a + (j - i)];
    }
  }

  /** Values read through nodes xs, once positions i .. j - 1 are taken out of xs, are the values with i .. j - 1 taken out. */
  lemma ValuesRemove<T>(v: seq<T>, xs: seq<int>, c: seq<T>, i: int, j: int, ys: seq<int>, d: seq<T>)
    requires 0 <= i <= j <= |xs| && ys == xs[..i] + xs[j..]
    requires |c| == |xs| && forall k :: 0 <= k < |xs| ==> 0 <= xs[k] < |v| && c[k] == v[xs[k]]
    requires |d| == |ys| && forall k :: 0 <= k < |ys| ==> 0 <= ys[k] < |v| && d[k] == v[ys[k]]
    ensures d == c[..i] + c[j..]
  {
    forall k | 0 <= k < |d|
      ensures d[k] == (c[..i] + c[j..])[k]
    {
      if k < i {
        assert ys[k] == xs[k];
      } else {
        assert ys[k] == xs[k + (j - i)];
      }
    }
  }

  class Heap<T> {
    var prev: seq<int>
    var next: seq<int>
    var value: seq<T>
    var freed: set<int>

    ghost predicate Valid()
      reads this
    {
      |prev| == |next| == |value| && forall k :: k in freed ==> 0 <= k < |next|
    }

    /** A new node holding v, its links not yet set. */
    method Create(v: T) returns (n: int)
      requires Valid()
      modifies this
      ensures Valid() && n == |old(next)| && n !in freed && freed == old(freed)
      ensures next == old(next) + [n] && prev == old(prev) + [n] && value == old(value) + [v]
    {
      n := |next|;
      next := next + [n];
      prev := prev + [n];
      value := value + [v];
    }

    /** `destroy_node(p)`: node k goes back to the heap; its links and value are left as they were. */
    method Destroy(k: int)
      requires Valid() && 0 <= k < |next|
      modifies this
      ensures Valid() && freed == old(freed) + {k}
      ensures prev == old(prev) && next == old(next) && value == old(value)
    {
      freed := freed + {k};
    }

    /** `list_node_base::unlink()`: node k links to itself both ways. */
    method Unlink(k: int)
      requires Valid() && 0 <= k < |next|
      modifies this
      ensures Valid() && prev == old(prev)[k := k] && next == old(next)[k := k] && value == old(value)
      ensures freed == old(freed)
    {
      prev := prev[k := k];
      next := next[k := k];
    }
  }

  /** `list_iterator`: the node it points at. */
  class Iter<T> {
    var node: int

    constructor (x: int)
      ensures node == x
    {
      node := x;
    }

    /** `operator++` at position i of the ring of l: to the next node, at position i + 1. */
    method Incr(l: List<T>, ghost i: int)
      requires l.Valid() && 0 <= i <= |l.elems| && node == At(l.node, l.elems, i)
      modifies this
      ensures node == l.heap.next[old(node)] == At(l.node, l.elems, i + 1)
    {
      assert LinkAt(l.heap.prev, l.heap.next, l.node, l.elems, i);
      node := l.heap.next[node];
    }

    /**
     * `operator--` at position i of the ring of l: to the previous node, at position i - 1. The
     * source ends with `return node_;` where it returns `*this`, which does not compile; the model
     * moves the iterator and returns nothing.
     */
    method Decr(l: List<T>, ghost i: int)
      requires l.Valid() && 1 <= i <= |l.elems| + 1 && node == At(l.node, l.elems, i)
      modifies this
      ensures node == l.heap.prev[old(node)] == At(l.node, l.elems, i - 1)
    {
      assert LinkAt(l.heap.prev, l.heap.next, l.node, l.elems, i - 1);
      node := l.heap.prev[node];
    }
  }

  class List<T> {
    const heap: Heap<T>
    /** `node_`, the sentinel. */
    var node: int
    /** `size_`. */
    var size: nat
    /** The nodes of the list from `begin()` to `end()`, excluded. */
    ghost var elems: seq<int>

    /** The links form the ring of the sentinel and elems. */
    ghost predicate Linked()
      reads this, heap
    {
      heap.Valid() && Ring(heap.prev, heap.next, node, elems)
    }

    /** The ring is linked, size_ counts its nodes, and none of them has been destroyed. */
    ghost predicate Valid()
      reads this, heap
    {
      Linked() && size == |elems| && node !in heap.freed && forall i :: 0 <= i < |elems| ==> elems[i] !in heap.freed
    }

    /** The values, front to back. */
    ghost function Contents(): (r: seq<T>)
      reads this, heap
      requires Linked()
      ensures |r| == |elems| && forall i :: 0 <= i < |elems| ==> r[i] == heap.value[elems[i]]
    {
      var v, e := heap.value, elems;
      seq(|e|, i requires 0 <= i < |e| => v[e[i]])
    }

    /** The index of node p in the list, |elems| for the sentinel: p sits at position k + 1 of the ring. */
    ghost function Index(p: int): (k: int)
      reads this, heap
      requires Linked() && (p == node || p in elems)
      ensures 0 <= k <= |elems| && At(node, elems, k + 1) == p
      ensures p == node <==> k == |elems|
    {
      if p == node then |elems| else var k :| 0 <= k < |elems| && elems[k] == p; k
    }

    /**
     * `list()`: a heap-allocated sentinel linked to itself, no values. The source constructor
     * calls `fill_init(0, value)`, which it declares without a body; this body and contract are
     * the model's own.
     */
    constructor (h: Heap<T>, v: T)
      requires h.Valid()
      modifies h
      ensures Valid() && heap == h && Contents() == [] && heap.next[node] == node && heap.prev[node] == node
    {
      heap := h;
      var n := h.Create(v);
      node := n;
      size := 0;
      elems := [];
    }

    /** `empty()`: the sentinel links to itself. */
    function Empty(): (r: bool)
      reads this, heap
      requires Valid()
      ensures r <==> Contents() == []
    {
      assert LinkAt(heap.prev, heap.next, node, elems, 0);
      heap.next[node] == node
    }

    /** `size()`. */
    function Size(): (r: nat)
      reads this, heap
      requires Valid()
      ensures r == |Contents()|
    {
      size
    }

    /**
     * `create_node(value)`: a new node holding v in the heap, on no ring yet. Declared without a
     * body in the source; this body and contract are the model's own.
     */
    method CreateNode(v: T) returns (n: int)
      requires Valid()
      modifies heap
      ensures Valid() && heap.value == old(heap.value) + [v] && heap.freed == old(heap.freed)
      ensures n == |heap.next| - 1 && n != node && n !in elems && n !in heap.freed
    {
      RingGrow(heap.prev, heap.next, node, elems, |heap.next|, |heap.next|);
      n := heap.Create(v);
    }

    /**
     * `link_nodes_at_front(n, n)`: node n, new to the heap, in between the sentinel and the first
     * node. Declared without a body in the source; this body and contract are the model's own.
     */
    method LinkNodesAtFront(n: int)
      requires Linked() && n == |heap.next| - 1 && n != node && n !in elems
      modifies this, heap
      ensures Linked() && node == old(node) && size == old(size) && heap.freed == old(heap.freed)
      ensures heap.value == old(heap.value) && elems == [n] + old(elems)
    {
      assert LinkAt(heap.prev, heap.next, node, elems, 0);
      var b := heap.next[node];
      RingInsert(heap.prev, heap.next, node, elems, 0, n);
      heap.prev := heap.prev[n := node][b := n];
      heap.next := heap.next[n := b][node := n];
      assert elems[..0] + [n] + elems[0..] == [n] + elems;
      elems := [n] + elems;
    }

    /**
     * `link_nodes_at_back(n, n)`: node n, new to the heap, in between the last node and the
     * sentinel. Declared without a body in the source; this body and contract are the model's own.
     */
    method LinkNodesAtBack(n: int)
      requires Linked() && n == |heap.next| - 1 && n != node && n !in elems
      modifies this, heap
      ensures Linked() && node == old(node) && size == old(size) && heap.freed == old(heap.freed)
      ensures heap.value == old(heap.value) && elems == old(elems) + [n]
    {
      assert LinkAt(heap.prev, heap.next, node, elems, |elems|);
      var a := heap.prev[node];
      assert a == At(node, elems, |elems|);
      RingInsert(heap.prev, heap.next, node, elems, |elems|, n);
      heap.prev := heap.prev[n := a][node := n];
      heap.next := heap.next[n := node][a := n];
      assert elems[..|elems|] + [n] + elems[|elems|..] == elems + [n];
      elems := elems + [n];
    }

    /**
     * `link_nodes(p, n, n)`: node n, new to the heap, in front of node p of the ring. Declared
     * without a body in the source; this body and contract are the model's own.
     */
    method LinkNodes(p: int, n: int)
      requires Linked() && (p == node || p in elems) && n == |heap.next| - 1 && n != node && n !in elems
      modifies this, heap
      ensures Linked() && node == old(node) && size == old(size) && heap.value == old(heap.value)
      ensures heap.freed == old(heap.freed)
      ensures var k := old(Index(p)); elems == old(elems)[..k] + [n] + old(elems)[k..]
    {
      ghost var k := Index(p);
      assert LinkAt(heap.prev, heap.next, node, elems, k);
      var a := heap.prev[p];
      RingInsert(heap.prev, heap.next, node, elems, k, n);
      heap.prev := heap.prev[n := a][p := n];
      heap.next := heap.next[n := p][a := n];
      elems := elems[..k] + [n] + elems[k..];
    }

    /**
     * `unlink_nodes(f, l)` for f, l the nodes at indices i and j - 1 of the list: the node before
     * f links to the one after l, which take f and l out, with all between them. Declared
     * without a body in the source; this body and contract are the model's own.
     */
    method UnlinkNodes(f: int, l: int, ghost i: int, ghost j: int)
      requires Linked() && 0 <= i < j <= |elems| && f == elems[i] && l == elems[j - 1]
      modifies this, heap
      ensures Linked() && node == old(node) && size == old(size) && heap.freed == old(heap.freed)
      ensures heap.value == old(heap.value) && elems == old(elems)[..i] + old(elems)[j..]
      ensures heap.next == old(heap.next)[At(node, old(elems), i) := At(node, old(elems), j + 1)]
    {
      assert f == At(node, elems, i + 1) && l == At(node, elems, j);
      assert LinkAt(heap.prev, heap.next, node, elems, i) && LinkAt(heap.prev, heap.next, node, elems, j);
      var a, b := heap.prev[f], heap.next[l];
      RingRemove(heap.prev, heap.next, node, elems, i, j);
      heap.next := heap.next[a := b];
      heap.prev := heap.prev[b := a];
      elems := elems[..i] + elems[j..];
    }

    /** `push_front(value)` and `emplace_front`: value before the first one, unless size_ is at max_size(). */
    method PushFront(v: T) returns (o: Outcome)
      requires Valid()
      modifies this, heap
      ensures Valid() && node == old(node)
      ensures o.Failure? <==> old(size) > MaxSize - 1
      ensures o.Failure? ==> o.error == OutOfRange && Contents() == old(Contents())
      ensures o.Pass? ==> Contents() == [v] + old(Contents())
    {
      if size > MaxSize - 1 {
        return Failure(OutOfRange);
      }
      var n := CreateNode(v);
      LinkNodesAtFront(n);
      size := size + 1;
      o := Pass;
    }

    /** `push_back(value)` and `emplace_back`: value after the last one, unless size_ is at max_size(). */
    method PushBack(v: T) returns (o: Outcome)
      requires Valid()
      modifies this, heap
      ensures Valid() && node == old(node)
      ensures o.Failure? <==> old(size) > MaxSize - 1
      ensures o.Failure? ==> o.error == OutOfRange && Contents() == old(Contents())
      ensures o.Pass? ==> Contents() == old(Contents()) + [v]
    {
      if size > MaxSize - 1 {
        return Failure(OutOfRange);
      }
      var n := CreateNode(v);
      LinkNodesAtBack(n);
      size := size + 1;
      o := Pass;
    }

    /** `emplace(pos, args)`: value in front of pos, unless size_ is at max_size(); returns its node. */
    method Emplace(pos: int, v: T) returns (r: Result<int>)
      requires Valid() && (pos == node || pos in elems)
      modifies this, heap
      ensures Valid() && node == old(node)
      ensures r.Fail? <==> old(size) > MaxSize - 1
      ensures r.Fail? ==> r.error == OutOfRange && Contents() == old(Contents())
      ensures r.Ok? ==> var k := old(Index(pos));
                        Contents() == old(Contents())[..k] + [v] + old(Contents())[k..] && elems[k] == r.value
    {
      if size > MaxSize - 1 {
        return Fail(OutOfRange);
      }
      var n := CreateNode(v);
      LinkNodes(pos, n);
      size := size + 1;
      r := Ok(n);
    }

    /**
     * `pop_front()` on a non-empty list: the first node is unlinked and destroyed. The source
     * decrements with `--size()`, which does not compile; the model decrements `size_`.
     */
    method PopFront()
      requires Valid() && Contents() != []
      modifies this, heap
      ensures Valid() && node == old(node) && Contents() == old(Contents())[1..]
      ensures heap.freed == old(heap.freed) + {old(elems)[0]}
    {
      assert LinkAt(heap.prev, heap.next, node, elems, 0);
      var n := heap.next[node];
      ghost var e0 := elems;
      UnlinkNodes(n, n, 0, 1);
      heap.Destroy(n);
      size := size - 1;
      assert forall i :: 0 <= i < |elems| ==> elems[i] == e0[i + 1] != n;
    }

    /** `pop_back()` on a non-empty list: the last node is unlinked and destroyed. */
    method PopBack()
      requires Valid() && Contents() != []
      modifies this, heap
      ensures Valid() && node == old(node) && Contents() == old(Contents())[..|old(Contents())| - 1]
      ensures heap.freed == old(heap.freed) + {old(elems)[|old(elems)| - 1]}
    {
      assert LinkAt(heap.prev, heap.next, node, elems, |elems|);
      var n := heap.prev[node];
      ghost var e0 := elems;
      UnlinkNodes(n, n, |elems| - 1, |elems|);
      heap.Destroy(n);
      size := size - 1;
      assert forall i :: 0 <= i < |elems| ==> elems[i] == e0[i] != n;
    }

    /** `erase(pos)` for pos != end(): node pos is unlinked and destroyed; returns the node after it. */
    method Erase(pos: int) returns (r: int)
      requires Valid() && pos in elems
      modifies this, heap
      ensures Valid() && node == old(node) && heap.freed == old(heap.freed) + {pos}
      ensures var k := old(Index(pos));
              Contents() == old(Contents())[..k] + old(Contents())[k + 1..] && r == At(node, old(elems), k + 2)
    {
      ghost var k := Index(pos);
      ghost var e0, c0 := elems, Contents();
      assert LinkAt(heap.prev, heap.next, node, elems, k + 1);
      RemoveNodes(e0, k, k + 1, heap.freed);
      assert e0[k..k + 1] == [pos];
      r := heap.next[pos];
      UnlinkNodes(pos, pos, k, k + 1);
      heap.Destroy(pos);
      size := size - 1;
      ValuesRemove(heap.value, e0, c0, k, k + 1, elems, Contents());
    }

    /**
     * `erase(first, last)` for first at or before last: the nodes from first up to last are
     * unlinked, then destroyed one by one, size_ dropping by one per node; returns last. The
     * source names the node before last `last.node_->pre`, which does not compile; the model
     * takes `prev`.
     */
    method EraseRange(first: int, last: int) returns (r: int)
      requires Valid() && (first == node || first in elems) && (last == node || last in elems)
      requires Index(first) <= Index(last)
      modifies this, heap
      ensures Valid() && node == old(node) && r == last
      ensures var i, j := old(Index(first)), old(Index(last));
              Contents() == old(Contents())[..i] + old(Contents())[j..] &&
              heap.freed == old(heap.freed) + Members(old(elems)[i..j])
    {
      if first != last {
        ghost var i, j := Index(first), Index(last);
        ghost var e0, c0 := elems, Contents();
        assert LinkAt(heap.prev, heap.next, node, elems, j);
        var l := heap.prev[last];
        UnlinkedKeep(heap.prev, heap.next, node, elems, i, j);
        UnlinkNodes(first, l, i, j);
        ghost var freed0 := heap.freed;
        EraseWalk(first, last, e0, i, j);
        RemoveNodes(e0, i, j, freed0);
        ValuesRemove(heap.value, e0, c0, i, j, elems, Contents());
      } else {
        ghost var i := Index(first);
        assert Members(elems[i..i]) == {};
        assert Contents()[..i] + Contents()[i..] == Contents();
      }
      return last;
    }

    /** The walk of `erase(first, last)` over the unlinked nodes: each is destroyed, one `--size_` per node. */
    method EraseWalk(first: int, last: int, ghost e0: seq<int>, ghost i: int, ghost j: int)
      requires heap.Valid() && 0 <= i < j <= |e0| && size == |e0|
      requires first == At(node, e0, i + 1) && last == At(node, e0, j + 1)
      requires node !in e0 && forall a, b :: 0 <= a < b < |e0| ==> e0[a] != e0[b]
      requires forall k :: i + 1 <= k <= j ==> 0 <= At(node, e0, k) < |heap.next| && heap.next[At(node, e0, k)] == At(node, e0, k + 1)
      modifies this, heap
      ensures heap.Valid() && node == old(node) && elems == old(elems) && size == |e0| - (j - i)
      ensures heap.prev == old(heap.prev) && heap.next == old(heap.next) && heap.value == old(heap.value)
      ensures heap.freed == old(heap.freed) + Members(e0[i..j])
    {
      var cur := first;
      ghost var k := i + 1;
      while cur != last
        invariant i + 1 <= k <= j + 1 && cur == At(node, e0, k) && size == |e0| - (k - (i + 1))
        invariant heap.Valid() && node == old(node) && elems == old(elems)
        invariant heap.prev == old(heap.prev) && heap.next == old(heap.next) && heap.value == old(heap.value)
        invariant heap.freed == old(heap.freed) + Members(e0[i..k - 1])
        decreases j + 1 - k
      {
        var c := cur;
        cur := heap.next[cur];
        assert e0[i..k] == e0[i..k - 1] + [c];
        heap.Destroy(c);
        k := k + 1;
        size := size - 1;
      }
      if k <= j {
        assert false;
      }
    }

    /**
     * `clear()`: if the list is not empty, every node of the list is destroyed as the loop walks
     * the ring to the sentinel; then the sentinel links to itself and size_ drops to 0.
     */
    method Clear()
      requires Valid()
      modifies this, heap
      ensures Valid() && node == old(node) && Contents() == []
      ensures heap.next[node] == node && heap.prev[node] == node
      ensures heap.freed == old(heap.freed) + Members(old(elems))
    {
      assert LinkAt(heap.prev, heap.next, node, elems, 0);
      if size != 0 {
        ClearWalk();
        heap.Unlink(node);
        elems := [];
        size := 0;
        assert LinkAt(heap.prev, heap.next, node, elems, 0);
      } else {
        assert Members(elems) == {};
      }
    }

    /** The walk of `clear()` over a non-empty list: each node up to the sentinel is destroyed. */
    method ClearWalk()
      requires Valid() && size != 0
      modifies heap
      ensures Linked() && node !in heap.freed
      ensures heap.prev == old(heap.prev) && heap.next == old(heap.next) && heap.value == old(heap.value)
      ensures heap.freed == old(heap.freed) + Members(elems)
    {
      assert LinkAt(heap.prev, heap.next, node, elems, 0);
      InRing(|heap.next|, node, elems, 1);
      var cur := heap.next[node];
      var nx := heap.next[cur];
      ghost var k := 1;
      while cur != node
        invariant Linked()
        invariant heap.prev == old(heap.prev) && heap.next == old(heap.next) && heap.value == old(heap.value)
        invariant 1 <= k <= |elems| + 1 && cur == At(node, elems, k)
        invariant 0 <= cur < |heap.next| && nx == heap.next[cur]
        invariant heap.freed == old(heap.freed) + Members(elems[..k - 1])
        decreases |elems| + 1 - k
      {
        assert LinkAt(heap.prev, heap.next, node, elems, k);
        InRing(|heap.next|, node, elems, k + 1);
        assert elems[..k] == elems[..k - 1] + [cur];
        heap.Destroy(cur);
        cur := nx;
        nx := heap.next[cur];
        k := k + 1;
      }
      assert elems[..|elems|] == elems;
    }

    /** `swap(rhs)`: the two lists exchange their sentinels and sizes, and so their values. */
    method Swap(rhs: List<T>)
      requires Valid() && rhs.Valid() && rhs.heap == heap
      modifies this, rhs
      ensures Valid() && rhs.Valid()
      ensures node == old(rhs.node) && rhs.node == old(node) && size == old(rhs.size) && rhs.size == old(size)
      ensures Contents() == old(rhs.Contents()) && rhs.Contents() == old(Contents())
    {
      node, rhs.node := rhs.node, node;
      size, rhs.size := rhs.size, size;
      elems, rhs.elems := rhs.elems, elems;
    }
  }
}
