/**
 * The singly-linked relink primitives of `slist`. Nodes live in an arena: node k is index k,
 * `next[k]` is the index of its successor and -1 stands for the null pointer.
 */
module SList {
  import opened Wrappers

  /** The null pointer. */
  const Null: int := -1

  /** xs are distinct nodes of the arena, each linked to the next, and the last one to `end`. */
  ghost predicate Path(next: seq<int>, xs: seq<int>, end: int)
  {
    (forall i :: 0 <= i < |xs| ==> 0 <= xs[i] < |next|) &&
    (forall i, j :: 0 <= i < j < |xs| ==> xs[i] != xs[j]) &&
    (forall i :: 0 <= i < |xs| - 1 ==> next[xs[i]] == xs[i + 1]) &&
    (|xs| > 0 ==> next[xs[|xs| - 1]] == end)
  }

  /** xs in reverse order. */
  function Reversed(xs: seq<int>): (r: seq<int>)
    ensures |r| == |xs| && forall i :: 0 <= i < |xs| ==> r[i] == xs[|xs| - 1 - i]
  {
    if xs == [] then [] else Reversed(xs[1..]) + [xs[0]]
  }

  /** A path that avoids the nodes whose links changed is still a path. */
  lemma PathFrame(next: seq<int>, next': seq<int>, xs: seq<int>, end: int)
    requires Path(next, xs, end) && |next'| == |next|
    requires forall i :: 0 <= i < |xs| ==> next'[xs[i]] == next[xs[i]]
    ensures Path(next', xs, end)
  {
  }

  /** The nodes whose links changed, from one link valuation to another, lie in `touched`. */
  ghost predicate OnlyChanged(next: seq<int>, next': seq<int>, touched: set<int>)
  {
    |next'| == |next| && forall k :: 0 <= k < |next| && k !in touched ==> next'[k] == next[k]
  }

  /** Every link of the arena is null or a node of it. */
  ghost predicate Linked(next: seq<int>)
  {
    forall k :: 0 <= k < |next| ==> next[k] == Null || 0 <= next[k] < |next|
  }

  class Arena<T> {
    var next: seq<int>
    var data: seq<T>

    ghost predicate Valid()
      reads this
    {
      |data| == |next| && Linked(next)
    }

    /**
     * `slist_make_link(prev, new)`: new takes prev's successor and becomes prev's successor;
     * returns new.
     */
    method MakeLink(prev: int, new_node: int) returns (r: int)
      requires Valid() && 0 <= prev < |next| && 0 <= new_node < |next|
      modifies this
      ensures Valid() && data == old(data) && r == new_node
      ensures next == old(next)[new_node := old(next)[prev]][prev := new_node]
    {
      next := next[new_node := next[prev]];
      next := next[prev := new_node];
      r := new_node;
    }

    /**
     * `slist_previous(head, node)`: along the chain xs from head to null, the first node whose
     * successor is `node`, or null when there is none.
     */
    method Previous(head: int, node: int, ghost xs: seq<int>) returns (r: int)
      requires Valid() && Path(next, xs, Null) && (if xs == [] then head == Null else head == xs[0])
      ensures r == Null <==> forall i :: 0 <= i < |xs| ==> next[xs[i]] != node
      ensures r != Null ==> exists i :: 0 <= i < |xs| && r == xs[i] && next[r] == node &&
                                        forall j :: 0 <= j < i ==> next[xs[j]] != node
    {
      r := head;
      ghost var i := 0;
      while r != Null && next[r] != node
        invariant 0 <= i <= |xs| && (if i == |xs| then r == Null else r == xs[i])
        invariant forall j :: 0 <= j < i ==> next[xs[j]] != node
        decreases |xs| - i
      {
        r := next[r];
        i := i + 1;
      }
    }

    /**
     * `slist_splice_after(pos, before_first, before_last)`: unless pos is before_first or
     * before_last, the nodes after before_first up to before_last move to just after pos.
     */
    method SpliceAfter(pos: int, beforeFirst: int, beforeLast: int)
      requires Valid() && 0 <= pos < |next| && 0 <= beforeFirst < |next| && 0 <= beforeLast < |next|
      modifies this
      ensures Valid() && data == old(data)
      ensures pos == beforeFirst || pos == beforeLast ==> next == old(next)
      ensures pos != beforeFirst && pos != beforeLast ==>
                next == old(next)[beforeFirst := old(next)[beforeLast]][pos := old(next)[beforeFirst]][beforeLast := old(next)[pos]]
    {
      if pos != beforeFirst && pos != beforeLast {
        var first := next[beforeFirst];
        var after := next[pos];
        next := next[beforeFirst := next[beforeLast]];
        next := next[pos := first];
        next := next[beforeLast := after];
      }
    }

    /**
     * `slist_reverse(node)`: the chain xs from node to null is relinked backwards; the old last
     * node is returned and the old first node now links to null. Nothing else changes.
     */
    method Reverse(node: int, ghost xs: seq<int>) returns (r: int)
      requires Valid() && Path(next, xs, Null) && xs != [] && node == xs[0]
      modifies this
      ensures Valid() && data == old(data)
      ensures r == xs[|xs| - 1] && Path(next, Reversed(xs), Null)
      ensures OnlyChanged(old(next), next, set i | 0 <= i < |xs| :: xs[i])
    {
      ghost var next0 := next;
      r := node;
      var p := next[node];
      next := next[r := Null];
      ghost var i := 1;
      ReverseStart(next0, xs);
      while p != Null
        invariant Valid() && data == old(data) && ReverseState(next0, next, xs, i, r, p)
        decreases |xs| - i
      {
        ReverseAdvance(next0, next, xs, i, r, p);
        var nx := next[p];
        next := next[p := r];
        r, p := p, nx;
        i := i + 1;
      }
      assert xs[..|xs|] == xs;
    }

    /** `slist_iterator::incr` on a node of the arena: its successor. */
    function Incr(node: int): (r: int)
      reads this
      requires Valid() && 0 <= node < |next|
      ensures r == Null || 0 <= r < |next|
    {
      next[node]
    }

    /**
     * `create_node(args)`: a new node holding value with a null successor; when constructing
     * the value throws (`constructs` false) the node is freed again and the arena is as before.
     */
    method CreateNode(value: T, constructs: bool) returns (r: Result<int>)
      requires Valid()
      modifies this
      ensures Valid()
      ensures !constructs ==> r == Fail(ConstructionFailed) && next == old(next) && data == old(data)
      ensures constructs ==> r == Ok(|old(next)|) && next == old(next) + [Null] && data == old(data) + [value]
    {
      if !constructs {
        return Fail(ConstructionFailed);
      }
      next := next + [Null];
      data := data + [value];
      r := Ok(|next| - 1);
    }
  }

  /**
   * `slist_make_link` inserts: if prev links to the path rest and new_node is on neither,
   * afterwards [prev, new_node] + rest is a path to the same end.
   */
  lemma MakeLinkInserts(next: seq<int>, prev: int, newNode: int, rest: seq<int>, end: int)
    requires Path(next, rest, end) && 0 <= prev < |next| && prev !in rest
    requires next[prev] == if rest == [] then end else rest[0]
    requires 0 <= newNode < |next| && newNode != prev && newNode !in rest
    ensures Path(next[newNode := next[prev]][prev := newNode], [prev, newNode] + rest, end)
  {
    var next' := next[newNode := next[prev]][prev := newNode];
    PathFrame(next, next', rest, end);
    PathCons(next', newNode, rest, end);
    PathCons(next', prev, [newNode] + rest, end);
    assert [prev] + ([newNode] + rest) == [prev, newNode] + rest;
  }

  /** A node not on path xs that links to its start, or to its end when xs is empty, extends it at the front. */
  lemma PathCons(next: seq<int>, x: int, xs: seq<int>, end: int)
    requires Path(next, xs, end) && 0 <= x < |next| && x !in xs
    requires next[x] == if xs == [] then end else xs[0]
    ensures Path(next, [x] + xs, end)
  {
    var ys := [x] + xs;
    assert forall i :: 1 <= i < |ys| ==> ys[i] == xs[i - 1];
  }

  /** Along a path, the successor of its node i is node i + 1, or the path's end after the last node. */
  lemma PathSucc(next: seq<int>, xs: seq<int>, end: int, i: nat)
    requires Path(next, xs, end) && i < |xs|
    ensures next[xs[i]] == if i + 1 < |xs| then xs[i + 1] else end
  {
  }

  /**
   * The reversal after i nodes: the first i nodes of xs, reversed, form a path ending at null,
   * r is node i - 1, p is node i (null past the end) and the other links are as in next0.
   */
  ghost predicate ReverseState(next0: seq<int>, next: seq<int>, xs: seq<int>, i: int, r: int, p: int)
  {
    1 <= i <= |xs| && Linked(next) && (if i == |xs| then p == Null else p == xs[i]) &&
    r == xs[i - 1] && Path(next, Reversed(xs[..i]), Null) &&
    (forall j :: i <= j < |xs| ==> 0 <= xs[j] < |next| == |next0| && next[xs[j]] == next0[xs[j]]) &&
    OnlyChanged(next0, next, set k | 0 <= k < |xs| :: xs[k])
  }

  /** Cutting the first node of xs off from its successor starts the reversal. */
  lemma ReverseStart(next0: seq<int>, xs: seq<int>)
    requires Linked(next0) && Path(next0, xs, Null) && xs != []
    ensures ReverseState(next0, next0[xs[0] := Null], xs, 1, xs[0], next0[xs[0]])
  {
    assert xs[..1] == [xs[0]];
  }

  /** Relinking node p = xs[i] to r = xs[i - 1] advances the reversal by one node. */
  lemma ReverseAdvance(next0: seq<int>, next: seq<int>, xs: seq<int>, i: int, r: int, p: int)
    requires Path(next0, xs, Null) && ReverseState(next0, next, xs, i, r, p) && p != Null
    ensures 0 <= p < |next|
    ensures ReverseState(next0, next[p := r], xs, i + 1, p, next[p])
  {
    ReverseStep(next, xs, i);
  }

  /** One step of the reversal loop: relinking node xs[i] to xs[i - 1] extends the reversed prefix. */
  lemma ReverseStep(next: seq<int>, xs: seq<int>, i: nat)
    requires 1 <= i < |xs| && Path(next, Reversed(xs[..i]), Null)
    requires forall k :: 0 <= k < |xs| ==> 0 <= xs[k] < |next|
    requires forall j, k :: 0 <= j < k < |xs| ==> xs[j] != xs[k]
    ensures Path(next[xs[i] := xs[i - 1]], Reversed(xs[..i + 1]), Null)
  {
    var rv := Reversed(xs[..i + 1]);
    assert rv == [xs[i]] + Reversed(xs[..i]);
  }

  /**
   * `slist_splice_after` moves the segment s = (before_first, before_last] after pos in its
   * order: before_first then links to before_last's old successor, and pos, s, then pos's old
   * successor form a path.
   */
  lemma SpliceMoves(next: seq<int>, pos: int, bf: int, s: seq<int>, after: int)
    requires Path(next, s, after) && s != [] && 0 <= bf < |next| && next[bf] == s[0] && bf !in s
    requires 0 <= pos < |next| && pos != bf && pos !in s
    ensures var bl := s[|s| - 1];
            var next' := next[bf := next[bl]][pos := next[bf]][bl := next[pos]];
            next'[bf] == after && Path(next', [pos] + s, next[pos])
  {
    var bl := s[|s| - 1];
    var next' := next[bf := next[bl]][pos := next[bf]][bl := next[pos]];
    assert forall i :: 0 <= i < |s| - 1 ==> next'[s[i]] == next[s[i]];
    assert forall i :: 0 < i < |s| + 1 ==> ([pos] + s)[i] == s[i - 1];
  }
}
