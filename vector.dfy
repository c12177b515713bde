/**
 * `vector<T>`: a growable buffer described by three pointers. `start` is slot 0 of `buf`,
 * `finish` is the index one past the last value, and `end_of_storage` is `buf.Length`.
 */
module Vector {
  import opened Wrappers
  import Algobase

  /** n copies of v. */
  function Repeat<T>(v: T, n: nat): (r: seq<T>)
    ensures |r| == n && forall i :: 0 <= i < n ==> r[i] == v
  {
    if n == 0 then [] else [v] + Repeat(v, n - 1)
  }

  /** The values of s with xs inserted in front of position pos. */
  function InsertAt<T>(s: seq<T>, pos: nat, xs: seq<T>): (r: seq<T>)
    requires pos <= |s|
    ensures |r| == |s| + |xs|
    ensures r[..pos] == s[..pos] && r[pos..pos + |xs|] == xs && r[pos + |xs|..] == s[pos..]
  {
    s[..pos] + xs + s[pos..]
  }

  /** The values of s without those in [first, last). */
  function EraseAt<T>(s: seq<T>, first: nat, last: nat): (r: seq<T>)
    requires first <= last <= |s|
    ensures |r| == |s| - (last - first)
    ensures r[..first] == s[..first] && r[first..] == s[last..]
  {
    s[..first] + s[last..]
  }

  /** Erasing what was just inserted gives back the original values. */
  lemma EraseUndoesInsert<T>(s: seq<T>, pos: nat, xs: seq<T>)
    requires pos <= |s|
    ensures EraseAt(InsertAt(s, pos, xs), pos, pos + |xs|) == s
  {
    var t := InsertAt(s, pos, xs);
    assert t[..pos] + t[pos + |xs|..] == s[..pos] + s[pos..];
    assert s == s[..pos] + s[pos..];
  }

  /** Inserting at the end appends. */
  lemma InsertAtEnd<T>(s: seq<T>, xs: seq<T>)
    ensures InsertAt(s, |s|, xs) == s + xs
  {
    assert s[..|s|] == s && s[|s|..] == [];
  }

  /** Erasing the tail from n truncates to the first n values. */
  lemma EraseTail<T>(s: seq<T>, n: nat)
    requires n <= |s|
    ensures EraseAt(s, n, |s|) == s[..n]
  {
    assert s[|s|..] == [];
  }

  /** A sequence is its three parts cut at i and j. */
  lemma SplitAt3<T>(s: seq<T>, i: nat, j: nat)
    requires i <= j <= |s|
    ensures s == s[..i] + s[i..j] + s[j..]
  {
  }

  /** b with ys written over it from index i: what `copy` and `fill` do to a whole array. */
  function Splice<T>(b: seq<T>, i: nat, ys: seq<T>): (r: seq<T>)
    requires i + |ys| <= |b|
    ensures |r| == |b|
  {
    b[..i] + ys + b[i + |ys|..]
  }

  /** Slot k of a splice: from ys inside [i, i + |ys|), from b elsewhere. */
  lemma SpliceAt<T>(b: seq<T>, i: nat, ys: seq<T>, k: nat)
    requires i + |ys| <= |b| && k < |b|
    ensures Splice(b, i, ys)[k] == if i <= k < i + |ys| then ys[k - i] else b[k]
  {
  }

  /** Slot k of xs inserted at pos into s. */
  lemma InsertAtAt<T>(s: seq<T>, pos: nat, xs: seq<T>, k: nat)
    requires pos <= |s| && k < |s| + |xs|
    ensures InsertAt(s, pos, xs)[k] == if k < pos then s[k] else if k < pos + |xs| then xs[k - pos] else s[k - |xs|]
  {
  }

  /** n copies of v cut at e: e copies, then n - e copies. */
  /** The two parts of s[i..j] cut at m, e = m - i slots in. */
  lemma SliceSplit<T>(s: seq<T>, i: nat, m: nat, j: nat, e: nat)
    requires i <= m <= j <= |s| && e == m - i
    ensures s[i..m] == s[i..j][..e] && s[m..j] == s[i..j][e..]
  {
  }

  lemma RepeatParts<T>(v: T, n: nat, e: nat)
    requires e <= n
    ensures Repeat(v, n)[..e] == Repeat(v, e) && Repeat(v, n)[e..] == Repeat(v, n - e)
  {
  }

  /**
   * `insert_aux` with spare room, below f0 values: the last value is copied into slot f0 (b1),
   * the values from pos up to the old last one are copied up by one, ending at f0 (b2), and v
   * is written at pos (b3).
   */
  lemma Shifted<T>(b0: seq<T>, b1: seq<T>, b2: seq<T>, b3: seq<T>, f0: nat, f1: nat, pos: nat, l: nat, w: nat,
                   v: T)
    requires pos < f0 < |b0| && f1 == f0 + 1 && l == f0 - 1 && w == pos + 1
    requires b1 == b0[f0 := b0[f0 - 1]] && b2 == Splice(b1, w, b1[pos..l]) && b3 == b2[pos := v]
    ensures b3[..f1] == InsertAt(b0[..f0], pos, [v])
  {
    var r := InsertAt(b0[..f0], pos, [v]);
    forall k | 0 <= k < f1
      ensures b3[k] == r[k]
    {
      InsertAtAt(b0[..f0], pos, [v], k);
      SpliceAt(b1, w, b1[pos..l], k);
    }
  }

  /**
   * The in-place insertion of ys at pos when more than n = |ys| of the f0 values follow pos: the
   * last n values are copied into the spare room (b1), the rest from pos are copied backward so
   * that they start at w = pos + n (b2), and ys is written into the gap at pos (b3).
   */
  lemma LongTail<T>(b0: seq<T>, b1: seq<T>, b2: seq<T>, b3: seq<T>, f0: nat, f1: nat, pos: nat, n: nat, l: nat,
                    w: nat, ys: seq<T>)
    requires 0 < n == |ys| && pos + n < f0 && f1 == f0 + n <= |b0| && l == f0 - n && w == pos + n
    requires b1 == Splice(b0, f0, b0[l..f0]) && b2 == Splice(b1, w, b1[pos..l])
    requires b3 == Splice(b2, pos, ys)
    ensures b3[..f1] == InsertAt(b0[..f0], pos, ys)
  {
    var r := InsertAt(b0[..f0], pos, ys);
    forall k | 0 <= k < f1
      ensures b3[k] == r[k]
    {
      InsertAtAt(b0[..f0], pos, ys, k);
      SpliceAt(b2, pos, ys, k);
      SpliceAt(b1, w, b1[pos..l], k);
      SpliceAt(b0, f0, b0[l..f0], k);
      if w <= k < f0 {
        SpliceAt(b0, f0, b0[l..f0], k - n);
      }
    }
  }

  /**
   * The in-place insertion of ys at pos when e = f0 - pos <= |ys| values follow pos: ys[e..]
   * goes into the spare room at f0 (b1), the values from pos follow it at w = pos + |ys| (b2),
   * and ys[..e] is written over pos (b3).
   */
  lemma ShortTail<T>(b0: seq<T>, b1: seq<T>, b2: seq<T>, b3: seq<T>, f0: nat, f1: nat, pos: nat, e: nat,
                     w: nat, ys: seq<T>, y0: seq<T>, y1: seq<T>)
    requires e == f0 - pos && pos <= f0 && e <= |ys| && f1 == f0 + |ys| <= |b0| && w == pos + |ys|
    requires y0 == ys[..e] && y1 == ys[e..]
    requires b1 == Splice(b0, f0, y1) && b2 == Splice(b1, w, b1[pos..f0]) && b3 == Splice(b2, pos, y0)
    ensures b3[..f1] == InsertAt(b0[..f0], pos, ys)
  {
    var r := InsertAt(b0[..f0], pos, ys);
    forall k | 0 <= k < f1
      ensures b3[k] == r[k]
    {
      InsertAtAt(b0[..f0], pos, ys, k);
      SpliceAt(b2, pos, y0, k);
      SpliceAt(b1, w, b1[pos..f0], k);
      SpliceAt(b0, f0, y1, k);
      if w <= k {
        SpliceAt(b0, f0, y1, k - |ys|);
      }
    }
  }

  /**
   * Building a new buffer nb from b0's first f0 values with ys inserted at pos: the values
   * before pos are copied (nb1), then ys at v = pos (nb2), then the values from pos at
   * w = pos + |ys|.
   */
  lemma Regrown<T>(b0: seq<T>, nb0: seq<T>, nb1: seq<T>, nb2: seq<T>, nb3: seq<T>, f0: nat, f1: nat, pos: nat,
                   v: nat, w: nat, ys: seq<T>)
    requires pos <= f0 <= |b0| && f1 == f0 + |ys| <= |nb0| && v == pos && w == pos + |ys|
    requires nb1 == Splice(nb0, 0, b0[0..pos]) && nb2 == Splice(nb1, v, ys) && nb3 == Splice(nb2, w, b0[pos..f0])
    ensures nb3[..f1] == InsertAt(b0[..f0], pos, ys)
  {
    var r := InsertAt(b0[..f0], pos, ys);
    forall k | 0 <= k < f1
      ensures nb3[k] == r[k]
    {
      InsertAtAt(b0[..f0], pos, ys, k);
      SpliceAt(nb2, w, b0[pos..f0], k);
      SpliceAt(nb1, v, ys, k);
      SpliceAt(nb0, 0, b0[0..pos], k);
    }
  }

  /** `copy(first, last, result)`, its effect on dst stated as one splice of the source range. */
  method CopyTo<T>(src: array<T>, first: nat, last: nat, dst: array<T>, result: nat) returns (r: nat)
    requires first <= last <= src.Length && result + (last - first) <= dst.Length
    requires src != dst || result <= first || last <= result
    modifies dst
    ensures r == result + (last - first)
    ensures dst[..] == Splice(old(dst[..]), result, old(src[..])[first..last])
    ensures src != dst ==> src[..] == old(src[..])
  {
    ghost var d0, xs := dst[..], src[..][first..last];
    var x := Algobase.Copy(src, first, last, dst, result);
    r := x;
    forall k | 0 <= k < dst.Length
      ensures dst[k] == Splice(d0, result, xs)[k]
    {
      SpliceAt(d0, result, xs, k);
      if result <= k < r {
        assert dst[k] == dst[result..r][k - result];
      }
    }
    assert dst[..] == Splice(d0, result, xs);
  }

  /** `copy_backward(first, last, result)`, as one splice ending at result. */
  method CopyBackTo<T>(src: array<T>, first: nat, last: nat, dst: array<T>, result: nat) returns (r: nat)
    requires first <= last <= src.Length && last - first <= result <= dst.Length
    requires src != dst || result <= first || last <= result
    modifies dst
    ensures r == result - (last - first)
    ensures dst[..] == Splice(old(dst[..]), r, old(src[..])[first..last])
  {
    ghost var d0, xs := dst[..], src[..][first..last];
    var x := Algobase.CopyBackward(src, first, last, dst, result);
    r := x;
    forall k | 0 <= k < dst.Length
      ensures dst[k] == Splice(d0, r, xs)[k]
    {
      SpliceAt(d0, r, xs, k);
      if r <= k < result {
        assert dst[k] == dst[r..result][k - r];
      }
    }
    assert dst[..] == Splice(d0, r, xs);
  }

  /** `fill_n(first, count, value)`, as one splice of count copies of value. */
  method FillTo<T>(a: array<T>, first: nat, count: nat, value: T)
    requires first + count <= a.Length
    modifies a
    ensures a[..] == Splice(old(a[..]), first, Repeat(value, count))
  {
    ghost var a0 := a[..];
    Fill(a, first, first + count, value);
    forall k | 0 <= k < a.Length
      ensures a[k] == Splice(a0, first, Repeat(value, count))[k]
    {
      SpliceAt(a0, first, Repeat(value, count), k);
    }
    assert a[..] == Splice(a0, first, Repeat(value, count));
  }

  /**
   * The in-place step of `insert_aux`: the last value is copied one slot up into the spare room,
   * the values from pos copied backward behind it, and value written at pos.
   */
  method ShiftOne<T>(a: array<T>, f0: nat, pos: nat, value: T)
    requires pos < f0 < a.Length
    modifies a
    ensures a[..f0 + 1] == InsertAt(old(a[..f0]), pos, [value])
  {
    ghost var b0 := a[..];
    a[f0] := a[f0 - 1];
    ghost var b1 := a[..];
    var w := CopyBackTo(a, pos, f0 - 1, a, f0);
    ghost var b2 := a[..];
    a[pos] := value;
    Shifted(b0, b1, b2, a[..], f0, f0 + 1, pos, f0 - 1, w, value);
  }

  /**
   * The in-place `fill_insert` with more than n values after pos: the last n values are copied
   * into the spare room, the rest from pos copied backward to end at f0, and the gap filled.
   */
  method FillLong<T>(a: array<T>, f0: nat, pos: nat, n: nat, value: T)
    requires 0 < n && pos + n < f0 && f0 + n <= a.Length
    modifies a
    ensures a[..f0 + n] == InsertAt(old(a[..f0]), pos, Repeat(value, n))
  {
    ghost var b0 := a[..];
    var l, f1 := f0 - n, f0 + n;
    var _ := CopyTo(a, l, f0, a, f0);
    ghost var b1 := a[..];
    var w := CopyBackTo(a, pos, l, a, f0);
    ghost var b2 := a[..];
    FillTo(a, pos, n, value);
    LongTail(b0, b1, b2, a[..], f0, f1, pos, n, l, w, Repeat(value, n));
  }

  /**
   * The in-place `fill_insert` with at most n values after pos: the copies beyond them go into
   * the spare room, the values from pos follow, and the rest of the copies overwrite them.
   */
  method FillShort<T>(a: array<T>, f0: nat, pos: nat, n: nat, value: T)
    requires pos <= f0 && f0 - pos <= n && f0 + n <= a.Length
    modifies a
    ensures a[..f0 + n] == InsertAt(old(a[..f0]), pos, Repeat(value, n))
  {
    ghost var b0 := a[..];
    var e, f1 := f0 - pos, f0 + n;
    var m := n - e;
    var g := f0 + m;
    FillTo(a, f0, m, value);
    ghost var b1 := a[..];
    var _ := CopyTo(a, pos, f0, a, g);
    ghost var b2 := a[..];
    FillTo(a, pos, e, value);
    RepeatParts(value, n, e);
    ShortTail(b0, b1, b2, a[..], f0, f1, pos, e, g, Repeat(value, n), Repeat(value, e), Repeat(value, m));
  }

  /**
   * The in-place `range_insert` with more than n = last - first values after pos: as `FillLong`,
   * with src[first..last) copied into the gap.
   */
  method RangeLong<T>(a: array<T>, f0: nat, pos: nat, src: array<T>, first: nat, last: nat)
    requires src != a && first < last <= src.Length && pos + (last - first) < f0 && f0 + (last - first) <= a.Length
    modifies a
    ensures a[..f0 + (last - first)] == InsertAt(old(a[..f0]), pos, src[first..last])
  {
    ghost var b0, xs := a[..], src[..][first..last];
    var n := last - first;
    var l, f1 := f0 - n, f0 + n;
    var _ := CopyTo(a, l, f0, a, f0);
    ghost var b1 := a[..];
    var w := CopyBackTo(a, pos, l, a, f0);
    ghost var b2 := a[..];
    var _ := CopyTo(src, first, last, a, pos);
    LongTail(b0, b1, b2, a[..], f0, f1, pos, n, l, w, xs);
  }

  /**
   * The in-place `range_insert` with at most n = last - first values after pos: the part of the
   * range beyond them goes into the spare room, the values from pos follow, and the front of
   * the range is copied over pos.
   */
  method RangeShort<T>(a: array<T>, f0: nat, pos: nat, src: array<T>, first: nat, last: nat)
    requires src != a && first < last <= src.Length && pos <= f0 && f0 - pos <= last - first
    requires f0 + (last - first) <= a.Length
    modifies a
    ensures a[..f0 + (last - first)] == InsertAt(old(a[..f0]), pos, src[first..last])
  {
    ghost var b0, sa := a[..], src[..];
    ghost var xs := sa[first..last];
    var e, f1 := f0 - pos, f0 + (last - first);
    var mid := first + e;
    var f := CopyTo(src, mid, last, a, f0);
    ghost var b1 := a[..];
    var _ := CopyTo(a, pos, f0, a, f);
    ghost var b2 := a[..];
    var _ := CopyTo(src, first, mid, a, pos);
    SliceSplit(sa, first, mid, last, e);
    ShortTail(b0, b1, b2, a[..], f0, f1, pos, e, f, xs, sa[first..mid], sa[mid..last]);
  }

  /** `fill(first, last, value)` (and `uninitialized_fill_n`): sets exactly a[first..last) to value. */
  method Fill<T>(a: array<T>, first: int, last: int, value: T)
    requires 0 <= first <= last <= a.Length
    modifies a
    ensures forall k :: first <= k < last ==> a[k] == value
    ensures forall k :: 0 <= k < a.Length && !(first <= k < last) ==> a[k] == old(a[k])
  {
    var f := first;
    while f != last
      invariant first <= f <= last
      invariant forall k :: first <= k < f ==> a[k] == value
      invariant forall k :: 0 <= k < a.Length && !(first <= k < f) ==> a[k] == old(a[k])
    {
      a[f] := value;
      f := f + 1;
    }
  }

  /** The three pointers of a vector, as addresses: `start`, `finish`, `end_of_storage`. */
  datatype Storage = Storage(start: int, finish: int, endOfStorage: int)

  /**
   * `try_init()` as evidently intended: the 16-slot block allocated at `block` becomes an empty
   * buffer, so the vector holds nothing and has room for 16.
   */
  function TryInit(block: int): (p: Storage)
    ensures p.start == block && p.finish - p.start == 0 && p.endOfStorage - p.start == 16
  {
    Storage(block, block, block + 16)
  }

  /**
   * `try_init()` as written: after allocating the block at `block` it assigns `start = finish`,
   * where `finish` still holds the indeterminate value `junk`, and never sets `finish`. The
   * result is the intended one only when `junk` happens to equal the block's address.
   */
  function TryInitAsWritten(block: int, junk: int): (p: Storage)
    ensures p.start == junk && p.finish == junk && p.endOfStorage == junk + 16
    ensures p == TryInit(block) <==> junk == block
  {
    Storage(junk, junk, junk + 16)
  }

  /**
   * With the block at address 4096 and `finish` holding 0, the as-written `try_init` loses the
   * block: start is the null pointer, yet capacity() reads 16, so the first `push_back` writes
   * through null.
   */
  lemma TryInitAsWrittenLosesBlock()
    ensures TryInitAsWritten(4096, 0).start == 0
    ensures TryInitAsWritten(4096, 0).endOfStorage - TryInitAsWritten(4096, 0).start == 16
    ensures TryInitAsWritten(4096, 0) != TryInit(4096)
  {
  }

  /** The largest value of a 64-bit `size_t`. */
  const SizeMax: nat := 0xFFFF_FFFF_FFFF_FFFF

  class Vector<T(0)> {
    var buf: array<T>
    var finish: nat
    /** `sizeof(T)`, which `max_size()` divides into the largest `size_t`. */
    const elemSize: nat

    /** `start <= finish <= end_of_storage`. */
    ghost predicate Valid()
      reads this
    {
      finish <= buf.Length && elemSize > 0
    }

    /** The values held: [start, finish). */
    ghost function Contents(): (r: seq<T>)
      reads this, buf
      requires Valid()
      ensures |r| == finish
    {
      buf[..finish]
    }

    /** `size()`: finish - start. */
    function Size(): (r: nat)
      reads this
      requires Valid()
      ensures r == |buf[..finish]|
    {
      finish
    }

    /** `capacity()`: end_of_storage - start. */
    function Capacity(): (r: nat)
      reads this
      requires Valid()
      ensures Size() <= r
    {
      buf.Length
    }

    /** `empty()`: start == finish. */
    function Empty(): (r: bool)
      reads this
      requires Valid()
      ensures r <==> Size() == 0
    {
      finish == 0
    }

    /** `max_size()`: the largest `size_t` divided by `sizeof(T)`. */
    function MaxSize(): (r: nat)
      requires elemSize > 0
      ensures r * elemSize <= SizeMax < (r + 1) * elemSize
    {
      SizeMax / elemSize
    }

    /**
     * `vector()` via `try_init` as evidently intended (`TryInit`): an empty buffer with room for
     * 16 values. The source's `try_init` loses the block it allocates (`TryInitAsWritten`).
     */
    constructor (elemSize: nat)
      requires elemSize > 0
      ensures Valid() && fresh(buf)
      ensures Contents() == [] && Capacity() == 16 && this.elemSize == elemSize
    {
      this.elemSize := elemSize;
      buf := new T[16];
      finish := 0;
    }

    /** `vector(n, value)` via `fill_initialize`: n copies of value, room for max(16, n). */
    constructor Filled(elemSize: nat, n: nat, value: T)
      requires elemSize > 0
      ensures Valid() && fresh(buf)
      ensures Contents() == Repeat(value, n) && Capacity() == if n < 16 then 16 else n
      ensures this.elemSize == elemSize
    {
      this.elemSize := elemSize;
      var a := new T[if n < 16 then 16 else n];
      Fill(a, 0, n, value);
      buf := a;
      finish := n;
      new;
      assert Contents() == Repeat(value, n);
    }

    /** `operator[](n)`: the value at n, which the caller keeps below size(). */
    function Get(n: nat): (r: T)
      reads this, buf
      requires Valid() && n < Size()
      ensures r == Contents()[n]
    {
      buf[n]
    }

    /**
     * `at(n)`: the value at n, or an out_of_range error exactly when n >= size(). The source
     * throws through `THROW_OUT_OF_RANGE_IF`, a macro no header defines, so it does not compile;
     * the model takes the macro's evident meaning.
     */
    function At(n: nat): (r: Result<T>)
      reads this, buf
      requires Valid()
      ensures r.Fail? <==> n >= Size()
      ensures r.Fail? ==> r.error == OutOfRange
      ensures r.Ok? ==> r.value == Contents()[n]
    {
      if !(n < finish) then Fail(OutOfRange) else Ok(buf[n])
    }

    /** `front()`, on a non-empty vector. */
    function Front(): (r: T)
      reads this, buf
      requires Valid() && !Empty()
      ensures r == Contents()[0]
    {
      buf[0]
    }

    /** `back()`, on a non-empty vector. */
    function Back(): (r: T)
      reads this, buf
      requires Valid() && !Empty()
      ensures r == Contents()[Size() - 1]
    {
      buf[finish - 1]
    }

    /**
     * `insert_aux(position, value)`: with spare room, the last value is copied one slot up, the
     * values from `position` are shifted up by one and `value` is written at `position`; on a full
     * buffer the values move to a new buffer of twice the old size (1 when empty) with `value`
     * between the two halves. With spare room the callers only use it below `finish`.
     */
    method InsertAux(pos: nat, value: T)
      requires Valid() && pos <= Size() && (finish == buf.Length || pos < finish)
      modifies this, buf
      ensures Valid()
      ensures Contents() == InsertAt(old(Contents()), pos, [value])
      ensures old(finish) != old(buf.Length) ==> buf == old(buf)
      ensures old(finish) == old(buf.Length) ==>
        fresh(buf) && Capacity() == if old(Size()) != 0 then 2 * old(Size()) else 1
    {
      if finish != buf.Length {
        ShiftInsert(pos, value);
      } else {
        GrowInsert(pos, value);
      }
    }

    /**
     * `insert_aux` with spare room: the last value is copied into the first free slot, the values
     * from pos move up by one and value is written at pos.
     */
    method ShiftInsert(pos: nat, value: T)
      requires Valid() && pos < Size() < buf.Length
      modifies this, buf
      ensures Valid() && buf == old(buf)
      ensures Contents() == InsertAt(old(Contents()), pos, [value])
    {
      ShiftOne(buf, finish, pos, value);
      finish := finish + 1;
    }

    /**
     * `insert_aux` on a full buffer: the values move to a new buffer of twice the old size (1 when
     * empty) with value between the values before pos and those from pos.
     */
    method GrowInsert(pos: nat, value: T)
      requires Valid() && pos <= Size() == buf.Length
      modifies this
      ensures Valid() && fresh(buf)
      ensures Contents() == InsertAt(old(Contents()), pos, [value])
      ensures Capacity() == if old(Size()) != 0 then 2 * old(Size()) else 1
    {
      ghost var s := Contents();
      var oldSize := finish;
      var len := if oldSize != 0 then 2 * oldSize else 1;
      var newStart := new T[len];
      var newFinish := Algobase.Copy(buf, 0, pos, newStart, 0);
      newStart[newFinish] := value;
      newFinish := newFinish + 1;
      newFinish := Algobase.Copy(buf, pos, finish, newStart, newFinish);
      assert newStart[..newFinish] == InsertAt(s, pos, [value]) by {
        assert newStart[..pos] == s[..pos];
        assert newStart[pos + 1..newFinish] == s[pos..];
      }
      buf := newStart;
      finish := newFinish;
    }

    /** `push_back(value)` (and `emplace_back`): appends in place with spare room, else via insert_aux. */
    method PushBack(value: T)
      requires Valid()
      modifies this, buf
      ensures Valid()
      ensures Contents() == old(Contents()) + [value]
      ensures old(finish) != old(buf.Length) ==> buf == old(buf)
      ensures old(finish) == old(buf.Length) ==>
        fresh(buf) && Capacity() == if old(Size()) != 0 then 2 * old(Size()) else 1
    {
      ghost var s := Contents();
      if finish != buf.Length {
        buf[finish] := value;
        finish := finish + 1;
      } else {
        InsertAux(finish, value);
        InsertAtEnd(s, [value]);
      }
    }

    /** `pop_back()`, on a non-empty vector: drops the last value and keeps the buffer. */
    method PopBack()
      requires Valid() && !Empty()
      modifies this
      ensures Valid() && buf == old(buf)
      ensures Contents() == old(Contents())[..old(Size()) - 1]
    {
      finish := finish - 1;
    }

    /**
     * `insert(pos, value)` as written: at the end with spare room the value is constructed at
     * `finish`, but `finish` is never advanced, so the vector does not change.
     */
    method InsertAsWritten(pos: nat, value: T) returns (r: nat)
      requires Valid() && pos <= Size()
      modifies this, buf
      ensures Valid() && r == pos
      ensures old(finish) != old(buf.Length) && pos == old(Size()) ==> Contents() == old(Contents())
      ensures !(old(finish) != old(buf.Length) && pos == old(Size())) ==>
        Contents() == InsertAt(old(Contents()), pos, [value])
    {
      var n := pos;
      if finish != buf.Length && pos == finish {
        buf[finish] := value;
      } else {
        InsertAux(pos, value);
      }
      r := n;
    }

    /**
     * `insert(pos, value)` and `emplace(pos, value)`: value ends up at index pos, in place with spare
     * room at the end, else via insert_aux; returns the index pos.
     */
    method Insert(pos: nat, value: T) returns (r: nat)
      requires Valid() && pos <= Size()
      modifies this, buf
      ensures Valid() && r == pos
      ensures Contents() == InsertAt(old(Contents()), pos, [value])
    {
      ghost var s := Contents();
      var n := pos;
      if finish != buf.Length && pos == finish {
        buf[finish] := value;
        finish := finish + 1;
        InsertAtEnd(s, [value]);
      } else {
        InsertAux(pos, value);
      }
      r := n;
    }

    /**
     * `insert(pos, n, value)`: n copies of value in front of pos. With room for n more it works in
     * place, in two ways according to whether more than n values follow pos; otherwise it moves to
     * a new buffer of old_size + max(old_size, n).
     */
    method InsertFill(pos: nat, n: nat, value: T)
      requires Valid() && pos <= Size()
      modifies this, buf
      ensures Valid()
      ensures Contents() == InsertAt(old(Contents()), pos, Repeat(value, n))
      ensures n == 0 || old(buf.Length - finish) >= n ==> buf == old(buf)
      ensures n != 0 && old(buf.Length - finish) < n ==>
        fresh(buf) && Capacity() == old(Size()) + Algobase.Max((x: int, y: int) => x < y, old(Size()), n)
    {
      ghost var s := Contents();
      if n != 0 {
        if buf.Length - finish >= n {
          InsertFillInPlace(pos, n, value);
        } else {
          GrowFill(pos, n, value);
        }
      } else {
        assert InsertAt(s, pos, Repeat(value, n)) == s;
      }
    }

    /**
     * `insert(pos, n, value)` without room for n more: the values move to a new buffer of
     * old_size + max(old_size, n) with n copies of value between the two halves.
     */
    method GrowFill(pos: nat, n: nat, value: T)
      requires Valid() && pos <= Size() && buf.Length - finish < n
      modifies this
      ensures Valid() && fresh(buf)
      ensures Contents() == InsertAt(old(Contents()), pos, Repeat(value, n))
      ensures Capacity() == old(Size()) + Algobase.Max((x: int, y: int) => x < y, old(Size()), n)
    {
      var oldSize := finish;
      var len := oldSize + Algobase.Max((x: int, y: int) => x < y, oldSize, n);
      var newStart := new T[len];
      ghost var b0, nb0 := buf[..], newStart[..];
      var newFinish := CopyTo(buf, 0, pos, newStart, 0);
      ghost var nb1, v := newStart[..], newFinish;
      FillTo(newStart, newFinish, n, value);
      ghost var nb2 := newStart[..];
      assert buf[..] == b0;
      newFinish := newFinish + n;
      ghost var w := newFinish;
      newFinish := CopyTo(buf, pos, finish, newStart, newFinish);
      Regrown(b0, nb0, nb1, nb2, newStart[..], oldSize, newFinish, pos, v, w, Repeat(value, n));
      buf := newStart;
      finish := newFinish;
    }


    /** The in-place half of `insert(pos, n, value)`, for n > 0 with room for n more values. */
    method InsertFillInPlace(pos: nat, n: nat, value: T)
      requires Valid() && pos <= Size() && 0 < n <= buf.Length - finish
      modifies this, buf
      ensures Valid() && buf == old(buf)
      ensures Contents() == InsertAt(old(Contents()), pos, Repeat(value, n))
    {
      var elemsAfter := finish - pos;
      if elemsAfter > n {
        FillLongTail(pos, n, value);
      } else {
        FillShortTail(pos, n, value);
      }
    }

    /**
     * In place, more than n values after pos: the last n values are copied into the spare room,
     * the rest from pos are copied backward to end at the old finish, and the gap is filled.
     */
    method FillLongTail(pos: nat, n: nat, value: T)
      requires Valid() && pos + n < Size() && 0 < n <= buf.Length - finish
      modifies this, buf
      ensures Valid() && buf == old(buf)
      ensures Contents() == InsertAt(old(Contents()), pos, Repeat(value, n))
    {
      FillLong(buf, finish, pos, n, value);
      finish := finish + n;
    }

    /**
     * In place, at most n values after pos: the copies of value beyond them go into the spare
     * room, the values from pos follow, and the rest of the copies overwrite them at pos.
     */
    method FillShortTail(pos: nat, n: nat, value: T)
      requires Valid() && pos <= Size() && Size() - pos <= n <= buf.Length - finish
      modifies this, buf
      ensures Valid() && buf == old(buf)
      ensures Contents() == InsertAt(old(Contents()), pos, Repeat(value, n))
    {
      FillShort(buf, finish, pos, n, value);
      finish := finish + n;
    }

    /**
     * `range_insert(position, first, last)` (the `insert` of an iterator range): the values of
     * src[first..last) in front of pos, with the same two in-place cases and the same growth rule as
     * `insert(pos, n, value)`. The source range is not in this vector's buffer.
     */
    method RangeInsert(pos: nat, src: array<T>, first: nat, last: nat)
      requires Valid() && pos <= Size() && first <= last <= src.Length && src != buf
      modifies this, buf
      ensures Valid()
      ensures Contents() == InsertAt(old(Contents()), pos, old(src[first..last]))
      ensures first == last || old(buf.Length - finish) >= last - first ==> buf == old(buf)
      ensures first != last && old(buf.Length - finish) < last - first ==>
        fresh(buf) &&
        Capacity() == old(Size()) + Algobase.Max((x: int, y: int) => x < y, old(Size()), last - first)
    {
      ghost var s := Contents();
      ghost var xs := src[first..last];
      if first != last {
        var n := last - first;
        if buf.Length - finish >= n {
          RangeInsertInPlace(pos, src, first, last);
        } else {
          GrowRange(pos, src, first, last);
        }
      } else {
        assert InsertAt(s, pos, xs) == s;
      }
    }

    /**
     * `range_insert` without room for the range: the values move to a new buffer of
     * old_size + max(old_size, n), n the length of the range, with the range between the halves.
     */
    method GrowRange(pos: nat, src: array<T>, first: nat, last: nat)
      requires Valid() && pos <= Size() && first <= last <= src.Length && src != buf
      requires buf.Length - finish < last - first
      modifies this
      ensures Valid() && fresh(buf)
      ensures Contents() == InsertAt(old(Contents()), pos, old(src[first..last]))
      ensures Capacity() == old(Size()) + Algobase.Max((x: int, y: int) => x < y, old(Size()), last - first)
    {
      var n := last - first;
      var oldSize := finish;
      var len := oldSize + Algobase.Max((x: int, y: int) => x < y, oldSize, n);
      var newStart := new T[len];
      ghost var b0, nb0, sa := buf[..], newStart[..], src[..];
      var newFinish := CopyTo(buf, 0, pos, newStart, 0);
      ghost var nb1, v := newStart[..], newFinish;
      newFinish := CopyTo(src, first, last, newStart, newFinish);
      ghost var nb2, w := newStart[..], newFinish;
      assert buf[..] == b0;
      newFinish := CopyTo(buf, pos, finish, newStart, newFinish);
      Regrown(b0, nb0, nb1, nb2, newStart[..], oldSize, newFinish, pos, v, w, sa[first..last]);
      buf := newStart;
      finish := newFinish;
    }

    /** The in-place half of `range_insert`, for a non-empty range that fits in the spare room. */
    method RangeInsertInPlace(pos: nat, src: array<T>, first: nat, last: nat)
      requires Valid() && pos <= Size() && first < last <= src.Length && src != buf
      requires last - first <= buf.Length - finish
      modifies buf, this
      ensures Valid() && buf == old(buf)
      ensures Contents() == InsertAt(old(Contents()), pos, old(src[first..last]))
    {
      var n := last - first;
      var elemsAfter := finish - pos;
      if elemsAfter > n {
        RangeLongTail(pos, src, first, last);
      } else {
        RangeShortTail(pos, src, first, last);
      }
    }

    /**
     * In place, more than n values after pos, n the length of the range: the last n values are
     * copied into the spare room, the rest from pos are copied backward, and the range is copied
     * into the gap.
     */
    method RangeLongTail(pos: nat, src: array<T>, first: nat, last: nat)
      requires Valid() && first < last <= src.Length && src != buf
      requires pos + (last - first) < Size() && last - first <= buf.Length - finish
      modifies buf, this
      ensures Valid() && buf == old(buf)
      ensures Contents() == InsertAt(old(Contents()), pos, old(src[first..last]))
    {
      RangeLong(buf, finish, pos, src, first, last);
      finish := finish + (last - first);
    }

    /**
     * In place, at most n values after pos, n the length of the range: the part of the range
     * beyond those values goes into the spare room, the values from pos follow it, and the front
     * of the range is copied over pos.
     */
    method RangeShortTail(pos: nat, src: array<T>, first: nat, last: nat)
      requires Valid() && pos <= Size() && first < last <= src.Length && src != buf
      requires Size() - pos <= last - first <= buf.Length - finish
      modifies buf, this
      ensures Valid() && buf == old(buf)
      ensures Contents() == InsertAt(old(Contents()), pos, old(src[first..last]))
    {
      RangeShort(buf, finish, pos, src, first, last);
      finish := finish + (last - first);
    }


    /** `erase(pos)`, pos below size(): the values after pos move down one; returns the index pos. */
    method Erase(pos: nat) returns (r: nat)
      requires Valid() && pos < Size()
      modifies this, buf
      ensures Valid() && buf == old(buf) && r == pos
      ensures Contents() == EraseAt(old(Contents()), pos, pos + 1)
    {
      ghost var s := Contents();
      var _ := Algobase.Copy(buf, pos + 1, finish, buf, pos);
      finish := finish - 1;
      assert Contents() == EraseAt(s, pos, pos + 1) by {
        assert Contents()[..pos] == s[..pos];
        assert Contents()[pos..] == s[pos + 1..];
      }
      r := pos;
    }

    /** `erase(first, last)`: the values after last move down to first; returns the index first. */
    method EraseRange(first: nat, last: nat) returns (r: nat)
      requires Valid() && first <= last <= Size()
      modifies this, buf
      ensures Valid() && buf == old(buf) && r == first
      ensures Contents() == EraseAt(old(Contents()), first, last)
    {
      ghost var s := Contents();
      var _ := Algobase.Copy(buf, last, finish, buf, first);
      finish := finish - (last - first);
      assert Contents() == EraseAt(s, first, last) by {
        assert Contents()[..first] == s[..first];
        assert Contents()[first..] == s[last..];
      }
      r := first;
    }

    /**
     * `reserve(n)`: nothing when capacity() >= n; an error when n > max_size(); otherwise the
     * values move to a new buffer of capacity exactly n.
     */
    method Reserve(n: nat) returns (o: Outcome)
      requires Valid()
      modifies this
      ensures Valid() && Contents() == old(Contents())
      ensures o.Failure? <==> old(Capacity()) < n && n > MaxSize()
      ensures o.Failure? ==> o.error == OutOfRange
      ensures old(Capacity()) >= n || o.Failure? ==> buf == old(buf)
      ensures o.Pass? && old(Capacity()) < n ==> fresh(buf) && Capacity() == n
    {
      if buf.Length < n {
        if n > MaxSize() {
          return Failure(OutOfRange);
        }
        var oldSize := finish;
        var tmp := new T[n];
        var _ := Algobase.Copy(buf, 0, finish, tmp, 0);
        buf := tmp;
        finish := oldSize;
      }
      return Pass;
    }

    /** `resize(new_size, value)`: truncates to new_size, or appends copies of value up to it. */
    method Resize(newSize: nat, value: T)
      requires Valid()
      modifies this, buf
      ensures Valid()
      ensures newSize < old(Size()) ==> Contents() == old(Contents())[..newSize]
      ensures newSize >= old(Size()) ==> Contents() == old(Contents()) + Repeat(value, newSize - old(Size()))
    {
      ghost var s := Contents();
      if newSize < finish {
        var _ := EraseRange(newSize, finish);
        EraseTail(s, newSize);
      } else {
        InsertFill(finish, newSize - finish, value);
        InsertAtEnd(s, Repeat(value, newSize - |s|));
      }
    }

    /** `swap(other)`: exchanges the three pointers of two different vectors. */
    method Swap(other: Vector<T>)
      requires Valid() && other.Valid() && other.elemSize == elemSize
      modifies this, other
      ensures Valid() && other.Valid()
      ensures other != this ==>
        buf == old(other.buf) && finish == old(other.finish) &&
        other.buf == old(buf) && other.finish == old(finish)
      ensures other == this ==> buf == old(buf) && finish == old(finish)
    {
      if this != other {
        buf, other.buf := other.buf, buf;
        finish, other.finish := other.finish, finish;
      }
    }

    /** `clear()`: destroys the values and frees the buffer, leaving no storage at all. */
    method Clear()
      requires Valid()
      modifies this
      ensures Valid() && fresh(buf)
      ensures Contents() == [] && Capacity() == 0
    {
      buf := new T[0];
      finish := 0;
    }
  }
}
