/**
 * The in-order sequence of values of an `rb_tree` and the positions its lookups name: keys are
 * taken with the key extractor `keyOf` (identity for a set, the pair's first member for a map)
 * and compared with the injected strict weak order `less`.
 */
module RbOrder {
  import opened Wrappers

  /** The values at the given node indices, in order. */
  function ValuesOf<V>(vals: map<int, V>, ids: seq<int>): (r: seq<V>)
    requires forall j :: 0 <= j < |ids| ==> ids[j] in vals
    ensures |r| == |ids| && forall j :: 0 <= j < |ids| ==> r[j] == vals[ids[j]]
  {
    if ids == [] then [] else [vals[ids[0]]] + ValuesOf(vals, ids[1..])
  }

  /** Keys never decrease along s. */
  ghost predicate Sorted<V, K>(keyOf: V -> K, less: (K, K) -> bool, s: seq<V>)
  {
    forall i, j :: 0 <= i < j < |s| ==> !less(keyOf(s[j]), keyOf(s[i]))
  }

  /** Neither key is less than the other. */
  predicate Equiv<K>(less: (K, K) -> bool, a: K, b: K)
  {
    !less(a, b) && !less(b, a)
  }

  /** Some value of s has a key equivalent to k. */
  ghost predicate HasKey<V, K>(keyOf: V -> K, less: (K, K) -> bool, s: seq<V>, k: K)
  {
    exists j :: 0 <= j < |s| && Equiv(less, keyOf(s[j]), k)
  }

  /** The number of values of s whose key is equivalent to k. */
  function CountEquiv<V, K>(keyOf: V -> K, less: (K, K) -> bool, s: seq<V>, k: K): (n: nat)
    ensures n <= |s|
  {
    if s == [] then 0 else (if Equiv(less, keyOf(s[0]), k) then 1 else 0) + CountEquiv(keyOf, less, s[1..], k)
  }

  /** The position of the first value whose key is not less than k: `lower_bound`. */
  function LowerIndex<V, K>(keyOf: V -> K, less: (K, K) -> bool, s: seq<V>, k: K): (i: nat)
    ensures i <= |s|
  {
    if s == [] || !less(keyOf(s[0]), k) then 0 else 1 + LowerIndex(keyOf, less, s[1..], k)
  }

  /** The position of the first value whose key is greater than k: `upper_bound`. */
  function UpperIndex<V, K>(keyOf: V -> K, less: (K, K) -> bool, s: seq<V>, k: K): (i: nat)
    ensures i <= |s|
  {
    if s == [] || less(k, keyOf(s[0])) then 0 else 1 + UpperIndex(keyOf, less, s[1..], k)
  }

  /** A position with only smaller keys before it and a key not less than k at it is the lower bound. */
  lemma {:induction false} LowerIndexIs<V, K>(keyOf: V -> K, less: (K, K) -> bool, s: seq<V>, k: K, i: nat)
    requires i <= |s| && forall j :: 0 <= j < i ==> less(keyOf(s[j]), k)
    requires i < |s| ==> !less(keyOf(s[i]), k)
    ensures LowerIndex(keyOf, less, s, k) == i
  {
    if i > 0 {
      assert less(keyOf(s[0]), k);
      LowerIndexIs(keyOf, less, s[1..], k, i - 1);
    }
  }

  /** A position with no greater keys before it and a greater key at it is the upper bound. */
  lemma {:induction false} UpperIndexIs<V, K>(keyOf: V -> K, less: (K, K) -> bool, s: seq<V>, k: K, i: nat)
    requires i <= |s| && forall j :: 0 <= j < i ==> !less(k, keyOf(s[j]))
    requires i < |s| ==> less(k, keyOf(s[i]))
    ensures UpperIndex(keyOf, less, s, k) == i
  {
    if i > 0 {
      assert !less(k, keyOf(s[0]));
      UpperIndexIs(keyOf, less, s[1..], k, i - 1);
    }
  }

  /** On sorted values the lower bound splits the keys less than k from the others. */
  lemma {:induction false} LowerIndexSplit<V, K(!new)>(keyOf: V -> K, less: (K, K) -> bool, s: seq<V>, k: K)
    requires StrictWeakOrder(less) && Sorted(keyOf, less, s)
    ensures var i := LowerIndex(keyOf, less, s, k);
            (forall j :: 0 <= j < i ==> less(keyOf(s[j]), k)) && (forall j :: i <= j < |s| ==> !less(keyOf(s[j]), k))
  {
    if s != [] {
      LowerIndexSplit(keyOf, less, s[1..], k);
      if !less(keyOf(s[0]), k) {
        forall j | 0 <= j < |s|
          ensures !less(keyOf(s[j]), k)
        {
          if j > 0 {
            assert !less(keyOf(s[j]), keyOf(s[0]));
          }
        }
      }
    }
  }

  /** On sorted values the upper bound splits the keys not greater than k from the greater ones. */
  lemma {:induction false} UpperIndexSplit<V, K(!new)>(keyOf: V -> K, less: (K, K) -> bool, s: seq<V>, k: K)
    requires StrictWeakOrder(less) && Sorted(keyOf, less, s)
    ensures var i := UpperIndex(keyOf, less, s, k);
            (forall j :: 0 <= j < i ==> !less(k, keyOf(s[j]))) && (forall j :: i <= j < |s| ==> less(k, keyOf(s[j])))
  {
    if s != [] {
      UpperIndexSplit(keyOf, less, s[1..], k);
      if less(k, keyOf(s[0])) {
        forall j | 0 <= j < |s|
          ensures less(k, keyOf(s[j]))
        {
          if j > 0 {
            assert !less(keyOf(s[j]), keyOf(s[0]));
          }
        }
      }
    }
  }

  /**
   * On sorted values the equivalent keys are exactly those between the lower and the upper
   * bound: the lower bound comes first, and their distance counts the equivalent keys.
   */
  lemma EqualRange<V, K(!new)>(keyOf: V -> K, less: (K, K) -> bool, s: seq<V>, k: K)
    requires StrictWeakOrder(less) && Sorted(keyOf, less, s)
    ensures var lo, hi := LowerIndex(keyOf, less, s, k), UpperIndex(keyOf, less, s, k);
            lo <= hi && (forall j :: 0 <= j < |s| ==> (Equiv(less, keyOf(s[j]), k) <==> lo <= j < hi)) &&
            hi - lo == CountEquiv(keyOf, less, s, k) && (HasKey(keyOf, less, s, k) <==> lo < hi)
  {
    var lo, hi := LowerIndex(keyOf, less, s, k), UpperIndex(keyOf, less, s, k);
    LowerIndexSplit(keyOf, less, s, k);
    UpperIndexSplit(keyOf, less, s, k);
    if lo > 0 {
      assert less(keyOf(s[lo - 1]), k) && !less(k, keyOf(s[lo - 1]));
    }
    CountBetween(keyOf, less, s, k, lo, hi);
    if lo < hi {
      assert Equiv(less, keyOf(s[lo]), k);
    }
  }

  /** When the equivalent keys of s are exactly those at lo..hi, there are hi - lo of them. */
  lemma {:induction false} CountBetween<V, K>(keyOf: V -> K, less: (K, K) -> bool, s: seq<V>, k: K, lo: nat, hi: nat)
    requires lo <= hi <= |s| && forall j :: 0 <= j < |s| ==> (Equiv(less, keyOf(s[j]), k) <==> lo <= j < hi)
    ensures CountEquiv(keyOf, less, s, k) == hi - lo
  {
    if s != [] {
      if lo == 0 && hi > 0 {
        CountBetween(keyOf, less, s[1..], k, 0, hi - 1);
      } else if lo == 0 {
        CountBetween(keyOf, less, s[1..], k, 0, 0);
      } else {
        CountBetween(keyOf, less, s[1..], k, lo - 1, hi - 1);
      }
    }
  }

  /** Inserting v at the upper bound of its key keeps the values sorted. */
  lemma InsertSorted<V, K(!new)>(keyOf: V -> K, less: (K, K) -> bool, s: seq<V>, v: V)
    requires StrictWeakOrder(less) && Sorted(keyOf, less, s)
    ensures var i := UpperIndex(keyOf, less, s, keyOf(v)); Sorted(keyOf, less, s[..i] + [v] + s[i..])
  {
    var i := UpperIndex(keyOf, less, s, keyOf(v));
    UpperIndexSplit(keyOf, less, s, keyOf(v));
    var s' := s[..i] + [v] + s[i..];
    forall a, b | 0 <= a < b < |s'|
      ensures !less(keyOf(s'[b]), keyOf(s'[a]))
    {
      if b < i {
        assert s'[a] == s[a] && s'[b] == s[b];
      } else if a > i {
        assert s'[a] == s[a - 1] && s'[b] == s[b - 1];
      } else if a == i {
        assert s'[a] == v && s'[b] == s[b - 1];
        Asymmetric(less, keyOf(v), keyOf(s[b - 1]));
      } else if b == i {
        assert s'[a] == s[a] && s'[b] == v;
      } else {
        assert s'[a] == s[a] && s'[b] == s[b - 1];
      }
    }
  }

  /** Taking out the values at positions i..j keeps the values sorted. */
  lemma SortedCut<V, K>(keyOf: V -> K, less: (K, K) -> bool, s: seq<V>, i: nat, j: nat)
    requires Sorted(keyOf, less, s) && i <= j <= |s|
    ensures Sorted(keyOf, less, s[..i] + s[j..])
  {
    var s' := s[..i] + s[j..];
    forall a, b | 0 <= a < b < |s'|
      ensures !less(keyOf(s'[b]), keyOf(s'[a]))
    {
      var a', b' := if a < i then a else a + j - i, if b < i then b else b + j - i;
      assert s'[a] == s[a'] && s'[b] == s[b'];
    }
  }

  /**
   * What stays after taking out the equivalent keys, lo..hi: no value with a key equivalent
   * to k, and every other value of s, in order.
   */
  lemma EraseKeyLeaves<V, K(!new)>(keyOf: V -> K, less: (K, K) -> bool, s: seq<V>, k: K)
    requires StrictWeakOrder(less) && Sorted(keyOf, less, s)
    ensures var lo, hi := LowerIndex(keyOf, less, s, k), UpperIndex(keyOf, less, s, k);
            lo <= hi && !HasKey(keyOf, less, s[..lo] + s[hi..], k) && Sorted(keyOf, less, s[..lo] + s[hi..]) &&
            |s[..lo] + s[hi..]| == |s| - CountEquiv(keyOf, less, s, k)
  {
    var lo, hi := LowerIndex(keyOf, less, s, k), UpperIndex(keyOf, less, s, k);
    EqualRange(keyOf, less, s, k);
    SortedCut(keyOf, less, s, lo, hi);
    var s' := s[..lo] + s[hi..];
    forall j | 0 <= j < |s'|
      ensures !Equiv(less, keyOf(s'[j]), k)
    {
      if j < lo {
        assert s'[j] == s[j];
      } else {
        assert s'[j] == s[j + hi - lo];
      }
    }
  }

  /**
   * What erasing by a unique key leaves: c1 is s without the value found for k when s has a
   * key equivalent to k (n == 1), and s itself otherwise (n == 0). With strictly increasing
   * keys, n counts the values equivalent to k and c1 still increases strictly without k.
   */
  lemma EraseByKey<V, K(!new)>(keyOf: V -> K, less: (K, K) -> bool, s: seq<V>, c1: seq<V>, k: K, n: nat)
    requires StrictWeakOrder(less) && Sorted(keyOf, less, s)
    requires var l := LowerIndex(keyOf, less, s, k);
             if HasKey(keyOf, less, s, k) then n == 1 && l < |s| && c1 == s[..l] + s[l + 1..] else n == 0 && c1 == s
    ensures Strict(keyOf, less, s) ==>
              n == CountEquiv(keyOf, less, s, k) && Strict(keyOf, less, c1) && !HasKey(keyOf, less, c1, k)
  {
    var l := LowerIndex(keyOf, less, s, k);
    EqualRange(keyOf, less, s, k);
    if Strict(keyOf, less, s) && HasKey(keyOf, less, s, k) {
      StrictCount(keyOf, less, s, k);
      StrictCut(keyOf, less, s, l, l + 1);
      EraseKeyLeaves(keyOf, less, s, k);
    }
  }

  /** Keys strictly increase along s: no two values have equivalent keys, as in a unique tree. */
  ghost predicate Strict<V, K>(keyOf: V -> K, less: (K, K) -> bool, s: seq<V>)
  {
    forall i, j :: 0 <= i < j < |s| ==> less(keyOf(s[i]), keyOf(s[j]))
  }

  /** With strictly increasing keys, at most one value has a key equivalent to k. */
  lemma StrictCount<V, K(!new)>(keyOf: V -> K, less: (K, K) -> bool, s: seq<V>, k: K)
    requires StrictWeakOrder(less) && Strict(keyOf, less, s)
    ensures Sorted(keyOf, less, s) && CountEquiv(keyOf, less, s, k) <= 1
    ensures HasKey(keyOf, less, s, k) ==> UpperIndex(keyOf, less, s, k) == LowerIndex(keyOf, less, s, k) + 1
  {
    forall i, j | 0 <= i < j < |s|
      ensures !less(keyOf(s[j]), keyOf(s[i]))
    {
      assert less(keyOf(s[i]), keyOf(s[j]));
    }
    EqualRange(keyOf, less, s, k);
    var lo := LowerIndex(keyOf, less, s, k);
    LowerIndexSplit(keyOf, less, s, k);
    forall j | lo < j < |s|
      ensures less(k, keyOf(s[j]))
    {
      assert less(keyOf(s[lo]), keyOf(s[j]));
    }
    if lo + 1 < |s| {
      assert !Equiv(less, keyOf(s[lo + 1]), k);
    }
  }

  /**
   * Inserting a value whose key is absent at its lower bound keeps the keys strictly
   * increasing; the lower and the upper bound then agree.
   */
  lemma InsertStrict<V, K(!new)>(keyOf: V -> K, less: (K, K) -> bool, s: seq<V>, v: V)
    requires StrictWeakOrder(less) && Strict(keyOf, less, s) && !HasKey(keyOf, less, s, keyOf(v))
    ensures var i := LowerIndex(keyOf, less, s, keyOf(v));
            i == UpperIndex(keyOf, less, s, keyOf(v)) && Strict(keyOf, less, s[..i] + [v] + s[i..])
  {
    var k := keyOf(v);
    StrictCount(keyOf, less, s, k);
    EqualRange(keyOf, less, s, k);
    var i := LowerIndex(keyOf, less, s, k);
    LowerIndexSplit(keyOf, less, s, k);
    var s' := s[..i] + [v] + s[i..];
    forall a, b | 0 <= a < b < |s'|
      ensures less(keyOf(s'[a]), keyOf(s'[b]))
    {
      if b < i {
        assert s'[a] == s[a] && s'[b] == s[b];
      } else if a > i {
        assert s'[a] == s[a - 1] && s'[b] == s[b - 1];
      } else if a == i {
        assert s'[a] == v && s'[b] == s[b - 1];
        assert !less(keyOf(s[b - 1]), k) && !Equiv(less, keyOf(s[b - 1]), k);
      } else if b == i {
        assert s'[a] == s[a] && s'[b] == v;
      } else {
        assert s'[a] == s[a] && s'[b] == s[b - 1];
      }
    }
  }

  /** Taking out the values at positions i..j keeps the keys strictly increasing. */
  lemma StrictCut<V, K>(keyOf: V -> K, less: (K, K) -> bool, s: seq<V>, i: nat, j: nat)
    requires Strict(keyOf, less, s) && i <= j <= |s|
    ensures Strict(keyOf, less, s[..i] + s[j..])
  {
    var s' := s[..i] + s[j..];
    forall a, b | 0 <= a < b < |s'|
      ensures less(keyOf(s'[a]), keyOf(s'[b]))
    {
      var a', b' := if a < i then a else a + j - i, if b < i then b else b + j - i;
      assert s'[a] == s[a'] && s'[b] == s[b'];
    }
  }

  /**
   * The test of `get_insert_unique_pos`: an equivalent key is present exactly when the value
   * just before the upper bound exists and its key is not less than k; that value is then
   * equivalent to k.
   */
  lemma BeforeUpper<V, K(!new)>(keyOf: V -> K, less: (K, K) -> bool, s: seq<V>, k: K)
    requires StrictWeakOrder(less) && Sorted(keyOf, less, s)
    ensures var u := UpperIndex(keyOf, less, s, k);
            (u == 0 ==> !HasKey(keyOf, less, s, k)) &&
            (u > 0 ==> (HasKey(keyOf, less, s, k) <==> !less(keyOf(s[u - 1]), k))) &&
            (u > 0 && HasKey(keyOf, less, s, k) ==> Equiv(less, keyOf(s[u - 1]), k))
  {
    var u := UpperIndex(keyOf, less, s, k);
    EqualRange(keyOf, less, s, k);
    UpperIndexSplit(keyOf, less, s, k);
  }
}
