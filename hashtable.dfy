/** The bucket-count prime table of the hash table and `stl_next_prime`. */
module Hashtable {

  /** The pointer width the table is selected by: 99 primes on 64-bit targets, 44 on 32-bit ones. */
  datatype Target = System32 | System64

  // The tables are written in blocks of eleven entries; the 32-bit table shares its first 33.
  const Block0: seq<nat> := [101, 173, 263, 397, 599, 907, 1361, 2053, 3083, 4637, 6959]
  const Block1: seq<nat> := [10453, 15683, 23531, 35311, 52967, 79451, 119179, 178781, 268189, 402299, 603457]
  const Block2: seq<nat> := [905189, 1357787, 2036687, 3055043, 4582577, 6873871, 10310819, 15466229, 23199347, 34799021, 52198537]
  const Block3: seq<nat> := [78297827, 117446801, 176170229, 264255353, 396383041, 594574583, 891861923, 1337792887, 2006689337, 3010034021, 4515051137]
  const Block4: seq<nat> := [6772576709, 10158865069, 15238297621, 22857446471, 34286169707, 51429254599, 77143881917, 115715822899, 173573734363, 260360601547, 390540902329]
  const Block5: seq<nat> := [585811353559, 878717030339, 1318075545511, 1977113318311, 2965669977497, 4448504966249, 6672757449409, 10009136174239, 15013704261371, 22520556392057, 33780834588157]
  const Block6: seq<nat> := [50671251882247, 76006877823377, 114010316735089, 171015475102649, 256523212653977, 384784818980971, 577177228471507, 865765842707309, 1298648764060979, 1947973146091477, 2921959719137273]
  const Block7: seq<nat> := [4382939578705967, 6574409368058969, 9861614052088471, 14792421078132871, 22188631617199337, 33282947425799017, 49924421138698549, 74886631708047827, 112329947562071807, 168494921343107851, 252742382014661767]
  const Block8: seq<nat> := [379113573021992729, 568670359532989111, 853005539299483657, 1279508308949225477, 1919262463423838231, 2878893695135757317, 4318340542703636011, 6477510814055453699, 9716266221083181299, 14574399331624771603, 18446744073709551557]
  const Block32Tail: seq<nat> := [78297827, 117446801, 176170229, 264255353, 396383041, 594574583, 891861923, 1337792887, 2006689337, 3010034021, 4294967291]

  /** `stl_prime_list` for 64-bit targets. */
  const PrimeList64: seq<nat> :=
    Block0 + Block1 + Block2 + Block3 + Block4 + Block5 + Block6 + Block7 + Block8

  /** `stl_prime_list` for 32-bit targets. */
  const PrimeList32: seq<nat> := Block0 + Block1 + Block2 + Block32Tail

  /** `PRIME_NUM`. */
  function PrimeNum(t: Target): nat
  {
    match t
    case System64 => 99
    case System32 => 44
  }

  function PrimeList(t: Target): seq<nat>
  {
    match t
    case System64 => PrimeList64
    case System32 => PrimeList32
  }

  ghost predicate StrictlyIncreasing(s: seq<nat>)
  {
    forall i, j :: 0 <= i < j < |s| ==> s[i] < s[j]
  }

  ghost predicate AdjacentIncreasing(s: seq<nat>)
  {
    forall i :: 0 <= i < |s| - 1 ==> s[i] < s[i + 1]
  }

  lemma {:induction false} AdjacentIsStrict(s: seq<nat>)
    requires AdjacentIncreasing(s)
    ensures StrictlyIncreasing(s)
  {
    if |s| > 1 {
      AdjacentIsStrict(s[1..]);
      forall j | 1 <= j < |s| ensures s[0] < s[j] {
        if j > 1 {
          assert s[1..][0] < s[1..][j - 1];
        }
      }
    }
  }

  /** Two increasing sequences joined in order, the first ending below the second's start. */
  lemma {:induction false} AdjacentAppend(x: seq<nat>, y: seq<nat>)
    requires AdjacentIncreasing(x) && AdjacentIncreasing(y)
    requires x != [] && y != [] && x[|x| - 1] < y[0]
    ensures AdjacentIncreasing(x + y)
  {
    forall i | 0 <= i < |x + y| - 1 ensures (x + y)[i] < (x + y)[i + 1] {
      if i < |x| - 1 {
        assert (x + y)[i] == x[i] && (x + y)[i + 1] == x[i + 1];
      } else if i == |x| - 1 {
        assert (x + y)[i] == x[i] && (x + y)[i + 1] == y[0];
      } else {
        assert (x + y)[i] == y[i - |x|] && (x + y)[i + 1] == y[i - |x| + 1];
      }
    }
  }

  lemma BlocksIncreasing()
    ensures AdjacentIncreasing(Block0) && AdjacentIncreasing(Block1) && AdjacentIncreasing(Block2)
    ensures AdjacentIncreasing(Block3) && AdjacentIncreasing(Block4) && AdjacentIncreasing(Block5)
    ensures AdjacentIncreasing(Block6) && AdjacentIncreasing(Block7) && AdjacentIncreasing(Block8)
    ensures AdjacentIncreasing(Block32Tail)
  {
  }

  lemma PrimeList64Increasing()
    ensures |PrimeList64| == 99 && PrimeList64[0] == 101 && AdjacentIncreasing(PrimeList64)
  {
    BlocksIncreasing();
    AdjacentAppend(Block0, Block1);
    AdjacentAppend(Block0 + Block1, Block2);
    AdjacentAppend(Block0 + Block1 + Block2, Block3);
    AdjacentAppend(Block0 + Block1 + Block2 + Block3, Block4);
    AdjacentAppend(Block0 + Block1 + Block2 + Block3 + Block4, Block5);
    AdjacentAppend(Block0 + Block1 + Block2 + Block3 + Block4 + Block5, Block6);
    AdjacentAppend(Block0 + Block1 + Block2 + Block3 + Block4 + Block5 + Block6, Block7);
    AdjacentAppend(Block0 + Block1 + Block2 + Block3 + Block4 + Block5 + Block6 + Block7, Block8);
  }

  lemma PrimeList32Increasing()
    ensures |PrimeList32| == 44 && PrimeList32[0] == 101 && AdjacentIncreasing(PrimeList32)
  {
    BlocksIncreasing();
    AdjacentAppend(Block0, Block1);
    AdjacentAppend(Block0 + Block1, Block2);
    AdjacentAppend(Block0 + Block1 + Block2, Block32Tail);
  }

  /** Each table has `PRIME_NUM` entries, is strictly increasing, and starts at 101. */
  lemma PrimeListShape(t: Target)
    ensures |PrimeList(t)| == PrimeNum(t) && PrimeList(t)[0] == 101
    ensures StrictlyIncreasing(PrimeList(t))
  {
    PrimeList64Increasing();
    PrimeList32Increasing();
    AdjacentIsStrict(PrimeList(t));
  }

  /**
   * `lower_bound(first, last, n)` over s[lo..hi) by halving: the first position whose entry is not
   * below n, or hi.
   */
  function LowerBound(s: seq<nat>, lo: nat, hi: nat, n: nat): (r: nat)
    requires lo <= hi <= |s| && StrictlyIncreasing(s)
    ensures lo <= r <= hi
    ensures forall i :: lo <= i < r ==> s[i] < n
    ensures forall i :: r <= i < hi ==> n <= s[i]
    decreases hi - lo
  {
    if lo == hi then lo
    else
      var mid := lo + (hi - lo) / 2;
      if s[mid] < n then LowerBound(s, mid + 1, hi, n) else LowerBound(s, lo, mid, n)
  }

  /** lower_bound over a whole increasing table, falling back to the last entry. */
  function LowerBoundOrLast(table: seq<nat>, n: nat): (r: nat)
    requires |table| > 0 && StrictlyIncreasing(table)
    ensures r in table
    ensures n <= table[|table| - 1] ==> n <= r && forall p :: p in table && n <= p ==> r <= p
    ensures table[|table| - 1] < n ==> r == table[|table| - 1]
  {
    var pos := LowerBound(table, 0, |table|, n);
    if pos == |table| then table[|table| - 1] else table[pos]
  }

  /** `stl_next_prime(n)`: the first entry not below n, or the last entry when n exceeds them all. */
  function NextPrime(t: Target, n: nat): (r: nat)
    ensures r in PrimeList(t)
    ensures n <= PrimeList(t)[PrimeNum(t) - 1] ==> n <= r && forall p :: p in PrimeList(t) && n <= p ==> r <= p
    ensures PrimeList(t)[PrimeNum(t) - 1] < n ==> r == PrimeList(t)[PrimeNum(t) - 1]
  {
    PrimeListShape(t);
    LowerBoundOrLast(PrimeList(t), n)
  }

  /** Any request up to 101 buckets gets 101, on either target. */
  lemma SmallRequestsGetFirstPrime(t: Target, n: nat)
    requires n <= 101
    ensures NextPrime(t, n) == 101
  {
    PrimeListShape(t);
    var r := NextPrime(t, n);
    var table := PrimeList(t);
    assert table[0] == 101;
  }

  /** The result is the smallest entry that is at least n: no entry lies in [n, result). */
  lemma NextPrimeIsLeast(t: Target, n: nat, i: nat)
    requires i < PrimeNum(t) && n <= PrimeList(t)[i]
    ensures NextPrime(t, n) <= PrimeList(t)[i]
  {
    PrimeListShape(t);
  }
}
