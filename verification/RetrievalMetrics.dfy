/** Retrieval metrics (src/eval/metrics/retrieval.py) over the reals. The logarithmic discount is
    any positive, strictly decreasing sequence of weights. */
module RetrievalMetrics {

  // ---------------------------------------------------------------------
  // nDCG
  // ---------------------------------------------------------------------

  /** Weights for the first k ranks. */
  predicate IsDiscount(w: seq<real>, k: int) {
    && |w| >= k
    && (forall i :: 0 <= i < |w| ==> w[i] > 0.0)
    && (forall i, j :: 0 <= i < j < |w| ==> w[i] > w[j])
  }

  /** The number of ranks that `retrieved[:k]` has. */
  function Ranks(retrieved: seq<string>, k: int): (n: nat)
    ensures n <= |retrieved|
  {
    if k <= 0 then 0 else if k < |retrieved| then k else |retrieved|
  }

  function IdealHits(relevant: set<string>, k: int): int {
    if |relevant| < k then |relevant| else k
  }

  function Hits(retrieved: seq<string>, relevant: set<string>, n: nat): (h: nat)
    requires n <= |retrieved|
    ensures h <= n
  {
    if n == 0 then 0
    else Hits(retrieved, relevant, n - 1) + if retrieved[n - 1] in relevant then 1 else 0
  }

  function Dcg(retrieved: seq<string>, relevant: set<string>, w: seq<real>, n: nat): real
    requires n <= |retrieved| && n <= |w|
  {
    if n == 0 then 0.0
    else Dcg(retrieved, relevant, w, n - 1) + if retrieved[n - 1] in relevant then w[n - 1] else 0.0
  }

  function Idcg(w: seq<real>, m: nat): real
    requires m <= |w|
  {
    if m == 0 then 0.0 else Idcg(w, m - 1) + w[m - 1]
  }

  lemma {:induction false} IdcgGrows(w: seq<real>, m: nat, m': nat)
    requires IsDiscount(w, m') && m <= m'
    ensures Idcg(w, m) <= Idcg(w, m')
    ensures m < m' ==> Idcg(w, m) < Idcg(w, m')
    decreases m'
  {
    if m < m' {
      IdcgGrows(w, m, m' - 1);
    }
  }

  function Ndcg(retrieved: seq<string>, relevant: set<string>, w: seq<real>, k: int): real
    requires IsDiscount(w, k)
  {
    if k <= 0 || retrieved == [] || relevant == {} then 0.0
    else
      IdcgGrows(w, 0, IdealHits(relevant, k));
      Dcg(retrieved, relevant, w, Ranks(retrieved, k)) / Idcg(w, IdealHits(relevant, k))
  }

  method NdcgAtK(retrieved: seq<string>, relevant: set<string>, w: seq<real>, k: int) returns (r: real)
    requires IsDiscount(w, k)
    ensures r == Ndcg(retrieved, relevant, w, k)
  {
    if k <= 0 || |retrieved| == 0 {
      return 0.0;
    }
    var dcg := 0.0;
    var n := if k < |retrieved| then k else |retrieved|;
    for i := 0 to n
      invariant dcg == Dcg(retrieved, relevant, w, i)
    {
      if retrieved[i] in relevant {
        dcg := dcg + w[i];
      }
    }
    var idealHits := if |relevant| < k then |relevant| else k;
    if idealHits == 0 {
      return 0.0;
    }
    var idcg := 0.0;
    for i := 0 to idealHits
      invariant idcg == Idcg(w, i)
    {
      idcg := idcg + w[i];
    }
    IdcgGrows(w, 0, idealHits);
    r := dcg / idcg;
  }

  // ---------------------------------------------------------------------
  // The bound
  // ---------------------------------------------------------------------

  /** The first n ranks are all hits. */
  predicate AllHits(retrieved: seq<string>, relevant: set<string>, n: nat) {
    n <= |retrieved| && forall i :: 0 <= i < n ==> retrieved[i] in relevant
  }

  /** Rearrangement: the hits weigh at most what as many hits at the top would, and exactly that only
      when they are at the top. */
  lemma {:induction false} HitsWeighMostAtTop(retrieved: seq<string>, relevant: set<string>, w: seq<real>, n: nat)
    requires IsDiscount(w, n) && n <= |retrieved|
    ensures var h := Hits(retrieved, relevant, n);
      && Dcg(retrieved, relevant, w, n) <= Idcg(w, h)
      && (Dcg(retrieved, relevant, w, n) == Idcg(w, h) <==> AllHits(retrieved, relevant, h))
  {
    if n > 0 {
      HitsWeighMostAtTop(retrieved, relevant, w, n - 1);
      var h := Hits(retrieved, relevant, n - 1);
      if retrieved[n - 1] in relevant {
        assert h < n - 1 ==> w[h] > w[n - 1];
        if h < n - 1 {
          NotAllHits(retrieved, relevant, h, n);
        }
      }
    }
  }

  /** With fewer hits than ranks, the ranks are not all hits. */
  lemma {:induction false} AllHitsCounted(retrieved: seq<string>, relevant: set<string>, n: nat)
    requires n <= |retrieved|
    ensures Hits(retrieved, relevant, n) == n <==> AllHits(retrieved, relevant, n)
  {
    if n > 0 {
      AllHitsCounted(retrieved, relevant, n - 1);
    }
  }

  lemma {:induction false} HitsGrow(retrieved: seq<string>, relevant: set<string>, m: nat, n: nat)
    requires m <= n <= |retrieved|
    ensures Hits(retrieved, relevant, m) <= Hits(retrieved, relevant, n)
    decreases n
  {
    if m < n {
      HitsGrow(retrieved, relevant, m, n - 1);
    }
  }

  /** When the h hits before rank n are fewer than the ranks, and rank n is one more, the first
      h + 1 ranks are not all hits. */
  lemma NotAllHits(retrieved: seq<string>, relevant: set<string>, h: nat, n: nat)
    requires 0 < n <= |retrieved| && h == Hits(retrieved, relevant, n - 1) && h < n - 1
    ensures !AllHits(retrieved, relevant, h + 1)
  {
    AllHitsCounted(retrieved, relevant, h + 1);
    HitsGrow(retrieved, relevant, h + 1, n - 1);
  }

  predicate NoDuplicates(retrieved: seq<string>) {
    forall i, j :: 0 <= i < j < |retrieved| ==> retrieved[i] != retrieved[j]
  }

  function HitKeys(retrieved: seq<string>, relevant: set<string>, n: nat): (keys: set<string>)
    requires n <= |retrieved|
    ensures keys <= relevant
  {
    if n == 0 then {}
    else HitKeys(retrieved, relevant, n - 1) + if retrieved[n - 1] in relevant then {retrieved[n - 1]} else {}
  }

  lemma {:induction false} NotYetSeen(retrieved: seq<string>, relevant: set<string>, n: nat, i: nat)
    requires NoDuplicates(retrieved) && n <= i < |retrieved|
    ensures retrieved[i] !in HitKeys(retrieved, relevant, n)
  {
    if n > 0 {
      NotYetSeen(retrieved, relevant, n - 1, i);
    }
  }

  lemma {:induction false} HitsAreDistinctKeys(retrieved: seq<string>, relevant: set<string>, n: nat)
    requires NoDuplicates(retrieved) && n <= |retrieved|
    ensures |HitKeys(retrieved, relevant, n)| == Hits(retrieved, relevant, n)
  {
    if n > 0 {
      HitsAreDistinctKeys(retrieved, relevant, n - 1);
      NotYetSeen(retrieved, relevant, n - 1, n - 1);
    }
  }

  lemma {:induction false} SubsetIsNoLarger(a: set<string>, b: set<string>)
    requires a <= b
    ensures |a| <= |b|
  {
    if a != {} {
      var x :| x in a;
      SubsetIsNoLarger(a - {x}, b - {x});
    }
  }

  /** Without duplicates there are at most as many hits as the ideal ranking has. */
  lemma HitsAtMostIdeal(retrieved: seq<string>, relevant: set<string>, k: int)
    requires NoDuplicates(retrieved) && k >= 0
    ensures Hits(retrieved, relevant, Ranks(retrieved, k)) <= IdealHits(relevant, k)
  {
    var n := Ranks(retrieved, k);
    HitsAreDistinctKeys(retrieved, relevant, n);
    SubsetIsNoLarger(HitKeys(retrieved, relevant, n), relevant);
  }

  /** With at most the ideal number of hits nDCG lies in [0, 1], and it is 1 exactly when the first
      min(|relevant|, k) results exist and are all relevant. */
  lemma NdcgBound(retrieved: seq<string>, relevant: set<string>, w: seq<real>, k: int)
    requires IsDiscount(w, k) && k > 0 && relevant != {}
    requires Hits(retrieved, relevant, Ranks(retrieved, k)) <= IdealHits(relevant, k)
    ensures 0.0 <= Ndcg(retrieved, relevant, w, k) <= 1.0
    ensures Ndcg(retrieved, relevant, w, k) == 1.0 <==> AllHits(retrieved, relevant, IdealHits(relevant, k))
  {
    var n, m := Ranks(retrieved, k), IdealHits(relevant, k);
    var h := Hits(retrieved, relevant, n);
    var dcg, idcg := Dcg(retrieved, relevant, w, n), Idcg(w, m);
    HitsWeighMostAtTop(retrieved, relevant, w, n);
    IdcgGrows(w, h, m);
    IdcgGrows(w, 0, m);
    DcgIsNonNegative(retrieved, relevant, w, n);
    if retrieved != [] {
      RatioBound(dcg, idcg);
      TopHitsAreCounted(retrieved, relevant, m, n);
    }
  }

  lemma RatioBound(a: real, b: real)
    requires 0.0 <= a <= b && b > 0.0
    ensures 0.0 <= a / b <= 1.0 && (a / b == 1.0 <==> a == b)
  {
    assert a == (a / b) * b;
  }

  lemma TopHitsAreCounted(retrieved: seq<string>, relevant: set<string>, m: nat, n: nat)
    requires n <= |retrieved| && (m <= n || n == |retrieved|)
    ensures AllHits(retrieved, relevant, m) ==> Hits(retrieved, relevant, n) >= m
  {
    if AllHits(retrieved, relevant, m) {
      AllHitsCounted(retrieved, relevant, m);
      HitsGrow(retrieved, relevant, m, n);
    }
  }

  lemma {:induction false} DcgIsNonNegative(retrieved: seq<string>, relevant: set<string>, w: seq<real>, n: nat)
    requires IsDiscount(w, n) && n <= |retrieved|
    ensures Dcg(retrieved, relevant, w, n) >= 0.0
  {
    if n > 0 {
      DcgIsNonNegative(retrieved, relevant, w, n - 1);
    }
  }

  /** The bound for duplicate-free results, whatever the discount. */
  lemma NdcgOfDistinct(retrieved: seq<string>, relevant: set<string>, w: seq<real>, k: int)
    requires IsDiscount(w, k) && NoDuplicates(retrieved)
    ensures 0.0 <= Ndcg(retrieved, relevant, w, k) <= 1.0
    ensures Ndcg(retrieved, relevant, w, k) == 1.0 <==>
      k > 0 && relevant != {} && AllHits(retrieved, relevant, IdealHits(relevant, k))
  {
    if k > 0 && relevant != {} {
      HitsAtMostIdeal(retrieved, relevant, k);
      NdcgBound(retrieved, relevant, w, k);
    }
  }

  // ---------------------------------------------------------------------
  // Duplicates
  // ---------------------------------------------------------------------

  function Nearly(base: real, n: nat): (w: seq<real>)
    ensures |w| == n && forall i :: 0 <= i < n ==> w[i] == base - i as real
  {
    seq(n, i requires i >= 0 => base - i as real)
  }

  lemma {:induction false} NearlyDcg(retrieved: seq<string>, relevant: set<string>, base: real, k: nat, n: nat)
    requires n <= |retrieved| && n <= k
    ensures Dcg(retrieved, relevant, Nearly(base, k), n) >= Hits(retrieved, relevant, n) as real * (base - k as real)
  {
    if n > 0 {
      var m := n - 1;
      NearlyDcg(retrieved, relevant, base, k, m);
      var w, h := Nearly(base, k), Hits(retrieved, relevant, m);
      assert m + 1 == n && w[m] >= base - k as real;
      OneMoreHit(Dcg(retrieved, relevant, w, m), h, base - k as real, w[m]);
      assert Hits(retrieved, relevant, n) == if retrieved[m] in relevant then h + 1 else h;
    }
  }

  lemma OneMoreHit(d: real, h: nat, x: real, y: real)
    requires d >= h as real * x && y >= x
    ensures d + y >= (h + 1) as real * x
  {
  }

  lemma {:induction false} NearlyIdcg(base: real, k: nat, m: nat)
    requires m <= k
    ensures Idcg(Nearly(base, k), m) <= m as real * base
  {
    if m > 0 {
      NearlyIdcg(base, k, m - 1);
    }
  }

  /** With more hits than the ideal ranking has, some discount takes nDCG above 1. */
  lemma TooManyHitsBreakBound(retrieved: seq<string>, relevant: set<string>, k: int) returns (w: seq<real>)
    requires k > 0 && relevant != {}
    requires Hits(retrieved, relevant, Ranks(retrieved, k)) > IdealHits(relevant, k)
    ensures IsDiscount(w, k) && Ndcg(retrieved, relevant, w, k) > 1.0
  {
    var n, m := Ranks(retrieved, k), IdealHits(relevant, k);
    var base := (m + 1) as real * k as real + 1.0;
    AtLeast(m, k);
    w := Nearly(base, k);
    NearlyIsDiscount(base, k);
    NearlyExceeds(retrieved, relevant, base, k, n, m);
    IdcgGrows(w, 0, m);
    RatioExceeds(Dcg(retrieved, relevant, w, n), Idcg(w, m));
  }

  lemma NearlyIsDiscount(base: real, k: nat)
    requires base >= k as real
    ensures IsDiscount(Nearly(base, k), k)
  {
  }

  lemma NearlyExceeds(retrieved: seq<string>, relevant: set<string>, base: real, k: nat, n: nat, m: nat)
    requires n <= |retrieved| && n <= k && m <= k && Hits(retrieved, relevant, n) > m
    requires base == (m + 1) as real * k as real + 1.0 && base >= k as real
    ensures Dcg(retrieved, relevant, Nearly(base, k), n) > Idcg(Nearly(base, k), m)
  {
    NearlyDcg(retrieved, relevant, base, k, n);
    NearlyIdcg(base, k, m);
    Exceeds(Hits(retrieved, relevant, n), m, k, base);
  }

  lemma AtLeast(m: nat, k: nat)
    requires m >= 1 && k >= 1
    ensures (m + 1) as real * k as real + 1.0 >= k as real + 1.0
  {
    assert (m + 1) as real * k as real == m as real * k as real + k as real;
  }

  lemma Exceeds(h: nat, m: nat, k: nat, base: real)
    requires h >= m + 1 && base == (m + 1) as real * k as real + 1.0 && base >= k as real
    ensures h as real * (base - k as real) > m as real * base
  {
    var gap := base - k as real;
    assert h as real * gap >= (m + 1) as real * gap;
    assert (m + 1) as real * gap == m as real * base + base - (m + 1) as real * k as real;
  }

  lemma RatioExceeds(a: real, b: real)
    requires a > b > 0.0
    ensures a / b > 1.0
  {
    assert a == (a / b) * b;
  }

  /** nDCG is bounded by 1 whatever the discount exactly when the top k hold no more hits than the
      ideal ranking; repeated keys can exceed it. */
  lemma BoundedForEveryDiscount(retrieved: seq<string>, relevant: set<string>, k: int)
    requires k > 0 && relevant != {}
    ensures (forall w :: IsDiscount(w, k) ==> Ndcg(retrieved, relevant, w, k) <= 1.0)
       <==> Hits(retrieved, relevant, Ranks(retrieved, k)) <= IdealHits(relevant, k)
  {
    if Hits(retrieved, relevant, Ranks(retrieved, k)) <= IdealHits(relevant, k) {
      forall w | IsDiscount(w, k) ensures Ndcg(retrieved, relevant, w, k) <= 1.0 {
        NdcgBound(retrieved, relevant, w, k);
      }
    } else {
      var w := TooManyHitsBreakBound(retrieved, relevant, k);
    }
  }

  ghost predicate BoundedWithHits(relevant: set<string>, w: seq<real>, k: int, h: nat)
    requires IsDiscount(w, k)
  {
    forall retrieved :: Hits(retrieved, relevant, Ranks(retrieved, k)) == h ==> Ndcg(retrieved, relevant, w, k) <= 1.0
  }

  /** For any one discount, the logarithmic one among them: nDCG is bounded by 1 on every ranking with h
      hits in its top k exactly when h is at most the ideal number. */
  lemma BoundedForEveryRanking(relevant: set<string>, w: seq<real>, k: int, h: nat)
    requires IsDiscount(w, k) && relevant != {} && h <= k && k > 0
    ensures BoundedWithHits(relevant, w, k, h) <==> h <= IdealHits(relevant, k)
  {
    if h <= IdealHits(relevant, k) {
      forall retrieved | Hits(retrieved, relevant, Ranks(retrieved, k)) == h
        ensures Ndcg(retrieved, relevant, w, k) <= 1.0
      {
        NdcgBound(retrieved, relevant, w, k);
      }
    } else {
      var page :| page in relevant;
      CopiesExceedOne(page, relevant, w, k, h);
    }
  }

  lemma CopiesExceedOne(page: string, relevant: set<string>, w: seq<real>, k: int, h: nat)
    requires IsDiscount(w, k) && page in relevant && IdealHits(relevant, k) < h <= k && k > 0
    ensures Hits(Copies(page, h), relevant, Ranks(Copies(page, h), k)) == h
    ensures Ndcg(Copies(page, h), relevant, w, k) > 1.0
  {
    var retrieved, m := Copies(page, h), IdealHits(relevant, k);
    AllHitsCounted(retrieved, relevant, h);
    HitsWeighMostAtTop(retrieved, relevant, w, h);
    IdcgGrows(w, m, h);
    IdcgGrows(w, 0, m);
    RatioExceeds(Dcg(retrieved, relevant, w, h), Idcg(w, m));
  }

  /** The same page retrieved twice. */
  lemma DuplicateExceedsOne(page: string, w: seq<real>)
    requires IsDiscount(w, 2)
    ensures Ndcg([page, page], {page}, w, 2) > 1.0
  {
    var retrieved, relevant := [page, page], {page};
    assert Dcg(retrieved, relevant, w, 1) == w[0];
    assert Dcg(retrieved, relevant, w, 2) == w[0] + w[1];
    assert Idcg(w, 1) == w[0];
    RatioExceeds(w[0] + w[1], w[0]);
  }

  // ---------------------------------------------------------------------
  // Recall, precision and MRR
  // ---------------------------------------------------------------------

  /** `s[:k]`, which for a negative k leaves out the last |k|. */
  function Top(retrieved: seq<string>, k: int): (top: seq<string>)
    ensures |top| <= |retrieved|
  {
    if k >= 0 then retrieved[..Ranks(retrieved, k)]
    else if |retrieved| + k <= 0 then []
    else retrieved[..|retrieved| + k]
  }

  predicate Meets(pool: set<string>, top: seq<string>) {
    exists i :: 0 <= i < |top| && top[i] in pool
  }

  function PoolsHit(pools: seq<set<string>>, n: nat, top: seq<string>): (hit: nat)
    requires n <= |pools|
    ensures hit <= n
  {
    if n == 0 then 0 else PoolsHit(pools, n - 1, top) + if Meets(pools[n - 1], top) then 1 else 0
  }

  function Recall(retrieved: seq<string>, pools: seq<set<string>>, k: int): real {
    if pools == [] then 0.0 else PoolsHit(pools, |pools|, Top(retrieved, k)) as real / |pools| as real
  }

  function Precision(retrieved: seq<string>, relevant: set<string>, k: int): real {
    if k <= 0 || retrieved == [] then 0.0
    else Hits(retrieved, relevant, Ranks(retrieved, k)) as real / k as real
  }

  function Union(pools: seq<set<string>>): (all: set<string>)
    ensures forall key :: key in all <==> exists i :: 0 <= i < |pools| && key in pools[i]
  {
    if pools == [] then {} else Union(pools[..|pools| - 1]) + pools[|pools| - 1]
  }

  predicate IsFirstHit(retrieved: seq<string>, relevant: set<string>, i: nat)
    requires i < |retrieved|
  {
    retrieved[i] in relevant && forall j :: 0 <= j < i ==> retrieved[j] !in relevant
  }

  method Mrr(retrieved: seq<string>, pools: seq<set<string>>) returns (r: real)
    ensures r == 0.0 <==> forall i :: 0 <= i < |retrieved| ==> retrieved[i] !in Union(pools)
    ensures forall i :: 0 <= i < |retrieved| && IsFirstHit(retrieved, Union(pools), i) ==> r == 1.0 / (i + 1) as real
  {
    if pools == [] {
      return 0.0;
    }
    var union := Union(pools);
    for i := 0 to |retrieved|
      invariant forall j :: 0 <= j < i ==> retrieved[j] !in union
    {
      if retrieved[i] in union {
        return 1.0 / (i + 1) as real;
      }
    }
    return 0.0;
  }

  lemma {:induction false} MorePoolsHit(pools: seq<set<string>>, n: nat, top: seq<string>, more: seq<string>)
    requires n <= |pools| && top <= more
    ensures PoolsHit(pools, n, top) <= PoolsHit(pools, n, more)
  {
    if n > 0 {
      MorePoolsHit(pools, n - 1, top, more);
      if Meets(pools[n - 1], top) {
        var i :| 0 <= i < |top| && top[i] in pools[n - 1];
        assert more[i] in pools[n - 1];
      }
    }
  }

  lemma Share(a: nat, b: nat, n: nat)
    requires a <= b <= n && n > 0
    ensures 0.0 <= a as real / n as real <= b as real / n as real <= 1.0
  {
    RatioBound(a as real, n as real);
    RatioBound(b as real, n as real);
    assert b as real / n as real - a as real / n as real == (b - a) as real / n as real;
  }

  /** Recall grows with the cutoff and stays within [0, 1]. */
  lemma RecallIsMonotone(retrieved: seq<string>, pools: seq<set<string>>, k: nat, k': nat)
    requires k <= k'
    ensures 0.0 <= Recall(retrieved, pools, k) <= Recall(retrieved, pools, k') <= 1.0
  {
    if pools != [] {
      assert Top(retrieved, k) <= Top(retrieved, k');
      MorePoolsHit(pools, |pools|, Top(retrieved, k), Top(retrieved, k'));
      Share(PoolsHit(pools, |pools|, Top(retrieved, k)), PoolsHit(pools, |pools|, Top(retrieved, k')), |pools|);
    }
  }

  ghost predicate RecallGrowsFrom(k: int) {
    forall retrieved, pools, k' :: k <= k' ==> Recall(retrieved, pools, k) <= Recall(retrieved, pools, k')
  }

  /** Recall at k is never above recall at a later cutoff exactly when k is not negative: a negative
      cutoff counts from the end, so it can hold a result that cutoff 0 does not. */
  lemma RecallGrowsExactly(k: int)
    ensures RecallGrowsFrom(k) <==> k >= 0
  {
    if k >= 0 {
      forall retrieved, pools, k' | k <= k' ensures Recall(retrieved, pools, k) <= Recall(retrieved, pools, k') {
        RecallIsMonotone(retrieved, pools, k, k');
      }
    } else {
      NegativeCutoff("", k);
      assert Recall(Copies("", 1 - k), [{""}], k) > Recall(Copies("", 1 - k), [{""}], 0);
    }
  }

  function Copies(page: string, n: nat): (pages: seq<string>)
    ensures |pages| == n && forall i :: 0 <= i < n ==> pages[i] == page
  {
    seq(n, _ => page)
  }

  /** Of |k| + 1 results, cutoff k < 0 keeps one. */
  lemma NegativeCutoff(page: string, k: int)
    requires k < 0
    ensures Recall(Copies(page, 1 - k), [{page}], k) == 1.0 && Recall(Copies(page, 1 - k), [{page}], 0) == 0.0
  {
    var top := Top(Copies(page, 1 - k), k);
    assert |top| == 1 && top[0] in {page};
    assert PoolsHit([{page}], 1, top) == PoolsHit([{page}], 0, top) + 1 == 1;
    assert PoolsHit([{page}], 1, Top(Copies(page, 1 - k), 0)) == PoolsHit([{page}], 0, Top(Copies(page, 1 - k), 0)) == 0;
  }

  lemma {:induction false} PositiveIffMet(pools: seq<set<string>>, n: nat, top: seq<string>)
    requires n <= |pools|
    ensures PoolsHit(pools, n, top) > 0 <==> exists i :: 0 <= i < n && Meets(pools[i], top)
  {
    if n > 0 {
      PositiveIffMet(pools, n - 1, top);
    }
  }

  lemma {:induction false} PositiveIffHit(retrieved: seq<string>, relevant: set<string>, n: nat)
    requires n <= |retrieved|
    ensures Hits(retrieved, relevant, n) > 0 <==> exists i :: 0 <= i < n && retrieved[i] in relevant
  {
    if n > 0 {
      PositiveIffHit(retrieved, relevant, n - 1);
    }
  }

  ghost predicate FindTogether(k: int) {
    forall retrieved, pools :: Recall(retrieved, pools, k) > 0.0 <==> Precision(retrieved, Union(pools), k) > 0.0
  }

  /** Recall and precision at one cutoff find something together, or neither does, on all inputs exactly
      when the cutoff is not negative. */
  lemma RecallAndPrecisionAgree(k: int)
    ensures FindTogether(k) <==> k >= 0
  {
    if k >= 0 {
      forall retrieved, pools ensures Recall(retrieved, pools, k) > 0.0 <==> Precision(retrieved, Union(pools), k) > 0.0 {
        BothPositive(retrieved, pools, k);
      }
    } else {
      NegativeCutoff("", k);
      assert Recall(Copies("", 1 - k), [{""}], k) > 0.0 && Precision(Copies("", 1 - k), Union([{""}]), k) == 0.0;
    }
  }

  lemma {:induction false} NothingMet(pools: seq<set<string>>, n: nat)
    requires n <= |pools|
    ensures PoolsHit(pools, n, []) == 0
  {
    if n > 0 {
      NothingMet(pools, n - 1);
    }
  }

  lemma BothPositive(retrieved: seq<string>, pools: seq<set<string>>, k: nat)
    ensures Recall(retrieved, pools, k) > 0.0 <==> Precision(retrieved, Union(pools), k) > 0.0
  {
    if pools != [] && k > 0 {
      BothFind(retrieved, pools, k);
    } else {
      NothingMet(pools, |pools|);
      assert Top(retrieved, 0) == [];
      PositiveIffHit(retrieved, Union(pools), Ranks(retrieved, k));
      if k > 0 {
        PositiveShare(Hits(retrieved, Union(pools), Ranks(retrieved, k)), k);
      }
    }
  }

  lemma BothFind(retrieved: seq<string>, pools: seq<set<string>>, k: int)
    requires k > 0 && pools != []
    ensures Recall(retrieved, pools, k) > 0.0 <==> Precision(retrieved, Union(pools), k) > 0.0
  {
    var n, top := Ranks(retrieved, k), Top(retrieved, k);
    PositiveIffMet(pools, |pools|, top);
    PositiveIffHit(retrieved, Union(pools), n);
    if exists i :: 0 <= i < n && retrieved[i] in Union(pools) {
      var i :| 0 <= i < n && retrieved[i] in Union(pools);
      var p :| 0 <= p < |pools| && retrieved[i] in pools[p];
      assert top[i] in pools[p];
      assert Meets(pools[p], top);
    }
    if exists p :: 0 <= p < |pools| && Meets(pools[p], top) {
      var p :| 0 <= p < |pools| && Meets(pools[p], top);
      var i :| 0 <= i < |top| && top[i] in pools[p];
      assert retrieved[i] in Union(pools);
    }
    PositiveShare(PoolsHit(pools, |pools|, top), |pools|);
    PositiveShare(Hits(retrieved, Union(pools), n), k);
  }

  lemma PositiveShare(a: nat, n: nat)
    requires n > 0
    ensures a as real / n as real > 0.0 <==> a > 0
  {
    if a > 0 {
      assert a as real == (a as real / n as real) * n as real;
    }
  }

  // ---------------------------------------------------------------------
  // What is counted
  // ---------------------------------------------------------------------

  /** The positions before n that hold a relevant page. */
  function HitPositions(retrieved: seq<string>, relevant: set<string>, n: nat): set<nat> {
    set i: nat | i < n && i < |retrieved| && retrieved[i] in relevant
  }

  lemma {:induction false} HitsAreCounted(retrieved: seq<string>, relevant: set<string>, n: nat)
    requires n <= |retrieved|
    ensures Hits(retrieved, relevant, n) == |HitPositions(retrieved, relevant, n)|
  {
    if n > 0 {
      var j := n - 1;
      HitsAreCounted(retrieved, relevant, j);
      var before, after := HitPositions(retrieved, relevant, j), HitPositions(retrieved, relevant, n);
      assert after == if retrieved[j] in relevant then before + {j} else before;
    } else {
      assert HitPositions(retrieved, relevant, 0) == {};
    }
  }

  lemma ShareTimes(a: nat, n: nat)
    requires n > 0
    ensures a as real / n as real * n as real == a as real
  {
  }

  /** Precision is the number of positions before k with a relevant page, divided by k however few are retrieved. */
  lemma PrecisionCounts(retrieved: seq<string>, relevant: set<string>, k: int)
    ensures k <= 0 ==> Precision(retrieved, relevant, k) == 0.0
    ensures k > 0 ==> Precision(retrieved, relevant, k) * k as real == |HitPositions(retrieved, relevant, k)| as real
  {
    if k > 0 {
      var n := Ranks(retrieved, k);
      HitsAreCounted(retrieved, relevant, n);
      assert HitPositions(retrieved, relevant, n) == HitPositions(retrieved, relevant, k);
      ShareTimes(Hits(retrieved, relevant, n), k);
      if retrieved == [] {
        assert HitPositions(retrieved, relevant, k) == {};
      }
    }
  }

  /** Some of the first k pages is in the pool. */
  predicate FoundBy(retrieved: seq<string>, pool: set<string>, k: int) {
    exists i :: 0 <= i < |retrieved| && i < k && retrieved[i] in pool
  }

  function PoolsFound(retrieved: seq<string>, pools: seq<set<string>>, n: nat, k: int): set<nat>
    requires n <= |pools|
  {
    set p: nat | p < n && FoundBy(retrieved, pools[p], k)
  }

  lemma MeetsTop(retrieved: seq<string>, pool: set<string>, k: nat)
    ensures Meets(pool, Top(retrieved, k)) <==> FoundBy(retrieved, pool, k)
  {
    var top := Top(retrieved, k);
    if i :| 0 <= i < |top| && top[i] in pool {
      assert retrieved[i] in pool;
    }
    if i :| 0 <= i < |retrieved| && i < k && retrieved[i] in pool {
      assert top[i] in pool;
    }
  }

  lemma {:induction false} PoolsAreCounted(retrieved: seq<string>, pools: seq<set<string>>, n: nat, k: nat)
    requires n <= |pools|
    ensures PoolsHit(pools, n, Top(retrieved, k)) == |PoolsFound(retrieved, pools, n, k)|
  {
    if n > 0 {
      var j := n - 1;
      PoolsAreCounted(retrieved, pools, j, k);
      MeetsTop(retrieved, pools[j], k);
      var before, after := PoolsFound(retrieved, pools, j, k), PoolsFound(retrieved, pools, n, k);
      assert after == if FoundBy(retrieved, pools[j], k) then before + {j} else before;
    } else {
      assert PoolsFound(retrieved, pools, 0, k) == {};
    }
  }

  /** Recall is the share of the pools of which one of the first k pages is a member. */
  lemma RecallCounts(retrieved: seq<string>, pools: seq<set<string>>, k: nat)
    ensures pools == [] ==> Recall(retrieved, pools, k) == 0.0
    ensures Recall(retrieved, pools, k) * |pools| as real == |PoolsFound(retrieved, pools, |pools|, k)| as real
  {
    PoolsAreCounted(retrieved, pools, |pools|, k);
    if pools != [] {
      ShareTimes(PoolsHit(pools, |pools|, Top(retrieved, k)), |pools|);
    }
  }

  lemma {:induction false} DcgOfOne(retrieved: seq<string>, page: string, w: seq<real>, i: nat, n: nat)
    requires n <= |retrieved| && n <= |w|
    requires forall j :: 0 <= j < n ==> (retrieved[j] == page <==> j == i)
    ensures Dcg(retrieved, {page}, w, n) == if i < n then w[i] else 0.0
  {
    if n > 0 {
      DcgOfOne(retrieved, page, w, i, n - 1);
    }
  }

  /** With one relevant page, found once among the first k: its weight relative to that of the first rank. */
  lemma NdcgOfOne(retrieved: seq<string>, page: string, w: seq<real>, k: int, i: nat)
    requires IsDiscount(w, k) && i < |retrieved| && i < k
    requires forall j :: 0 <= j < |retrieved| && j < k ==> (retrieved[j] == page <==> j == i)
    ensures Ndcg(retrieved, {page}, w, k) == w[i] / w[0]
  {
    DcgOfOne(retrieved, page, w, i, Ranks(retrieved, k));
    assert |{page}| == 1 && IdealHits({page}, k) == 1;
    assert Idcg(w, 1) == Idcg(w, 0) + w[0];
  }
}
