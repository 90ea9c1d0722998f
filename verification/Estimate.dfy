/** From a list of block prices (newest first) to the low, market and aggressive estimates. */
module Estimate {
  import opened Prelude
  import opened BlockPrice

  // ---------------------------------------------------------------- order statistics

  predicate Ascending(s: seq<nat>) {
    forall i, j :: 0 <= i < j < |s| ==> s[i] <= s[j]
  }

  function Insert(x: nat, s: seq<nat>): seq<nat> {
    if s == [] || x <= s[0] then [x] + s else [s[0]] + Insert(x, s[1..])
  }

  /** Vec::sort. */
  function Sort(s: seq<nat>): (r: seq<nat>) {
    if s == [] then [] else Insert(s[0], Sort(s[1..]))
  }

  function CountBelow(s: seq<nat>, v: nat): nat {
    if s == [] then 0 else (if s[0] < v then 1 else 0) + CountBelow(s[1..], v)
  }

  function CountUpTo(s: seq<nat>, v: nat): (n: nat)
    ensures n <= |s|
  {
    if s == [] then 0 else (if s[0] <= v then 1 else 0) + CountUpTo(s[1..], v)
  }

  /** v is the element with k elements before it when s is put in order. */
  predicate IsRank(s: seq<nat>, k: nat, v: nat) {
    v in s && CountBelow(s, v) <= k < CountUpTo(s, v)
  }

  lemma {:induction false} RankUnique(s: seq<nat>, k: nat, v: nat, w: nat)
    requires IsRank(s, k, v) && IsRank(s, k, w)
    ensures v == w
  {
    if v < w {
      CountsApart(s, v, w);
    } else if w < v {
      CountsApart(s, w, v);
    }
  }

  lemma {:induction false} CountsApart(s: seq<nat>, v: nat, w: nat)
    requires v < w
    ensures CountUpTo(s, v) <= CountBelow(s, w)
  {
    if s != [] {
      CountsApart(s[1..], v, w);
    }
  }

  lemma {:induction false} InsertKeepsElements(x: nat, s: seq<nat>)
    ensures |Insert(x, s)| == |s| + 1
    ensures forall y :: y in Insert(x, s) <==> y == x || y in s
  {
    if s != [] && s[0] < x {
      InsertKeepsElements(x, s[1..]);
      assert s == [s[0]] + s[1..];
    }
  }

  lemma {:induction false} InsertAscending(x: nat, s: seq<nat>)
    requires Ascending(s)
    ensures Ascending(Insert(x, s))
  {
    if s != [] && s[0] < x {
      InsertAscending(x, s[1..]);
      InsertKeepsElements(x, s[1..]);
      var r := Insert(x, s[1..]);
      forall i | 0 <= i < |r| ensures s[0] <= r[i] {
        assert r[i] in r;
      }
    }
  }

  lemma {:induction false} InsertCounts(x: nat, s: seq<nat>, v: nat)
    ensures CountBelow(Insert(x, s), v) == CountBelow(s, v) + if x < v then 1 else 0
    ensures CountUpTo(Insert(x, s), v) == CountUpTo(s, v) + if x <= v then 1 else 0
  {
    if s == [] || x <= s[0] {
      assert ([x] + s)[1..] == s;
    } else {
      InsertCounts(x, s[1..], v);
      assert ([s[0]] + Insert(x, s[1..]))[1..] == Insert(x, s[1..]);
    }
  }

  lemma {:induction false} SortFacts(s: seq<nat>, v: nat)
    ensures Ascending(Sort(s)) && |Sort(s)| == |s|
    ensures forall y :: y in Sort(s) <==> y in s
    ensures CountBelow(Sort(s), v) == CountBelow(s, v)
    ensures CountUpTo(Sort(s), v) == CountUpTo(s, v)
  {
    if s != [] {
      SortFacts(s[1..], v);
      InsertKeepsElements(s[0], Sort(s[1..]));
      InsertAscending(s[0], Sort(s[1..]));
      InsertCounts(s[0], Sort(s[1..]), v);
      assert s == [s[0]] + s[1..];
    }
  }

  lemma {:induction false} CountsInOrder(s: seq<nat>, k: nat)
    requires Ascending(s) && k < |s|
    ensures CountBelow(s, s[k]) <= k < CountUpTo(s, s[k])
  {
    if k > 0 {
      CountsInOrder(s[1..], k - 1);
    } else {
      NoneBelow(s, s[0]);
    }
  }

  lemma {:induction false} NoneBelow(s: seq<nat>, v: nat)
    requires forall i :: 0 <= i < |s| ==> v <= s[i]
    ensures CountBelow(s, v) == 0
  {
    if s != [] {
      NoneBelow(s[1..], v);
    }
  }

  /** Position k of the sorted list holds the rank-k element. */
  lemma SortedRank(s: seq<nat>, k: nat)
    requires k < |s|
    ensures |Sort(s)| == |s| && IsRank(s, k, Sort(s)[k])
  {
    SortFacts(s, 0);
    SortFacts(s, Sort(s)[k]);
    CountsInOrder(Sort(s), k);
  }

  lemma {:induction false} CountUpToMonotone(s: seq<nat>, v: nat, w: nat)
    requires v <= w
    ensures CountUpTo(s, v) <= CountUpTo(s, w)
  {
    if s != [] {
      CountUpToMonotone(s[1..], v, w);
    }
  }

  // ---------------------------------------------------------------- the three estimates

  function Smallest(s: seq<nat>): (m: nat)
    requires s != []
    ensures m in s && forall i :: 0 <= i < |s| ==> m <= s[i]
  {
    if |s| == 1 then s[0] else Min(s[0], Smallest(s[1..]))
  }

  function DefaultEstimation(cfg: Config, minGas: nat): GasEstimation {
    GasEstimation(minGas, minGas, NextBucket(cfg.buckets, minGas))
  }

  function LowPrice(cfg: Config, minGas: nat, prices: seq<nat>): nat {
    var recent := Take(prices, cfg.lowHistory);
    if recent == [] then minGas else Smallest(recent)
  }

  /**
   The estimates for a price list; None is the "prices empty" error path, which answers with
   the default and leaves the cache untouched.
   */
  function FromPrices(cfg: Config, minGas: nat, prices: seq<nat>): Option<GasEstimation> {
    var low := LowPrice(cfg, minGas, prices);
    var latest := Sort(Take(prices, cfg.marketHistory));
    var all := Sort(prices);
    if |latest| / 2 >= |latest| || |all| * 9 / 10 >= |all| then None
    else
      var market := Max(low, latest[|latest| / 2]);
      Some(GasEstimation(low, market, NextBucket(cfg.buckets, Max(market, all[|all| * 9 / 10]))))
  }

  /** The error path is reached only with an empty market window or no price at all. */
  lemma FromPricesDefined(cfg: Config, minGas: nat, prices: seq<nat>)
    ensures FromPrices(cfg, minGas, prices).None? <==> prices == [] || cfg.marketHistory == 0
  {
    SortFacts(Take(prices, cfg.marketHistory), 0);
    SortFacts(prices, 0);
  }

  /** low <= market <= aggressive, for computed and default estimates alike. */
  lemma EstimatesOrdered(cfg: Config, minGas: nat, prices: seq<nat>)
    ensures FromPrices(cfg, minGas, prices).Some? ==>
              var e := FromPrices(cfg, minGas, prices).value; e.low <= e.market <= e.aggressive
    ensures var d := DefaultEstimation(cfg, minGas); d.low <= d.market <= d.aggressive
  {
  }

  /** low is the smallest price of the low window, or the minimum gas price when that is empty. */
  predicate IsLow(cfg: Config, minGas: nat, prices: seq<nat>, low: nat) {
    var recent := Take(prices, cfg.lowHistory);
    if recent == [] then low == minGas else low in recent && forall i :: 0 <= i < |recent| ==> low <= recent[i]
  }

  lemma LowIsSmallest(cfg: Config, minGas: nat, prices: seq<nat>)
    ensures FromPrices(cfg, minGas, prices).Some? ==> IsLow(cfg, minGas, prices, FromPrices(cfg, minGas, prices).value.low)
  {
  }

  /**
   The low estimate is the smallest price of its window, the market estimate the larger of low and
   the exact upper median of its window, and the aggressive one the rounded larger of market and
   the exact 9/10 quantile of the history.
   */
  lemma EstimatesAreQuantiles(cfg: Config, minGas: nat, prices: seq<nat>, low: nat, median: nat, p90: nat)
    requires FromPrices(cfg, minGas, prices).Some? && IsLow(cfg, minGas, prices, low)
    requires IsRank(Take(prices, cfg.marketHistory), |Take(prices, cfg.marketHistory)| / 2, median)
    requires IsRank(prices, |prices| * 9 / 10, p90)
    ensures FromPrices(cfg, minGas, prices).value
         == GasEstimation(low, Max(low, median), NextBucket(cfg.buckets, Max(Max(low, median), p90)))
  {
    FromPricesDefined(cfg, minGas, prices);
    LowIsSmallest(cfg, minGas, prices);
    var recent := Take(prices, cfg.marketHistory);
    SortedRank(recent, |recent| / 2);
    RankUnique(recent, |recent| / 2, median, Sort(recent)[|recent| / 2]);
    SortedRank(prices, |prices| * 9 / 10);
    RankUnique(prices, |prices| * 9 / 10, p90, Sort(prices)[|prices| * 9 / 10]);
  }

  /** The default is the minimum gas price twice, and the first bucket above it. */
  lemma DefaultIsMinimum(cfg: Config, minGas: nat)
    ensures var d := DefaultEstimation(cfg, minGas);
            && d.low == d.market == minGas
            && (d.aggressive == minGas <==> forall i :: 0 <= i < |cfg.buckets| ==> cfg.buckets[i] <= minGas)
            && (d.aggressive != minGas ==>
                  exists i :: 0 <= i < |cfg.buckets| && d.aggressive == cfg.buckets[i] > minGas
                              && forall j :: 0 <= j < i ==> cfg.buckets[j] <= minGas)
  {
  }

  /** More than half of the market window is at most market, and nine tenths at most aggressive. */
  lemma EstimatesCover(cfg: Config, minGas: nat, prices: seq<nat>)
    requires FromPrices(cfg, minGas, prices).Some?
    ensures var e := FromPrices(cfg, minGas, prices).value;
            var recent := Take(prices, cfg.marketHistory);
            && 2 * CountUpTo(recent, e.market) > |recent|
            && 10 * CountUpTo(prices, e.aggressive) > 9 * |prices|
  {
    FromPricesDefined(cfg, minGas, prices);
    var e := FromPrices(cfg, minGas, prices).value;
    var recent := Take(prices, cfg.marketHistory);
    SortedRank(recent, |recent| / 2);
    CountUpToMonotone(recent, Sort(recent)[|recent| / 2], e.market);
    SortedRank(prices, |prices| * 9 / 10);
    CountUpToMonotone(prices, Sort(prices)[|prices| * 9 / 10], e.aggressive);
  }
}
