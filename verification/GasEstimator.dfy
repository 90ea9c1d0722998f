/** The estimator with its cache, as the code runs it; every method is tied to GasHistory. */
module GasEstimator {
  import opened Prelude
  import opened Ledger
  import opened BlockPrice
  import opened Estimate
  import opened GasHistory

  /** What the gas schedule and execution config of an epoch say. */
  datatype EpochSettings = EpochSettings(minGas: nat, exec: ExecConfig)

  function NodeOf(cfg: Config, settings: nat -> EpochSettings): Node {
    Node(cfg, (e: nat) => OnChain(settings(e).minGas, (ts: seq<Txn>) => InclusionOf(cfg, settings(e).exec, ts)))
  }

  class Estimator {
    const cfg: Config
    const settings: nat -> EpochSettings
    var lastUpdatedEpoch: Option<nat>
    var estimation: Option<GasEstimation>
    var minInclusionPrices: map<Key, nat>
    var poisoned: bool

    constructor (cfg: Config, settings: nat -> EpochSettings)
      ensures this.cfg == cfg && this.settings == settings && State() == EmptyCache
    {
      this.cfg := cfg;
      this.settings := settings;
      lastUpdatedEpoch, estimation, minInclusionPrices, poisoned := None, None, map[], false;
    }

    function State(): Cache
      reads this
    {
      Cache(lastUpdatedEpoch, estimation, minInclusionPrices, poisoned)
    }

    /** Steps back over blocks until a cached one, another epoch, a failed read or the limit. */
    method WalkNewBlocks(call: Call) returns (w: WalkResult)
      requires ValidCall(call)
      ensures w == Walk(call, minInclusionPrices, StartVersion(call), cfg.aggressiveHistory)
    {
      var n := cfg.aggressiveHistory;
      var lookup := call.version;
      if !call.faults.tip {
        var tip := call.chain.blocks[BlockIndex(call.chain, lookup)];
        if tip.epoch == call.epoch {
          lookup := SaturatingSub(tip.first, 1);
        }
      }
      var found: seq<nat> := [];
      ghost var all := Walk(call, minInclusionPrices, StartVersion(call), n);
      ExtendNothing(all);
      var i := 0;
      while i < n
        invariant i <= n
        invariant all == Extend(found, Walk(call, minInclusionPrices, lookup, n - i))
      {
        if (call.epoch, lookup) in minInclusionPrices {
          assert found + [] == found;
          return WalkResult(found, true, lookup);
        }
        var b := BlockInfo(call, lookup);
        if b.None? || call.chain.blocks[b.value].epoch != call.epoch {
          assert found + [] == found;
          return WalkResult(found, false, lookup);
        }
        var next := SaturatingSub(call.chain.blocks[b.value].first, 1);
        WalkOneBlock(call, minInclusionPrices, lookup, n - i, b.value, next);
        ExtendOne(found, b.value, Walk(call, minInclusionPrices, next, n - i - 1));
        lookup := next;
        found := found + [b.value];
        if lookup == 0 {
          ExtendOne(found[..|found| - 1], b.value, WalkResult([], false, 0));
          return WalkResult(found, false, lookup);
        }
        i := i + 1;
      }
      assert found + [] == found;
      w := WalkResult(found, false, lookup);
    }

    /** The price of one block, or None when the scan panics. */
    method PriceBlock(call: Call, i: nat) returns (p: Option<nat>)
      requires ValidCall(call) && i < |call.chain.blocks|
      ensures p == PriceOf(NodeOf(cfg, settings), call, i)
    {
      var s := settings(call.epoch);
      if i in call.faults.scans {
        return Some(s.minGas);
      }
      var b := call.chain.blocks[i];
      var r := BlockMinInclusionPrice(cfg, s.exec, call.chain, call.faults.items, call.version, b.first, b.last);
      match r {
        case Panics => p := None;
        case NoMinimum => p := Some(s.minGas);
        case Minimum(price) => p := Some(price);
      }
    }

    /** Prices the found blocks and records them. */
    method PriceNewBlocks(call: Call, found: seq<nat>) returns (prices: Option<seq<nat>>)
      requires ValidCall(call) && BlocksOf(call.chain, found)
      modifies this`minInclusionPrices
      ensures var f := Fill(NodeOf(cfg, settings), call, old(minInclusionPrices), found);
              if f.None?
              then prices.None? && minInclusionPrices == FilledUntilPanic(NodeOf(cfg, settings), call, old(minInclusionPrices), found)
              else prices == Some(f.value.prices) && minInclusionPrices == f.value.cache
    {
      ghost var node := NodeOf(cfg, settings);
      ghost var all := Fill(node, call, minInclusionPrices, found);
      ghost var partial := FilledUntilPanic(node, call, minInclusionPrices, found);
      var priced: seq<nat> := [];
      assert found[0..] == found;
      PrependNothing(all);
      var i := 0;
      while i < |found|
        invariant i <= |found| && BlocksOf(call.chain, found[i..])
        invariant all == Prepend(priced, Fill(node, call, minInclusionPrices, found[i..]))
        invariant partial == FilledUntilPanic(node, call, minInclusionPrices, found[i..])
      {
        var p := PriceBlock(call, found[i]);
        if p.None? {
          return None;
        }
        assert found[i..][1..] == found[i + 1..];
        PrependOne(priced, p.value, Fill(node, call, minInclusionPrices[EndKey(call, found[i]) := p.value], found[i + 1..]));
        minInclusionPrices := minInclusionPrices[EndKey(call, found[i]) := p.value];
        priced := priced + [p.value];
        i := i + 1;
      }
      assert priced + [] == priced;
      prices := Some(priced);
    }

    /** Cached prices from the hit downwards, at most `limit` of them. */
    method CachedPrices(epoch: nat, lookup: nat, limit: nat) returns (prices: seq<nat>)
      ensures prices == Take(RangeDown(minInclusionPrices, epoch, lookup), limit)
    {
      prices := [];
      var v: int := lookup;
      ghost var all := RangeDown(minInclusionPrices, epoch, lookup);
      while v >= 0 && |prices| < limit
        invariant -1 <= v && |prices| <= limit
        invariant all == prices + RangeDown(minInclusionPrices, epoch, v)
      {
        if (epoch, v) in minInclusionPrices {
          assert prices + ([minInclusionPrices[(epoch, v)]] + RangeDown(minInclusionPrices, epoch, v - 1))
              == (prices + [minInclusionPrices[(epoch, v)]]) + RangeDown(minInclusionPrices, epoch, v - 1);
          prices := prices + [minInclusionPrices[(epoch, v)]];
        } else {
          assert [] + RangeDown(minInclusionPrices, epoch, v - 1) == RangeDown(minInclusionPrices, epoch, v - 1);
        }
        v := v - 1;
      }
    }

    /** Drops the oldest entries beyond the history length. */
    method EvictOldest()
      modifies this`minInclusionPrices
      ensures minInclusionPrices == Evict(old(minInclusionPrices), cfg.aggressiveHistory)
    {
      while |minInclusionPrices| > cfg.aggressiveHistory
        invariant Evict(minInclusionPrices, cfg.aggressiveHistory) == Evict(old(minInclusionPrices), cfg.aggressiveHistory)
        decreases |minInclusionPrices|
      {
        FirstKeyExists(minInclusionPrices);
        var first :| first in minInclusionPrices && forall j :: j in minInclusionPrices ==> KeyLeq(first, j);
        FirstKeyUnique(minInclusionPrices, first);
        assert |minInclusionPrices.Keys - {first}| == |minInclusionPrices| - 1;
        assert (minInclusionPrices - {first}).Keys == minInclusionPrices.Keys - {first};
        minInclusionPrices := minInclusionPrices - {first};
      }
    }

    /** New prices and, below a hit, cached ones; None when a scan panics. */
    method ListPrices(call: Call, w: WalkResult) returns (prices: Option<seq<nat>>)
      requires ValidCall(call) && BlocksOf(call.chain, w.found) && |w.found| <= cfg.aggressiveHistory
      modifies this`minInclusionPrices
      ensures var r := Record(NodeOf(cfg, settings), call, old(minInclusionPrices), w);
              if r.None?
              then prices.None? && minInclusionPrices == FilledUntilPanic(NodeOf(cfg, settings), call, old(minInclusionPrices), w.found)
              else prices == Some(r.value.prices) && minInclusionPrices == r.value.cache
    {
      prices := PriceNewBlocks(call, w.found);
      if prices.Some? && w.hit {
        var cached := CachedPrices(call.epoch, w.lookup, cfg.aggressiveHistory - |w.found|);
        prices := Some(prices.value + cached);
      }
    }

    /** Prices what the walk found, computes the estimates, evicts and stores. */
    method UpdateEstimate(call: Call, w: WalkResult, minGas: nat) returns (reply: Reply)
      requires ValidCall(call) && BlocksOf(call.chain, w.found) && |w.found| <= cfg.aggressiveHistory
      requires !poisoned && minGas == settings(call.epoch).minGas
      modifies this
      ensures (State(), reply) == Finish(NodeOf(cfg, settings), old(State()), call, old(minInclusionPrices), w)
    {
      var default := DefaultEstimation(cfg, minGas);
      if w.found == [] && !w.hit {
        lastUpdatedEpoch, estimation := Some(call.epoch), Some(default);
        return Computed(default);
      }
      var prices := ListPrices(call, w);
      if prices.None? {
        poisoned := true;
        return Panicked;
      }
      var est := FromPrices(cfg, minGas, prices.value);
      if est.None? {
        return Computed(default);
      }
      EvictOldest();
      lastUpdatedEpoch, estimation := Some(call.epoch), est;
      reply := Computed(est.value);
    }

    /** One request. A panic while the write lock is held poisons the lock for good. */
    method EstimateGasPrice(call: Call) returns (reply: Reply)
      requires ValidCall(call)
      modifies this
      ensures (State(), reply) == Step(NodeOf(cfg, settings), old(State()), call)
      ensures reply.Served? <==>
              && !call.faults.settings && cfg.enabled && cfg.staticOverride.None? && !old(poisoned)
              && old(lastUpdatedEpoch) == Some(call.epoch) && old(estimation).Some? && call.stillFresh
      ensures reply.Served? ==> Some(reply.estimation) == old(estimation) && State() == old(State())
    {
      if call.faults.settings {
        return ReadFailed;
      }
      var minGas := settings(call.epoch).minGas;
      if !cfg.enabled {
        return Fixed(DefaultEstimation(cfg, minGas));
      }
      if cfg.staticOverride.Some? {
        return Fixed(cfg.staticOverride.value);
      }
      if poisoned {
        return Panicked;
      }
      if lastUpdatedEpoch == Some(call.epoch) && estimation.Some? && call.stillFresh {
        return Served(estimation.value);
      }
      if lastUpdatedEpoch.Some? && lastUpdatedEpoch.value != call.epoch {
        minInclusionPrices := map[];
      }
      var w := WalkNewBlocks(call);
      FinishIgnoresPrices(NodeOf(cfg, settings), old(State()), State(), call, minInclusionPrices, w);
      reply := UpdateEstimate(call, w, minGas);
    }
  }

  lemma FinishIgnoresPrices(node: Node, st: Cache, st': Cache, call: Call, m: map<Key, nat>, w: WalkResult)
    requires ValidCall(call) && BlocksOf(call.chain, w.found) && |w.found| <= node.cfg.aggressiveHistory
    requires st' == st.(prices := st'.prices)
    ensures Finish(node, st', call, m, w) == Finish(node, st, call, m, w)
  {
  }

  // ---------------------------------------------------------------- what the loop invariants say

  /** A walk whose first part has found the given blocks. */
  ghost function Extend(found: seq<nat>, w: WalkResult): WalkResult {
    WalkResult(found + w.found, w.hit, w.lookup)
  }

  lemma ExtendNothing(w: WalkResult)
    ensures Extend([], w) == w
  {
    assert [] + w.found == w.found;
  }

  lemma ExtendOne(found: seq<nat>, b: nat, w: WalkResult)
    ensures Extend(found, Extend([b], w)) == Extend(found + [b], w)
    ensures Extend(found, WalkResult([b], w.hit, w.lookup)) == WalkResult(found + [b], w.hit, w.lookup)
  {
    assert found + ([b] + w.found) == (found + [b]) + w.found;
  }

  lemma WalkOneBlock(call: Call, m: map<Key, nat>, v: nat, n: nat, b: nat, next: nat)
    requires ValidCall(call) && n > 0 && (call.epoch, v) !in m && BlockInfo(call, v) == Some(b)
    requires call.chain.blocks[b].epoch == call.epoch && next == SaturatingSub(call.chain.blocks[b].first, 1)
    ensures Walk(call, m, v, n)
         == if next == 0 then WalkResult([b], false, 0) else Extend([b], Walk(call, m, next, n - 1))
  {
  }

  lemma FirstKeyUnique(m: map<Key, nat>, k: Key)
    requires IsFirstKey(m, k)
    ensures |m| > 0 && FirstKey(m) == k
  {
    assert k in m.Keys;
    assert KeyLeq(k, FirstKey(m)) && KeyLeq(FirstKey(m), k);
  }

  lemma PrependNothing(f: Option<Filled>)
    ensures Prepend([], f) == f
  {
    if f.Some? {
      assert [] + f.value.prices == f.value.prices;
    }
  }

  ghost function Prepend(xs: seq<nat>, f: Option<Filled>): Option<Filled> {
    if f.None? then None else Some(Filled(xs + f.value.prices, f.value.cache))
  }

  lemma PrependOne(xs: seq<nat>, x: nat, f: Option<Filled>)
    ensures Prepend(xs, Prepend([x], f)) == Prepend(xs + [x], f)
  {
    if f.Some? {
      assert xs + ([x] + f.value.prices) == (xs + [x]) + f.value.prices;
    }
  }
}
