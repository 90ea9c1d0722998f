/**
 One estimation request as a function of the cache: the backward walk over blocks, the use of
 cached prices, and eviction. The class in GasEstimator.dfy refines these functions.
 */
module GasHistory {
  import opened Prelude
  import opened Ledger
  import opened BlockPrice
  import opened Estimate

  /** (epoch, last version of a block) */
  type Key = (nat, nat)

  /**
   The on-chain settings of one epoch: the minimum gas price, and the price that its execution
   configuration gives a block from the transactions scanned.
   */
  datatype OnChain = OnChain(minGas: nat, inclusion: seq<Txn> -> Inclusion)

  /** Node settings, and the on-chain settings, which are constant within an epoch. */
  datatype Node = Node(cfg: Config, onChain: nat -> OnChain)

  /**
   What fails during one request: reading the on-chain settings, the first read of the tip's
   block, block reads of the walk, whole transaction scans, and single items inside a scan.
   */
  datatype Faults = Faults(settings: bool, tip: bool, blocks: set<nat>, scans: set<nat>, items: ReadErrors)

  const NoFaults := Faults(false, false, {}, {}, NoReadErrors)

  /**
   One request at its linearisation point (the read lock that serves it, or the write lock):
   the storage at that moment, the caller's ledger version and epoch, whether the stored
   estimate is still fresh, and the faults it meets.
   */
  datatype Call = Call(chain: Chain, version: nat, epoch: nat, stillFresh: bool, faults: Faults)

  datatype Cache = Cache(
    lastEpoch: Option<nat>,
    estimation: Option<GasEstimation>,
    prices: map<Key, nat>,
    poisoned: bool)

  datatype Reply =
    | Panicked
    | ReadFailed                           // the on-chain settings cannot be read
    | Fixed(estimation: GasEstimation)     // estimation disabled or overridden
    | Served(estimation: GasEstimation)    // still fresh
    | Computed(estimation: GasEstimation)

  const EmptyCache := Cache(None, None, map[], false)

  predicate ValidCall(call: Call) {
    ValidChain(call.chain) && call.version < |call.chain.txns|
  }

  /** The index of the block that contains the caller's ledger version. */
  function Tip(call: Call): (t: nat)
    requires ValidCall(call)
    ensures t < |call.chain.blocks| && call.chain.blocks[t].first <= call.version <= call.chain.blocks[t].last
  {
    BlockIndex(call.chain, call.version)
  }

  /** get_block_info_by_version inside the walk: the block's index, or None when the read fails. */
  function BlockInfo(call: Call, v: nat): (r: Option<nat>)
    requires ValidCall(call)
    ensures r.Some? ==> v < |call.chain.txns| && r.value == BlockIndex(call.chain, v)
  {
    if v < |call.chain.txns| && BlockIndex(call.chain, v) !in call.faults.blocks
    then Some(BlockIndex(call.chain, v)) else None
  }

  predicate BlocksOf(c: Chain, s: seq<nat>) {
    forall j :: 0 <= j < |s| ==> s[j] < |c.blocks|
  }

  /** The version the walk starts from: the tip's block may be partial, so it is skipped. */
  function StartVersion(call: Call): nat
    requires ValidCall(call)
  {
    var b := call.chain.blocks[Tip(call)];
    if !call.faults.tip && b.epoch == call.epoch then SaturatingSub(b.first, 1) else call.version
  }

  /** Uncached blocks found, newest first; whether a cached block ended the walk; its version. */
  datatype WalkResult = WalkResult(found: seq<nat>, hit: bool, lookup: nat)

  function Walk(call: Call, m: map<Key, nat>, v: nat, n: nat): (w: WalkResult)
    requires ValidCall(call)
    ensures |w.found| <= n
    ensures BlocksOf(call.chain, w.found)
    ensures w.hit ==> (call.epoch, w.lookup) in m && |w.found| < n
  {
    if n == 0 then WalkResult([], false, v)
    else if (call.epoch, v) in m then WalkResult([], true, v)
    else
      var b := BlockInfo(call, v);
      if b.None? || call.chain.blocks[b.value].epoch != call.epoch then WalkResult([], false, v)
      else
        var next := SaturatingSub(call.chain.blocks[b.value].first, 1);
        if next == 0 then WalkResult([b.value], false, next)
        else
          var w := Walk(call, m, next, n - 1);
          WalkResult([b.value] + w.found, w.hit, w.lookup)
  }

  /** The price recorded for block i; None when the scan panics. */
  function PriceOf(node: Node, call: Call, i: nat): Option<nat>
    requires ValidCall(call) && i < |call.chain.blocks|
  {
    var settings := node.onChain(call.epoch);
    if i in call.faults.scans then Some(settings.minGas)
    else
      match settings.inclusion(BlockWindow(call.chain, call.faults.items, call.version, i))
      case Panics => None
      case NoMinimum => Some(settings.minGas)
      case Minimum(p) => Some(p)
  }

  function EndKey(call: Call, i: nat): Key
    requires i < |call.chain.blocks|
  {
    (call.epoch, call.chain.blocks[i].last)
  }

  datatype Filled = Filled(prices: seq<nat>, cache: map<Key, nat>)

  /** Prices the found blocks in order and records each in the map; None when a scan panics. */
  function Fill(node: Node, call: Call, m: map<Key, nat>, found: seq<nat>): Option<Filled>
    requires ValidCall(call) && BlocksOf(call.chain, found)
    decreases |found|
  {
    if found == [] then Some(Filled([], m))
    else
      var p := PriceOf(node, call, found[0]);
      if p.None? then None
      else
        var rest := Fill(node, call, m[EndKey(call, found[0]) := p.value], found[1..]);
        if rest.None? then None
        else Some(Filled([p.value] + rest.value.prices, rest.value.cache))
  }

  /** The map when a scan panics: the blocks before it are already recorded. */
  function FilledUntilPanic(node: Node, call: Call, m: map<Key, nat>, found: seq<nat>): map<Key, nat>
    requires ValidCall(call) && BlocksOf(call.chain, found)
    decreases |found|
  {
    if found == [] || PriceOf(node, call, found[0]).None? then m
    else FilledUntilPanic(node, call, m[EndKey(call, found[0]) := PriceOf(node, call, found[0]).value], found[1..])
  }

  /** The values of epoch e at versions v, v-1, ..., 0 that are in the map (range, reversed). */
  function RangeDown(m: map<Key, nat>, e: nat, v: int): seq<nat>
    requires v >= -1
    decreases v
  {
    if v < 0 then []
    else (if (e, v) in m then [m[(e, v)]] else []) + RangeDown(m, e, v - 1)
  }

  predicate KeyLeq(a: Key, b: Key) {
    a.0 < b.0 || (a.0 == b.0 && a.1 <= b.1)
  }

  ghost predicate IsFirstKey(m: map<Key, nat>, k: Key) {
    k in m && forall j :: j in m ==> KeyLeq(k, j)
  }

  lemma {:induction false} LeastKey(s: set<Key>) returns (k: Key)
    requires s != {}
    ensures k in s && forall j :: j in s ==> KeyLeq(k, j)
    decreases s
  {
    k :| k in s;
    if s != {k} {
      var first := k;
      var j := LeastKey(s - {first});
      if !KeyLeq(first, j) {
        k := j;
      }
      forall i | i in s ensures KeyLeq(k, i) {
        assert i == first || i in s - {first};
      }
    }
  }

  lemma FirstKeyExists(m: map<Key, nat>)
    requires |m| > 0
    ensures exists k :: IsFirstKey(m, k)
  {
    var k := LeastKey(m.Keys);
    assert IsFirstKey(m, k);
  }

  ghost function FirstKey(m: map<Key, nat>): (k: Key)
    requires |m| > 0
    ensures IsFirstKey(m, k)
  {
    FirstKeyExists(m);
    var k :| IsFirstKey(m, k);
    k
  }

  /** pop_first until at most n entries are left. */
  ghost function Evict(m: map<Key, nat>, n: nat): (r: map<Key, nat>)
    ensures |r| == Min(|m|, n)
    ensures forall k :: k in r ==> k in m && r[k] == m[k]
    decreases |m|
  {
    if |m| <= n then m else
      assert |m.Keys - {FirstKey(m)}| == |m| - 1;
      assert (m - {FirstKey(m)}).Keys == m.Keys - {FirstKey(m)};
      Evict(m - {FirstKey(m)}, n)
  }

  /** New prices, then cached ones from the hit downwards, up to the history length. */
  function PriceList(node: Node, call: Call, w: WalkResult, f: Filled): seq<nat>
    requires |w.found| <= node.cfg.aggressiveHistory
  {
    if w.hit
    then f.prices + Take(RangeDown(f.cache, call.epoch, w.lookup), node.cfg.aggressiveHistory - |w.found|)
    else f.prices
  }

  /** The price list and the map after the found blocks are recorded; None when a scan panics. */
  function Record(node: Node, call: Call, m: map<Key, nat>, w: WalkResult): Option<Filled>
    requires ValidCall(call) && BlocksOf(call.chain, w.found) && |w.found| <= node.cfg.aggressiveHistory
  {
    var f := Fill(node, call, m, w.found);
    if f.None? then None
    else Some(Filled(PriceList(node, call, w, f.value), f.value.cache))
  }

  predicate ServesStored(st: Cache, call: Call) {
    st.lastEpoch == Some(call.epoch) && st.estimation.Some? && call.stillFresh
  }

  /** The map after the epoch check at the start of the write section. */
  function Prepared(st: Cache, call: Call): map<Key, nat> {
    if st.lastEpoch.Some? && st.lastEpoch.value != call.epoch then map[] else st.prices
  }

  /** The write section once the walk is done. */
  ghost function Finish(node: Node, st: Cache, call: Call, m: map<Key, nat>, w: WalkResult): (Cache, Reply)
    requires ValidCall(call) && BlocksOf(call.chain, w.found) && |w.found| <= node.cfg.aggressiveHistory
  {
    var minGas := node.onChain(call.epoch).minGas;
    var default := DefaultEstimation(node.cfg, minGas);
    if w.found == [] && !w.hit then (Cache(Some(call.epoch), Some(default), m, false), Computed(default))
    else
      var built := Record(node, call, m, w);
      if built.None? then (st.(prices := FilledUntilPanic(node, call, m, w.found), poisoned := true), Panicked)
      else
        var est := FromPrices(node.cfg, minGas, built.value.prices);
        if est.None? then (st.(prices := built.value.cache), Computed(default))
        else
          var kept := Evict(built.value.cache, node.cfg.aggressiveHistory);
          (Cache(Some(call.epoch), est, kept, false), Computed(est.value))
  }

  /** The whole request. */
  ghost function Step(node: Node, st: Cache, call: Call): (Cache, Reply)
    requires ValidCall(call)
  {
    if call.faults.settings then (st, ReadFailed)
    else if !node.cfg.enabled then (st, Fixed(DefaultEstimation(node.cfg, node.onChain(call.epoch).minGas)))
    else if node.cfg.staticOverride.Some? then (st, Fixed(node.cfg.staticOverride.value))
    else if st.poisoned then (st, Panicked)
    else if ServesStored(st, call) then (st, Served(st.estimation.value))
    else
      var m := Prepared(st, call);
      Finish(node, st, call, m, Walk(call, m, StartVersion(call), node.cfg.aggressiveHistory))
  }

  // ---------------------------------------------------------------- the cache-free reference

  /** t-1, t-2, ..., t-k */
  function Down(t: nat, k: nat): (s: seq<nat>)
    requires k <= t
    ensures |s| == k && forall j :: 0 <= j < k ==> s[j] == t - 1 - j
  {
    seq(k, j requires 0 <= j < k => t - 1 - j)
  }

  /**
   The blocks an estimate is about: the newest n complete blocks of the caller's epoch before
   the tip's block (genesis stands for itself while it is the tip).
   */
  function History(c: Chain, epoch: nat, version: nat, n: nat): (h: seq<nat>)
    requires ValidChain(c) && version < |c.txns|
    ensures BlocksOf(c, h) && |h| <= n
  {
    var t := BlockIndex(c, version);
    if c.blocks[t].epoch != epoch then []
    else if t == 0 then Take([0], n)
    else Down(t, Min(n, t - EpochStart(c, t)))
  }

  /** The prices of the given blocks, in order; None when a scan panics. */
  function PricesOf(node: Node, call: Call, blocks: seq<nat>): (r: Option<seq<nat>>)
    requires ValidCall(call) && BlocksOf(call.chain, blocks)
    ensures r.Some? ==> |r.value| == |blocks|
    decreases |blocks|
  {
    if blocks == [] then Some([])
    else
      var p := PriceOf(node, call, blocks[0]);
      var rest := PricesOf(node, call, blocks[1..]);
      if p.None? || rest.None? then None else Some([p.value] + rest.value)
  }

  /** The same request when nothing fails. */
  function Clean(call: Call): Call {
    call.(faults := NoFaults)
  }

  /** What the request would answer if it priced the whole history itself. */
  function Reference(node: Node, call: Call): Reply
    requires ValidCall(call)
  {
    var minGas := node.onChain(call.epoch).minGas;
    var default := Computed(DefaultEstimation(node.cfg, minGas));
    var h := History(call.chain, call.epoch, call.version, node.cfg.aggressiveHistory);
    var prices := PricesOf(node, call, h);
    if prices.None? then Panicked
    else if prices.value == [] then default
    else
      var est := FromPrices(node.cfg, minGas, prices.value);
      if est.None? then default else Computed(est.value)
  }
}
