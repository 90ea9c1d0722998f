/**
 Concrete requests, on a configuration a node can have, whose replies differ from the reference:
 a stale caller, a failed block read, and a failed first read of the tip's block.
 */
module GasWitnesses {
  import opened Prelude
  import opened Ledger
  import opened BlockPrice
  import opened Estimate
  import opened GasHistory
  import opened GasEstimator

  /** Genesis, a block with two user transactions at 7 and 2, and three blocks of one transaction. */
  const SampleChain: Chain := Chain(
    [Block(0, 0, 0, 0), Block(1, 4, 1, 0), Block(5, 5, 1, 0), Block(6, 6, 1, 0), Block(7, 7, 1, 0)],
    [OtherTxn, UserTxn(7, 0, OtherUseCase(0)), OtherTxn, UserTxn(2, 0, OtherUseCase(0)), OtherTxn, OtherTxn, OtherTxn, OtherTxn])

  const SampleSettings: nat -> EpochSettings := (e: nat) => EpochSettings(if e == 1 then 1 else 9, ExecConfig(None, None))

  /** One user transaction makes a block full; the minimum gas price is 1. */
  function SampleConfig(history: nat): Config {
    Config(true, None, 1, 1, history, 1, false, [])
  }

  function SampleNode(history: nat): Node {
    NodeOf(SampleConfig(history), SampleSettings)
  }

  function SampleCall(version: nat, faults: Faults): Call {
    Call(SampleChain, version, 1, false, faults)
  }

  lemma SampleValid()
    ensures ValidChain(SampleChain)
  {
    var c := SampleChain;
    assert Adjacent(c, 1) && Adjacent(c, 2) && Adjacent(c, 3) && Adjacent(c, 4);
    forall i, j | 0 <= i < j < |c.blocks| ensures Before(c, i, j) {
    }
  }

  lemma SampleIndex(v: nat, i: nat)
    requires i < 5 && SampleChain.blocks[i].first <= v <= SampleChain.blocks[i].last
    ensures ValidChain(SampleChain) && v < 8 && BlockIndex(SampleChain, v) == i
  {
    SampleValid();
    BlockIndexUnique(SampleChain, v, i);
  }

  lemma {:induction false} SampleEpochStart(t: nat)
    requires 0 < t < 5
    ensures ValidChain(SampleChain) && EpochStart(SampleChain, t) == 1
  {
    SampleValid();
    if t > 1 {
      SampleEpochStart(t - 1);
    }
  }

  // ---------------------------------------------------------------- prices

  lemma NoUsers(history: nat)
    ensures InclusionOf(SampleConfig(history), ExecConfig(None, None), []) == NoMinimum
  {
    assert PricesAndUsed([]) == [] && BlockEnds([]) == [];
  }

  lemma OneUser(history: nat, price: nat)
    ensures InclusionOf(SampleConfig(history), ExecConfig(None, None), [UserTxn(price, 0, OtherUseCase(0)), OtherTxn]) == Minimum(price)
  {
    var u := UserTxn(price, 0, OtherUseCase(0));
    assert [u, OtherTxn][..1] == [u] && [u][..0] == [];
    assert PricesAndUsed([u]) == [(price, 0)];
    assert PricesAndUsed([u, OtherTxn]) == [(price, 0)];
  }

  lemma TwoUsers(history: nat)
    ensures InclusionOf(SampleConfig(history), ExecConfig(None, None),
                        [UserTxn(7, 0, OtherUseCase(0)), OtherTxn, UserTxn(2, 0, OtherUseCase(0))]) == Minimum(2)
  {
    var u, v := UserTxn(7, 0, OtherUseCase(0)), UserTxn(2, 0, OtherUseCase(0));
    assert [u, OtherTxn, v][..2] == [u, OtherTxn] && [u, OtherTxn][..1] == [u] && [u][..0] == [];
    assert PricesAndUsed([u]) == [(7, 0)];
    assert PricesAndUsed([u, OtherTxn]) == [(7, 0)];
    assert PricesAndUsed([u, OtherTxn, v]) == [(7, 0), (2, 0)];
    assert [(7, 0), (2, 0)][1..] == [(2, 0)];
  }

  /** Below the tip, the two-user block costs 2 and the others the minimum. */
  lemma SamplePrice(history: nat, version: nat, faults: Faults, i: nat)
    requires 0 < i < 5 && version < 8 && SampleChain.blocks[i].last <= version
    requires faults.scans == {} && faults.items == NoReadErrors
    ensures ValidChain(SampleChain)
    ensures PriceOf(SampleNode(history), SampleCall(version, faults), i) == Some(if i == 1 then 2 else 1)
  {
    SampleWindow(version, i);
    if i == 1 {
      TwoUsers(history);
    } else {
      NoUsers(history);
    }
  }

  lemma SampleWindow(version: nat, i: nat)
    requires 0 < i < 5 && version < 8 && SampleChain.blocks[i].last <= version
    ensures ValidChain(SampleChain)
    ensures BlockWindow(SampleChain, NoReadErrors, version, i)
         == if i == 1 then [UserTxn(7, 0, OtherUseCase(0)), OtherTxn, UserTxn(2, 0, OtherUseCase(0))] else []
  {
    SampleValid();
    CompleteWindow(SampleChain, NoReadErrors, version, i);
    if i == 1 {
      assert SampleChain.txns[1..4] == [UserTxn(7, 0, OtherUseCase(0)), OtherTxn, UserTxn(2, 0, OtherUseCase(0))];
    } else {
      assert SampleChain.txns[i + 3..i + 3] == [];
    }
  }

  // ---------------------------------------------------------------- estimates

  lemma SameEstimates(history: nat, p: nat, prices: seq<nat>)
    requires prices == [p] || prices == [p, p]
    ensures FromPrices(SampleConfig(history), 1, prices) == Some(GasEstimation(p, p, p))
  {
    assert [p, p][1..] == [p] && [p][1..] == [];
    assert Sort([p]) == [p];
    assert Sort([p, p]) == [p, p];
    assert Take(prices, 1) == [p];
  }

  lemma HigherOldest(history: nat, prices: seq<nat>)
    requires prices == [1, 2] || prices == [1, 1, 2]
    ensures FromPrices(SampleConfig(history), 1, prices) == Some(GasEstimation(1, 1, 2))
  {
    assert [1, 1, 2][1..] == [1, 2] && [1, 2][1..] == [2] && [2][1..] == [] && [1][1..] == [];
    assert Sort([2]) == [2] && Sort([1]) == [1];
    assert Sort([1, 2]) == [1, 2];
    assert Sort([1, 1, 2]) == [1, 1, 2];
    assert Take(prices, 1) == [1];
  }

  lemma PricesCons(node: Node, call: Call, i: nat, rest: seq<nat>, p: nat, ps: seq<nat>)
    requires ValidCall(call) && i < |call.chain.blocks| && BlocksOf(call.chain, rest)
    requires PriceOf(node, call, i) == Some(p) && PricesOf(node, call, rest) == Some(ps)
    ensures BlocksOf(call.chain, [i] + rest) && PricesOf(node, call, [i] + rest) == Some([p] + ps)
  {
    assert ([i] + rest)[1..] == rest;
  }

  lemma ReferenceIs(node: Node, call: Call, prices: seq<nat>, est: GasEstimation)
    requires ValidCall(call) && prices != []
    requires PricesOf(node, call, History(call.chain, call.epoch, call.version, node.cfg.aggressiveHistory)) == Some(prices)
    requires FromPrices(node.cfg, node.onChain(call.epoch).minGas, prices) == Some(est)
    ensures Reference(node, call) == Computed(est)
  {
  }

  /** A request that computes, from its walk and its price list. */
  lemma StepIs(node: Node, st: Cache, call: Call, w: WalkResult, prices: seq<nat>, cache: map<Key, nat>, est: GasEstimation)
    requires ValidCall(call) && !call.faults.settings && node.cfg.enabled && node.cfg.staticOverride.None?
    requires !st.poisoned && !call.stillFresh && (st.lastEpoch == None || st.lastEpoch == Some(call.epoch))
    requires w == Walk(call, st.prices, StartVersion(call), node.cfg.aggressiveHistory) && (w.hit || w.found != [])
    requires Record(node, call, st.prices, w) == Some(Filled(prices, cache)) && |cache| <= node.cfg.aggressiveHistory
    requires FromPrices(node.cfg, node.onChain(call.epoch).minGas, prices) == Some(est)
    ensures Step(node, st, call) == (Cache(Some(call.epoch), Some(est), cache, false), Computed(est))
  {
  }

  /** The prices of blocks t-1 down to 1. */
  function Expected(t: nat): seq<nat> {
    if t <= 2 then [2] else [1] + Expected(t - 1)
  }

  lemma {:induction false} SamplePrices(history: nat, version: nat, t: nat)
    requires 1 < t < 5 && t + 3 <= version < 8
    ensures ValidCall(SampleCall(version, NoFaults))
    ensures PricesOf(SampleNode(history), SampleCall(version, NoFaults), Down(t, t - 1)) == Some(Expected(t))
  {
    var node, call := SampleNode(history), SampleCall(version, NoFaults);
    SamplePrice(history, version, NoFaults, t - 1);
    if t == 2 {
      PricesCons(node, call, 1, [], 2, []);
      assert Down(2, 1) == [1] + [] && [2] + [] == [2];
    } else {
      SamplePrices(history, version, t - 1);
      PricesCons(node, call, t - 1, Down(t - 1, t - 2), 1, Expected(t - 1));
      assert Down(t, t - 1) == [t - 1] + Down(t - 1, t - 2);
    }
  }

  lemma SampleHistory(history: nat, version: nat, t: nat)
    requires 1 < t < 5 && version == t + 3 && t - 1 <= history
    ensures ValidCall(SampleCall(version, NoFaults))
    ensures History(SampleChain, 1, version, history) == Down(t, t - 1)
  {
    SampleIndex(version, t);
    SampleEpochStart(t);
  }

  /** What the reference says at the end of block t with a history that reaches block 1. */
  lemma SampleReference(history: nat, version: nat, t: nat, est: GasEstimation)
    requires 1 < t < 5 && version == t + 3 && t - 1 <= history
    requires FromPrices(SampleConfig(history), 1, Expected(t)) == Some(est)
    ensures ValidCall(SampleCall(version, NoFaults))
    ensures Reference(SampleNode(history), SampleCall(version, NoFaults)) == Computed(est)
  {
    SampleHistory(history, version, t);
    SamplePrices(history, version, t);
    ReferenceIs(SampleNode(history), SampleCall(version, NoFaults), Expected(t), est);
  }

  // ---------------------------------------------------------------- walks

  lemma SampleStart(version: nat, faults: Faults)
    requires 4 < version < 8 && !faults.tip
    ensures ValidCall(SampleCall(version, faults)) && StartVersion(SampleCall(version, faults)) == version - 1
  {
    SampleIndex(version, version - 3);
  }

  /** One step of the walk at a one-transaction block that is neither cached nor unreadable. */
  lemma SampleWalk(version: nat, faults: Faults, m: map<Key, nat>, i: nat, n: nat)
    requires 1 < i < 5 && version < 8 && i !in faults.blocks && (1, i + 3) !in m && n > 0
    ensures ValidCall(SampleCall(version, faults))
    ensures var call := SampleCall(version, faults);
            var rest := Walk(call, m, i + 2, n - 1);
            Walk(call, m, i + 3, n) == WalkResult([i] + rest.found, rest.hit, rest.lookup)
  {
    SampleIndex(i + 3, i);
    WalkOneBlock(SampleCall(version, faults), m, i + 3, n, i, i + 2);
  }

  lemma FillOne(node: Node, call: Call, m: map<Key, nat>, i: nat, p: nat)
    requires ValidCall(call) && i < |call.chain.blocks| && PriceOf(node, call, i) == Some(p)
    ensures Fill(node, call, m, [i]) == Some(Filled([p], m[EndKey(call, i) := p]))
  {
    assert [i][1..] == [];
    var none: seq<nat> := [];
    assert [p] + none == [p];
  }

  // ---------------------------------------------------------------- a stale caller

  const NewerCache := Cache(Some(1), Some(GasEstimation(1, 1, 1)), map[(1, 6) := 1, (1, 5) := 1], false)

  /** A request at version 7 with a history of two caches blocks 3 and 2. */
  lemma NewerCall()
    ensures ValidCall(SampleCall(7, NoFaults))
    ensures Step(SampleNode(2), EmptyCache, SampleCall(7, NoFaults)).0 == NewerCache
  {
    var node, call := SampleNode(2), SampleCall(7, NoFaults);
    SampleStart(7, NoFaults);
    NewerWalk();
    var w := Walk(call, map[], 6, 2);
    var m: map<Key, nat> := map[(1, 6) := 1, (1, 5) := 1];
    FillTwo(node, call, m);
    SameEstimates(2, 1, [1, 1]);
    assert m.Keys == {(1, 6), (1, 5)};
    StepIs(node, EmptyCache, call, w, [1, 1], m, GasEstimation(1, 1, 1));
  }

  lemma NewerWalk()
    ensures ValidCall(SampleCall(7, NoFaults))
    ensures var w := Walk(SampleCall(7, NoFaults), map[], 6, 2); w.found == [3, 2] && !w.hit
  {
    SampleWalk(7, NoFaults, map[], 3, 2);
    SampleWalk(7, NoFaults, map[], 2, 1);
    assert [2] + [] == [2] && [3] + [2] == [3, 2];
  }

  lemma FillTwo(node: Node, call: Call, m: map<Key, nat>)
    requires ValidCall(call) && node == SampleNode(2) && call == SampleCall(7, NoFaults)
    requires m == map[(1, 6) := 1, (1, 5) := 1]
    ensures Fill(node, call, map[], [3, 2]) == Some(Filled([1, 1], m))
  {
    SamplePrice(2, 7, NoFaults, 3);
    SamplePrice(2, 7, NoFaults, 2);
    FillOne(node, call, map[(1, 6) := 1], 2, 1);
    assert [3, 2][1..] == [2] && [1] + [1] == [1, 1];
    assert map[(1, 6) := 1][(1, 5) := 1] == m;
  }

  lemma RangeOne(m: map<Key, nat>, v: nat, p: nat)
    requires (1, v) in m && m[(1, v)] == p && forall u: nat :: u < v ==> (1, u) !in m
    ensures RangeDown(m, 1, v) == [p]
  {
    RangeNone(m, v);
    var none: seq<nat> := [];
    assert [p] + none == [p];
  }

  lemma {:induction false} RangeNone(m: map<Key, nat>, v: nat)
    requires forall u: nat :: u < v ==> (1, u) !in m
    ensures RangeDown(m, 1, v - 1) == []
  {
    if v > 0 {
      RangeNone(m, v - 1);
    }
  }

  /**
   A caller whose ledger version is older than the one that filled the cache: its history has two
   blocks, only one of them is still cached, and its aggressive estimate is 1 instead of 2.
   */
  lemma StaleCallerDiffers()
    ensures ValidCall(SampleCall(7, NoFaults)) && ValidCall(SampleCall(6, NoFaults))
    ensures Step(SampleNode(2), EmptyCache, SampleCall(7, NoFaults)).0 == NewerCache
    ensures Step(SampleNode(2), NewerCache, SampleCall(6, NoFaults)).1 == Computed(GasEstimation(1, 1, 1))
    ensures Reference(SampleNode(2), SampleCall(6, NoFaults)) == Computed(GasEstimation(1, 1, 2))
  {
    NewerCall();
    StaleCall();
    StaleReference();
  }

  lemma StaleReference()
    ensures ValidCall(SampleCall(6, NoFaults))
    ensures Reference(SampleNode(2), SampleCall(6, NoFaults)) == Computed(GasEstimation(1, 1, 2))
  {
    HigherOldest(2, [1, 2]);
    assert Expected(3) == [1] + [2] == [1, 2];
    SampleReference(2, 6, 3, GasEstimation(1, 1, 2));
  }

  lemma StaleCall()
    ensures ValidCall(SampleCall(6, NoFaults))
    ensures Step(SampleNode(2), NewerCache, SampleCall(6, NoFaults)).1 == Computed(GasEstimation(1, 1, 1))
  {
    var node, call := SampleNode(2), SampleCall(6, NoFaults);
    var m: map<Key, nat> := map[(1, 6) := 1, (1, 5) := 1];
    SampleStart(6, NoFaults);
    var w := WalkResult([], true, 5);
    assert Walk(call, m, 5, 2) == w;
    RangeOne(m, 5, 1);
    assert m.Keys == {(1, 6), (1, 5)};
    SameEstimates(2, 1, [1]);
    RecordHit(node, call, m, 5, 1);
    StepIs(node, NewerCache, call, w, [1], m, GasEstimation(1, 1, 1));
  }

  /** A walk that hits at once lists the cached range. */
  lemma RecordHit(node: Node, call: Call, m: map<Key, nat>, v: nat, p: nat)
    requires ValidCall(call) && RangeDown(m, call.epoch, v) == [p] && node.cfg.aggressiveHistory > 0
    ensures Record(node, call, m, WalkResult([], true, v)) == Some(Filled([p], m))
  {
    assert [] + [p] == [p];
  }

  // ---------------------------------------------------------------- a failed block read

  const BlockOneFails := NoFaults.(blocks := {1})

  const GapCache := Cache(Some(1), Some(GasEstimation(1, 1, 1)), map[(1, 5) := 1], false)

  /** A request at version 6 that cannot read block 1 caches block 2 alone. */
  lemma FailedReadCall()
    ensures ValidCall(SampleCall(6, BlockOneFails))
    ensures Step(SampleNode(3), EmptyCache, SampleCall(6, BlockOneFails)).0 == GapCache
  {
    var node, call := SampleNode(3), SampleCall(6, BlockOneFails);
    SampleStart(6, BlockOneFails);
    SampleWalk(6, BlockOneFails, map[], 2, 3);
    SampleIndex(4, 1);
    assert Walk(call, map[], 4, 2) == WalkResult([], false, 4);
    var w := Walk(call, map[], 5, 3);
    assert w.found == [2] && !w.hit;
    SamplePrice(3, 6, BlockOneFails, 2);
    FillOne(node, call, map[], 2, 1);
    SameEstimates(3, 1, [1]);
    var m: map<Key, nat> := map[(1, 5) := 1];
    assert m.Keys == {(1, 5)};
    StepIs(node, EmptyCache, call, w, [1], m, GasEstimation(1, 1, 1));
  }

  /**
   A failed block read is not forgotten: the next request, with everything readable and a newer
   ledger version, uses two of its three history blocks and answers 1 instead of 2.
   */
  lemma FailedReadDiffersLater()
    ensures ValidCall(SampleCall(6, BlockOneFails)) && ValidCall(SampleCall(7, NoFaults))
    ensures Step(SampleNode(3), EmptyCache, SampleCall(6, BlockOneFails)).0 == GapCache
    ensures Step(SampleNode(3), GapCache, SampleCall(7, NoFaults)).1 == Computed(GasEstimation(1, 1, 1))
    ensures Reference(SampleNode(3), SampleCall(7, NoFaults)) == Computed(GasEstimation(1, 1, 2))
  {
    FailedReadCall();
    CallAfterGap();
    GapReference();
  }

  lemma GapReference()
    ensures ValidCall(SampleCall(7, NoFaults))
    ensures Reference(SampleNode(3), SampleCall(7, NoFaults)) == Computed(GasEstimation(1, 1, 2))
  {
    HigherOldest(3, [1, 1, 2]);
    assert Expected(3) == [1] + [2] == [1, 2];
    assert Expected(4) == [1] + [1, 2] == [1, 1, 2];
    SampleReference(3, 7, 4, GasEstimation(1, 1, 2));
  }

  lemma CallAfterGap()
    ensures ValidCall(SampleCall(7, NoFaults))
    ensures Step(SampleNode(3), GapCache, SampleCall(7, NoFaults)).1 == Computed(GasEstimation(1, 1, 1))
  {
    var node, call := SampleNode(3), SampleCall(7, NoFaults);
    var m: map<Key, nat> := map[(1, 5) := 1];
    SampleStart(7, NoFaults);
    WalkAfterGap(m);
    var w := WalkResult([3], true, 5);
    RecordAfterGap(node, call, m, w);
    var m': map<Key, nat> := m[(1, 6) := 1];
    assert m'.Keys == {(1, 5), (1, 6)};
    SameEstimates(3, 1, [1, 1]);
    StepIs(node, GapCache, call, w, [1, 1], m', GasEstimation(1, 1, 1));
  }

  lemma WalkAfterGap(m: map<Key, nat>)
    requires m == map[(1, 5) := 1]
    ensures ValidCall(SampleCall(7, NoFaults))
    ensures Walk(SampleCall(7, NoFaults), m, 6, 3) == WalkResult([3], true, 5)
  {
    SampleWalk(7, NoFaults, m, 3, 3);
    assert Walk(SampleCall(7, NoFaults), m, 5, 2) == WalkResult([], true, 5);
  }

  lemma RecordAfterGap(node: Node, call: Call, m: map<Key, nat>, w: WalkResult)
    requires node == SampleNode(3) && call == SampleCall(7, NoFaults) && ValidCall(call)
    requires m == map[(1, 5) := 1] && w == WalkResult([3], true, 5)
    ensures Record(node, call, m, w) == Some(Filled([1, 1], m[(1, 6) := 1]))
  {
    SamplePrice(3, 7, NoFaults, 3);
    FillOne(node, call, m, 3, 1);
    RangeOne(m[(1, 6) := 1], 5, 1);
    assert [1] + [1] == [1, 1];
  }

  // ---------------------------------------------------------------- a failed read of the tip's block

  const TipFails := NoFaults.(tip := true)

  const PartialCache := Cache(Some(1), Some(GasEstimation(7, 7, 7)), map[(1, 4) := 7], false)

  /** A request at version 2, inside block 1, records that block from the part it can see. */
  lemma PartialTipCall()
    ensures ValidCall(SampleCall(2, TipFails))
    ensures Step(SampleNode(1), EmptyCache, SampleCall(2, TipFails)).0 == PartialCache
  {
    var node, call := SampleNode(1), SampleCall(2, TipFails);
    SampleIndex(2, 1);
    assert Walk(call, map[], 2, 1) == WalkResult([1], false, 0);
    var u := UserTxn(7, 0, OtherUseCase(0));
    var seen := BlockWindow(SampleChain, NoReadErrors, 2, 1);
    assert seen == [u, OtherTxn];
    OneUser(1, 7);
    FillOne(node, call, map[], 1, 7);
    SameEstimates(1, 7, [7]);
    var m: map<Key, nat> := map[(1, 4) := 7];
    assert m.Keys == {(1, 4)};
    StepIs(node, EmptyCache, call, WalkResult([1], false, 0), [7], m, GasEstimation(7, 7, 7));
  }

  /**
   When the first read of the tip's block fails and the second succeeds, a partial block is priced
   and cached. The next request, with everything readable, answers 7 where the block costs 2.
   */
  lemma PartialTipDiffersLater()
    ensures ValidCall(SampleCall(2, TipFails)) && ValidCall(SampleCall(5, NoFaults))
    ensures Step(SampleNode(1), EmptyCache, SampleCall(2, TipFails)).0 == PartialCache
    ensures Step(SampleNode(1), PartialCache, SampleCall(5, NoFaults)).1 == Computed(GasEstimation(7, 7, 7))
    ensures Reference(SampleNode(1), SampleCall(5, NoFaults)) == Computed(GasEstimation(2, 2, 2))
  {
    PartialTipCall();
    var node, call := SampleNode(1), SampleCall(5, NoFaults);
    var m: map<Key, nat> := map[(1, 4) := 7];
    SampleStart(5, NoFaults);
    var w := WalkResult([], true, 4);
    assert Walk(call, m, 4, 1) == w;
    RangeOne(m, 4, 7);
    assert m.Keys == {(1, 4)};
    SameEstimates(1, 7, [7]);
    RecordHit(node, call, m, 4, 7);
    StepIs(node, PartialCache, call, w, [7], m, GasEstimation(7, 7, 7));
    SameEstimates(1, 2, [2]);
    SampleReference(1, 5, 2, GasEstimation(2, 2, 2));
  }
}
