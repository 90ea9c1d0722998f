/** Panics over whole runs: they last, and when they cannot happen. */
module GasPanics {
  import opened Prelude
  import opened Ledger
  import opened BlockPrice
  import opened GasHistory
  import opened GasRecords
  import opened GasEstimator

  /** A reply panics exactly when the request poisons the lock or finds it poisoned. */
  lemma PanicPoisons(node: Node, st: Cache, call: Call)
    requires ValidCall(call)
    ensures Step(node, st, call).1.Panicked? ==> Step(node, st, call).0.poisoned
    ensures st.poisoned ==> Step(node, st, call).0.poisoned
  {
  }

  lemma {:induction false} PoisonLasts(node: Node, calls: seq<Call>, n: nat)
    requires AllValid(calls) && n <= |calls|
    requires After(node, calls[..n]).poisoned
    ensures After(node, calls).poisoned
    decreases |calls|
  {
    if n == |calls| {
      assert calls[..n] == calls;
    } else {
      var front := calls[..|calls| - 1];
      assert front[..n] == calls[..n];
      PoisonLasts(node, front, n);
      PanicPoisons(node, After(node, front), calls[|calls| - 1]);
    }
  }

  /** Once a request has panicked, every later request that needs the cache panics too. */
  lemma {:induction false} PanicsForever(node: Node, calls: seq<Call>, n: nat, call: Call)
    requires AllValid(calls) && ValidCall(call) && n < |calls|
    requires Step(node, After(node, calls[..n]), calls[n]).1.Panicked?
    requires !call.faults.settings && node.cfg.enabled && node.cfg.staticOverride.None?
    ensures Step(node, After(node, calls), call).1.Panicked?
  {
    var first := calls[..n + 1];
    assert first[..n] == calls[..n];
    PanicPoisons(node, After(node, calls[..n]), calls[n]);
    assert After(node, first).poisoned;
    PoisonLasts(node, calls, n + 1);
  }

  /** Block epilogues are the last transactions of their blocks. */
  predicate EpiloguesLast(c: Chain)
    requires ValidChain(c)
  {
    forall i, v :: 0 <= i < |c.blocks| && c.blocks[i].first <= v < c.blocks[i].last && v < |c.txns| ==> !c.txns[v].BlockEpilogue?
  }

  /** A full block needs a transaction, and no epoch has a gas limit of zero. */
  ghost predicate SaneSettings(cfg: Config, settings: nat -> EpochSettings) {
    cfg.fullBlockTxns > 0 && forall e :: settings(e).exec.blockGasLimit != Some(0)
  }

  lemma {:induction false} NoEnds(ts: seq<Txn>)
    requires forall k :: 0 <= k < |ts| ==> !ts[k].BlockEpilogue?
    ensures CountEnds(ts) == 0
  {
    if ts != [] {
      NoEnds(ts[..|ts| - 1]);
    }
  }

  lemma NoScanPanics(cfg: Config, settings: nat -> EpochSettings, call: Call, i: nat)
    requires ValidCall(call) && i < |call.chain.blocks| && EpiloguesLast(call.chain) && SaneSettings(cfg, settings)
    ensures PriceOf(NodeOf(cfg, settings), call, i).Some?
  {
    var seen := BlockWindow(call.chain, call.faults.items, call.version, i);
    forall k | 0 <= k < |seen| ensures !seen[k].BlockEpilogue? {
      assert seen[k] == Seen(call.chain, call.faults.items, call.chain.blocks[i].first + k);
    }
    NoEnds(seen);
    NeverPanics(cfg, settings(call.epoch).exec, seen);
  }

  lemma {:induction false} FillSucceeds(cfg: Config, settings: nat -> EpochSettings, call: Call, m: map<Key, nat>, found: seq<nat>)
    requires ValidCall(call) && BlocksOf(call.chain, found) && EpiloguesLast(call.chain) && SaneSettings(cfg, settings)
    ensures Fill(NodeOf(cfg, settings), call, m, found).Some?
    decreases |found|
  {
    if found != [] {
      NoScanPanics(cfg, settings, call, found[0]);
      var p := PriceOf(NodeOf(cfg, settings), call, found[0]).value;
      FillSucceeds(cfg, settings, call, m[EndKey(call, found[0]) := p], found[1..]);
    }
  }

  lemma StepSucceeds(cfg: Config, settings: nat -> EpochSettings, st: Cache, call: Call)
    requires ValidCall(call) && EpiloguesLast(call.chain) && SaneSettings(cfg, settings) && !st.poisoned
    ensures var (st', reply) := Step(NodeOf(cfg, settings), st, call); !st'.poisoned && !reply.Panicked?
  {
    var m := Prepared(st, call);
    var w := Walk(call, m, StartVersion(call), cfg.aggressiveHistory);
    FillSucceeds(cfg, settings, call, m, w.found);
  }

  /** With sane settings no request of any run panics, whatever fails. */
  lemma {:induction false} RunNeverPanics(cfg: Config, settings: nat -> EpochSettings, calls: seq<Call>, call: Call)
    requires AllValid(calls) && forall i :: 0 <= i < |calls| ==> EpiloguesLast(calls[i].chain)
    requires ValidCall(call) && EpiloguesLast(call.chain) && SaneSettings(cfg, settings)
    ensures !After(NodeOf(cfg, settings), calls).poisoned
    ensures !Step(NodeOf(cfg, settings), After(NodeOf(cfg, settings), calls), call).1.Panicked?
  {
    var node := NodeOf(cfg, settings);
    if calls != [] {
      var front, last := calls[..|calls| - 1], calls[|calls| - 1];
      RunNeverPanics(cfg, settings, front, last);
      StepSucceeds(cfg, settings, After(node, front), last);
    }
    StepSucceeds(cfg, settings, After(node, calls), call);
  }
}
