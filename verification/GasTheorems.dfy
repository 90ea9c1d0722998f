/** The main results about the gas estimator, over every run of requests. */
module GasTheorems {
  import opened Prelude
  import opened Ledger
  import opened BlockPrice
  import opened Estimate
  import opened GasHistory
  import opened GasListing
  import opened GasRecords
  import opened GasAgreement
  import opened GasRuns

  // ---------------------------------------------------------------- agreement, whatever fails

  /** Price p under key k was recorded below a tip by a scan that read everything. */
  predicate CleanlyRecorded(node: Node, calls: seq<Call>, k: Key, p: nat)
    requires AllValid(calls)
  {
    exists j, i :: 0 <= j < |calls| && 0 <= i < |calls[j].chain.blocks| && RecordedBy(node, calls[j], i, k, p)
                   && BelowTip(calls[j], i) && ScanOk(calls[j], i)
  }

  lemma {:induction false} CleanIsRight(node: Node, calls: seq<Call>, d: Chain, e: nat, i: nat, p: nat)
    requires AllValid(calls) && ValidChain(d) && GrowInto(calls, d)
    requires i < |d.blocks| && CleanlyRecorded(node, calls, (e, d.blocks[i].last), p)
    ensures FinalPrice(node, d, e, i) == Some(p)
  {
    var k := (e, d.blocks[i].last);
    var j, x :| 0 <= j < |calls| && 0 <= x < |calls[j].chain.blocks| && RecordedBy(node, calls[j], x, k, p)
                && BelowTip(calls[j], x) && ScanOk(calls[j], x);
    RecordedBelowTip(node, calls[j], x, k, p, d);
    SameEnd(d, i, x);
  }

  /** Each history block is cleanly recorded, or uncached and scanned without errors now. */
  predicate HistoryClean(node: Node, calls: seq<Call>, call: Call, m: map<Key, nat>)
    requires AllValid(calls) && ValidCall(call)
  {
    var h := History(call.chain, call.epoch, call.version, node.cfg.aggressiveHistory);
    forall x :: 0 <= x < |h| ==> BlockClean(node, calls, call, m, h[x])
  }

  predicate BlockClean(node: Node, calls: seq<Call>, call: Call, m: map<Key, nat>, i: nat)
    requires AllValid(calls) && i < |call.chain.blocks|
  {
    if Cached(m, call.chain, call.epoch, i) then CleanlyRecorded(node, calls, EndKey(call, i), m[EndKey(call, i)])
    else ScanOk(call, i)
  }

  /**
   After any run, whatever failed and whatever fails now: a request whose window is complete and
   whose history is clean answers as the reference does, which has no cache and no faults.
   */
  lemma {:induction false} RunAgrees(node: Node, calls: seq<Call>, call: Call)
    requires AllValid(calls) && ValidCall(call) && GrowInto(calls, call.chain)
    requires node.cfg.marketHistory > 0 && Computes(node, After(node, calls), call)
    requires var m := Prepared(After(node, calls), call);
             Complete(call, m, node.cfg.aggressiveHistory) && HistoryClean(node, calls, call, m)
    ensures Step(node, After(node, calls), call).1 == Reference(node, Clean(call))
  {
    var st := After(node, calls);
    var m := Prepared(st, call);
    var h := History(call.chain, call.epoch, call.version, node.cfg.aggressiveHistory);
    RunKeysOk(node, calls, call);
    forall x | 0 <= x < |h| ensures Right(node, call, m, h[x]) {
      assert BlockClean(node, calls, call, m, h[x]);
      if Cached(m, call.chain, call.epoch, h[x]) {
        CleanIsRight(node, calls, call.chain, call.epoch, h[x], m[EndKey(call, h[x])]);
      }
    }
    StepAgrees(node, st, call);
  }

  /** All scans read everything they look at. */
  predicate ScansRead(call: Call) {
    call.faults.scans == {} && call.faults.items == NoReadErrors
  }

  predicate AllScansRead(calls: seq<Call>) {
    forall j :: 0 <= j < |calls| ==> ScansRead(calls[j])
  }

  lemma {:induction false} RecordedIsClean(node: Node, calls: seq<Call>, k: Key, p: nat)
    requires AllValid(calls)
    requires TipsRead(calls) && AllScansRead(calls) && Recorded(node, calls, k, p)
    ensures CleanlyRecorded(node, calls, k, p)
  {
    var j, i :| 0 <= j < |calls| && 0 <= i < |calls[j].chain.blocks| && RecordedBy(node, calls[j], i, k, p);
    assert BelowTip(calls[j], i) && ScanOk(calls[j], i);
  }

  /** If only block reads of walks fail, completeness alone decides agreement. */
  lemma {:induction false} RunAgreesWithGaps(node: Node, calls: seq<Call>, call: Call)
    requires AllValid(calls) && ValidCall(call) && GrowInto(calls, call.chain)
    requires node.cfg.marketHistory > 0 && Computes(node, After(node, calls), call)
    requires TipsRead(calls) && AllScansRead(calls) && ScansRead(call)
    requires Complete(call, Prepared(After(node, calls), call), node.cfg.aggressiveHistory)
    ensures Step(node, After(node, calls), call).1 == Reference(node, Clean(call))
  {
    RunKeysOk(node, calls, call);
    AllClean(node, calls, call, Prepared(After(node, calls), call));
    RunAgrees(node, calls, call);
  }

  lemma {:induction false} AllClean(node: Node, calls: seq<Call>, call: Call, m: map<Key, nat>)
    requires AllValid(calls) && ValidCall(call)
    requires TipsRead(calls) && AllScansRead(calls) && ScansRead(call) && AllRecorded(node, calls, m, call.epoch)
    ensures HistoryClean(node, calls, call, m)
  {
    var h := History(call.chain, call.epoch, call.version, node.cfg.aggressiveHistory);
    forall x | 0 <= x < |h| ensures BlockClean(node, calls, call, m, h[x]) {
      if Cached(m, call.chain, call.epoch, h[x]) {
        RecordedIsClean(node, calls, EndKey(call, h[x]), m[EndKey(call, h[x])]);
      }
    }
  }

  /** Without faults on the tip nothing inside a block is ever cached. */
  lemma {:induction false} RecordedNoStray(node: Node, calls: seq<Call>, m: map<Key, nat>, d: Chain, e: nat, i: nat)
    requires AllValid(calls) && ValidChain(d) && GrowInto(calls, d)
    requires TipsRead(calls) && AllRecorded(node, calls, m, e) && i < |d.blocks|
    ensures NoStray(m, d, e, i)
  {
    forall v: nat | d.blocks[i].first <= v < d.blocks[i].last ensures (e, v) !in m {
      if (e, v) in m {
        var k, p := (e, v), m[(e, v)];
        var j, x :| 0 <= j < |calls| && 0 <= x < |calls[j].chain.blocks| && RecordedBy(node, calls[j], x, k, p);
        RecordedBelowTip(node, calls[j], x, k, p, d);
        InsideIsNoEnd(d, i, v, x);
      }
    }
  }

  /**
   If only block reads of walks fail, a request lists exactly its history if and only if every
   history block is cached, or can be read and has no cached block between it and the tip.
   */
  lemma {:induction false} RunCompleteIff(node: Node, calls: seq<Call>, call: Call, t: nat)
    requires AllValid(calls) && ValidCall(call) && GrowInto(calls, call.chain)
    requires node.cfg.marketHistory > 0 && !After(node, calls).poisoned && TipsRead(calls) && !call.faults.tip
    requires t == Tip(call) && t > 0 && call.chain.blocks[t].epoch == call.epoch
    ensures var m, n := Prepared(After(node, calls), call), node.cfg.aggressiveHistory;
            Listed(call, m, n) == HistoryEnds(call, n) <==> AllReachable(call, m, EpochStart(call.chain, t), t - 1, n)
  {
    var m, n := Prepared(After(node, calls), call), node.cfg.aggressiveHistory;
    RunKeysOk(node, calls, call);
    ExactBelowTip(call, m, n, t);
    forall i | 0 <= i < |call.chain.blocks| ensures NoStray(m, call.chain, call.epoch, i) {
      RecordedNoStray(node, calls, m, call.chain, call.epoch, i);
    }
  }

  // ---------------------------------------------------------------- all blocks readable, versions in order

  predicate NotBefore(calls: seq<Call>, call: Call) {
    forall j :: 0 <= j < |calls| ==> calls[j].version <= call.version
  }

  lemma TipsAscend(a: Call, b: Call)
    requires ValidCall(a) && ValidCall(b) && Grows(a.chain, b.chain) && a.version <= b.version
    ensures Tip(a) <= Tip(b)
  {
    GrowsBlockIndex(a.chain, b.chain, a.version);
    var i, j := BlockIndex(b.chain, a.version), Tip(b);
    assert i <= j || Before(b.chain, j, i);
  }

  /** What is cached lies below the tip of a caller that is not behind. */
  lemma {:induction false} CachedBelowTip(node: Node, calls: seq<Call>, call: Call, i: nat, p: nat)
    requires AllValid(calls) && ValidCall(call) && GrowInto(calls, call.chain)
    requires TipsRead(calls) && NotBefore(calls, call) && i < |call.chain.blocks|
    requires Recorded(node, calls, EndKey(call, i), p)
    ensures i < Tip(call) || i == 0
  {
    var k := EndKey(call, i);
    var j, x :| 0 <= j < |calls| && 0 <= x < |calls[j].chain.blocks| && RecordedBy(node, calls[j], x, k, p);
    RecordedBelowTip(node, calls[j], x, k, p, call.chain);
    SameEnd(call.chain, i, x);
    TipsAscend(calls[j], call);
  }

  lemma {:induction false} RecordedNotShortened(node: Node, calls: seq<Call>, call: Call, m: map<Key, nat>, n: nat)
    requires AllValid(calls) && ValidCall(call) && GrowInto(calls, call.chain)
    requires TipsRead(calls) && NotBefore(calls, call)
    requires AllRecorded(node, calls, m, call.epoch) && MapInv(m, call.chain, call.epoch, n)
    ensures !Shortened(call, m, n)
  {
    var t := Tip(call);
    if m != map[] && t > 0 && call.chain.blocks[t].epoch == call.epoch {
      var lo: nat, hi: nat :| IsHistoryRun(m, call.chain, call.epoch, n, lo, hi);
      RunBelowTip(node, calls, call, m, lo, hi);
      NotShortened(call, m, n, lo, hi, t);
    }
  }

  lemma {:induction false} RunBelowTip(node: Node, calls: seq<Call>, call: Call, m: map<Key, nat>, lo: nat, hi: nat)
    requires AllValid(calls) && ValidCall(call) && GrowInto(calls, call.chain)
    requires TipsRead(calls) && NotBefore(calls, call)
    requires AllRecorded(node, calls, m, call.epoch) && IsRun(m, call.chain, call.epoch, lo, hi)
    ensures hi <= Tip(call) || hi == 1
  {
    var i := hi - 1;
    assert EndKey(call, i) in m by {
      CachedInRun(m, call.chain, call.epoch, lo, hi, i);
    }
    var p := m[EndKey(call, i)];
    assert Recorded(node, calls, EndKey(call, i), p);
    CachedBelowTip(node, calls, call, i, p);
  }

  /** When all block reads succeed, a caller that is not behind always has a complete window. */
  lemma {:induction false} RunComplete(node: Node, calls: seq<Call>, call: Call)
    requires ValidRun(calls) && ValidCall(call) && GrowInto(calls, call.chain) && NotBefore(calls, call)
    requires AllBlocksRead(calls) && BlocksRead(call)
    requires node.cfg.marketHistory > 0 && !After(node, calls).poisoned
    ensures Complete(call, Prepared(After(node, calls), call), node.cfg.aggressiveHistory)
  {
    var st, n := After(node, calls), node.cfg.aggressiveHistory;
    var m := Prepared(st, call);
    RunKeepsInv(node, calls, call.chain);
    PreparedInv(st, call, n);
    RunKeysOk(node, calls, call);
    RecordedNotShortened(node, calls, call, m, n);
    CompleteIffNotShortened(call, m, n);
  }

  lemma NotShortened(call: Call, m: map<Key, nat>, n: nat, lo: nat, hi: nat, t: nat)
    requires ValidCall(call) && t == Tip(call) && t > 0 && call.chain.blocks[t].epoch == call.epoch
    requires IsHistoryRun(m, call.chain, call.epoch, n, lo, hi) && hi <= t
    ensures !Shortened(call, m, n)
  {
    ShortenedOnRun(call, m, n, lo, hi, t, Depth(EpochStart(call.chain, t), t - 1, n));
    EpochStartUnique(call.chain, lo, t);
  }

  /**
   In every run without faults and with nondecreasing ledger versions, every freshly computed
   reply is the reply of the cache-free reference.
   */
  lemma {:induction false} CleanRunAgrees(node: Node, calls: seq<Call>, call: Call)
    requires ValidRun(calls) && ValidCall(call) && GrowInto(calls, call.chain) && NotBefore(calls, call)
    requires AllBlocksRead(calls) && BlocksRead(call) && AllScansRead(calls) && ScansRead(call)
    requires node.cfg.marketHistory > 0 && Computes(node, After(node, calls), call)
    ensures Step(node, After(node, calls), call).1 == Reference(node, Clean(call))
  {
    RunComplete(node, calls, call);
    RunAgreesWithGaps(node, calls, call);
  }

  /**
   After every run whose block reads succeed and whose scans read everything, in any order of
   ledger versions: at most aggressive-history entries, the ends of consecutive final blocks of
   the last updated epoch, each at its block's price.
   */
  lemma {:induction false} RunCacheShape(node: Node, calls: seq<Call>, d: Chain)
    requires ValidRun(calls) && ValidChain(d) && GrowInto(calls, d) && node.cfg.marketHistory > 0
    requires AllBlocksRead(calls) && AllScansRead(calls)
    requires !After(node, calls).poisoned && After(node, calls).prices != map[]
    ensures var st := After(node, calls);
            && st.lastEpoch.Some? && |st.prices| <= node.cfg.aggressiveHistory
            && exists lo: nat, hi: nat :: IsRun(st.prices, d, st.lastEpoch.value, lo, hi)
                 && forall i :: lo <= i < hi ==> Priced(node, st.prices, d, st.lastEpoch.value, i)
  {
    var st := After(node, calls);
    RunKeepsInv(node, calls, d);
    RunRecords(node, calls);
    var e := st.lastEpoch.value;
    var lo: nat, hi: nat :| IsHistoryRun(st.prices, d, e, node.cfg.aggressiveHistory, lo, hi);
    forall i | lo <= i < hi ensures Priced(node, st.prices, d, e, i) {
      CachedInRun(st.prices, d, e, lo, hi, i);
      var k := (e, d.blocks[i].last);
      RecordedIsClean(node, calls, k, st.prices[k]);
      CleanIsRight(node, calls, d, e, i, st.prices[k]);
    }
    assert IsRun(st.prices, d, e, lo, hi);
  }

  /** The map has the block's final price. */
  predicate Priced(node: Node, m: map<Key, nat>, c: Chain, e: nat, i: nat)
    requires ValidChain(c) && i < |c.blocks|
  {
    Cached(m, c, e, i) && FinalPrice(node, c, e, i) == Some(m[(e, c.blocks[i].last)])
  }

  // ---------------------------------------------------------------- the stored estimate

  /** A completed write section records the caller's epoch and stores what it replies. */
  lemma FinishStores(node: Node, st: Cache, call: Call)
    requires ValidCall(call) && Computes(node, st, call) && node.cfg.marketHistory > 0
    ensures var (st', reply) := Step(node, st, call);
            !st'.poisoned ==> st'.lastEpoch == Some(call.epoch) && st'.estimation.Some?
                              && reply == Computed(st'.estimation.value)
  {
    var m := Prepared(st, call);
    var w := Walk(call, m, StartVersion(call), node.cfg.aggressiveHistory);
    ListedSomething(node, call, m, w);
  }

  /** Request j of the run computed estimate x for epoch e. */
  ghost predicate ComputedBy(node: Node, calls: seq<Call>, j: nat, e: nat, x: GasEstimation)
    requires AllValid(calls) && j < |calls|
  {
    calls[j].epoch == e && Computes(node, After(node, calls[..j]), calls[j])
    && Step(node, After(node, calls[..j]), calls[j]).1 == Computed(x)
  }

  /** Whatever fails: the stored estimate, which fresh requests are served, was computed by a request of its epoch. */
  lemma {:induction false} StoredIsComputed(node: Node, calls: seq<Call>)
    requires AllValid(calls) && node.cfg.marketHistory > 0
    ensures var st := After(node, calls);
            !st.poisoned && st.estimation.Some? ==>
              && st.lastEpoch.Some?
              && exists j :: 0 <= j < |calls| && ComputedBy(node, calls, j, st.lastEpoch.value, st.estimation.value)
  {
    if calls != [] {
      var n := |calls| - 1;
      var front, last := calls[..n], calls[n];
      var st := After(node, front);
      StoredIsComputed(node, front);
      if Computes(node, st, last) {
        FinishStores(node, st, last);
        var st' := After(node, calls);
        assert !st'.poisoned ==> ComputedBy(node, calls, n, st'.lastEpoch.value, st'.estimation.value);
      } else if !st.poisoned && st.estimation.Some? {
        var j: nat :| j < |front| && ComputedBy(node, front, j, st.lastEpoch.value, st.estimation.value);
        assert calls[..j] == front[..j];
        assert ComputedBy(node, calls, j, st.lastEpoch.value, st.estimation.value);
      }
    }
  }

  /**
   Exactly when a request is answered from the stored estimate: the estimator is on, no value is
   fixed, the lock is sound, the stored estimate is of the request's epoch, and it is still fresh.
   */
  lemma ServedExactly(node: Node, st: Cache, call: Call)
    requires ValidCall(call)
    ensures var (st', reply) := Step(node, st, call);
            && (reply.Served? <==>
                  && !call.faults.settings && node.cfg.enabled && node.cfg.staticOverride.None? && !st.poisoned
                  && st.lastEpoch == Some(call.epoch) && st.estimation.Some? && call.stillFresh)
            && (reply.Served? ==> reply.estimation == st.estimation.value)
            && (reply.Served? || reply.Fixed? || reply.ReadFailed? ==> st' == st)
  {
  }

  /** Whatever fails: what a request is served was computed by an earlier request of its own epoch. */
  lemma {:induction false} ServedIsComputed(node: Node, calls: seq<Call>, call: Call, x: GasEstimation)
    requires AllValid(calls) && ValidCall(call) && node.cfg.marketHistory > 0
    requires Step(node, After(node, calls), call).1 == Served(x)
    ensures exists j :: 0 <= j < |calls| && ComputedBy(node, calls, j, call.epoch, x)
  {
    StoredIsComputed(node, calls);
  }

  /** A fresh request right after one of the same epoch that computed x is served x. */
  lemma {:induction false} FreshIsServed(node: Node, calls: seq<Call>, last: Call, call: Call, x: GasEstimation)
    requires AllValid(calls) && ValidCall(last) && ValidCall(call) && node.cfg.marketHistory > 0
    requires Computes(node, After(node, calls), last) && Step(node, After(node, calls), last).1 == Computed(x)
    requires call.epoch == last.epoch && call.stillFresh && !call.faults.settings
    ensures AllValid(calls + [last]) && Step(node, After(node, calls + [last]), call).1 == Served(x)
  {
    var all := calls + [last];
    assert all[..|all| - 1] == calls;
    FinishStores(node, After(node, calls), last);
  }

  /** A fixed reply is the default when the estimator is off and the configured value otherwise. */
  lemma FixedExactly(node: Node, st: Cache, call: Call)
    requires ValidCall(call)
    ensures var reply := Step(node, st, call).1;
            var minGas := node.onChain(call.epoch).minGas;
            && (reply.ReadFailed? <==> call.faults.settings)
            && (reply.Fixed? <==> !call.faults.settings && (!node.cfg.enabled || node.cfg.staticOverride.Some?))
            && (reply.Fixed? && node.cfg.enabled ==> Some(reply.estimation) == node.cfg.staticOverride)
            && (reply.Fixed? && !node.cfg.enabled ==>
                  reply.estimation == GasEstimation(minGas, minGas, NextBucket(node.cfg.buckets, minGas)))
  {
  }

  predicate VersionsNondecreasing(calls: seq<Call>) {
    forall i, j :: 0 <= i < j < |calls| ==> calls[i].version <= calls[j].version
  }

  /** In a run without faults and with nondecreasing versions it is the reference of that request. */
  lemma {:induction false} StoredIsReference(node: Node, calls: seq<Call>)
    requires ValidRun(calls) && VersionsNondecreasing(calls) && node.cfg.marketHistory > 0
    requires AllBlocksRead(calls) && AllScansRead(calls)
    ensures var st := After(node, calls);
            !st.poisoned && st.estimation.Some? ==>
              exists j :: 0 <= j < |calls| && st.lastEpoch == Some(calls[j].epoch)
                          && Reference(node, Clean(calls[j])) == Computed(st.estimation.value)
  {
    StoredIsComputed(node, calls);
    var st := After(node, calls);
    if !st.poisoned && st.estimation.Some? {
      var j: nat :| j < |calls| && ComputedBy(node, calls, j, st.lastEpoch.value, st.estimation.value);
      PrefixOfRun(calls, j);
      CleanRunAgrees(node, calls[..j], calls[j]);
    }
  }

  lemma {:induction false} PrefixOfRun(calls: seq<Call>, j: nat)
    requires ValidRun(calls) && VersionsNondecreasing(calls) && j < |calls|
    requires AllBlocksRead(calls) && AllScansRead(calls)
    ensures ValidRun(calls[..j]) && GrowInto(calls[..j], calls[j].chain) && NotBefore(calls[..j], calls[j])
    ensures AllBlocksRead(calls[..j]) && AllScansRead(calls[..j])
  {
    assert forall i :: 0 <= i < j ==> calls[..j][i] == calls[i];
  }

  // ---------------------------------------------------------------- the three estimates over runs

  predicate Ordered(e: GasEstimation) {
    e.low <= e.market <= e.aggressive
  }

  predicate HasEstimation(reply: Reply) {
    reply.Fixed? || reply.Served? || reply.Computed?
  }

  lemma StepOrdered(node: Node, st: Cache, call: Call)
    requires ValidCall(call) && node.cfg.staticOverride.None?
    requires st.estimation.Some? ==> Ordered(st.estimation.value)
    ensures var (st', reply) := Step(node, st, call);
            && (st'.estimation.Some? ==> Ordered(st'.estimation.value))
            && (HasEstimation(reply) ==> Ordered(reply.estimation))
  {
    var minGas := node.onChain(call.epoch).minGas;
    var m := Prepared(st, call);
    var r := Record(node, call, m, Walk(call, m, StartVersion(call), node.cfg.aggressiveHistory));
    EstimatesOrdered(node.cfg, minGas, if r.Some? then r.value.prices else []);
  }

  /** In every run, whatever fails, every reply without a static override is ordered. */
  lemma {:induction false} RunOrdered(node: Node, calls: seq<Call>, call: Call)
    requires AllValid(calls)
    requires ValidCall(call) && node.cfg.staticOverride.None?
    ensures var st := After(node, calls);
            && (st.estimation.Some? ==> Ordered(st.estimation.value))
            && (var reply := Step(node, st, call).1; HasEstimation(reply) ==> Ordered(reply.estimation))
  {
    if calls != [] {
      RunOrdered(node, calls[..|calls| - 1], call);
      StepOrdered(node, After(node, calls[..|calls| - 1]), calls[|calls| - 1]);
    }
    StepOrdered(node, After(node, calls), call);
  }
}
