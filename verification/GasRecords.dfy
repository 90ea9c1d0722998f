/**
 Where the cached prices come from: over every run of requests with any faults, each entry was
 recorded by an earlier request, and what that says about its key and its value.
 */
module GasRecords {
  import opened Prelude
  import opened Ledger
  import opened BlockPrice
  import opened Estimate
  import opened GasHistory
  import opened GasListing

  // ---------------------------------------------------------------- what a walk finds

  /** Block i is one that a request may record: below its tip, or the tip itself after a fault. */
  predicate Recordable(call: Call, i: nat)
    requires ValidCall(call)
  {
    && i < |call.chain.blocks| && call.chain.blocks[i].epoch == call.epoch
    && (i < Tip(call) || (i == Tip(call) && (i == 0 || call.faults.tip)))
  }

  lemma {:induction false} WalkFindsOlder(call: Call, m: map<Key, nat>, v: nat, n: nat, i: nat)
    requires ValidCall(call) && i in Walk(call, m, v, n).found
    ensures i < |call.chain.blocks| && call.chain.blocks[i].first <= v && call.chain.blocks[i].epoch == call.epoch
    decreases n
  {
    var b := BlockInfo(call, v).value;
    var next := SaturatingSub(call.chain.blocks[b].first, 1);
    if i != b {
      WalkFindsOlder(call, m, next, n - 1, i);
    }
  }

  lemma FoundRecordable(call: Call, m: map<Key, nat>, n: nat, i: nat)
    requires ValidCall(call) && i in Walk(call, m, StartVersion(call), n).found
    ensures Recordable(call, i)
  {
    var c, t := call.chain, Tip(call);
    WalkFindsOlder(call, m, StartVersion(call), n, i);
    assert i <= t || Before(c, t, i);
    assert t == 0 || Before(c, 0, t);
    if c.blocks[t].epoch != call.epoch {
      assert BlockInfo(call, call.version).None? || BlockInfo(call, call.version).value == t;
    } else if t > 0 && !call.faults.tip {
      PreviousVersion(c, t);
      assert Before(c, t - 1, t);
    }
  }

  lemma {:induction false} FillKeys(node: Node, call: Call, m: map<Key, nat>, found: seq<nat>, k: Key)
    requires ValidCall(call) && BlocksOf(call.chain, found) && Fill(node, call, m, found).Some?
    requires k in Fill(node, call, m, found).value.cache
    ensures var p := Fill(node, call, m, found).value.cache[k];
            || (k in m && m[k] == p)
            || (exists i :: i in found && i < |call.chain.blocks| && k == EndKey(call, i) && PriceOf(node, call, i) == Some(p))
    decreases |found|
  {
    if found != [] {
      var m' := m[EndKey(call, found[0]) := PriceOf(node, call, found[0]).value];
      FillKeys(node, call, m', found[1..], k);
      assert forall i :: i in found[1..] ==> i in found;
      assert found[0] in found;
    }
  }

  // ---------------------------------------------------------------- runs

  predicate AllValid(calls: seq<Call>) {
    forall i :: 0 <= i < |calls| ==> ValidCall(calls[i])
  }

  /** The cache after a run of requests. */
  ghost function After(node: Node, calls: seq<Call>): Cache
    requires AllValid(calls)
  {
    if calls == [] then EmptyCache
    else Step(node, After(node, calls[..|calls| - 1]), calls[|calls| - 1]).0
  }

  /** Requests with any faults, at any ledger versions, against a storage that only grows. */
  predicate ValidRun(calls: seq<Call>) {
    && AllValid(calls)
    && (forall i, j :: 0 <= i < j < |calls| ==> Grows(calls[i].chain, calls[j].chain))
  }

  /** The request recorded price p for its block i under key k. */
  predicate RecordedBy(node: Node, call: Call, i: nat, k: Key, p: nat)
    requires ValidCall(call)
  {
    Recordable(call, i) && k == EndKey(call, i) && PriceOf(node, call, i) == Some(p)
  }

  predicate Recorded(node: Node, calls: seq<Call>, k: Key, p: nat)
    requires AllValid(calls)
  {
    exists j, i :: 0 <= j < |calls| && 0 <= i < |calls[j].chain.blocks| && RecordedBy(node, calls[j], i, k, p)
  }

  /** All entries are of the last updated epoch, recorded by the run, and at most n. */
  ghost predicate RecordsOk(node: Node, calls: seq<Call>, st: Cache)
    requires AllValid(calls)
  {
    st.poisoned ||
    (&& |st.prices| <= node.cfg.aggressiveHistory
     && (st.prices != map[] ==> st.lastEpoch.Some? && AllRecorded(node, calls, st.prices, st.lastEpoch.value)))
  }

  /** Every entry is of epoch e and recorded by a request. */
  ghost predicate AllRecorded(node: Node, calls: seq<Call>, m: map<Key, nat>, e: nat)
    requires AllValid(calls)
  {
    forall k :: k in m ==> k.0 == e && Recorded(node, calls, k, m[k])
  }

  lemma {:induction false} RecordedMore(node: Node, calls: seq<Call>, call: Call, k: Key, p: nat)
    requires AllValid(calls) && ValidCall(call)
    requires Recorded(node, calls, k, p)
    ensures Recorded(node, calls + [call], k, p)
  {
    var j, i :| 0 <= j < |calls| && 0 <= i < |calls[j].chain.blocks| && RecordedBy(node, calls[j], i, k, p);
    assert (calls + [call])[j] == calls[j];
  }

  lemma {:induction false} RecordedNow(node: Node, calls: seq<Call>, call: Call, i: nat, k: Key, p: nat)
    requires AllValid(calls) && ValidCall(call)
    requires RecordedBy(node, call, i, k, p)
    ensures Recorded(node, calls + [call], k, p)
  {
    assert (calls + [call])[|calls|] == call;
  }

  /** The request reaches the write section. */
  predicate Computes(node: Node, st: Cache, call: Call) {
    && !call.faults.settings && node.cfg.enabled && node.cfg.staticOverride.None?
    && !st.poisoned && !ServesStored(st, call)
  }

  /** The map after recording: every entry is an old one or recorded by this request. */
  lemma {:induction false} RecordKeys(node: Node, calls: seq<Call>, call: Call, m: map<Key, nat>, w: WalkResult, k: Key)
    requires AllValid(calls) && ValidCall(call)
    requires w == Walk(call, m, StartVersion(call), node.cfg.aggressiveHistory)
    requires AllRecorded(node, calls, m, call.epoch)
    requires Fill(node, call, m, w.found).Some? && k in Fill(node, call, m, w.found).value.cache
    ensures k.0 == call.epoch && Recorded(node, calls + [call], k, Fill(node, call, m, w.found).value.cache[k])
  {
    var p := Fill(node, call, m, w.found).value.cache[k];
    FillKeys(node, call, m, w.found, k);
    if k in m && m[k] == p {
      RecordedMore(node, calls, call, k, p);
    } else {
      var i :| i in w.found && i < |call.chain.blocks| && k == EndKey(call, i) && PriceOf(node, call, i) == Some(p);
      FoundRecordable(call, m, node.cfg.aggressiveHistory, i);
      RecordedNow(node, calls, call, i, k, p);
    }
  }

  /** When the scan of the k-th found block panics, exactly the blocks found before it stay recorded. */
  lemma {:induction false} PanicKeepsPrefix(node: Node, call: Call, m: map<Key, nat>, found: seq<nat>, k: nat)
    requires ValidCall(call) && BlocksOf(call.chain, found) && k < |found|
    requires PriceOf(node, call, found[k]).None? && Fill(node, call, m, found[..k]).Some?
    ensures FilledUntilPanic(node, call, m, found) == Fill(node, call, m, found[..k]).value.cache
    decreases k
  {
    if k > 0 {
      assert found[..k][0] == found[0] && found[..k][1..] == found[1..][..k - 1];
      PanicKeepsPrefix(node, call, m[EndKey(call, found[0]) := PriceOf(node, call, found[0]).value], found[1..], k - 1);
    }
  }

  lemma {:induction false} FillPrices(node: Node, call: Call, m: map<Key, nat>, found: seq<nat>)
    requires ValidCall(call) && BlocksOf(call.chain, found)
    ensures var f := Fill(node, call, m, found);
            PricesOf(node, call, found) == if f.None? then None else Some(f.value.prices)
    decreases |found|
  {
    if found != [] && PriceOf(node, call, found[0]).Some? {
      FillPrices(node, call, m[EndKey(call, found[0]) := PriceOf(node, call, found[0]).value], found[1..]);
    }
  }

  lemma {:induction false} FillKeepsKeys(node: Node, call: Call, m: map<Key, nat>, found: seq<nat>)
    requires ValidCall(call) && BlocksOf(call.chain, found) && Fill(node, call, m, found).Some?
    ensures m.Keys <= Fill(node, call, m, found).value.cache.Keys
    decreases |found|
  {
    if found != [] {
      FillKeepsKeys(node, call, m[EndKey(call, found[0]) := PriceOf(node, call, found[0]).value], found[1..]);
    }
  }

  /** A request that found or hit a block never takes a "prices empty" path. */
  lemma ListedSomething(node: Node, call: Call, m: map<Key, nat>, w: WalkResult)
    requires ValidCall(call) && w == Walk(call, m, StartVersion(call), node.cfg.aggressiveHistory)
    requires node.cfg.marketHistory > 0
    ensures var r := Record(node, call, m, w);
            r.Some? && (w.found != [] || w.hit) ==>
              FromPrices(node.cfg, node.onChain(call.epoch).minGas, r.value.prices).Some?
  {
    var r := Record(node, call, m, w);
    if r.Some? && (w.found != [] || w.hit) {
      FillPrices(node, call, m, w.found);
      if w.hit {
        FillKeepsKeys(node, call, m, w.found);
        assert RangeDown(Fill(node, call, m, w.found).value.cache, call.epoch, w.lookup) != [];
      }
      FromPricesDefined(node.cfg, node.onChain(call.epoch).minGas, r.value.prices);
    }
  }

  lemma {:induction false} RecordedStill(node: Node, calls: seq<Call>, call: Call, m: map<Key, nat>, e: nat)
    requires AllValid(calls) && ValidCall(call)
    requires AllRecorded(node, calls, m, e)
    ensures AllRecorded(node, calls + [call], m, e)
  {
    forall k | k in m ensures Recorded(node, calls + [call], k, m[k]) {
      RecordedMore(node, calls, call, k, m[k]);
    }
  }

  lemma {:induction false} FillRecorded(node: Node, calls: seq<Call>, call: Call, m: map<Key, nat>, w: WalkResult)
    requires AllValid(calls) && ValidCall(call)
    requires w == Walk(call, m, StartVersion(call), node.cfg.aggressiveHistory)
    requires AllRecorded(node, calls, m, call.epoch) && Fill(node, call, m, w.found).Some?
    ensures AllRecorded(node, calls + [call], Fill(node, call, m, w.found).value.cache, call.epoch)
  {
    var cache := Fill(node, call, m, w.found).value.cache;
    forall k | k in cache ensures k.0 == call.epoch && Recorded(node, calls + [call], k, cache[k]) {
      RecordKeys(node, calls, call, m, w, k);
    }
  }

  lemma {:induction false} EvictRecorded(node: Node, calls: seq<Call>, m: map<Key, nat>, e: nat, n: nat)
    requires AllValid(calls) && AllRecorded(node, calls, m, e)
    ensures AllRecorded(node, calls, Evict(m, n), e)
  {
  }

  lemma {:induction false} FinishRecords(node: Node, calls: seq<Call>, st: Cache, call: Call, m: map<Key, nat>, w: WalkResult)
    requires AllValid(calls) && ValidCall(call)
    requires w == Walk(call, m, StartVersion(call), node.cfg.aggressiveHistory) && node.cfg.marketHistory > 0
    requires |m| <= node.cfg.aggressiveHistory && AllRecorded(node, calls, m, call.epoch)
    ensures RecordsOk(node, calls + [call], Finish(node, st, call, m, w).0)
  {
    ListedSomething(node, call, m, w);
    RecordedStill(node, calls, call, m, call.epoch);
    var f := Fill(node, call, m, w.found);
    if f.Some? {
      FillRecorded(node, calls, call, m, w);
      EvictRecorded(node, calls + [call], f.value.cache, call.epoch, node.cfg.aggressiveHistory);
    }
  }

  /** Every request, whatever fails, keeps the records. */
  lemma {:induction false} StepRecords(node: Node, calls: seq<Call>, st: Cache, call: Call)
    requires AllValid(calls) && ValidCall(call)
    requires node.cfg.marketHistory > 0 && RecordsOk(node, calls, st)
    ensures RecordsOk(node, calls + [call], Step(node, st, call).0)
  {
    if Computes(node, st, call) {
      var m := Prepared(st, call);
      FinishRecords(node, calls, st, call, m, Walk(call, m, StartVersion(call), node.cfg.aggressiveHistory));
    } else if !st.poisoned && st.prices != map[] {
      RecordedStill(node, calls, call, st.prices, st.lastEpoch.value);
    }
  }

  /**
   After every run, whatever fails and in whatever order ledger versions arrive: at most
   aggressive-history entries, all of the last updated epoch, each recorded by a request.
   */
  lemma {:induction false} RunRecords(node: Node, calls: seq<Call>)
    requires AllValid(calls) && node.cfg.marketHistory > 0
    ensures RecordsOk(node, calls, After(node, calls))
  {
    if calls != [] {
      var front, last := calls[..|calls| - 1], calls[|calls| - 1];
      assert front + [last] == calls;
      RunRecords(node, front);
      StepRecords(node, front, After(node, front), last);
    }
  }

  // ---------------------------------------------------------------- what a record says about its key

  /** The chains of the calls grow into d. */
  predicate GrowInto(calls: seq<Call>, d: Chain) {
    forall j :: 0 <= j < |calls| ==> Grows(calls[j].chain, d)
  }

  lemma {:induction false} RecordedOfEpoch(node: Node, calls: seq<Call>, d: Chain, k: Key, p: nat)
    requires AllValid(calls) && ValidChain(d) && GrowInto(calls, d)
    requires Recorded(node, calls, k, p)
    ensures OfEpoch(d, k.0, k.1)
  {
    var j, i :| 0 <= j < |calls| && 0 <= i < |calls[j].chain.blocks| && RecordedBy(node, calls[j], i, k, p);
    GrowsAt(calls[j].chain, d, i);
  }

  /** The map that a request of the run finds: its versions lie in blocks of its own epoch. */
  lemma {:induction false} RunKeysOk(node: Node, calls: seq<Call>, call: Call)
    requires AllValid(calls) && ValidCall(call) && GrowInto(calls, call.chain)
    requires node.cfg.marketHistory > 0 && !After(node, calls).poisoned
    ensures var m := Prepared(After(node, calls), call);
            && KeysOk(m, call.chain, call.epoch) && |m| <= node.cfg.aggressiveHistory
            && AllRecorded(node, calls, m, call.epoch)
  {
    RunRecords(node, calls);
    var m := Prepared(After(node, calls), call);
    forall v: nat | (call.epoch, v) in m ensures OfEpoch(call.chain, call.epoch, v) {
      RecordedOfEpoch(node, calls, call.chain, (call.epoch, v), m[(call.epoch, v)]);
    }
  }

  /**
   Every run: whatever failed before and whatever fails now, a request lists exactly its history
   if and only if its window is complete.
   */
  lemma {:induction false} RunListExact(node: Node, calls: seq<Call>, call: Call)
    requires AllValid(calls) && ValidCall(call) && GrowInto(calls, call.chain)
    requires node.cfg.marketHistory > 0 && !After(node, calls).poisoned
    ensures var m, n := Prepared(After(node, calls), call), node.cfg.aggressiveHistory;
            Listed(call, m, n) == HistoryEnds(call, n) <==> Complete(call, m, n)
  {
    RunKeysOk(node, calls, call);
    ListExact(call, Prepared(After(node, calls), call), node.cfg.aggressiveHistory);
  }

  // ---------------------------------------------------------------- what a record says about its value

  /** The scan of block i reads everything it looks at. */
  predicate ScanOk(call: Call, i: nat)
    requires i < |call.chain.blocks|
  {
    i !in call.faults.scans && ReadsBlock(call.chain, call.faults.items, i)
  }

  /** The price of a final block, whatever request asks for it. */
  function FinalPrice(node: Node, c: Chain, e: nat, i: nat): Option<nat>
    requires ValidChain(c) && i < |c.blocks|
  {
    PriceOf(node, Call(c, |c.txns| - 1, e, false, NoFaults), i)
  }

  lemma PriceIsFinal(node: Node, call: Call, i: nat)
    requires ValidCall(call) && i < |call.chain.blocks| && call.chain.blocks[i].last <= call.version
    requires ScanOk(call, i)
    ensures PriceOf(node, call, i) == FinalPrice(node, call.chain, call.epoch, i)
  {
    CompleteWindow(call.chain, call.faults.items, call.version, i);
    CompleteWindow(call.chain, NoReadErrors, |call.chain.txns| - 1, i);
  }

  lemma FinalPriceGrows(node: Node, c: Chain, d: Chain, e: nat, i: nat)
    requires ValidChain(c) && ValidChain(d) && Grows(c, d) && i < |c.blocks|
    requires i < |c.blocks| - 1 || i == 0
    ensures d.blocks[i].last == c.blocks[i].last && d.blocks[i].epoch == c.blocks[i].epoch
    ensures FinalPrice(node, d, e, i) == FinalPrice(node, c, e, i)
  {
    GrowsAt(c, d, i);
    assert i == |c.blocks| - 1 || Before(c, i, |c.blocks| - 1);
    assert i == |d.blocks| - 1 || Before(d, i, |d.blocks| - 1);
    WindowStable(c, |c.txns| - 1, d, |d.txns| - 1, i);
  }

  /** The request recorded the block below its tip, so the block was complete and final. */
  predicate BelowTip(call: Call, i: nat)
    requires ValidCall(call)
  {
    i < Tip(call) || i == 0
  }

  /**
   What a record below the tip says in every later storage: its key is the end of the block, its
   value is the block's price when the scan read everything, and the minimum gas price when the
   scan failed; then it is right exactly when the block costs the minimum.
   */
  lemma RecordedBelowTip(node: Node, call: Call, i: nat, k: Key, p: nat, d: Chain)
    requires ValidCall(call) && ValidChain(d) && Grows(call.chain, d)
    requires RecordedBy(node, call, i, k, p) && BelowTip(call, i)
    ensures k == (call.epoch, d.blocks[i].last) && d.blocks[i].epoch == call.epoch
    ensures ScanOk(call, i) ==> FinalPrice(node, d, call.epoch, i) == Some(p)
    ensures i in call.faults.scans ==> p == node.onChain(call.epoch).minGas
  {
    assert i == 0 || Before(call.chain, i, Tip(call));
    FinalPriceGrows(node, call.chain, d, call.epoch, i);
    if ScanOk(call, i) {
      PriceIsFinal(node, call, i);
    }
  }

  /** No request so far met a fault on the tip's block. */
  predicate TipsRead(calls: seq<Call>) {
    forall j :: 0 <= j < |calls| ==> !calls[j].faults.tip
  }

  /** Without faults on the tip, every entry is the end of a final block: no stray versions. */
  lemma {:induction false} RunHoldsBlocks(node: Node, calls: seq<Call>, d: Chain, k: Key)
    requires AllValid(calls) && ValidChain(d) && GrowInto(calls, d)
    requires node.cfg.marketHistory > 0 && TipsRead(calls)
    requires !After(node, calls).poisoned && k in After(node, calls).prices
    ensures exists i :: 0 <= i < |d.blocks| && (i < |d.blocks| - 1 || i == 0)
              && d.blocks[i].epoch == k.0 && d.blocks[i].last == k.1
  {
    RunRecords(node, calls);
    var p := After(node, calls).prices[k];
    var j, i :| 0 <= j < |calls| && 0 <= i < |calls[j].chain.blocks| && RecordedBy(node, calls[j], i, k, p);
    RecordedBelowTip(node, calls[j], i, k, p, d);
  }
}
