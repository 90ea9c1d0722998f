/** One request against the cache-free reference: with a complete window and right prices they agree. */
module GasAgreement {
  import opened Prelude
  import opened Ledger
  import opened GasHistory
  import opened GasListing
  import opened GasRecords

  // ---------------------------------------------------------------- what the price list is made of

  /** A block is only recorded when its end is not cached, and lies above a hit. */
  lemma {:induction false} WalkFresh(call: Call, m: map<Key, nat>, j: nat, n: nat, i: nat)
    requires ValidCall(call) && j < |call.chain.blocks| && PastGenesis(call, m)
    requires i in Walk(call, m, call.chain.blocks[j].last, n).found
    ensures i < |call.chain.blocks| && !Cached(m, call.chain, call.epoch, i)
    decreases j
  {
    var c := call.chain;
    BlockIndexUnique(c, c.blocks[j].last, j);
    var w := if j == 1 then WalkResult([], false, 0) else Walk(call, m, c.blocks[j - 1].last, n - 1);
    WalkGoesOn(call, m, j, n, w);
    if i != j {
      WalkFresh(call, m, j - 1, n - 1, i);
    }
  }

  lemma {:induction false} FoundAboveHit(call: Call, m: map<Key, nat>, v: nat, n: nat, i: nat)
    requires ValidCall(call) && Walk(call, m, v, n).hit && i in Walk(call, m, v, n).found
    ensures i < |call.chain.blocks| && call.chain.blocks[i].last > Walk(call, m, v, n).lookup
    decreases n
  {
    var b := BlockInfo(call, v).value;
    var next := SaturatingSub(call.chain.blocks[b].first, 1);
    WalkDescends(call, m, next, n - 1);
    if i != b {
      FoundAboveHit(call, m, next, n - 1, i);
    }
  }

  lemma {:induction false} WalkDescends(call: Call, m: map<Key, nat>, v: nat, n: nat)
    requires ValidCall(call)
    ensures Walk(call, m, v, n).lookup <= v
    decreases n
  {
    if n > 0 && (call.epoch, v) !in m && BlockInfo(call, v).Some? {
      WalkDescends(call, m, SaturatingSub(call.chain.blocks[BlockInfo(call, v).value].first, 1), n - 1);
    }
  }

  lemma {:induction false} FillOutside(node: Node, call: Call, m: map<Key, nat>, found: seq<nat>, k: Key)
    requires ValidCall(call) && BlocksOf(call.chain, found) && Fill(node, call, m, found).Some?
    requires forall x :: 0 <= x < |found| ==> k != EndKey(call, found[x])
    ensures var m' := Fill(node, call, m, found).value.cache; (k in m' <==> k in m) && (k in m ==> m'[k] == m[k])
    decreases |found|
  {
    if found != [] {
      assert k != EndKey(call, found[0]);
      FillOutside(node, call, m[EndKey(call, found[0]) := PriceOf(node, call, found[0]).value], found[1..], k);
    }
  }

  lemma {:induction false} RangeSame(m: map<Key, nat>, m': map<Key, nat>, e: nat, v: int)
    requires v >= -1
    requires forall u: nat :: u <= v ==> ((e, u) in m' <==> (e, u) in m) && ((e, u) in m ==> m'[(e, u)] == m[(e, u)])
    ensures RangeDown(m', e, v) == RangeDown(m, e, v)
    decreases v
  {
    if v >= 0 {
      RangeSame(m, m', e, v - 1);
    }
  }

  /** The values below a hit are those that were cached before the request. */
  lemma RangeBelowHit(node: Node, call: Call, m: map<Key, nat>, v: nat, n: nat)
    requires ValidCall(call)
    requires var w := Walk(call, m, v, n); w.hit && Fill(node, call, m, w.found).Some?
    ensures var w := Walk(call, m, v, n);
            RangeDown(Fill(node, call, m, w.found).value.cache, call.epoch, w.lookup) == RangeDown(m, call.epoch, w.lookup)
  {
    var w := Walk(call, m, v, n);
    var m' := Fill(node, call, m, w.found).value.cache;
    forall u: nat | u <= w.lookup
      ensures ((call.epoch, u) in m' <==> (call.epoch, u) in m)
           && ((call.epoch, u) in m ==> m'[(call.epoch, u)] == m[(call.epoch, u)])
    {
      forall x | 0 <= x < |w.found| ensures (call.epoch, u) != EndKey(call, w.found[x]) {
        FoundAboveHit(call, m, v, n, w.found[x]);
      }
      FillOutside(node, call, m, w.found, (call.epoch, u));
    }
    RangeSame(m, m', call.epoch, w.lookup);
  }

  // ---------------------------------------------------------------- prices of block lists

  lemma {:induction false} PricesOfConcat(node: Node, call: Call, xs: seq<nat>, ys: seq<nat>)
    requires ValidCall(call) && BlocksOf(call.chain, xs) && BlocksOf(call.chain, ys)
    requires PricesOf(node, call, ys).Some?
    ensures BlocksOf(call.chain, xs + ys)
    ensures PricesOf(node, call, xs + ys)
         == if PricesOf(node, call, xs).None? then None
            else Some(PricesOf(node, call, xs).value + PricesOf(node, call, ys).value)
    decreases |xs|
  {
    if xs == [] {
      assert xs + ys == ys;
      assert [] + PricesOf(node, call, ys).value == PricesOf(node, call, ys).value;
    } else {
      PricesOfConcat(node, call, xs[1..], ys);
      assert (xs + ys)[1..] == xs[1..] + ys && (xs + ys)[0] == xs[0];
      if PricesOf(node, call, xs).Some? {
        var p, rest := PriceOf(node, call, xs[0]).value, PricesOf(node, call, xs[1..]).value;
        assert ([p] + rest) + PricesOf(node, call, ys).value == [p] + (rest + PricesOf(node, call, ys).value);
      }
    }
  }

  lemma {:induction false} PricesPointwise(node: Node, call: Call, blocks: seq<nat>, values: seq<nat>)
    requires ValidCall(call) && BlocksOf(call.chain, blocks) && |values| == |blocks|
    requires forall j :: 0 <= j < |blocks| ==> PriceOf(node, call, blocks[j]) == Some(values[j])
    ensures PricesOf(node, call, blocks) == Some(values)
    decreases |blocks|
  {
    if blocks != [] {
      PricesPointwise(node, call, blocks[1..], values[1..]);
      assert values == [values[0]] + values[1..];
    }
  }

  lemma {:induction false} PricesEqual(node: Node, a: Call, b: Call, blocks: seq<nat>)
    requires ValidCall(a) && ValidCall(b) && BlocksOf(a.chain, blocks) && BlocksOf(b.chain, blocks)
    requires forall j :: 0 <= j < |blocks| ==> PriceOf(node, a, blocks[j]) == PriceOf(node, b, blocks[j])
    ensures PricesOf(node, a, blocks) == PricesOf(node, b, blocks)
    decreases |blocks|
  {
    if blocks != [] {
      PricesEqual(node, a, b, blocks[1..]);
    }
  }

  // ---------------------------------------------------------------- agreement

  /** What the request uses for history block i is right: the cached value, or its own scan. */
  predicate Right(node: Node, call: Call, m: map<Key, nat>, i: nat)
    requires ValidCall(call) && i < |call.chain.blocks|
  {
    if Cached(m, call.chain, call.epoch, i)
    then FinalPrice(node, call.chain, call.epoch, i) == Some(m[EndKey(call, i)])
    else ScanOk(call, i)
  }

  predicate AllRight(node: Node, call: Call, m: map<Key, nat>)
    requires ValidCall(call)
  {
    var h := History(call.chain, call.epoch, call.version, node.cfg.aggressiveHistory);
    forall x :: 0 <= x < |h| ==> Right(node, call, m, h[x])
  }

  lemma HistoryComplete(call: Call, n: nat, x: nat)
    requires ValidCall(call) && x < |History(call.chain, call.epoch, call.version, n)|
    ensures call.chain.blocks[History(call.chain, call.epoch, call.version, n)[x]].last <= call.version
  {
    var t, i := Tip(call), History(call.chain, call.epoch, call.version, n)[x];
    assert i == t || Before(call.chain, i, t);
  }

  /** When the list is the history, the found blocks are its first ones and uncached. */
  lemma FoundIsHistory(call: Call, m: map<Key, nat>, n: nat)
    requires ValidCall(call) && KeysOk(m, call.chain, call.epoch) && Listed(call, m, n) == HistoryEnds(call, n)
    ensures var found := Walk(call, m, StartVersion(call), n).found;
            var h := History(call.chain, call.epoch, call.version, n);
            && found <= h
            && forall x :: 0 <= x < |found| ==> !Cached(m, call.chain, call.epoch, found[x])
  {
    var c, w := call.chain, Walk(call, m, StartVersion(call), n);
    var h := History(c, call.epoch, call.version, n);
    var ends := Listed(call, m, n);
    LastsIncrease(c);
    forall x | 0 <= x < |w.found| ensures x < |h| && w.found[x] == h[x] {
      assert ends[x] == c.blocks[w.found[x]].last;
      assert HistoryEnds(call, n)[x] == c.blocks[h[x]].last;
    }
    forall x | 0 <= x < |w.found| ensures !Cached(m, c, call.epoch, w.found[x]) {
      FoundUncached(call, m, n, w.found[x]);
    }
  }

  lemma FoundUncached(call: Call, m: map<Key, nat>, n: nat, i: nat)
    requires ValidCall(call) && KeysOk(m, call.chain, call.epoch)
    requires i in Walk(call, m, StartVersion(call), n).found && i in History(call.chain, call.epoch, call.version, n)
    ensures i < |call.chain.blocks| && !Cached(m, call.chain, call.epoch, i)
  {
    var c, t := call.chain, Tip(call);
    if c.blocks[t].epoch != call.epoch {
      ExactOtherEpoch(call, m, n);
    } else if t == 0 {
      WalkGenesis(call, m, n);
    } else {
      KeysFromStart(m, c, call.epoch, t);
      if call.faults.tip {
        WalkFromTip(call, m, n, i);
      } else {
        PreviousVersion(c, t);
        WalkFresh(call, m, t - 1, n, i);
      }
    }
  }

  /** After a fault on the tip the walk takes the tip's block first and then goes on from its end. */
  lemma WalkFromTip(call: Call, m: map<Key, nat>, n: nat, i: nat)
    requires ValidCall(call) && PastGenesis(call, m) && Tip(call) > 0 && call.faults.tip
    requires i in Walk(call, m, call.version, n).found && i < Tip(call)
    ensures !Cached(m, call.chain, call.epoch, i)
  {
    var t := Tip(call);
    PreviousVersion(call.chain, t);
    if t > 1 {
      WalkFresh(call, m, t - 1, n - 1, i);
    }
  }

  /** Block i is complete at the caller's version and what the request uses for it is right. */
  predicate Usable(node: Node, call: Call, m: map<Key, nat>, i: nat)
    requires ValidCall(call) && i < |call.chain.blocks|
  {
    call.chain.blocks[i].last <= call.version && Right(node, call, m, i)
  }

  predicate AllUsable(node: Node, call: Call, m: map<Key, nat>, h: seq<nat>)
    requires ValidCall(call) && BlocksOf(call.chain, h)
  {
    forall x :: 0 <= x < |h| ==> Usable(node, call, m, h[x])
  }

  lemma UsableCached(node: Node, call: Call, m: map<Key, nat>, i: nat)
    requires ValidCall(call) && i < |call.chain.blocks| && Usable(node, call, m, i) && Cached(m, call.chain, call.epoch, i)
    ensures PriceOf(node, Clean(call), i) == Some(m[EndKey(call, i)])
  {
    PriceIsFinal(node, Clean(call), i);
  }

  lemma UsableScanned(node: Node, call: Call, m: map<Key, nat>, i: nat)
    requires ValidCall(call) && i < |call.chain.blocks| && Usable(node, call, m, i) && !Cached(m, call.chain, call.epoch, i)
    ensures PriceOf(node, Clean(call), i) == PriceOf(node, call, i)
  {
    PriceIsFinal(node, call, i);
    PriceIsFinal(node, Clean(call), i);
  }

  /** What two equal lists of ends say about their second parts. */
  lemma TailEnds(c: Chain, found: seq<nat>, versions: seq<nat>, h: seq<nat>)
    requires BlocksOf(c, found) && BlocksOf(c, h) && EndsOf(c, found) + versions == EndsOf(c, h)
    ensures |h| == |found| + |versions| && BlocksOf(c, h[|found|..]) && EndsOf(c, h[|found|..]) == versions
  {
    var f, ends := |found|, EndsOf(c, h);
    assert |ends| == f + |versions|;
    assert EndsOf(c, h[f..]) == ends[f..];
  }

  /** Cached values listed for the blocks of rest. */
  lemma CachedPart(node: Node, call: Call, m: map<Key, nat>, rest: seq<nat>, values: seq<nat>)
    requires ValidCall(call) && BlocksOf(call.chain, rest) && AllUsable(node, call, m, rest) && |values| == |rest|
    requires var versions := EndsOf(call.chain, rest);
             forall x :: 0 <= x < |values| ==> (call.epoch, versions[x]) in m && values[x] == m[(call.epoch, versions[x])]
    ensures PricesOf(node, Clean(call), rest) == Some(values)
  {
    var versions := EndsOf(call.chain, rest);
    forall x | 0 <= x < |values| ensures PriceOf(node, Clean(call), rest[x]) == Some(values[x]) {
      assert versions[x] == call.chain.blocks[rest[x]].last;
      assert Usable(node, call, m, rest[x]);
      UsableCached(node, call, m, rest[x]);
    }
    PricesPointwise(node, Clean(call), rest, values);
  }

  lemma UsableTail(node: Node, call: Call, m: map<Key, nat>, h: seq<nat>, f: nat)
    requires ValidCall(call) && BlocksOf(call.chain, h) && AllUsable(node, call, m, h) && f <= |h|
    ensures BlocksOf(call.chain, h[f..]) && AllUsable(node, call, m, h[f..])
  {
  }

  /** Scanned prices of the first blocks of h. */
  lemma ScannedPart(node: Node, call: Call, m: map<Key, nat>, h: seq<nat>, found: seq<nat>)
    requires ValidCall(call) && BlocksOf(call.chain, h) && AllUsable(node, call, m, h) && found <= h
    requires forall x :: 0 <= x < |found| ==> found[x] < |call.chain.blocks| && !Cached(m, call.chain, call.epoch, found[x])
    ensures PricesOf(node, Clean(call), found) == PricesOf(node, call, found)
  {
    forall x | 0 <= x < |found| ensures PriceOf(node, Clean(call), found[x]) == PriceOf(node, call, found[x]) {
      assert Usable(node, call, m, h[x]);
      UsableScanned(node, call, m, found[x]);
    }
    PricesEqual(node, Clean(call), call, found);
  }

  /** The price list is the reference list whenever the list is the history and all is usable. */
  lemma RecordAgrees(node: Node, call: Call, m: map<Key, nat>, w: WalkResult, h: seq<nat>)
    requires ValidCall(call) && w == Walk(call, m, StartVersion(call), node.cfg.aggressiveHistory)
    requires BlocksOf(call.chain, h) && AllUsable(node, call, m, h) && w.found <= h
    requires forall x :: 0 <= x < |w.found| ==> !Cached(m, call.chain, call.epoch, w.found[x])
    requires ListedEnds(call, m, w, node.cfg.aggressiveHistory) == EndsOf(call.chain, h)
    ensures var r := Record(node, call, m, w);
            PricesOf(node, Clean(call), h) == if r.Some? then Some(r.value.prices) else None
  {
    ScannedPart(node, call, m, h, w.found);
    FillPrices(node, call, m, w.found);
    if w.hit {
      RestAgrees(node, call, m, w, h);
      PricesOfConcat(node, Clean(call), w.found, h[|w.found|..]);
      assert w.found + h[|w.found|..] == h;
      if Fill(node, call, m, w.found).Some? {
        RangeBelowHit(node, call, m, StartVersion(call), node.cfg.aggressiveHistory);
      }
    } else {
      TailEnds(call.chain, w.found, [], h);
      assert h == w.found;
    }
  }

  lemma TakenValues(m: map<Key, nat>, e: nat, v: nat, n: nat, versions: seq<nat>, values: seq<nat>)
    requires versions == Take(VersionsDown(m, e, v), n) && values == Take(RangeDown(m, e, v), n)
    ensures |values| == |versions|
    ensures forall x :: 0 <= x < |values| ==> (e, versions[x]) in m && values[x] == m[(e, versions[x])]
  {
    RangeValues(m, e, v);
  }

  lemma RestAgrees(node: Node, call: Call, m: map<Key, nat>, w: WalkResult, h: seq<nat>)
    requires ValidCall(call) && BlocksOf(call.chain, h) && AllUsable(node, call, m, h)
    requires BlocksOf(call.chain, w.found) && |w.found| <= node.cfg.aggressiveHistory && w.hit
    requires ListedEnds(call, m, w, node.cfg.aggressiveHistory) == EndsOf(call.chain, h)
    ensures |w.found| <= |h|
    ensures PricesOf(node, Clean(call), h[|w.found|..])
         == Some(Take(RangeDown(m, call.epoch, w.lookup), node.cfg.aggressiveHistory - |w.found|))
  {
    var versions := Take(VersionsDown(m, call.epoch, w.lookup), node.cfg.aggressiveHistory - |w.found|);
    var values := Take(RangeDown(m, call.epoch, w.lookup), node.cfg.aggressiveHistory - |w.found|);
    TailEnds(call.chain, w.found, versions, h);
    TakenValues(m, call.epoch, w.lookup, node.cfg.aggressiveHistory - |w.found|, versions, values);
    UsableTail(node, call, m, h, |w.found|);
    CachedPart(node, call, m, h[|w.found|..], values);
  }

  lemma HistoryUsable(node: Node, call: Call, m: map<Key, nat>)
    requires ValidCall(call) && AllRight(node, call, m)
    ensures AllUsable(node, call, m, History(call.chain, call.epoch, call.version, node.cfg.aggressiveHistory))
  {
    var h := History(call.chain, call.epoch, call.version, node.cfg.aggressiveHistory);
    forall x | 0 <= x < |h| ensures Usable(node, call, m, h[x]) {
      assert Right(node, call, m, h[x]);
      HistoryComplete(call, node.cfg.aggressiveHistory, x);
    }
  }

  lemma ListedNothing(call: Call, m: map<Key, nat>, n: nat)
    requires ValidCall(call)
    ensures var w := Walk(call, m, StartVersion(call), n); Listed(call, m, n) == [] <==> w.found == [] && !w.hit
  {
    var w := Walk(call, m, StartVersion(call), n);
    if w.hit {
      VersionsSome(m, call.epoch, w.lookup, w.lookup);
    }
  }

  lemma FinishAgrees(node: Node, st: Cache, call: Call, m: map<Key, nat>, w: WalkResult)
    requires ValidCall(call) && BlocksOf(call.chain, w.found) && |w.found| <= node.cfg.aggressiveHistory
    requires var h := History(call.chain, call.epoch, call.version, node.cfg.aggressiveHistory);
             var r := Record(node, call, m, w);
             && (h == [] <==> w.found == [] && !w.hit)
             && PricesOf(node, Clean(call), h) == if r.Some? then Some(r.value.prices) else None
    ensures Finish(node, st, call, m, w).1 == Reference(node, Clean(call))
  {
  }

  /**
   A request that reaches the write section answers as the cache-free reference does whenever its
   window is complete and what it uses is right, whatever else fails, and also when a scan panics.
   */
  lemma StepAgrees(node: Node, st: Cache, call: Call)
    requires ValidCall(call) && Computes(node, st, call)
    requires var m := Prepared(st, call);
             && KeysOk(m, call.chain, call.epoch) && Complete(call, m, node.cfg.aggressiveHistory)
             && AllRight(node, call, m)
    ensures Step(node, st, call).1 == Reference(node, Clean(call))
  {
    var m, n := Prepared(st, call), node.cfg.aggressiveHistory;
    var w := Walk(call, m, StartVersion(call), n);
    var h := History(call.chain, call.epoch, call.version, n);
    ListExact(call, m, n);
    FoundIsHistory(call, m, n);
    HistoryUsable(node, call, m);
    RecordAgrees(node, call, m, w, h);
    ListedNothing(call, m, n);
    FinishAgrees(node, st, call, m, w);
  }
}
