/**
 Runs in which every block read succeeds: the cache is an unbroken run of blocks, whatever scans
 fail and in whatever order ledger versions arrive.
 */
module GasRuns {
  import opened Prelude
  import opened Ledger
  import opened GasHistory
  import opened GasListing
  import opened GasRecords

  // ---------------------------------------------------------------- the keys of a run of blocks

  /** The keys under which epoch e caches blocks lo..hi-1. */
  function RunKeys(c: Chain, e: nat, lo: nat, hi: nat): set<Key>
    requires lo <= hi <= |c.blocks|
    decreases hi
  {
    if lo == hi then {} else RunKeys(c, e, lo, hi - 1) + {(e, c.blocks[hi - 1].last)}
  }

  lemma {:induction false} RunKeyHasBlock(c: Chain, e: nat, lo: nat, hi: nat, k: Key) returns (i: nat)
    requires lo <= hi <= |c.blocks| && k in RunKeys(c, e, lo, hi)
    ensures lo <= i < hi && k == (e, c.blocks[i].last)
    decreases hi
  {
    i := hi - 1;
    if k != (e, c.blocks[i].last) {
      i := RunKeyHasBlock(c, e, lo, hi - 1, k);
    }
  }

  lemma {:induction false} BlockHasRunKey(c: Chain, e: nat, lo: nat, hi: nat, i: nat)
    requires lo <= i < hi <= |c.blocks|
    ensures (e, c.blocks[i].last) in RunKeys(c, e, lo, hi)
    decreases hi
  {
    if i < hi - 1 {
      BlockHasRunKey(c, e, lo, hi - 1, i);
    }
  }

  lemma EndInRunKeys(c: Chain, e: nat, lo: nat, hi: nat, i: nat)
    requires ValidChain(c) && lo <= hi <= |c.blocks| && i < |c.blocks|
    ensures (e, c.blocks[i].last) in RunKeys(c, e, lo, hi) <==> lo <= i < hi
  {
    if (e, c.blocks[i].last) in RunKeys(c, e, lo, hi) {
      var x := RunKeyHasBlock(c, e, lo, hi, (e, c.blocks[i].last));
      SameEnd(c, i, x);
    } else if lo <= i < hi {
      BlockHasRunKey(c, e, lo, hi, i);
    }
  }

  lemma {:induction false} RunKeysSize(c: Chain, e: nat, lo: nat, hi: nat)
    requires ValidChain(c) && lo <= hi <= |c.blocks|
    ensures |RunKeys(c, e, lo, hi)| == hi - lo
    decreases hi
  {
    if lo < hi {
      RunKeysSize(c, e, lo, hi - 1);
      EndInRunKeys(c, e, lo, hi - 1, hi - 1);
    }
  }

  lemma {:induction false} RunKeysJoin(c: Chain, e: nat, lo: nat, mid: nat, hi: nat)
    requires lo <= mid <= hi <= |c.blocks|
    ensures RunKeys(c, e, lo, mid) + RunKeys(c, e, mid, hi) == RunKeys(c, e, lo, hi)
    decreases hi
  {
    if mid < hi {
      RunKeysJoin(c, e, lo, mid, hi - 1);
    }
  }

  lemma RunKeysWithin(c: Chain, e: nat, lo: nat, a: nat, b: nat, hi: nat)
    requires lo <= a <= b <= hi <= |c.blocks|
    ensures RunKeys(c, e, a, b) <= RunKeys(c, e, lo, hi)
  {
    RunKeysJoin(c, e, lo, a, b);
    RunKeysJoin(c, e, lo, b, hi);
  }

  // ---------------------------------------------------------------- eviction

  /** kept are n of the keys, or all of them, and no other key is newer than one of them. */
  ghost predicate KeepsNewest(keys: set<Key>, n: nat, kept: set<Key>) {
    && kept <= keys && |kept| == Min(|keys|, n)
    && forall k, k' :: k in keys && k !in kept && k' in kept ==> KeyLeq(k, k')
  }

  lemma {:induction false} EvictKeepsNewest(m: map<Key, nat>, n: nat)
    ensures KeepsNewest(m.Keys, n, Evict(m, n).Keys)
    decreases |m|
  {
    if |m| > n {
      var rest := m - {FirstKey(m)};
      assert rest.Keys == m.Keys - {FirstKey(m)} && |rest.Keys| == |m.Keys| - 1;
      EvictKeepsNewest(rest, n);
    }
  }

  /** Every key outside top is strictly older than every key of top. */
  ghost predicate AboveOthers(keys: set<Key>, top: set<Key>) {
    forall k, k' :: k in keys && k !in top && k' in top ==> !KeyLeq(k', k)
  }

  /** Keeping as many keys as a newest part has keeps exactly that part. */
  lemma NewestPart(keys: set<Key>, kept: set<Key>, top: set<Key>)
    requires top <= keys && KeepsNewest(keys, |top|, kept) && AboveOthers(keys, top)
    ensures kept == top
  {
    SubsetNotLarger(top, keys);
    if kept != top {
      var x, y := Exchanged(kept, top);
    }
  }

  lemma Exchanged(a: set<Key>, b: set<Key>) returns (x: Key, y: Key)
    requires |a| == |b| && a != b
    ensures x in b && x !in a && y in a && y !in b
  {
    assert |a - b| + |a * b| == |a| && |b - a| + |a * b| == |b|;
    assert a - b != {} || b - a != {};
    x :| x in b - a;
    y :| y in a - b;
  }

  /** The newest blocks a..b-1 stand above all other keys of blocks below b. */
  lemma RunAboveOthers(c: Chain, e: nat, keys: set<Key>, a: nat, b: nat)
    requires ValidChain(c) && a <= b <= |c.blocks| && keys <= RunKeys(c, e, 0, b)
    ensures AboveOthers(keys, RunKeys(c, e, a, b))
  {
    forall k, k' | k in keys && k !in RunKeys(c, e, a, b) && k' in RunKeys(c, e, a, b) ensures !KeyLeq(k', k) {
      var i := RunKeyHasBlock(c, e, 0, b, k);
      var j := RunKeyHasBlock(c, e, a, b, k');
      EndInRunKeys(c, e, a, b, i);
      assert Before(c, i, j);
    }
  }

  // ---------------------------------------------------------------- the invariant

  /** The map's keys are those of the final blocks lo..hi-1 of epoch e. */
  ghost predicate IsRun(m: map<Key, nat>, c: Chain, e: nat, lo: nat, hi: nat)
    requires ValidChain(c)
  {
    && lo < hi <= |c.blocks| && (hi < |c.blocks| || hi == 1)
    && (forall i :: lo <= i < hi ==> c.blocks[i].epoch == e)
    && m.Keys == RunKeys(c, e, lo, hi)
  }

  /** A run of n blocks, or a shorter one that starts with its epoch. */
  predicate Saturated(c: Chain, lo: nat, hi: nat, n: nat)
    requires ValidChain(c) && lo < hi <= |c.blocks|
  {
    hi - lo == n || (hi - lo < n && StartsEpoch(c, lo))
  }

  ghost predicate IsHistoryRun(m: map<Key, nat>, c: Chain, e: nat, n: nat, lo: nat, hi: nat)
    requires ValidChain(c)
  {
    IsRun(m, c, e, lo, hi) && Saturated(c, lo, hi, n)
  }

  /** The map as a write section finds and leaves it. */
  ghost predicate MapInv(m: map<Key, nat>, c: Chain, e: nat, n: nat)
    requires ValidChain(c)
  {
    m == map[] || exists lo, hi :: IsHistoryRun(m, c, e, n, lo, hi)
  }

  /** The map is empty or a run of the last updated epoch. A poisoned lock is never read again. */
  ghost predicate Inv(st: Cache, c: Chain, n: nat)
    requires ValidChain(c)
  {
    st.poisoned || st.prices == map[] || (st.lastEpoch.Some? && MapInv(st.prices, c, st.lastEpoch.value, n))
  }

  lemma CachedInRun(m: map<Key, nat>, c: Chain, e: nat, lo: nat, hi: nat, i: nat)
    requires ValidChain(c) && IsRun(m, c, e, lo, hi) && i < |c.blocks|
    ensures Cached(m, c, e, i) <==> lo <= i < hi
  {
    EndInRunKeys(c, e, lo, hi, i);
  }

  /** The storage may grow between requests without breaking the run. */
  lemma RunGrows(m: map<Key, nat>, c: Chain, d: Chain, e: nat, n: nat, lo: nat, hi: nat)
    requires ValidChain(c) && ValidChain(d) && Grows(c, d) && IsHistoryRun(m, c, e, n, lo, hi)
    ensures IsHistoryRun(m, d, e, n, lo, hi)
  {
    forall i | lo <= i < hi ensures d.blocks[i].last == c.blocks[i].last && d.blocks[i].epoch == c.blocks[i].epoch {
      GrowsAt(c, d, i);
    }
    SameRunKeys(c, d, e, lo, hi);
    if lo > 0 {
      GrowsAt(c, d, lo - 1);
    }
  }

  lemma {:induction false} SameRunKeys(c: Chain, d: Chain, e: nat, lo: nat, hi: nat)
    requires lo <= hi <= |c.blocks| <= |d.blocks| && forall i :: lo <= i < hi ==> d.blocks[i].last == c.blocks[i].last
    ensures RunKeys(d, e, lo, hi) == RunKeys(c, e, lo, hi)
    decreases hi
  {
    if lo < hi {
      SameRunKeys(c, d, e, lo, hi - 1);
    }
  }

  lemma InvGrows(st: Cache, c: Chain, d: Chain, n: nat)
    requires ValidChain(c) && ValidChain(d) && Grows(c, d) && Inv(st, c, n)
    ensures Inv(st, d, n)
  {
    if !st.poisoned && st.prices != map[] {
      var e := st.lastEpoch.value;
      var lo, hi :| IsHistoryRun(st.prices, c, e, n, lo, hi);
      RunGrows(st.prices, c, d, e, n, lo, hi);
    }
  }

  // ---------------------------------------------------------------- what a walk adds

  /** Every block read of the request succeeds. */
  predicate BlocksRead(call: Call) {
    !call.faults.tip && call.faults.blocks == {}
  }

  lemma DownCons(t: nat, k: nat)
    requires k <= t
    ensures Down(t + 1, k + 1) == [t] + Down(t, k)
  {
  }

  /**
   The walk from block j finds every uncached block of the epoch down to the first block that
   is cached or outside the epoch, unless the history length ends it first.
   */
  lemma {:induction false} WalkStops(call: Call, m: map<Key, nat>, j: nat, n: nat, stop: nat)
    requires ValidCall(call) && BlocksRead(call) && PastGenesis(call, m) && stop <= j < |call.chain.blocks|
    requires forall i :: stop < i <= j ==> call.chain.blocks[i].epoch == call.epoch && !Cached(m, call.chain, call.epoch, i)
    requires call.chain.blocks[stop].epoch == call.epoch <==> Cached(m, call.chain, call.epoch, stop)
    ensures Walk(call, m, call.chain.blocks[j].last, n).found == Down(j + 1, Min(n, j - stop))
    decreases j
  {
    if n > 0 && j > stop {
      if j > 1 {
        WalkStops(call, m, j - 1, n - 1, stop);
      }
      WalkStopsLater(call, m, j, n, Min(n, j - stop) - 1);
    } else {
      WalkStopsHere(call, m, j, n);
    }
  }

  lemma WalkStopsHere(call: Call, m: map<Key, nat>, j: nat, n: nat)
    requires ValidCall(call) && j < |call.chain.blocks|
    requires n == 0 || Cached(m, call.chain, call.epoch, j) || call.chain.blocks[j].epoch != call.epoch
    ensures Walk(call, m, call.chain.blocks[j].last, n).found == []
  {
    BlockIndexUnique(call.chain, call.chain.blocks[j].last, j);
  }

  lemma WalkStopsLater(call: Call, m: map<Key, nat>, j: nat, n: nat, k: nat)
    requires ValidCall(call) && BlocksRead(call) && 0 < j < |call.chain.blocks| && n > 0 && k <= j
    requires call.chain.blocks[j].epoch == call.epoch && !Cached(m, call.chain, call.epoch, j)
    requires if j == 1 then k == 0 else Walk(call, m, call.chain.blocks[j - 1].last, n - 1).found == Down(j, k)
    ensures Walk(call, m, call.chain.blocks[j].last, n).found == Down(j + 1, k + 1)
  {
    var w := if j == 1 then WalkResult([], false, 0) else Walk(call, m, call.chain.blocks[j - 1].last, n - 1);
    WalkGoesOn(call, m, j, n, w);
    DownCons(j, k);
  }

  /** Recording the newest k blocks below t adds their keys. */
  lemma {:induction false} FillDown(node: Node, call: Call, m: map<Key, nat>, t: nat, k: nat)
    requires ValidCall(call) && k <= t <= |call.chain.blocks| && Fill(node, call, m, Down(t, k)).Some?
    ensures Fill(node, call, m, Down(t, k)).value.cache.Keys == m.Keys + RunKeys(call.chain, call.epoch, t - k, t)
    decreases k
  {
    if k > 0 {
      DownCons(t - 1, k - 1);
      var m' := m[EndKey(call, t - 1) := PriceOf(node, call, t - 1).value];
      assert Down(t, k)[1..] == Down(t - 1, k - 1);
      FillDown(node, call, m', t - 1, k - 1);
    }
  }

  // ---------------------------------------------------------------- what a walk finds

  lemma MapKeysOk(m: map<Key, nat>, c: Chain, e: nat, n: nat)
    requires ValidChain(c) && MapInv(m, c, e, n)
    ensures KeysOk(m, c, e)
  {
    forall v: nat | (e, v) in m ensures OfEpoch(c, e, v) {
      var lo, hi :| IsHistoryRun(m, c, e, n, lo, hi);
      var i := RunKeyHasBlock(c, e, lo, hi, (e, v));
    }
  }

  lemma RunPastGenesis(call: Call, m: map<Key, nat>, t: nat)
    requires ValidCall(call) && t == Tip(call) && t > 0 && call.chain.blocks[t].epoch == call.epoch
    requires KeysOk(m, call.chain, call.epoch)
    ensures PastGenesis(call, m)
  {
    KeysFromStart(m, call.chain, call.epoch, t);
  }

  /** Nothing below the tip is cached: the walk finds the whole window. */
  lemma WalkUncached(call: Call, m: map<Key, nat>, n: nat, t: nat, s: nat)
    requires ValidCall(call) && BlocksRead(call) && t == Tip(call) && t > 0 && call.chain.blocks[t].epoch == call.epoch
    requires KeysOk(m, call.chain, call.epoch) && s == EpochStart(call.chain, t)
    requires forall i :: 0 <= i < t ==> !Cached(m, call.chain, call.epoch, i)
    ensures Walk(call, m, StartVersion(call), n).found == Down(t, Min(n, t - s))
  {
    KeysFromStart(m, call.chain, call.epoch, t);
    StartBelowTip(call, t);
    WalkAll(call, m, n, t, s);
  }

  lemma WalkAll(call: Call, m: map<Key, nat>, n: nat, t: nat, s: nat)
    requires ValidCall(call) && BlocksRead(call) && PastGenesis(call, m) && 0 < s <= t < |call.chain.blocks|
    requires forall i :: 0 <= i < t ==> !Cached(m, call.chain, call.epoch, i)
    requires forall i :: s <= i < t ==> call.chain.blocks[i].epoch == call.epoch
    requires call.chain.blocks[s - 1].epoch != call.epoch
    ensures Walk(call, m, call.chain.blocks[t - 1].last, n).found == Down(t, Min(n, t - s))
  {
    WalkStops(call, m, t - 1, n, s - 1);
  }

  lemma EpochAbove(c: Chain, e: nat, lo: nat, t: nat)
    requires ValidChain(c) && lo <= t < |c.blocks| && c.blocks[lo].epoch == e == c.blocks[t].epoch
    ensures forall i :: lo <= i < t ==> c.blocks[i].epoch == e
  {
    forall i | lo <= i < t ensures c.blocks[i].epoch == e {
      assert i == lo || Before(c, lo, i);
      assert Before(c, i, t);
    }
  }

  /** The walk stops at the newest cached block below the tip. */
  lemma WalkToRun(call: Call, m: map<Key, nat>, n: nat, t: nat, lo: nat, hi: nat)
    requires ValidCall(call) && BlocksRead(call) && PastGenesis(call, m) && lo < t < |call.chain.blocks|
    requires IsRun(m, call.chain, call.epoch, lo, hi)
    requires forall i :: lo <= i < t ==> call.chain.blocks[i].epoch == call.epoch
    ensures Walk(call, m, call.chain.blocks[t - 1].last, n).found == Down(t, Min(n, t - Min(hi, t)))
  {
    var p := Min(hi, t) - 1;
    assert Cached(m, call.chain, call.epoch, p) by {
      CachedInRun(m, call.chain, call.epoch, lo, hi, p);
    }
    UncachedAbove(m, call.chain, call.epoch, lo, hi, t);
    WalkStops(call, m, t - 1, n, p);
  }

  lemma UncachedAbove(m: map<Key, nat>, c: Chain, e: nat, lo: nat, hi: nat, t: nat)
    requires ValidChain(c) && IsRun(m, c, e, lo, hi) && t <= |c.blocks|
    ensures forall i :: hi <= i < t ==> !Cached(m, c, e, i)
  {
    forall i | hi <= i < t ensures !Cached(m, c, e, i) {
      CachedInRun(m, c, e, lo, hi, i);
    }
  }

  lemma UncachedBelow(m: map<Key, nat>, c: Chain, e: nat, lo: nat, hi: nat)
    requires ValidChain(c) && IsRun(m, c, e, lo, hi)
    ensures forall i :: 0 <= i < lo ==> !Cached(m, c, e, i)
  {
    forall i | 0 <= i < lo ensures !Cached(m, c, e, i) {
      CachedInRun(m, c, e, lo, hi, i);
    }
  }

  lemma CachedGenesis(m: map<Key, nat>, c: Chain, e: nat, n: nat)
    requires ValidChain(c) && MapInv(m, c, e, n) && c.blocks[0].epoch == e && m != map[]
    ensures Cached(m, c, e, 0)
  {
    var lo: nat, hi: nat :| IsHistoryRun(m, c, e, n, lo, hi);
    assert lo == 0 || Before(c, 0, lo);
    CachedInRun(m, c, e, lo, hi, 0);
  }

  // ---------------------------------------------------------------- the keys before eviction

  /** Blocks a..b-1 are final blocks of epoch e that make up a full window or start their epoch. */
  predicate IsWindow(c: Chain, e: nat, n: nat, a: nat, b: nat)
    requires ValidChain(c)
  {
    && a < b <= |c.blocks| && (b < |c.blocks| || b == 1) && Saturated(c, a, b, n)
    && forall i :: a <= i < b ==> c.blocks[i].epoch == e
  }

  /** The keys are those of a window, and of older blocks if the window is full. */
  ghost predicate Covers(keys: set<Key>, c: Chain, e: nat, n: nat, a: nat, b: nat)
    requires ValidChain(c)
  {
    && IsWindow(c, e, n, a, b)
    && RunKeys(c, e, a, b) <= keys <= RunKeys(c, e, 0, b)
    && (b - a < n ==> keys == RunKeys(c, e, a, b))
  }

  ghost predicate KeysInv(keys: set<Key>, c: Chain, e: nat, n: nat)
    requires ValidChain(c)
  {
    keys == {} || exists a, b :: Covers(keys, c, e, n, a, b)
  }

  lemma WindowCovers(c: Chain, e: nat, n: nat, a: nat, b: nat)
    requires ValidChain(c) && IsWindow(c, e, n, a, b)
    ensures Covers(RunKeys(c, e, a, b), c, e, n, a, b)
  {
    RunKeysWithin(c, e, 0, a, b, b);
  }

  lemma FullWindowCovers(c: Chain, e: nat, n: nat, a: nat, b: nat, keys: set<Key>, older: set<Key>)
    requires ValidChain(c) && IsWindow(c, e, n, a, b) && b - a == n
    requires keys == RunKeys(c, e, a, b) + older && older <= RunKeys(c, e, 0, b)
    ensures Covers(keys, c, e, n, a, b)
  {
    RunKeysWithin(c, e, 0, a, b, b);
  }

  /** Nothing was cached: the window below t. */
  lemma KeysFromEmpty(c: Chain, e: nat, n: nat, s: nat, t: nat)
    requires ValidChain(c) && s <= t < |c.blocks| && StartsEpoch(c, s) && forall i :: s <= i < t ==> c.blocks[i].epoch == e
    ensures KeysInv(RunKeys(c, e, t - Min(n, t - s), t), c, e, n)
  {
    var k := Min(n, t - s);
    if k > 0 {
      WindowCovers(c, e, n, t - k, t);
    }
  }

  /** The cached window is newer than the tip. */
  lemma KeysBelowWindow(c: Chain, e: nat, n: nat, lo: nat, hi: nat, s: nat, t: nat)
    requires ValidChain(c) && IsWindow(c, e, n, lo, hi) && s <= t <= lo && s == EpochStart(c, t) && c.blocks[t].epoch == e
    ensures KeysInv(RunKeys(c, e, lo, hi) + RunKeys(c, e, t - Min(n, t - s), t), c, e, n)
  {
    var k := Min(n, t - s);
    EpochStartUnique(c, t, lo);
    if k == 0 {
      NothingAdded(RunKeys(c, e, lo, hi), c, e, t);
      WindowCovers(c, e, n, lo, hi);
    } else {
      RunKeysWithin(c, e, 0, t - k, t, hi);
      FullWindowCovers(c, e, n, lo, hi, RunKeys(c, e, lo, hi) + RunKeys(c, e, t - k, t), RunKeys(c, e, t - k, t));
    }
  }

  lemma NothingAdded(keys: set<Key>, c: Chain, e: nat, t: nat)
    requires t <= |c.blocks|
    ensures keys + RunKeys(c, e, t, t) == keys
  {
  }

  /** The tip is above the start of the cached window. */
  lemma KeysAboveWindow(c: Chain, e: nat, n: nat, lo: nat, hi: nat, t: nat)
    requires ValidChain(c) && IsWindow(c, e, n, lo, hi) && lo < t < |c.blocks|
    requires forall i :: lo <= i < t ==> c.blocks[i].epoch == e
    ensures KeysInv(RunKeys(c, e, lo, hi) + RunKeys(c, e, t - Min(n, t - Min(hi, t)), t), c, e, n)
  {
    var k := Min(n, t - Min(hi, t));
    if k == 0 {
      NothingAdded(RunKeys(c, e, lo, hi), c, e, t);
      WindowCovers(c, e, n, lo, hi);
    } else if k < t - hi {
      KeysFarAbove(c, e, n, lo, hi, t);
    } else {
      RunKeysJoin(c, e, lo, hi, t);
      LongerRunCovers(c, e, n, lo, t);
    }
  }

  /** The window below t does not reach the cached one. */
  lemma KeysFarAbove(c: Chain, e: nat, n: nat, lo: nat, hi: nat, t: nat)
    requires ValidChain(c) && lo < hi && hi + n <= t < |c.blocks| && n > 0
    requires forall i :: lo <= i < t ==> c.blocks[i].epoch == e
    ensures KeysInv(RunKeys(c, e, lo, hi) + RunKeys(c, e, t - n, t), c, e, n)
  {
    var older, newer := RunKeys(c, e, lo, hi), RunKeys(c, e, t - n, t);
    RunKeysWithin(c, e, 0, lo, hi, t);
    FullWindowCovers(c, e, n, t - n, t, older + newer, older);
  }

  /** A run of blocks lo..t-1 that is long enough or starts its epoch. */
  lemma LongerRunCovers(c: Chain, e: nat, n: nat, lo: nat, t: nat)
    requires ValidChain(c) && lo < t < |c.blocks| && n > 0 && (t - lo >= n || StartsEpoch(c, lo))
    requires forall i :: lo <= i < t ==> c.blocks[i].epoch == e
    ensures KeysInv(RunKeys(c, e, lo, t), c, e, n)
  {
    if t - lo <= n {
      WindowCovers(c, e, n, lo, t);
    } else {
      LongRunCovers(c, e, n, lo, t, RunKeys(c, e, lo, t));
    }
  }

  lemma LongRunCovers(c: Chain, e: nat, n: nat, lo: nat, t: nat, keys: set<Key>)
    requires ValidChain(c) && lo < t < |c.blocks| && 0 < n < t - lo && keys == RunKeys(c, e, lo, t)
    requires forall i :: lo <= i < t ==> c.blocks[i].epoch == e
    ensures Covers(keys, c, e, n, t - n, t)
  {
    var older := RunKeys(c, e, lo, t - n);
    assert keys == RunKeys(c, e, t - n, t) + older by {
      RunKeysJoin(c, e, lo, t - n, t);
    }
    RunKeysWithin(c, e, 0, lo, t - n, t);
    FullWindowCovers(c, e, n, t - n, t, keys, older);
  }

  /** Eviction leaves the window. */
  lemma EvictedIsGood(cache: map<Key, nat>, c: Chain, e: nat, n: nat)
    requires ValidChain(c) && KeysInv(cache.Keys, c, e, n)
    ensures MapInv(Evict(cache, n), c, e, n)
  {
    var kept := Evict(cache, n);
    EvictKeepsNewest(cache, n);
    if cache.Keys == {} {
      assert kept.Keys == {};
    } else {
      var a: nat, b: nat :| Covers(cache.Keys, c, e, n, a, b);
      assert kept.Keys == RunKeys(c, e, a, b) by {
        WindowIsKept(cache.Keys, kept.Keys, c, e, n, a, b);
      }
      assert IsHistoryRun(kept, c, e, n, a, b);
    }
  }

  lemma WindowIsKept(keys: set<Key>, kept: set<Key>, c: Chain, e: nat, n: nat, a: nat, b: nat)
    requires ValidChain(c) && Covers(keys, c, e, n, a, b) && KeepsNewest(keys, n, kept)
    ensures kept == RunKeys(c, e, a, b)
  {
    RunKeysSize(c, e, a, b);
    RunAboveOthers(c, e, keys, a, b);
    NewestPart(keys, kept, RunKeys(c, e, a, b));
  }

  // ---------------------------------------------------------------- one write section

  /** The keys after recording what the walk found. */
  lemma SectionKeys(node: Node, call: Call, m: map<Key, nat>, found: seq<nat>)
    requires ValidCall(call) && BlocksRead(call) && MapInv(m, call.chain, call.epoch, node.cfg.aggressiveHistory)
    requires found == Walk(call, m, StartVersion(call), node.cfg.aggressiveHistory).found
    requires Fill(node, call, m, found).Some?
    ensures KeysInv(Fill(node, call, m, found).value.cache.Keys, call.chain, call.epoch, node.cfg.aggressiveHistory)
  {
    var c, e, n, t := call.chain, call.epoch, node.cfg.aggressiveHistory, Tip(call);
    MapKeysOk(m, c, e, n);
    if c.blocks[t].epoch != e {
      ExactOtherEpoch(call, m, n);
      MapKeysInv(m, c, e, n);
    } else if t == 0 {
      SectionGenesis(node, call, m, found);
    } else if m == map[] {
      SectionOnEmpty(node, call, m, found, t);
    } else {
      var lo: nat, hi: nat :| IsHistoryRun(m, c, e, n, lo, hi);
      SectionOnRun(node, call, m, found, lo, hi, t);
    }
  }

  lemma MapKeysInv(m: map<Key, nat>, c: Chain, e: nat, n: nat)
    requires ValidChain(c) && MapInv(m, c, e, n)
    ensures KeysInv(m.Keys, c, e, n)
  {
    if m != map[] {
      var lo: nat, hi: nat :| IsHistoryRun(m, c, e, n, lo, hi);
      WindowCovers(c, e, n, lo, hi);
    }
  }

  /** Genesis is the tip. */
  lemma SectionGenesis(node: Node, call: Call, m: map<Key, nat>, found: seq<nat>)
    requires ValidCall(call) && BlocksRead(call) && Tip(call) == 0 && call.chain.blocks[0].epoch == call.epoch
    requires MapInv(m, call.chain, call.epoch, node.cfg.aggressiveHistory)
    requires found == Walk(call, m, StartVersion(call), node.cfg.aggressiveHistory).found
    requires Fill(node, call, m, found).Some?
    ensures KeysInv(Fill(node, call, m, found).value.cache.Keys, call.chain, call.epoch, node.cfg.aggressiveHistory)
  {
    var c, e, n := call.chain, call.epoch, node.cfg.aggressiveHistory;
    if n == 0 || m != map[] {
      if n > 0 {
        CachedGenesis(m, c, e, n);
        WalkGenesis(call, m, n);
      }
      MapKeysInv(m, c, e, n);
    } else {
      WalkGenesis(call, m, n);
      NewGenesis(node, call, m, found, n);
    }
  }

  lemma NewGenesis(node: Node, call: Call, m: map<Key, nat>, found: seq<nat>, n: nat)
    requires ValidCall(call) && call.chain.blocks[0].epoch == call.epoch && n > 0 && m == map[] && found == [0]
    requires Fill(node, call, m, found).Some?
    ensures KeysInv(Fill(node, call, m, found).value.cache.Keys, call.chain, call.epoch, n)
  {
    assert found == Down(1, 1);
    FillDown(node, call, m, 1, 1);
    WindowCovers(call.chain, call.epoch, n, 0, 1);
    assert m.Keys + RunKeys(call.chain, call.epoch, 0, 1) == RunKeys(call.chain, call.epoch, 0, 1);
  }

  lemma SectionOnEmpty(node: Node, call: Call, m: map<Key, nat>, found: seq<nat>, t: nat)
    requires ValidCall(call) && BlocksRead(call) && t == Tip(call) && t > 0 && call.chain.blocks[t].epoch == call.epoch
    requires m == map[] && found == Walk(call, m, StartVersion(call), node.cfg.aggressiveHistory).found
    requires Fill(node, call, m, found).Some?
    ensures KeysInv(Fill(node, call, m, found).value.cache.Keys, call.chain, call.epoch, node.cfg.aggressiveHistory)
  {
    var c, e, n, s := call.chain, call.epoch, node.cfg.aggressiveHistory, EpochStart(call.chain, t);
    WalkUncached(call, m, n, t, s);
    FillEmpty(node, call, m, t, Min(n, t - s));
    KeysFromEmpty(c, e, n, s, t);
  }

  lemma FillEmpty(node: Node, call: Call, m: map<Key, nat>, t: nat, k: nat)
    requires ValidCall(call) && k <= t <= |call.chain.blocks| && Fill(node, call, m, Down(t, k)).Some? && m == map[]
    ensures Fill(node, call, m, Down(t, k)).value.cache.Keys == RunKeys(call.chain, call.epoch, t - k, t)
  {
    FillDown(node, call, m, t, k);
  }

  /** The tip lies below the run: the walk meets nothing cached. */
  lemma SectionBelowRun(node: Node, call: Call, m: map<Key, nat>, found: seq<nat>, lo: nat, hi: nat, t: nat)
    requires ValidCall(call) && BlocksRead(call) && t == Tip(call) && t > 0 && call.chain.blocks[t].epoch == call.epoch
    requires KeysOk(m, call.chain, call.epoch)
    requires IsHistoryRun(m, call.chain, call.epoch, node.cfg.aggressiveHistory, lo, hi)
    requires found == Walk(call, m, StartVersion(call), node.cfg.aggressiveHistory).found
    requires Fill(node, call, m, found).Some?
    requires t <= lo
    ensures KeysInv(Fill(node, call, m, found).value.cache.Keys, call.chain, call.epoch, node.cfg.aggressiveHistory)
  {
    var c, e, n := call.chain, call.epoch, node.cfg.aggressiveHistory;
    var s := EpochStart(c, t);
    UncachedBelow(m, c, e, lo, hi);
    WalkUncached(call, m, n, t, s);
    FillDown(node, call, m, t, Min(n, t - s));
    KeysBelowWindow(c, e, n, lo, hi, s, t);
  }

  /** The tip lies in or above the run: the walk reaches it or fills the window. */
  lemma SectionAboveRun(node: Node, call: Call, m: map<Key, nat>, found: seq<nat>, lo: nat, hi: nat, t: nat)
    requires ValidCall(call) && BlocksRead(call) && t == Tip(call) && t > 0 && call.chain.blocks[t].epoch == call.epoch
    requires KeysOk(m, call.chain, call.epoch)
    requires IsHistoryRun(m, call.chain, call.epoch, node.cfg.aggressiveHistory, lo, hi)
    requires found == Walk(call, m, StartVersion(call), node.cfg.aggressiveHistory).found
    requires Fill(node, call, m, found).Some?
    requires lo < t
    ensures KeysInv(Fill(node, call, m, found).value.cache.Keys, call.chain, call.epoch, node.cfg.aggressiveHistory)
  {
    var c, e, n := call.chain, call.epoch, node.cfg.aggressiveHistory;
    StartBelowTip(call, t);
    RunPastGenesis(call, m, t);
    EpochAbove(c, e, lo, t);
    WalkToRun(call, m, n, t, lo, hi);
    FillDown(node, call, m, t, Min(n, t - Min(hi, t)));
    KeysAboveWindow(c, e, n, lo, hi, t);
  }

  lemma SectionOnRun(node: Node, call: Call, m: map<Key, nat>, found: seq<nat>, lo: nat, hi: nat, t: nat)
    requires ValidCall(call) && BlocksRead(call) && t == Tip(call) && t > 0 && call.chain.blocks[t].epoch == call.epoch
    requires KeysOk(m, call.chain, call.epoch)
    requires IsHistoryRun(m, call.chain, call.epoch, node.cfg.aggressiveHistory, lo, hi)
    requires found == Walk(call, m, StartVersion(call), node.cfg.aggressiveHistory).found
    requires Fill(node, call, m, found).Some?
    ensures KeysInv(Fill(node, call, m, found).value.cache.Keys, call.chain, call.epoch, node.cfg.aggressiveHistory)
  {
    if t <= lo {
      SectionBelowRun(node, call, m, found, lo, hi, t);
    } else {
      SectionAboveRun(node, call, m, found, lo, hi, t);
    }
  }

  /** Recording what the walk found and evicting keeps a run a run. */
  lemma SectionKeepsRun(node: Node, call: Call, m: map<Key, nat>, found: seq<nat>)
    requires ValidCall(call) && BlocksRead(call) && MapInv(m, call.chain, call.epoch, node.cfg.aggressiveHistory)
    requires found == Walk(call, m, StartVersion(call), node.cfg.aggressiveHistory).found
    requires Fill(node, call, m, found).Some?
    ensures var n := node.cfg.aggressiveHistory;
            MapInv(Evict(Fill(node, call, m, found).value.cache, n), call.chain, call.epoch, n)
  {
    SectionKeys(node, call, m, found);
    EvictedIsGood(Fill(node, call, m, found).value.cache, call.chain, call.epoch, node.cfg.aggressiveHistory);
  }

  // ---------------------------------------------------------------- requests and runs

  lemma PreparedInv(st: Cache, call: Call, n: nat)
    requires ValidCall(call) && Inv(st, call.chain, n) && !st.poisoned
    ensures MapInv(Prepared(st, call), call.chain, call.epoch, n)
  {
  }

  lemma FinishKeepsInv(node: Node, st: Cache, call: Call, m: map<Key, nat>, w: WalkResult)
    requires ValidCall(call) && w == Walk(call, m, StartVersion(call), node.cfg.aggressiveHistory)
    requires node.cfg.marketHistory > 0 && MapInv(m, call.chain, call.epoch, node.cfg.aggressiveHistory)
    requires Fill(node, call, m, w.found).Some? ==>
               var n := node.cfg.aggressiveHistory;
               MapInv(Evict(Fill(node, call, m, w.found).value.cache, n), call.chain, call.epoch, n)
    ensures Inv(Finish(node, st, call, m, w).0, call.chain, node.cfg.aggressiveHistory)
  {
    ListedSomething(node, call, m, w);
  }

  /** Every request whose block reads succeed keeps the run, at whatever ledger version. */
  lemma StepKeepsInv(node: Node, st: Cache, call: Call)
    requires ValidCall(call) && BlocksRead(call) && node.cfg.marketHistory > 0
    requires Inv(st, call.chain, node.cfg.aggressiveHistory)
    ensures Inv(Step(node, st, call).0, call.chain, node.cfg.aggressiveHistory)
  {
    if Computes(node, st, call) {
      var m := Prepared(st, call);
      PreparedInv(st, call, node.cfg.aggressiveHistory);
      var w := Walk(call, m, StartVersion(call), node.cfg.aggressiveHistory);
      if Fill(node, call, m, w.found).Some? {
        SectionKeepsRun(node, call, m, w.found);
      }
      FinishKeepsInv(node, st, call, m, w);
    }
  }

  predicate AllBlocksRead(calls: seq<Call>) {
    forall j :: 0 <= j < |calls| ==> BlocksRead(calls[j])
  }

  /** After every such run, in any order of ledger versions, the cache is a run. */
  lemma {:induction false} RunKeepsInv(node: Node, calls: seq<Call>, d: Chain)
    requires ValidRun(calls) && AllBlocksRead(calls) && node.cfg.marketHistory > 0
    requires ValidChain(d) && GrowInto(calls, d)
    ensures Inv(After(node, calls), d, node.cfg.aggressiveHistory)
  {
    if calls != [] {
      var front, last := calls[..|calls| - 1], calls[|calls| - 1];
      RunKeepsInv(node, front, last.chain);
      StepKeepsInv(node, After(node, front), last);
      InvGrows(After(node, calls), last.chain, d, node.cfg.aggressiveHistory);
    }
  }

  // ---------------------------------------------------------------- when a run is complete

  /** The newest complete block is cached and the oldest one wanted is not. */
  predicate Shortened(call: Call, m: map<Key, nat>, n: nat)
    requires ValidCall(call)
  {
    var c, e, t := call.chain, call.epoch, Tip(call);
    t > 0 && c.blocks[t].epoch == e &&
    (var k := Depth(EpochStart(c, t), t - 1, n);
     k > 0 && Cached(m, c, e, t - 1) && !Cached(m, c, e, t - k))
  }

  /** A run has no key inside a block. */
  lemma RunHasNoStray(m: map<Key, nat>, c: Chain, e: nat, lo: nat, hi: nat, i: nat)
    requires ValidChain(c) && IsRun(m, c, e, lo, hi) && i < |c.blocks|
    ensures NoStray(m, c, e, i)
  {
    forall v: nat | c.blocks[i].first <= v < c.blocks[i].last ensures (e, v) !in m {
      if (e, v) in m {
        var x := RunKeyHasBlock(c, e, lo, hi, (e, v));
        InsideIsNoEnd(c, i, v, x);
      }
    }
  }

  lemma WindowOkOnRun(call: Call, m: map<Key, nat>, n: nat, lo: nat, hi: nat, s: nat, t: nat)
    requires ValidCall(call) && BlocksRead(call) && 0 < t < |call.chain.blocks| && s <= t
    requires IsRun(m, call.chain, call.epoch, lo, hi)
    ensures WindowOk(call, m, s, t - 1, n) <==> !(t - Depth(s, t - 1, n) < lo < t)
  {
    var c, e, j := call.chain, call.epoch, t - 1;
    forall i | 0 <= i < |c.blocks| ensures (Cached(m, c, e, i) <==> lo <= i < hi) && NoStray(m, c, e, i) {
      CachedInRun(m, c, e, lo, hi, i);
      RunHasNoStray(m, c, e, lo, hi, i);
    }
    if t - Depth(s, t - 1, n) < lo < t {
      assert Cached(m, c, e, lo) && !Cached(m, c, e, lo - 1);
      assert !Reachable(call, m, j, lo - 1);
    } else {
      forall i | s <= i <= j && j + 1 - i <= n ensures Reachable(call, m, j, i) {
      }
    }
  }

  /** How far a saturated run reaches back. */
  lemma RunReaches(c: Chain, e: nat, n: nat, lo: nat, hi: nat, t: nat, k: nat)
    requires ValidChain(c) && lo < hi <= |c.blocks| && Saturated(c, lo, hi, n) && c.blocks[lo].epoch == e
    requires 0 < t < |c.blocks| && c.blocks[t].epoch == e && k == Depth(EpochStart(c, t), t - 1, n)
    ensures t - k < lo < t <==> k > 0 && lo <= t - 1 < hi && !(lo <= t - k < hi)
  {
    if lo < t {
      EpochStartUnique(c, lo, t);
    }
  }

  lemma CompleteOnRun(call: Call, m: map<Key, nat>, n: nat, lo: nat, hi: nat, t: nat, k: nat)
    requires ValidCall(call) && BlocksRead(call) && t == Tip(call) && t > 0 && call.chain.blocks[t].epoch == call.epoch
    requires IsRun(m, call.chain, call.epoch, lo, hi) && k == Depth(EpochStart(call.chain, t), t - 1, n)
    ensures Complete(call, m, n) <==> n == 0 || !(t - k < lo < t)
  {
    WindowOkOnRun(call, m, n, lo, hi, EpochStart(call.chain, t), t);
  }

  lemma ShortenedOnRun(call: Call, m: map<Key, nat>, n: nat, lo: nat, hi: nat, t: nat, k: nat)
    requires ValidCall(call) && t == Tip(call) && t > 0 && call.chain.blocks[t].epoch == call.epoch
    requires IsHistoryRun(m, call.chain, call.epoch, n, lo, hi) && k == Depth(EpochStart(call.chain, t), t - 1, n)
    ensures Shortened(call, m, n) <==> t - k < lo < t
  {
    var c, e := call.chain, call.epoch;
    RunReaches(c, e, n, lo, hi, t, k);
    CachedInRun(m, c, e, lo, hi, t - 1);
    if k > 0 {
      CachedInRun(m, c, e, lo, hi, t - k);
    }
  }

  lemma CompleteOnEmpty(call: Call, n: nat)
    requires ValidCall(call) && BlocksRead(call)
    ensures Complete(call, map[], n)
  {
  }

  /** With every block readable and a run in the cache, only a shortened window is not complete. */
  lemma CompleteIffNotShortened(call: Call, m: map<Key, nat>, n: nat)
    requires ValidCall(call) && BlocksRead(call) && MapInv(m, call.chain, call.epoch, n)
    ensures Complete(call, m, n) <==> !Shortened(call, m, n)
  {
    var t := Tip(call);
    if m == map[] {
      CompleteOnEmpty(call, n);
    } else if t > 0 && call.chain.blocks[t].epoch == call.epoch {
      var lo: nat, hi: nat :| IsHistoryRun(m, call.chain, call.epoch, n, lo, hi);
      var k := Depth(EpochStart(call.chain, t), t - 1, n);
      CompleteOnRun(call, m, n, lo, hi, t, k);
      ShortenedOnRun(call, m, n, lo, hi, t, k);
    }
  }
}
