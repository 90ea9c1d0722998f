/**
 Which block ends a request lists, for any price map and any faults: exactly when they are the
 ends of the caller's history.
 */
module GasListing {
  import opened Prelude
  import opened Ledger
  import opened GasHistory

  // ---------------------------------------------------------------- what is listed

  /** The cached versions of epoch e at or below v, newest first. */
  function VersionsDown(m: map<Key, nat>, e: nat, v: int): seq<nat>
    requires v >= -1
    decreases v
  {
    if v < 0 then [] else (if (e, v) in m then [v] else []) + VersionsDown(m, e, v - 1)
  }

  /** The last versions of the given blocks. */
  function EndsOf(c: Chain, blocks: seq<nat>): (r: seq<nat>)
    requires BlocksOf(c, blocks)
    ensures |r| == |blocks|
  {
    seq(|blocks|, k requires 0 <= k < |blocks| => c.blocks[blocks[k]].last)
  }

  /** The ends whose prices make up the price list: blocks found, then cached versions. */
  function ListedEnds(call: Call, m: map<Key, nat>, w: WalkResult, n: nat): seq<nat>
    requires BlocksOf(call.chain, w.found) && |w.found| <= n
  {
    EndsOf(call.chain, w.found) + if w.hit then Take(VersionsDown(m, call.epoch, w.lookup), n - |w.found|) else []
  }

  /** What the request lists from the map m with a history of n blocks. */
  function Listed(call: Call, m: map<Key, nat>, n: nat): seq<nat>
    requires ValidCall(call)
  {
    ListedEnds(call, m, Walk(call, m, StartVersion(call), n), n)
  }

  lemma {:induction false} VersionsCached(m: map<Key, nat>, e: nat, v: int, k: nat)
    requires v >= -1 && k < |VersionsDown(m, e, v)|
    ensures VersionsDown(m, e, v)[k] <= v && (e, VersionsDown(m, e, v)[k]) in m
    decreases v
  {
    if (e, v) !in m {
      VersionsCached(m, e, v - 1, k);
    } else if k > 0 {
      VersionsCached(m, e, v - 1, k - 1);
    }
  }

  lemma {:induction false} RangeValues(m: map<Key, nat>, e: nat, v: int)
    requires v >= -1
    ensures |RangeDown(m, e, v)| == |VersionsDown(m, e, v)|
    ensures forall k :: 0 <= k < |RangeDown(m, e, v)| ==>
              (e, VersionsDown(m, e, v)[k]) in m && RangeDown(m, e, v)[k] == m[(e, VersionsDown(m, e, v)[k])]
    decreases v
  {
    if v >= 0 {
      RangeValues(m, e, v - 1);
      var rest, vs := RangeDown(m, e, v - 1), VersionsDown(m, e, v - 1);
      if (e, v) in m {
        forall k | 0 < k <= |rest|
          ensures (e, ([v] + vs)[k]) in m && ([m[(e, v)]] + rest)[k] == m[(e, ([v] + vs)[k])]
        {
          assert ([v] + vs)[k] == vs[k - 1];
        }
      } else {
        assert [] + rest == rest && [] + vs == vs;
      }
    }
  }

  lemma {:induction false} VersionsSkip(m: map<Key, nat>, e: nat, v: int, w: int)
    requires -1 <= w <= v
    requires forall u: nat :: w < u <= v ==> (e, u) !in m
    ensures VersionsDown(m, e, v) == VersionsDown(m, e, w)
    decreases v - w
  {
    if w < v {
      VersionsSkip(m, e, v - 1, w);
    }
  }

  lemma {:induction false} VersionsSome(m: map<Key, nat>, e: nat, v: int, u: nat)
    requires u <= v && (e, u) in m
    ensures VersionsDown(m, e, v) != [] && VersionsDown(m, e, v)[0] >= u
    decreases v
  {
    if u < v {
      VersionsSome(m, e, v - 1, u);
    }
  }

  // ---------------------------------------------------------------- the exact condition

  /** The end of block i is in the map. */
  predicate Cached(m: map<Key, nat>, c: Chain, e: nat, i: nat)
    requires i < |c.blocks|
  {
    (e, c.blocks[i].last) in m
  }

  /** The map's versions for epoch e start with block s. */
  ghost predicate KeysFrom(m: map<Key, nat>, c: Chain, e: nat, s: nat) {
    forall v: nat :: (e, v) in m ==> s < |c.blocks| && v >= c.blocks[s].first
  }

  /** No version inside block i, before its end, is in the map. */
  ghost predicate NoStray(m: map<Key, nat>, c: Chain, e: nat, i: nat)
    requires i < |c.blocks|
  {
    forall v: nat :: c.blocks[i].first <= v < c.blocks[i].last ==> (e, v) !in m
  }

  /** Version v lies in a block of epoch e. */
  predicate OfEpoch(c: Chain, e: nat, v: nat) {
    exists i :: 0 <= i < |c.blocks| && c.blocks[i].first <= v <= c.blocks[i].last && c.blocks[i].epoch == e
  }

  /** The map's versions for epoch e lie in blocks of epoch e. */
  ghost predicate KeysOk(m: map<Key, nat>, c: Chain, e: nat) {
    forall v: nat :: (e, v) in m ==> OfEpoch(c, e, v)
  }

  /** The number of history blocks among s..j when n are wanted. */
  function Depth(s: nat, j: nat, n: nat): nat
    requires s <= j + 1
  {
    Min(n, j + 1 - s)
  }

  /** Block i will be listed: it is cached, or it can be read and nothing newer is cached. */
  predicate Reachable(call: Call, m: map<Key, nat>, j: nat, i: nat)
    requires i <= j < |call.chain.blocks|
  {
    || Cached(m, call.chain, call.epoch, i)
    || (i !in call.faults.blocks && forall x :: i < x <= j ==> !Cached(m, call.chain, call.epoch, x))
  }

  /** Each of the n wanted blocks from j down to s is reachable. */
  predicate AllReachable(call: Call, m: map<Key, nat>, s: nat, j: nat, n: nat)
    requires s <= j + 1 <= |call.chain.blocks|
  {
    forall i :: s <= i <= j && j + 1 - i <= n ==> Reachable(call, m, j, i)
  }

  /**
   Exactly the history blocks j, j-1, ... will be listed: each of the n wanted is reachable, and
   at or below a cached one no version inside a block is cached, except inside the n-th block.
   */
  ghost predicate WindowOk(call: Call, m: map<Key, nat>, s: nat, j: nat, n: nat)
    requires s <= j + 1 <= |call.chain.blocks|
  {
    var c, e := call.chain, call.epoch;
    && AllReachable(call, m, s, j, n)
    && (forall i, x :: s <= i <= x <= j && j + 1 - i < n && Cached(m, c, e, x) ==> NoStray(m, c, e, i))
  }

  /**
   The exact condition, on the map and the faults alone. Without a fault on the tip's block the
   window below the tip must be good. With one, the walk starts inside the tip's block, and the
   list is the history only when both are empty.
   */
  ghost predicate Complete(call: Call, m: map<Key, nat>, n: nat)
    requires ValidCall(call)
  {
    var c, e, t := call.chain, call.epoch, Tip(call);
    if c.blocks[t].epoch != e || n == 0 then true
    else if t == 0 then Cached(m, c, e, 0) || 0 !in call.faults.blocks
    else if call.faults.tip then EpochStart(c, t) == t && t in call.faults.blocks && (e, call.version) !in m
    else WindowOk(call, m, EpochStart(c, t), t - 1, n)
  }

  // ---------------------------------------------------------------- reading the range

  /** The ends of blocks j, j-1, ..., k of them. */
  function EndsDown(c: Chain, j: nat, k: nat): (r: seq<nat>)
    requires k <= j + 1 <= |c.blocks|
    ensures |r| == k
  {
    seq(k, x requires 0 <= x < k => c.blocks[j - x].last)
  }

  lemma EndsDownCons(c: Chain, j: nat, k: nat)
    requires 0 < k <= j + 1 <= |c.blocks|
    ensures EndsDown(c, j, k)[0] == c.blocks[j].last
    ensures j > 0 ==> EndsDown(c, j, k) == [c.blocks[j].last] + EndsDown(c, j - 1, k - 1)
  {
  }

  /** The cached versions from block j down are exactly the ends of the blocks wanted. */
  ghost predicate Solid(m: map<Key, nat>, c: Chain, e: nat, s: nat, j: nat, n: nat)
    requires s <= j + 1 <= |c.blocks|
  {
    && (forall i :: s <= i <= j && j + 1 - i <= n ==> Cached(m, c, e, i))
    && (forall i :: s <= i <= j && j + 1 - i < n ==> NoStray(m, c, e, i))
  }

  /** One block of the exact condition for a cached range. */
  lemma SolidStep(m: map<Key, nat>, c: Chain, e: nat, s: nat, j: nat, n: nat)
    requires 0 < s <= j < |c.blocks| && n > 1 && Cached(m, c, e, j)
    ensures Solid(m, c, e, s, j, n) <==> NoStray(m, c, e, j) && Solid(m, c, e, s, j - 1, n - 1)
  {
  }

  /** Reading the range down from block j gives the ends of the blocks wanted. */
  predicate ReadsEnds(m: map<Key, nat>, c: Chain, e: nat, s: nat, j: nat, n: nat)
    requires s <= j + 1 <= |c.blocks|
  {
    Take(VersionsDown(m, e, c.blocks[j].last), n) == EndsDown(c, j, Depth(s, j, n))
  }

  lemma ReadsFirst(m: map<Key, nat>, c: Chain, e: nat, s: nat, j: nat, n: nat)
    requires s <= j < |c.blocks| && n > 0
    ensures ReadsEnds(m, c, e, s, j, n) ==> Cached(m, c, e, j)
    ensures n == 1 ==> (ReadsEnds(m, c, e, s, j, n) <==> Cached(m, c, e, j))
  {
    var v: int := c.blocks[j].last;
    EndsDownCons(c, j, Depth(s, j, n));
    if Cached(m, c, e, j) {
      assert VersionsDown(m, e, v) == [v] + VersionsDown(m, e, v - 1);
    } else if VersionsDown(m, e, v) != [] {
      VersionsCached(m, e, v, 0);
    }
  }

  lemma ReadsStep(m: map<Key, nat>, c: Chain, e: nat, s: nat, j: nat, n: nat)
    requires ValidChain(c) && 0 < s <= j < |c.blocks| && n > 1 && Cached(m, c, e, j)
    ensures ReadsEnds(m, c, e, s, j, n) <==> NoStray(m, c, e, j) && ReadsEnds(m, c, e, s, j - 1, n - 1)
  {
    var v: int := c.blocks[j].last;
    var rest := VersionsDown(m, e, v - 1);
    assert VersionsDown(m, e, v) == [v] + rest;
    assert Take([v] + rest, n) == [v] + Take(rest, n - 1);
    EndsDownCons(c, j, Depth(s, j, n));
    ConsEqual(v, Take(rest, n - 1), EndsDown(c, j - 1, Depth(s, j - 1, n - 1)));
    RangeRest(m, c, e, s, j, n);
  }

  lemma SolidFirst(m: map<Key, nat>, c: Chain, e: nat, s: nat, j: nat, n: nat)
    requires s <= j < |c.blocks| && n > 0
    ensures Solid(m, c, e, s, j, n) ==> Cached(m, c, e, j)
    ensures n == 1 ==> (Solid(m, c, e, s, j, n) <==> Cached(m, c, e, j))
  {
  }

  lemma RangeNothing(m: map<Key, nat>, c: Chain, e: nat, s: nat, j: nat, n: nat)
    requires ValidChain(c) && 0 < s <= j + 1 <= |c.blocks| && (n == 0 || j + 1 == s)
    requires KeysFrom(m, c, e, s)
    ensures ReadsEnds(m, c, e, s, j, n)
  {
    if n > 0 {
      RangeEmpty(m, c, e, s);
    }
  }

  /** The condition of both sides, block by block. */
  ghost predicate SolidFrom(m: map<Key, nat>, c: Chain, e: nat, s: nat, j: nat, n: nat)
    requires 0 < s <= j + 1 <= |c.blocks|
    decreases j
  {
    || n == 0 || j + 1 == s
    || (Cached(m, c, e, j) && (n == 1 || (NoStray(m, c, e, j) && SolidFrom(m, c, e, s, j - 1, n - 1))))
  }

  lemma {:induction false} SolidByBlock(m: map<Key, nat>, c: Chain, e: nat, s: nat, j: nat, n: nat)
    requires 0 < s <= j + 1 <= |c.blocks|
    ensures Solid(m, c, e, s, j, n) <==> SolidFrom(m, c, e, s, j, n)
    decreases j
  {
    if n > 0 && s <= j {
      SolidFirst(m, c, e, s, j, n);
      if n > 1 && Cached(m, c, e, j) {
        SolidStep(m, c, e, s, j, n);
        SolidByBlock(m, c, e, s, j - 1, n - 1);
      }
    }
  }

  /** Block by block, reading the range follows the same condition. */
  predicate ReadsAsSolid(m: map<Key, nat>, c: Chain, e: nat, s: nat, j: nat, n: nat, solid: bool)
    requires 0 < s <= j + 1 <= |c.blocks|
  {
    ReadsEnds(m, c, e, s, j, n) <==> solid
  }

  lemma {:induction false} ReadsByBlock(m: map<Key, nat>, c: Chain, e: nat, s: nat, j: nat, n: nat)
    requires ValidChain(c) && 0 < s <= j + 1 <= |c.blocks| && KeysFrom(m, c, e, s)
    ensures ReadsAsSolid(m, c, e, s, j, n, SolidFrom(m, c, e, s, j, n))
    decreases j
  {
    if n == 0 || j + 1 == s {
      RangeNothing(m, c, e, s, j, n);
    } else if n > 1 {
      ReadsByBlock(m, c, e, s, j - 1, n - 1);
      ReadsOneMore(m, c, e, s, j, n, SolidFrom(m, c, e, s, j - 1, n - 1));
    } else {
      ReadsFirst(m, c, e, s, j, n);
    }
  }

  lemma ReadsOneMore(m: map<Key, nat>, c: Chain, e: nat, s: nat, j: nat, n: nat, solid: bool)
    requires ValidChain(c) && 0 < s <= j < |c.blocks| && n > 1 && ReadsAsSolid(m, c, e, s, j - 1, n - 1, solid)
    ensures ReadsAsSolid(m, c, e, s, j, n, Cached(m, c, e, j) && NoStray(m, c, e, j) && solid)
  {
    if Cached(m, c, e, j) {
      ReadsStep(m, c, e, s, j, n);
    } else {
      ReadsFirst(m, c, e, s, j, n);
    }
  }

  /** The range gives exactly the ends wanted if and only if the cache is solid. */
  lemma RangeExact(m: map<Key, nat>, c: Chain, e: nat, s: nat, j: nat, n: nat)
    requires ValidChain(c) && 0 < s <= j + 1 <= |c.blocks|
    requires KeysFrom(m, c, e, s)
    ensures ReadsEnds(m, c, e, s, j, n) <==> Solid(m, c, e, s, j, n)
  {
    ReadsByBlock(m, c, e, s, j, n);
    SolidByBlock(m, c, e, s, j, n);
  }

  lemma ConsEqual(x: int, a: seq<int>, b: seq<int>)
    ensures [x] + a == [x] + b <==> a == b
  {
    assert ([x] + a)[1..] == a && ([x] + b)[1..] == b;
  }

  lemma RangeEmpty(m: map<Key, nat>, c: Chain, e: nat, s: nat)
    requires ValidChain(c) && 0 < s <= |c.blocks|
    requires KeysFrom(m, c, e, s)
    ensures VersionsDown(m, e, c.blocks[s - 1].last) == []
    ensures forall v: nat :: (e, v) in m ==> v > c.blocks[s - 1].last
  {
    if s < |c.blocks| {
      assert Adjacent(c, s);
    }
    VersionsSkip(m, e, c.blocks[s - 1].last, -1);
  }

  lemma RestWithoutStray(m: map<Key, nat>, c: Chain, e: nat, j: nat)
    requires ValidChain(c) && 0 < j < |c.blocks| && NoStray(m, c, e, j)
    ensures VersionsDown(m, e, c.blocks[j].last - 1) == VersionsDown(m, e, c.blocks[j - 1].last)
  {
    assert Adjacent(c, j);
    VersionsSkip(m, e, c.blocks[j].last - 1, c.blocks[j - 1].last);
  }

  lemma RestWithStray(m: map<Key, nat>, c: Chain, e: nat, j: nat, v: nat)
    requires ValidChain(c) && 0 < j < |c.blocks| && c.blocks[j].first <= v < c.blocks[j].last && (e, v) in m
    ensures var rest := VersionsDown(m, e, c.blocks[j].last - 1); rest != [] && rest[0] > c.blocks[j - 1].last
  {
    assert Adjacent(c, j);
    VersionsSome(m, e, c.blocks[j].last - 1, v);
  }

  /** A list that starts above block j is not the list of ends from block j. */
  lemma StartsAbove(c: Chain, j: nat, rest: seq<nat>, n: nat, k: nat)
    requires k <= j + 1 <= |c.blocks| && n > 0 && rest != [] && rest[0] > c.blocks[j].last
    ensures Take(rest, n) != EndsDown(c, j, k)
  {
    if k > 0 {
      EndsDownCons(c, j, k);
    }
  }

  /** What follows the end of block j in the range. */
  lemma RangeRest(m: map<Key, nat>, c: Chain, e: nat, s: nat, j: nat, n: nat)
    requires ValidChain(c) && 0 < s <= j < |c.blocks| && n > 1
    ensures var rest := VersionsDown(m, e, c.blocks[j].last - 1);
            if NoStray(m, c, e, j) then rest == VersionsDown(m, e, c.blocks[j - 1].last)
            else Take(rest, n - 1) != EndsDown(c, j - 1, Depth(s, j - 1, n - 1))
  {
    if NoStray(m, c, e, j) {
      RestWithoutStray(m, c, e, j);
    } else {
      var v: nat :| c.blocks[j].first <= v < c.blocks[j].last && (e, v) in m;
      RestWithStray(m, c, e, j, v);
      StartsAbove(c, j - 1, VersionsDown(m, e, c.blocks[j].last - 1), n - 1, Depth(s, j - 1, n - 1));
    }
  }

  // ---------------------------------------------------------------- the walk by block index

  lemma PreviousVersion(c: Chain, i: nat)
    requires ValidChain(c) && 0 < i < |c.blocks|
    ensures SaturatingSub(c.blocks[i].first, 1) == c.blocks[i - 1].last
    ensures c.blocks[i - 1].last == 0 <==> i == 1
  {
    assert Adjacent(c, i);
    assert i == 1 || Before(c, 0, i - 1);
  }

  /** What is listed by a walk that starts at the end of block j. */
  function ListFrom(call: Call, m: map<Key, nat>, j: nat, n: nat): seq<nat>
    requires j < |call.chain.blocks|
    decreases j
  {
    var c, e := call.chain, call.epoch;
    if n == 0 then []
    else if Cached(m, c, e, j) then Take(VersionsDown(m, e, c.blocks[j].last), n)
    else if j in call.faults.blocks || c.blocks[j].epoch != e then []
    else [c.blocks[j].last] + if j == 0 then [] else ListFrom(call, m, j - 1, n - 1)
  }

  /** The caller's epoch begins after genesis, and the map agrees. */
  predicate PastGenesis(call: Call, m: map<Key, nat>)
    requires ValidCall(call)
  {
    call.chain.blocks[0].epoch != call.epoch && (call.epoch, 0) !in m
  }

  lemma ListedCons(call: Call, m: map<Key, nat>, b: nat, w: WalkResult, n: nat)
    requires ValidCall(call) && b < |call.chain.blocks| && BlocksOf(call.chain, w.found) && |w.found| < n
    ensures BlocksOf(call.chain, [b] + w.found)
    ensures ListedEnds(call, m, WalkResult([b] + w.found, w.hit, w.lookup), n)
         == [call.chain.blocks[b].last] + ListedEnds(call, m, w, n - 1)
  {
    assert EndsOf(call.chain, [b] + w.found) == [call.chain.blocks[b].last] + EndsOf(call.chain, w.found);
  }

  lemma WalkGoesOn(call: Call, m: map<Key, nat>, j: nat, n: nat, w: WalkResult)
    requires ValidCall(call) && 0 < j < |call.chain.blocks| && n > 0 && !Cached(m, call.chain, call.epoch, j)
    requires j !in call.faults.blocks && call.chain.blocks[j].epoch == call.epoch
    requires w == if j == 1 then WalkResult([], false, 0) else Walk(call, m, call.chain.blocks[j - 1].last, n - 1)
    ensures Walk(call, m, call.chain.blocks[j].last, n) == WalkResult([j] + w.found, w.hit, w.lookup)
  {
    BlockIndexUnique(call.chain, call.chain.blocks[j].last, j);
    PreviousVersion(call.chain, j);
  }

  lemma {:induction false} ListByIndex(call: Call, m: map<Key, nat>, j: nat, n: nat)
    requires ValidCall(call) && j < |call.chain.blocks| && PastGenesis(call, m)
    ensures ListsFrom(call, m, j, n)
    decreases j
  {
    if StopsAt(call, m, j, n) {
      ListStops(call, m, j, n);
    } else {
      if j > 1 {
        ListByIndex(call, m, j - 1, n - 1);
      }
      ListGoesOn(call, m, j, n);
    }
  }

  /** The walk by version from the end of block j lists what the walk by index lists. */
  predicate ListsFrom(call: Call, m: map<Key, nat>, j: nat, n: nat)
    requires ValidCall(call) && j < |call.chain.blocks|
  {
    ListedEnds(call, m, Walk(call, m, call.chain.blocks[j].last, n), n) == ListFrom(call, m, j, n)
  }

  predicate StopsAt(call: Call, m: map<Key, nat>, j: nat, n: nat)
    requires j < |call.chain.blocks|
  {
    n == 0 || Cached(m, call.chain, call.epoch, j) || j in call.faults.blocks || call.chain.blocks[j].epoch != call.epoch
  }

  lemma ListGoesOn(call: Call, m: map<Key, nat>, j: nat, n: nat)
    requires ValidCall(call) && 0 < j < |call.chain.blocks| && PastGenesis(call, m) && !StopsAt(call, m, j, n)
    requires j == 1 || ListsFrom(call, m, j - 1, n - 1)
    ensures ListsFrom(call, m, j, n)
  {
    var w := if j == 1 then WalkResult([], false, 0) else Walk(call, m, call.chain.blocks[j - 1].last, n - 1);
    var rest := if j == 1 then [] else ListFrom(call, m, j - 1, n - 1);
    assert ListedEnds(call, m, w, n - 1) == rest;
    WalkGoesOn(call, m, j, n, w);
    ListedCons(call, m, j, w, n);
    ListFromGoesOn(call, m, j, n, rest);
  }

  lemma ListFromGoesOn(call: Call, m: map<Key, nat>, j: nat, n: nat, rest: seq<nat>)
    requires ValidCall(call) && 0 < j < |call.chain.blocks| && PastGenesis(call, m) && !StopsAt(call, m, j, n)
    requires rest == if j == 1 then [] else ListFrom(call, m, j - 1, n - 1)
    ensures ListFrom(call, m, j, n) == [call.chain.blocks[j].last] + rest
  {
  }

  /** The walk ends at once at the end of block j. */
  lemma ListStops(call: Call, m: map<Key, nat>, j: nat, n: nat)
    requires ValidCall(call) && j < |call.chain.blocks| && StopsAt(call, m, j, n)
    ensures ListsFrom(call, m, j, n)
  {
    BlockIndexUnique(call.chain, call.chain.blocks[j].last, j);
    var down := Take(VersionsDown(m, call.epoch, call.chain.blocks[j].last), n);
    assert EndsOf(call.chain, []) + down == down;
  }

  // ---------------------------------------------------------------- exactly when the list is the history

  lemma WindowOkCached(call: Call, m: map<Key, nat>, s: nat, j: nat, n: nat)
    requires s <= j < |call.chain.blocks| && n > 0 && Cached(m, call.chain, call.epoch, j)
    ensures WindowOk(call, m, s, j, n) <==> Solid(m, call.chain, call.epoch, s, j, n)
  {
    if WindowOk(call, m, s, j, n) {
      forall i | s <= i <= j && j + 1 - i <= n ensures Cached(m, call.chain, call.epoch, i) {
        assert Reachable(call, m, j, i);
      }
    }
  }

  lemma WindowOkUncached(call: Call, m: map<Key, nat>, s: nat, j: nat, n: nat)
    requires 0 < s <= j < |call.chain.blocks| && n > 0 && !Cached(m, call.chain, call.epoch, j)
    ensures WindowOk(call, m, s, j, n) <==> j !in call.faults.blocks && WindowOk(call, m, s, j - 1, n - 1)
  {
    var h := j - 1;
    assert Reachable(call, m, j, j) <==> j !in call.faults.blocks;
    forall i | s <= i <= h ensures Reachable(call, m, j, i) <==> Reachable(call, m, h, i) {
    }
    if j !in call.faults.blocks && WindowOk(call, m, s, h, n - 1) {
      forall i | s <= i <= j && j + 1 - i <= n ensures Reachable(call, m, j, i) {
        assert i == j || Reachable(call, m, h, i);
      }
    }
    if WindowOk(call, m, s, j, n) {
      forall i | s <= i <= h && h + 1 - i <= n - 1 ensures Reachable(call, m, h, i) {
        assert Reachable(call, m, j, i);
      }
    }
  }

  /** The walk from block j lists the ends of the blocks wanted. */
  predicate ListsEnds(call: Call, m: map<Key, nat>, s: nat, j: nat, n: nat)
    requires s <= j + 1 <= |call.chain.blocks|
  {
    ListFrom(call, m, j, n) == EndsDown(call.chain, j, Depth(s, j, n))
  }

  lemma ListNothing(call: Call, m: map<Key, nat>, s: nat, j: nat, n: nat)
    requires ValidCall(call) && 0 < s <= j + 1 <= |call.chain.blocks| && (n == 0 || j + 1 == s)
    requires KeysFrom(m, call.chain, call.epoch, s) && call.chain.blocks[s - 1].epoch != call.epoch
    ensures ListsEnds(call, m, s, j, n) && WindowOk(call, m, s, j, n)
  {
    RangeEmpty(m, call.chain, call.epoch, s);
  }

  lemma ListsStep(call: Call, m: map<Key, nat>, s: nat, j: nat, n: nat)
    requires ValidCall(call) && 0 < s <= j < |call.chain.blocks| && n > 0
    requires !Cached(m, call.chain, call.epoch, j) && call.chain.blocks[j].epoch == call.epoch
    ensures ListsEnds(call, m, s, j, n) <==> j !in call.faults.blocks && ListsEnds(call, m, s, j - 1, n - 1)
  {
    var c := call.chain;
    EndsDownCons(c, j, Depth(s, j, n));
    ConsEqual(c.blocks[j].last, ListFrom(call, m, j - 1, n - 1), EndsDown(c, j - 1, Depth(s, j - 1, n - 1)));
  }

  lemma {:induction false} ListExactFrom(call: Call, m: map<Key, nat>, s: nat, j: nat, n: nat)
    requires ValidCall(call) && 0 < s <= j + 1 <= |call.chain.blocks|
    requires KeysFrom(m, call.chain, call.epoch, s)
    requires forall i :: s <= i <= j ==> call.chain.blocks[i].epoch == call.epoch
    requires call.chain.blocks[s - 1].epoch != call.epoch
    ensures ListsEnds(call, m, s, j, n) <==> WindowOk(call, m, s, j, n)
    decreases j
  {
    var c, e := call.chain, call.epoch;
    if n == 0 || j + 1 == s {
      ListNothing(call, m, s, j, n);
    } else if Cached(m, c, e, j) {
      RangeExact(m, c, e, s, j, n);
      WindowOkCached(call, m, s, j, n);
      assert ListsEnds(call, m, s, j, n) <==> ReadsEnds(m, c, e, s, j, n);
    } else {
      WindowOkUncached(call, m, s, j, n);
      ListsStep(call, m, s, j, n);
      ListExactFrom(call, m, s, j - 1, n - 1);
    }
  }

  /** The ends of the caller's history. */
  function HistoryEnds(call: Call, n: nat): seq<nat>
    requires ValidCall(call)
  {
    EndsOf(call.chain, History(call.chain, call.epoch, call.version, n))
  }

  lemma KeysFromStart(m: map<Key, nat>, c: Chain, e: nat, t: nat)
    requires ValidChain(c) && 0 < t < |c.blocks| && c.blocks[t].epoch == e && KeysOk(m, c, e)
    ensures var s := EpochStart(c, t);
            && 0 < s && c.blocks[s - 1].epoch != e && c.blocks[0].epoch != e
            && (forall i :: s <= i < t ==> c.blocks[i].epoch == e)
            && c.blocks[s].first > 0 && KeysFrom(m, c, e, s)
  {
    var s := EpochStart(c, t);
    assert Before(c, 0, t);
    assert Before(c, s - 1, t);
    FirstPositive(c, s);
    forall v: nat | (e, v) in m ensures v >= c.blocks[s].first {
      assert OfEpoch(c, e, v);
      var i: nat :| i < |c.blocks| && c.blocks[i].first <= v <= c.blocks[i].last && c.blocks[i].epoch == e;
      assert i >= s - 1 || Before(c, i, s - 1);
      assert i <= s || Before(c, s, i);
    }
  }

  lemma HistoryBelowTip(call: Call, n: nat, t: nat)
    requires ValidCall(call) && t == Tip(call) && t > 0 && call.chain.blocks[t].epoch == call.epoch
    ensures HistoryEnds(call, n) == EndsDown(call.chain, t - 1, Depth(EpochStart(call.chain, t), t - 1, n))
  {
  }

  lemma StartBelowTip(call: Call, t: nat)
    requires ValidCall(call) && t == Tip(call) && t > 0 && call.chain.blocks[t].epoch == call.epoch && !call.faults.tip
    ensures StartVersion(call) == call.chain.blocks[t - 1].last
  {
    PreviousVersion(call.chain, t);
  }

  lemma ListedBelowTip(call: Call, m: map<Key, nat>, n: nat, t: nat)
    requires ValidCall(call) && PastGenesis(call, m) && 0 < t <= |call.chain.blocks|
    requires StartVersion(call) == call.chain.blocks[t - 1].last
    ensures Listed(call, m, n) == ListFrom(call, m, t - 1, n)
  {
    ListByIndex(call, m, t - 1, n);
  }

  lemma ExactBelowTip(call: Call, m: map<Key, nat>, n: nat, t: nat)
    requires ValidCall(call) && KeysOk(m, call.chain, call.epoch) && t == Tip(call)
    requires t > 0 && call.chain.blocks[t].epoch == call.epoch && !call.faults.tip
    ensures Listed(call, m, n) == HistoryEnds(call, n) <==> WindowOk(call, m, EpochStart(call.chain, t), t - 1, n)
  {
    KeysFromStart(m, call.chain, call.epoch, t);
    StartBelowTip(call, t);
    ListedBelowTip(call, m, n, t);
    HistoryBelowTip(call, n, t);
    ListExactFrom(call, m, EpochStart(call.chain, t), t - 1, n);
  }

  /** The tip's first read fails: the walk starts inside the tip's block. */
  lemma ExactInTip(call: Call, m: map<Key, nat>, n: nat, t: nat)
    requires ValidCall(call) && t == Tip(call) && n > 0
    requires t > 0 && call.chain.blocks[t].epoch == call.epoch && call.faults.tip
    ensures Listed(call, m, n) == HistoryEnds(call, n) <==>
            EpochStart(call.chain, t) == t && t in call.faults.blocks && (call.epoch, call.version) !in m
  {
    var c, e, v := call.chain, call.epoch, call.version;
    assert Before(c, t - 1, t);
    HistoryFirst(call, n, t);
    ListedInTip(call, m, n, t);
  }

  lemma HistoryFirst(call: Call, n: nat, t: nat)
    requires ValidCall(call) && t == Tip(call) && t > 0 && n > 0 && call.chain.blocks[t].epoch == call.epoch
    ensures HistoryEnds(call, n) == [] <==> EpochStart(call.chain, t) == t
    ensures HistoryEnds(call, n) != [] ==> HistoryEnds(call, n)[0] == call.chain.blocks[t - 1].last
  {
  }

  lemma ListedInTip(call: Call, m: map<Key, nat>, n: nat, t: nat)
    requires ValidCall(call) && t == Tip(call) && n > 0
    requires call.chain.blocks[t].epoch == call.epoch && call.faults.tip
    ensures Listed(call, m, n) == [] <==> t in call.faults.blocks && (call.epoch, call.version) !in m
    ensures Listed(call, m, n) != [] ==> Listed(call, m, n)[0] >= call.version
  {
    var v: int := call.version;
    if (call.epoch, v) in m {
      assert VersionsDown(m, call.epoch, v) == [v] + VersionsDown(m, call.epoch, v - 1);
    } else if t !in call.faults.blocks {
      assert Walk(call, m, call.version, n).found[0] == t;
    }
  }

  lemma ExactGenesis(call: Call, m: map<Key, nat>, n: nat)
    requires ValidCall(call) && Tip(call) == 0 && call.chain.blocks[0].epoch == call.epoch && n > 0
    ensures Listed(call, m, n) == HistoryEnds(call, n) <==> Cached(m, call.chain, call.epoch, 0) || 0 !in call.faults.blocks
  {
    WalkGenesis(call, m, n);
    assert VersionsDown(m, call.epoch, 0) == (if (call.epoch, 0) in m then [0] else []) + VersionsDown(m, call.epoch, -1);
    assert HistoryEnds(call, n) == [0];
  }

  lemma WalkGenesis(call: Call, m: map<Key, nat>, n: nat)
    requires ValidCall(call) && Tip(call) == 0 && call.chain.blocks[0].epoch == call.epoch && n > 0
    ensures Walk(call, m, StartVersion(call), n) ==
            if Cached(m, call.chain, call.epoch, 0) then WalkResult([], true, 0)
            else if 0 in call.faults.blocks then WalkResult([], false, 0)
            else WalkResult([0], false, 0)
  {
    BlockIndexUnique(call.chain, 0, 0);
  }

  lemma ExactOtherEpoch(call: Call, m: map<Key, nat>, n: nat)
    requires ValidCall(call) && KeysOk(m, call.chain, call.epoch)
    requires call.chain.blocks[Tip(call)].epoch != call.epoch
    ensures Walk(call, m, StartVersion(call), n) == WalkResult([], false, call.version)
    ensures Listed(call, m, n) == HistoryEnds(call, n) == []
  {
    var c, e, v := call.chain, call.epoch, call.version;
    if (e, v) in m {
      assert OfEpoch(c, e, v);
      var i: nat :| i < |c.blocks| && c.blocks[i].first <= v <= c.blocks[i].last && c.blocks[i].epoch == e;
      BlockIndexUnique(c, v, i);
    }
  }

  /**
   For every request, every fault and every map of the epoch's versions: the request lists
   exactly the ends of its history, in order, if and only if the window is complete.
   */
  lemma ListExact(call: Call, m: map<Key, nat>, n: nat)
    requires ValidCall(call) && KeysOk(m, call.chain, call.epoch)
    ensures Listed(call, m, n) == HistoryEnds(call, n) <==> Complete(call, m, n)
  {
    var t := Tip(call);
    if call.chain.blocks[t].epoch != call.epoch {
      ExactOtherEpoch(call, m, n);
    } else if n == 0 {
      assert Listed(call, m, 0) == [] == HistoryEnds(call, 0);
    } else if t == 0 {
      ExactGenesis(call, m, n);
    } else if call.faults.tip {
      ExactInTip(call, m, n, t);
    } else {
      ExactBelowTip(call, m, n, t);
    }
  }
}
