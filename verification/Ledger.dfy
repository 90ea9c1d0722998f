/** The committed ledger: transactions by version, grouped into contiguous blocks. */
module Ledger {
  import opened Prelude

  datatype UseCase = ContractAddress(address: nat) | OtherUseCase(id: nat)

  datatype BlockEnd = BlockEnd(limitReached: bool)

  datatype Txn =
    | UserTxn(gasPrice: nat, gasUsed: nat, useCase: UseCase)
    | BlockMetadata(metadataTime: nat)
    | BlockMetadataExt(metadataExtTime: nat)
    | BlockEpilogue(end: Option<BlockEnd>)
    | OtherTxn

  /** Block boundaries are inclusive versions; proposedTime comes from the new-block event. */
  datatype Block = Block(first: nat, last: nat, epoch: nat, proposedTime: nat)

  datatype Chain = Chain(blocks: seq<Block>, txns: seq<Txn>)

  predicate Adjacent(c: Chain, i: int)
    requires 0 < i < |c.blocks|
  {
    c.blocks[i].first == c.blocks[i - 1].last + 1
  }

  predicate Before(c: Chain, i: int, j: int)
    requires 0 <= i < j < |c.blocks|
  {
    && c.blocks[i].last < c.blocks[j].first
    && c.blocks[i].epoch <= c.blocks[j].epoch
    && (i == 0 ==> c.blocks[i].epoch < c.blocks[j].epoch)
  }

  /**
   Blocks are nonempty, contiguous and cover every version; epochs never decrease; genesis is
   version 0, in a block of its own and alone in its epoch.
   */
  predicate ValidChain(c: Chain) {
    && |c.blocks| > 0
    && c.blocks[0].first == 0 && c.blocks[0].last == 0
    && (forall i :: 0 <= i < |c.blocks| ==> c.blocks[i].first <= c.blocks[i].last)
    && (forall i {:trigger Adjacent(c, i)} :: 0 < i < |c.blocks| ==> Adjacent(c, i))
    && (forall i, j {:trigger Before(c, i, j)} :: 0 <= i < j < |c.blocks| ==> Before(c, i, j))
    && |c.txns| == c.blocks[|c.blocks| - 1].last + 1
  }

  function BlockAtOrBelow(c: Chain, v: nat, j: nat): (i: nat)
    requires ValidChain(c) && j < |c.blocks| && v <= c.blocks[j].last
    ensures i <= j && c.blocks[i].first <= v <= c.blocks[i].last
  {
    if c.blocks[j].first <= v then j
    else assert Adjacent(c, j); BlockAtOrBelow(c, v, j - 1)
  }

  /** The index of the block that contains version v. */
  function BlockIndex(c: Chain, v: nat): (i: nat)
    requires ValidChain(c) && v < |c.txns|
    ensures i < |c.blocks| && c.blocks[i].first <= v <= c.blocks[i].last
  {
    BlockAtOrBelow(c, v, |c.blocks| - 1)
  }

  lemma BlockIndexUnique(c: Chain, v: nat, i: nat)
    requires ValidChain(c) && i < |c.blocks| && c.blocks[i].first <= v <= c.blocks[i].last
    ensures v < |c.txns| && BlockIndex(c, v) == i
  {
    assert i == |c.blocks| - 1 || Before(c, i, |c.blocks| - 1);
    var k := BlockIndex(c, v);
    assert i <= k || Before(c, k, i);
    assert k <= i || Before(c, i, k);
  }

  lemma FirstPositive(c: Chain, i: nat)
    requires ValidChain(c) && i < |c.blocks|
    ensures c.blocks[i].first > 0 <==> i > 0
  {
    if i > 0 {
      assert Before(c, 0, i);
    }
  }

  lemma LastsIncrease(c: Chain)
    requires ValidChain(c)
    ensures forall i, j :: 0 <= i < j < |c.blocks| ==> c.blocks[i].last < c.blocks[j].last
  {
    forall i, j | 0 <= i < j < |c.blocks| ensures c.blocks[i].last < c.blocks[j].last {
      assert Before(c, i, j);
    }
  }

  lemma SameEnd(c: Chain, i: nat, x: nat)
    requires ValidChain(c) && i < |c.blocks| && x < |c.blocks| && c.blocks[i].last == c.blocks[x].last
    ensures i == x
  {
    LastsIncrease(c);
  }

  lemma InsideIsNoEnd(c: Chain, i: nat, v: nat, x: nat)
    requires ValidChain(c) && i < |c.blocks| && x < |c.blocks| && c.blocks[i].first <= v < c.blocks[i].last
    ensures c.blocks[x].last != v
  {
    assert x <= i || Before(c, i, x);
    assert x >= i || Before(c, x, i);
  }

  predicate StartsEpoch(c: Chain, s: nat)
    requires s < |c.blocks|
  {
    s == 0 || c.blocks[s - 1].epoch != c.blocks[s].epoch
  }

  /** The first block index of the epoch that block t belongs to. */
  function EpochStart(c: Chain, t: nat): (s: nat)
    requires ValidChain(c) && t < |c.blocks|
    ensures s <= t
    ensures forall i :: s <= i <= t ==> c.blocks[i].epoch == c.blocks[t].epoch
    ensures StartsEpoch(c, s)
  {
    if t == 0 || c.blocks[t - 1].epoch != c.blocks[t].epoch then t else EpochStart(c, t - 1)
  }

  lemma {:induction false} EpochStartSame(c: Chain, s: nat, t: nat)
    requires ValidChain(c) && t < |c.blocks| && EpochStart(c, t) <= s <= t
    ensures EpochStart(c, s) == EpochStart(c, t)
  {
    if s < t {
      EpochStartSame(c, s, t - 1);
    }
  }

  lemma EpochStartBelow(c: Chain, s: nat, t: nat)
    requires ValidChain(c) && s <= t < |c.blocks| && c.blocks[s].epoch == c.blocks[t].epoch
    ensures EpochStart(c, t) <= s
  {
    var r := EpochStart(c, t);
    assert r == 0 || s >= r || ((s == r - 1 || Before(c, s, r - 1)) && Before(c, r - 1, t));
  }

  lemma EpochStartUnique(c: Chain, s: nat, t: nat)
    requires ValidChain(c) && s <= t < |c.blocks|
    requires c.blocks[s].epoch == c.blocks[t].epoch
    ensures StartsEpoch(c, s) <==> EpochStart(c, t) == s
    ensures EpochStart(c, s) == EpochStart(c, t) <= s
  {
    EpochStartBelow(c, s, t);
    EpochStartSame(c, s, t);
  }

  /**
   What the storage may gain between two requests: new transactions and blocks. Every block
   but the newest is final; the newest may still be partial and grow.
   */
  predicate Grows(c: Chain, d: Chain) {
    && 0 < |c.blocks| <= |d.blocks|
    && c.txns <= d.txns
    && c.blocks[..|c.blocks| - 1] == d.blocks[..|c.blocks| - 1]
    && (var k := |c.blocks| - 1;
        && c.blocks[k].first == d.blocks[k].first
        && c.blocks[k].epoch == d.blocks[k].epoch
        && c.blocks[k].last <= d.blocks[k].last)
  }

  /** Growth keeps the first version and epoch of every block, and the end of every final one. */
  lemma GrowsAt(c: Chain, d: Chain, i: nat)
    requires ValidChain(c) && ValidChain(d) && Grows(c, d) && i < |c.blocks|
    ensures c.blocks[i].first == d.blocks[i].first && c.blocks[i].epoch == d.blocks[i].epoch
    ensures c.blocks[i].last <= d.blocks[i].last
    ensures i < |c.blocks| - 1 || i == 0 ==> c.blocks[i].last == d.blocks[i].last
  {
    if i < |c.blocks| - 1 {
      assert c.blocks[i] == c.blocks[..|c.blocks| - 1][i] == d.blocks[i];
    }
  }

  lemma GrowsBlockIndex(c: Chain, d: Chain, v: nat)
    requires ValidChain(c) && ValidChain(d) && Grows(c, d) && v < |c.txns|
    ensures v < |d.txns| && BlockIndex(d, v) == BlockIndex(c, v)
  {
    var i := BlockIndex(c, v);
    GrowsAt(c, d, i);
    BlockIndexUnique(d, v, i);
  }

  lemma {:induction false} GrowsEpochStart(c: Chain, d: Chain, t: nat)
    requires ValidChain(c) && ValidChain(d) && Grows(c, d) && t < |c.blocks|
    ensures EpochStart(d, t) == EpochStart(c, t)
  {
    GrowsAt(c, d, t);
    if t > 0 {
      GrowsAt(c, d, t - 1);
      GrowsEpochStart(c, d, t - 1);
    }
  }
}
