/** Rendering consecutive transactions with a running timestamp, against a lookup per version. */
module Render {
  import opened Prelude
  import opened Ledger

  /** The storage's block timestamp for a version. */
  function BlockTime(c: Chain, v: nat): nat
    requires ValidChain(c) && v < |c.txns|
  {
    c.blocks[BlockIndex(c, v)].proposedTime
  }

  /** The timestamp a block metadata transaction announces. */
  function Announced(t: Txn): Option<nat> {
    match t
    case BlockMetadataExt(time) => Some(time)
    case BlockMetadata(time) => Some(time)
    case _ => None
  }

  /** The running timestamp at transaction t. */
  function NowAt(t: Txn, timestamp: nat): nat {
    if Announced(t).Some? then Announced(t).value else timestamp
  }

  /** Converts every transaction with the running timestamp; None when a conversion fails. */
  function Sequential<R>(convert: (nat, Txn) -> Option<R>, ts: seq<Txn>, timestamp: nat): Option<seq<R>> {
    if ts == [] then Some([])
    else
      var now := NowAt(ts[0], timestamp);
      var r := convert(now, ts[0]);
      var rest := Sequential(convert, ts[1..], now);
      if r.None? || rest.None? then None else Some([r.value] + rest.value)
  }

  /** Converts every transaction with the timestamp looked up for its own version. */
  function NonSequential<R>(convert: (nat, Txn) -> Option<R>, c: Chain, start: nat, n: nat): Option<seq<R>>
    requires ValidChain(c) && start + n <= |c.txns|
    decreases n
  {
    if n == 0 then Some([])
    else
      var r := convert(BlockTime(c, start), c.txns[start]);
      var rest := NonSequential(convert, c, start + 1, n - 1);
      if r.None? || rest.None? then None else Some([r.value] + rest.value)
  }

  function PrependTo<R>(done: seq<R>, rest: Option<seq<R>>): Option<seq<R>> {
    if rest.None? then None else Some(done + rest.value)
  }

  lemma PrependOne<R>(done: seq<R>, x: R, rest: Option<seq<R>>)
    ensures PrependTo(done, PrependTo([x], rest)) == PrependTo(done + [x], rest)
    ensures PrependTo([], rest) == rest
  {
    if rest.Some? {
      assert done + ([x] + rest.value) == (done + [x]) + rest.value;
      assert [] + rest.value == rest.value;
    }
  }

  lemma SequentialStep<R>(convert: (nat, Txn) -> Option<R>, data: seq<Txn>, i: nat, timestamp: nat)
    requires i < |data|
    ensures var now := NowAt(data[i], timestamp);
            var out := convert(now, data[i]);
            var rest := Sequential(convert, data[i + 1..], now);
            Sequential(convert, data[i..], timestamp) == if out.None? then None else PrependTo([out.value], rest)
  {
    assert data[i..][1..] == data[i + 1..];
  }

  /** render_transactions_sequential: one pass that carries the timestamp along. */
  method RenderSequential<R>(convert: (nat, Txn) -> Option<R>, data: seq<Txn>, start: nat) returns (r: Option<seq<R>>)
    ensures r == Sequential(convert, data, start)
  {
    var timestamp := start;
    var done: seq<R> := [];
    ghost var all := Sequential(convert, data, start);
    assert data[0..] == data;
    if all.Some? {
      assert [] + all.value == all.value;
    }
    var i := 0;
    while i < |data|
      invariant i <= |data|
      invariant all == PrependTo(done, Sequential(convert, data[i..], timestamp))
    {
      var t := data[i];
      SequentialStep(convert, data, i, timestamp);
      if t.BlockMetadataExt? {
        timestamp := t.metadataExtTime;
      } else if t.BlockMetadata? {
        timestamp := t.metadataTime;
      }
      var out := convert(timestamp, t);
      if out.None? {
        return None;
      }
      PrependOne(done, out.value, Sequential(convert, data[i + 1..], timestamp));
      done := done + [out.value];
      i := i + 1;
    }
    assert done + [] == done;
    r := Some(done);
  }

  // ---------------------------------------------------------------- agreement

  /** The running timestamp after each transaction. */
  function Times(ts: seq<Txn>, timestamp: nat): (r: seq<nat>)
    ensures |r| == |ts|
  {
    if ts == [] then []
    else
      var now := NowAt(ts[0], timestamp);
      [now] + Times(ts[1..], now)
  }

  /** The looked-up timestamps of n versions. */
  function BlockTimes(c: Chain, start: nat, n: nat): (r: seq<nat>)
    requires ValidChain(c) && start + n <= |c.txns|
    ensures |r| == n
    decreases n
  {
    if n == 0 then [] else [BlockTime(c, start)] + BlockTimes(c, start + 1, n - 1)
  }

  /** Version v announces its block's time, or stays in the time of the version before. */
  predicate StampOk(c: Chain, v: nat)
    requires ValidChain(c) && v < |c.txns|
  {
    match c.txns[v]
    case BlockMetadata(time) => time == BlockTime(c, v)
    case BlockMetadataExt(time) => time == BlockTime(c, v)
    case _ => v == 0 || BlockTime(c, v) == BlockTime(c, v - 1)
  }

  /** The running timestamps of the page of n versions from start are their blocks' timestamps. */
  predicate PageStamped(c: Chain, start: nat, n: nat)
    requires ValidChain(c) && start + n <= |c.txns| && start < |c.txns|
  {
    Times(c.txns[start..start + n], BlockTime(c, start)) == BlockTimes(c, start, n)
  }

  lemma {:induction false} TimesFrom(c: Chain, start: nat, n: nat, timestamp: nat)
    requires ValidChain(c) && start + n <= |c.txns|
    requires forall v :: start <= v < start + n ==> StampOk(c, v)
    requires n > 0 && Announced(c.txns[start]).None? ==> timestamp == BlockTime(c, start)
    ensures Times(c.txns[start..start + n], timestamp) == BlockTimes(c, start, n)
    decreases n
  {
    if n > 0 {
      assert c.txns[start..start + n][1..] == c.txns[start + 1..start + n];
      assert StampOk(c, start);
      if n > 1 {
        assert StampOk(c, start + 1);
      }
      TimesFrom(c, start + 1, n - 1, BlockTime(c, start));
    }
  }

  /** Every page is stamped right exactly when every version's stamp is right. */
  lemma PagesStampedIff(c: Chain)
    requires ValidChain(c)
    ensures (forall start, n :: 0 <= start && 0 <= n && start + n <= |c.txns| && start < |c.txns| ==> PageStamped(c, start, n))
       <==> (forall v :: 0 <= v < |c.txns| ==> StampOk(c, v))
  {
    if forall v :: 0 <= v < |c.txns| ==> StampOk(c, v) {
      forall start, n | 0 <= start && 0 <= n && start + n <= |c.txns| && start < |c.txns|
        ensures PageStamped(c, start, n)
      {
        TimesFrom(c, start, n, BlockTime(c, start));
      }
    }
    if forall start, n :: 0 <= start && 0 <= n && start + n <= |c.txns| && start < |c.txns| ==> PageStamped(c, start, n) {
      forall v | 0 <= v < |c.txns| ensures StampOk(c, v) {
        if v == 0 {
          assert PageStamped(c, 0, 1);
          assert c.txns[0..1][0] == c.txns[0];
          assert BlockTimes(c, 0, 1)[0] == BlockTime(c, 0);
        } else {
          assert PageStamped(c, v - 1, 2);
          PageOfTwo(c, v);
        }
      }
    }
  }

  lemma PageOfTwo(c: Chain, v: nat)
    requires ValidChain(c) && 0 < v < |c.txns| && PageStamped(c, v - 1, 2)
    ensures StampOk(c, v)
  {
    var ts := c.txns[v - 1..v + 1];
    assert ts[1..] == [c.txns[v]] && ts[0] == c.txns[v - 1];
    var r := Times(ts, BlockTime(c, v - 1));
    assert BlockTimes(c, v, 1) == [BlockTime(c, v)] + BlockTimes(c, v + 1, 0);
    assert BlockTimes(c, v - 1, 2) == [BlockTime(c, v - 1)] + BlockTimes(c, v, 1);
    assert r[0] == BlockTime(c, v - 1) && r[1] == BlockTime(c, v);
    assert r[1] == Times([c.txns[v]], r[0])[0];
  }

  /** Every block but genesis opens with metadata carrying its time, and has metadata nowhere else. */
  predicate OpensWithMetadata(c: Chain)
    requires ValidChain(c)
  {
    forall v :: 0 <= v < |c.txns| ==>
      var i, t := BlockIndex(c, v), c.txns[v];
      if i > 0 && c.blocks[i].first == v
      then t == BlockMetadata(c.blocks[i].proposedTime) || t == BlockMetadataExt(c.blocks[i].proposedTime)
      else !t.BlockMetadata? && !t.BlockMetadataExt?
  }

  lemma OpeningMetadataSuffices(c: Chain, v: nat)
    requires ValidChain(c) && OpensWithMetadata(c) && v < |c.txns|
    ensures StampOk(c, v)
  {
    var i := BlockIndex(c, v);
    FirstPositive(c, i);
    if v > 0 && Announced(c.txns[v]).None? {
      BlockIndexUnique(c, v - 1, i);
    }
  }

  lemma {:induction false} SequentialByTimes<R>(convert: (nat, Txn) -> Option<R>, c: Chain, start: nat, n: nat, timestamp: nat)
    requires ValidChain(c) && start + n <= |c.txns|
    requires Times(c.txns[start..start + n], timestamp) == BlockTimes(c, start, n)
    ensures Sequential(convert, c.txns[start..start + n], timestamp) == NonSequential(convert, c, start, n)
    decreases n
  {
    if n > 0 {
      var ts := c.txns[start..start + n];
      assert ts[1..] == c.txns[start + 1..start + n];
      var now := BlockTime(c, start);
      assert Times(ts, timestamp)[0] == now && Times(ts, timestamp)[1..] == BlockTimes(c, start + 1, n - 1);
      assert Times(ts, timestamp)[1..] == Times(ts[1..], now);
      SequentialByTimes(convert, c, start + 1, n - 1, now);
    }
  }

  /**
   From any start version and for any length, the sequential renderer started at the block time
   of the first version gives what the per-version renderer gives, conversion failures included.
   */
  lemma RenderersAgree<R>(convert: (nat, Txn) -> Option<R>, c: Chain, start: nat, n: nat)
    requires ValidChain(c) && OpensWithMetadata(c) && start + n <= |c.txns| && start < |c.txns|
    ensures Sequential(convert, c.txns[start..start + n], BlockTime(c, start)) == NonSequential(convert, c, start, n)
  {
    forall v | start <= v < start + n ensures StampOk(c, v) {
      OpeningMetadataSuffices(c, v);
    }
    TimesFrom(c, start, n, BlockTime(c, start));
    SequentialByTimes(convert, c, start, n, BlockTime(c, start));
  }
}
