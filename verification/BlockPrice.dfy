/** The minimum inclusion price of one block: the scan of its transactions and the rounding. */
module BlockPrice {
  import opened Prelude
  import opened Ledger

  datatype GasEstimation = GasEstimation(low: nat, market: nat, aggressive: nat)

  /** The node's gas estimation settings; buckets are the mempool broadcast buckets. */
  datatype Config = Config(
    enabled: bool,
    staticOverride: Option<GasEstimation>,
    lowHistory: nat,
    marketHistory: nat,
    aggressiveHistory: nat,
    fullBlockTxns: nat,
    incorporateReordering: bool,
    buckets: seq<nat>)

  /** The on-chain execution configuration that the scan consults. */
  datatype ExecConfig = ExecConfig(spreadFactor: Option<nat>, blockGasLimit: Option<nat>)

  /** Panics stands for a failed unwrap or assert_eq in the scan. */
  datatype Inclusion = Panics | NoMinimum | Minimum(price: nat)

  // ---------------------------------------------------------------- bucket rounding

  /** The first bucket above the price, or the price itself when there is none. */
  function NextBucket(buckets: seq<nat>, price: nat): (r: nat)
    ensures r >= price
    ensures r == price <==> forall i :: 0 <= i < |buckets| ==> buckets[i] <= price
    ensures r > price ==> exists i :: 0 <= i < |buckets| && r == buckets[i] && forall j :: 0 <= j < i ==> buckets[j] <= price
  {
    if buckets == [] then price
    else if buckets[0] > price then buckets[0]
    else NextBucket(buckets[1..], price)
  }

  /** Rounding is monotone for every bucket list, ascending or not. */
  lemma {:induction false} NextBucketMonotone(buckets: seq<nat>, p: nat, q: nat)
    requires p <= q
    ensures NextBucket(buckets, p) <= NextBucket(buckets, q)
  {
    if buckets != [] && buckets[0] <= p {
      NextBucketMonotone(buckets[1..], p, q);
    }
  }

  // ---------------------------------------------------------------- the scan

  /** The versions whose transaction, or whose transaction info, cannot be read. */
  datatype ReadErrors = ReadErrors(txns: set<nat>, infos: set<nat>)

  const NoReadErrors := ReadErrors({}, {})

  /** Version v as the scan sees it: what cannot be read is skipped like a system transaction. */
  function Seen(c: Chain, errors: ReadErrors, v: nat): Txn
    requires v < |c.txns|
  {
    if v in errors.txns || (c.txns[v].UserTxn? && v in errors.infos) then OtherTxn else c.txns[v]
  }

  /** The transactions seen in `limit` versions from `start`, cut at the ledger version. */
  function Window(c: Chain, errors: ReadErrors, start: nat, limit: nat, ledgerVersion: nat): seq<Txn>
    requires ledgerVersion < |c.txns|
  {
    if start > ledgerVersion || limit == 0 then []
    else
      var n := Min(limit, ledgerVersion - start + 1);
      seq(n, k requires 0 <= k < n => Seen(c, errors, start + k))
  }

  function PricesAndUsed(ts: seq<Txn>): seq<(nat, nat)> {
    if ts == [] then []
    else
      var rest := PricesAndUsed(ts[..|ts| - 1]);
      match ts[|ts| - 1]
      case UserTxn(p, u, _) => rest + [(p, u)]
      case _ => rest
  }

  function UseCases(ts: seq<Txn>): seq<UseCase> {
    if ts == [] then []
    else
      var rest := UseCases(ts[..|ts| - 1]);
      match ts[|ts| - 1]
      case UserTxn(_, _, k) => rest + [k]
      case _ => rest
  }

  function BlockEnds(ts: seq<Txn>): seq<BlockEnd> {
    if ts == [] then []
    else
      var rest := BlockEnds(ts[..|ts| - 1]);
      match ts[|ts| - 1]
      case BlockEpilogue(Some(e)) => rest + [e]
      case _ => rest
  }

  function GasUsed(prices: seq<(nat, nat)>): nat {
    if prices == [] then 0 else prices[0].1 + GasUsed(prices[1..])
  }

  function MinPrice(prices: seq<(nat, nat)>): (m: nat)
    requires prices != []
    ensures exists i :: 0 <= i < |prices| && prices[i].0 == m
    ensures forall i :: 0 <= i < |prices| ==> m <= prices[i].0
  {
    if |prices| == 1 then prices[0].0
    else
      var m := MinPrice(prices[1..]);
      assert forall i :: 1 <= i < |prices| ==> prices[1..][i - 1] == prices[i];
      if prices[0].0 <= m then prices[0].0 else m
  }

  /** More than half of the counted transactions address one contract. */
  predicate ContractMajority(cases: seq<UseCase>) {
    exists k :: k in cases && k.ContractAddress? && 2 * multiset(cases)[k] > |cases|
  }

  lemma TwoKeysFit(m: multiset<UseCase>, a: UseCase, b: UseCase)
    requires a != b
    ensures m[a] + m[b] <= |m|
  {
    assert |m[a := 0]| == |m| - m[a];
    assert |m[a := 0][b := 0]| == |m[a := 0]| - m[b];
  }

  lemma {:induction false} LargestKey(s: set<UseCase>, m: multiset<UseCase>) returns (k: UseCase)
    requires s != {}
    ensures k in s && forall j :: j in s ==> m[j] <= m[k]
    decreases s
  {
    k :| k in s;
    if s != {k} {
      var j := LargestKey(s - {k}, m);
      if m[k] < m[j] {
        k := j;
      }
    }
  }

  lemma LargestUseCase(m: multiset<UseCase>) returns (k: UseCase)
    requires |m| > 0
    ensures k in m && forall j :: j in m ==> m[j] <= m[k]
  {
    var keys := set j | j in m;
    var x :| x in m;
    assert x in keys;
    k := LargestKey(keys, m);
  }

  /** A share of a whole, kept as the two counts whose quotient the code compares with 0.5. */
  datatype Fraction = Fraction(part: nat, whole: nat) {
    predicate AboveHalf() {
      2 * part > whole
    }
  }

  lemma MajorityIsLargest(m: multiset<UseCase>, k: UseCase, top: UseCase)
    requires 2 * m[k] > |m| && m[k] <= m[top]
    ensures k == top
  {
    if k != top {
      TwoKeysFit(m, k, top);
    }
  }

  /**
   The share of the most used key when that key is a contract. The hash map is iterated in an
   unspecified order, so any key with the largest count may be the one chosen; whether the
   share exceeds one half does not depend on that choice.
   */
  method MajorityUseCaseFraction(counts: multiset<UseCase>) returns (fraction: Option<Fraction>)
    ensures fraction.Some? && fraction.value.AboveHalf() <==>
            exists k :: k in counts && k.ContractAddress? && 2 * counts[k] > |counts|
  {
    if |counts| == 0 {
      return None;
    }
    ghost var largest := LargestUseCase(counts);
    var top :| top in counts && forall j :: j in counts ==> counts[j] <= counts[top];
    forall k | k in counts && 2 * counts[k] > |counts|
      ensures k == top
    {
      MajorityIsLargest(counts, k, top);
    }
    if top.ContractAddress? {
      fraction := Some(Fraction(counts[top], |counts|));
    } else {
      fraction := None;
    }
  }

  /** What transaction i adds to the three lists. */
  lemma ScanStep(ts: seq<Txn>, i: nat)
    requires i < |ts|
    ensures PricesAndUsed(ts[..i + 1])
         == PricesAndUsed(ts[..i]) + if ts[i].UserTxn? then [(ts[i].gasPrice, ts[i].gasUsed)] else []
    ensures UseCases(ts[..i + 1]) == UseCases(ts[..i]) + if ts[i].UserTxn? then [ts[i].useCase] else []
    ensures BlockEnds(ts[..i + 1])
         == BlockEnds(ts[..i]) + if ts[i].BlockEpilogue? && ts[i].end.Some? then [ts[i].end.value] else []
  {
    assert ts[..i + 1][..i] == ts[..i] && ts[..i + 1][i] == ts[i];
  }

  method GetGasPricesAndUsed(c: Chain, errors: ReadErrors, start: nat, limit: nat, ledgerVersion: nat, countMajority: bool)
    returns (prices: seq<(nat, nat)>, ends: seq<BlockEnd>, fraction: Option<Fraction>)
    requires ledgerVersion < |c.txns|
    ensures var seen := Window(c, errors, start, limit, ledgerVersion);
            && prices == PricesAndUsed(seen)
            && ends == BlockEnds(seen)
            && (fraction.Some? && fraction.value.AboveHalf() <==> countMajority && ContractMajority(UseCases(seen)))
  {
    prices, ends, fraction := [], [], None;
    if start > ledgerVersion || limit == 0 {
      return;
    }
    var n := Min(limit, ledgerVersion - start + 1);
    ghost var seen := Window(c, errors, start, limit, ledgerVersion);
    var counts: multiset<UseCase> := multiset{};
    var i := 0;
    while i < n
      invariant i <= n == |seen|
      invariant prices == PricesAndUsed(seen[..i])
      invariant ends == BlockEnds(seen[..i])
      invariant countMajority ==> counts == multiset(UseCases(seen[..i]))
    {
      ScanStep(seen, i);
      assert seen[i] == Seen(c, errors, start + i);
      if start + i !in errors.txns {
        match c.txns[start + i] {
          case UserTxn(price, used, useCase) =>
            if start + i !in errors.infos {
              prices := prices + [(price, used)];
              if countMajority {
                counts := counts + multiset{useCase};
              }
            }
          case BlockEpilogue(Some(end)) =>
            ends := ends + [end];
          case _ =>
        }
      }
      i := i + 1;
    }
    assert seen[..i] == seen;
    if countMajority {
      fraction := MajorityUseCaseFraction(counts);
      assert forall k :: k in counts <==> k in UseCases(seen);
    }
  }

  // ---------------------------------------------------------------- the decision

  /** The price of a block whose scanned transactions are ts. */
  function InclusionOf(cfg: Config, exec: ExecConfig, ts: seq<Txn>): Inclusion {
    var prices := PricesAndUsed(ts);
    var ends := BlockEnds(ts);
    if cfg.incorporateReordering && exec.spreadFactor.Some? && ContractMajority(UseCases(ts)) then NoMinimum
    else if |prices| < cfg.fullBlockTxns && |ends| > 1 then Panics
    else if
      || |prices| >= cfg.fullBlockTxns
      || (if ends != [] then ends[0].limitReached
          else exec.blockGasLimit.Some? && GasUsed(prices) >= exec.blockGasLimit.value)
    then if prices == [] then Panics else Minimum(NextBucket(cfg.buckets, MinPrice(prices)))
    else NoMinimum
  }

  /** What is scanned of block i for a request at the given ledger version: `last - first` versions. */
  function BlockWindow(c: Chain, errors: ReadErrors, ledgerVersion: nat, i: nat): seq<Txn>
    requires ledgerVersion < |c.txns| && i < |c.blocks| && c.blocks[i].first <= c.blocks[i].last
  {
    Window(c, errors, c.blocks[i].first, c.blocks[i].last - c.blocks[i].first, ledgerVersion)
  }

  method BlockMinInclusionPrice(cfg: Config, exec: ExecConfig, c: Chain, errors: ReadErrors, ledgerVersion: nat,
                                first: nat, last: nat)
    returns (r: Inclusion)
    requires ledgerVersion < |c.txns| && first <= last
    ensures r == InclusionOf(cfg, exec, Window(c, errors, first, last - first, ledgerVersion))
  {
    var countMajority := cfg.incorporateReordering && exec.spreadFactor.Some?;
    var prices, ends, fraction := GetGasPricesAndUsed(c, errors, first, last - first, ledgerVersion, countMajority);
    var full: bool;
    if fraction.Some? && fraction.value.AboveHalf() {
      full := false;
    } else if |prices| >= cfg.fullBlockTxns {
      full := true;
    } else if ends != [] {
      if |ends| != 1 {
        return Panics;
      }
      full := ends[0].limitReached;
    } else if exec.blockGasLimit.Some? {
      full := GasUsed(prices) >= exec.blockGasLimit.value;
    } else {
      full := false;
    }
    if !full {
      return NoMinimum;
    }
    if prices == [] {
      return Panics;
    }
    r := Minimum(NextBucket(cfg.buckets, MinPrice(prices)));
  }

  // ---------------------------------------------------------------- properties

  /** A full block costs the smallest rounded price of its scanned user transactions. */
  lemma MinimumIsSmallestRounded(cfg: Config, exec: ExecConfig, ts: seq<Txn>)
    requires InclusionOf(cfg, exec, ts).Minimum?
    ensures IsSmallestRounded(cfg, ts, InclusionOf(cfg, exec, ts).price)
  {
    var prices := PricesAndUsed(ts);
    var k :| 0 <= k < |prices| && prices[k].0 == MinPrice(prices);
    var i := PriceHasUser(ts, k);
    forall j | 0 <= j < |ts| && ts[j].UserTxn?
      ensures MinPrice(prices) <= ts[j].gasPrice
      ensures NextBucket(cfg.buckets, MinPrice(prices)) <= NextBucket(cfg.buckets, ts[j].gasPrice)
    {
      var n := UserHasPrice(ts, j);
      NextBucketMonotone(cfg.buckets, MinPrice(prices), ts[j].gasPrice);
    }
  }

  lemma {:induction false} PriceHasUser(ts: seq<Txn>, k: nat) returns (i: nat)
    requires k < |PricesAndUsed(ts)|
    ensures i < |ts| && ts[i].UserTxn? && ts[i].gasPrice == PricesAndUsed(ts)[k].0
  {
    if ts[|ts| - 1].UserTxn? && k == |PricesAndUsed(ts)| - 1 {
      i := |ts| - 1;
    } else {
      i := PriceHasUser(ts[..|ts| - 1], k);
    }
  }

  lemma {:induction false} UserHasPrice(ts: seq<Txn>, i: nat) returns (k: nat)
    requires i < |ts| && ts[i].UserTxn?
    ensures k < |PricesAndUsed(ts)| && PricesAndUsed(ts)[k].0 == ts[i].gasPrice
  {
    if i == |ts| - 1 {
      k := |PricesAndUsed(ts)| - 1;
    } else {
      k := UserHasPrice(ts[..|ts| - 1], i);
    }
  }

  predicate SomeUser(ts: seq<Txn>) {
    exists i :: 0 <= i < |ts| && ts[i].UserTxn?
  }

  // ---------------------------------------------------------------- the decision, on the transactions

  /** The number of user transactions. */
  function CountUsers(ts: seq<Txn>): nat {
    if ts == [] then 0 else CountUsers(ts[..|ts| - 1]) + if ts[|ts| - 1].UserTxn? then 1 else 0
  }

  lemma {:induction false} SomeUserCounted(ts: seq<Txn>)
    ensures SomeUser(ts) <==> CountUsers(ts) > 0
    ensures !SomeUser(ts) ==> TotalUsed(ts) == 0
  {
    if ts != [] {
      var front := ts[..|ts| - 1];
      SomeUserCounted(front);
      if i :| 0 <= i < |front| && front[i].UserTxn? {
        assert ts[i].UserTxn?;
      }
      if i :| 0 <= i < |ts| && ts[i].UserTxn? {
        assert i == |front| || front[i].UserTxn?;
      }
    }
  }

  /** The number of user transactions with use case k. */
  function CountCase(ts: seq<Txn>, k: UseCase): nat {
    if ts == [] then 0
    else
      var t := ts[|ts| - 1];
      CountCase(ts[..|ts| - 1], k) + if t.UserTxn? && t.useCase == k then 1 else 0
  }

  /** The gas that the user transactions used. */
  function TotalUsed(ts: seq<Txn>): nat {
    if ts == [] then 0
    else
      var t := ts[|ts| - 1];
      TotalUsed(ts[..|ts| - 1]) + if t.UserTxn? then t.gasUsed else 0
  }

  /** The number of block epilogues that carry a block end. */
  function CountEnds(ts: seq<Txn>): nat {
    if ts == [] then 0
    else
      var t := ts[|ts| - 1];
      CountEnds(ts[..|ts| - 1]) + if t.BlockEpilogue? && t.end.Some? then 1 else 0
  }

  /** Some block end says that a limit was reached. */
  predicate LimitReached(ts: seq<Txn>) {
    exists i :: 0 <= i < |ts| && ts[i] == BlockEpilogue(Some(BlockEnd(true)))
  }

  /** More than half of the user transactions call one contract. */
  ghost predicate MajorityContract(ts: seq<Txn>) {
    exists k: UseCase :: k.ContractAddress? && 2 * CountCase(ts, k) > CountUsers(ts)
  }

  lemma {:induction false} ScanCounts(ts: seq<Txn>)
    ensures |PricesAndUsed(ts)| == |UseCases(ts)| == CountUsers(ts) && |BlockEnds(ts)| == CountEnds(ts)
  {
    if ts != [] {
      ScanCounts(ts[..|ts| - 1]);
    }
  }

  /** The price list has an entry for each user transaction, in order, with its price and gas used. */
  lemma {:induction false} PricesInOrder(ts: seq<Txn>, i: nat)
    requires i < |ts| && ts[i].UserTxn?
    ensures var k := CountUsers(ts[..i]);
            k < |PricesAndUsed(ts)| && PricesAndUsed(ts)[k] == (ts[i].gasPrice, ts[i].gasUsed)
  {
    var front := ts[..|ts| - 1];
    ScanCounts(front);
    if i < |ts| - 1 {
      PricesInOrder(front, i);
      assert front[..i] == ts[..i];
    } else {
      assert ts[..i] == front;
    }
  }

  lemma {:induction false} GasUsedAppend(prices: seq<(nat, nat)>, p: (nat, nat))
    ensures GasUsed(prices + [p]) == GasUsed(prices) + p.1
  {
    if prices == [] {
      assert prices + [p] == [p] && [p][1..] == [];
    } else {
      GasUsedAppend(prices[1..], p);
      assert (prices + [p])[1..] == prices[1..] + [p];
    }
  }

  lemma {:induction false} GasUsedIsTotal(ts: seq<Txn>)
    ensures GasUsed(PricesAndUsed(ts)) == TotalUsed(ts)
  {
    if ts != [] {
      var front, t := ts[..|ts| - 1], ts[|ts| - 1];
      GasUsedIsTotal(front);
      if t.UserTxn? {
        GasUsedAppend(PricesAndUsed(front), (t.gasPrice, t.gasUsed));
      }
    }
  }

  lemma {:induction false} CasesCounted(ts: seq<Txn>, k: UseCase)
    ensures multiset(UseCases(ts))[k] == CountCase(ts, k)
  {
    if ts != [] {
      CasesCounted(ts[..|ts| - 1], k);
    }
  }

  lemma MajorityCounted(ts: seq<Txn>)
    ensures ContractMajority(UseCases(ts)) <==> MajorityContract(ts)
  {
    ScanCounts(ts);
    forall k ensures multiset(UseCases(ts))[k] == CountCase(ts, k) {
      CasesCounted(ts, k);
    }
    if MajorityContract(ts) {
      var k: UseCase :| k.ContractAddress? && 2 * CountCase(ts, k) > CountUsers(ts);
      assert k in UseCases(ts);
    }
  }

  predicate SomeEndReached(ends: seq<BlockEnd>) {
    exists j :: 0 <= j < |ends| && ends[j].limitReached
  }

  lemma EndReachedAppend(ends: seq<BlockEnd>, e: BlockEnd)
    ensures SomeEndReached(ends + [e]) <==> SomeEndReached(ends) || e.limitReached
  {
    var all := ends + [e];
    assert all[|ends|] == e;
    assert forall j :: 0 <= j < |ends| ==> all[j] == ends[j];
  }

  lemma LimitReachedAppend(ts: seq<Txn>, t: Txn)
    ensures LimitReached(ts + [t]) <==> LimitReached(ts) || t == BlockEpilogue(Some(BlockEnd(true)))
  {
    var all := ts + [t];
    assert all[|ts|] == t;
    assert forall i :: 0 <= i < |ts| ==> all[i] == ts[i];
  }

  lemma {:induction false} EndsReached(ts: seq<Txn>)
    ensures SomeEndReached(BlockEnds(ts)) <==> LimitReached(ts)
  {
    if ts != [] {
      var front, t := ts[..|ts| - 1], ts[|ts| - 1];
      EndsReached(front);
      assert ts == front + [t];
      LimitReachedAppend(front, t);
      if t.BlockEpilogue? && t.end.Some? {
        EndReachedAppend(BlockEnds(front), t.end.value);
      }
    }
  }

  /** The block counts as full, by its transactions, its block end or its gas. */
  predicate IsFull(cfg: Config, exec: ExecConfig, ts: seq<Txn>) {
    || CountUsers(ts) >= cfg.fullBlockTxns
    || (CountEnds(ts) == 1 && LimitReached(ts))
    || (CountEnds(ts) == 0 && exec.blockGasLimit.Some? && TotalUsed(ts) >= exec.blockGasLimit.value)
  }

  /** p is the smallest rounded price of a user transaction. */
  predicate IsSmallestRounded(cfg: Config, ts: seq<Txn>, p: nat) {
    && (exists i :: 0 <= i < |ts| && ts[i].UserTxn? && NextBucket(cfg.buckets, ts[i].gasPrice) == p)
    && (forall i :: 0 <= i < |ts| && ts[i].UserTxn? ==> p <= NextBucket(cfg.buckets, ts[i].gasPrice))
  }

  /**
   What the decision means, over the number of user transactions, the majority contract, the block
   ends and the gas used: exactly when a block has a price, has none, or makes the scan panic.
   */
  ghost predicate IsInclusion(cfg: Config, exec: ExecConfig, ts: seq<Txn>, r: Inclusion) {
    var reordered := cfg.incorporateReordering && exec.spreadFactor.Some? && MajorityContract(ts);
    var torn := CountUsers(ts) < cfg.fullBlockTxns && CountEnds(ts) > 1;
    && (r.Minimum? <==> !reordered && !torn && IsFull(cfg, exec, ts) && CountUsers(ts) > 0)
    && (r.Panics? <==> !reordered && (torn || (IsFull(cfg, exec, ts) && CountUsers(ts) == 0)))
    && (r.NoMinimum? <==> reordered || (!torn && !IsFull(cfg, exec, ts)))
    && (r.Minimum? ==> IsSmallestRounded(cfg, ts, r.price))
  }

  lemma OneEndReached(ts: seq<Txn>)
    requires |BlockEnds(ts)| == 1
    ensures BlockEnds(ts)[0].limitReached <==> LimitReached(ts)
  {
    EndsReached(ts);
    assert BlockEnds(ts)[0].limitReached ==> SomeEndReached(BlockEnds(ts));
  }

  /** Whether the block counts as full, on the scanned lists and on the transactions. */
  lemma FullExactly(cfg: Config, exec: ExecConfig, ts: seq<Txn>)
    requires |PricesAndUsed(ts)| >= cfg.fullBlockTxns || |BlockEnds(ts)| <= 1
    ensures var prices, ends := PricesAndUsed(ts), BlockEnds(ts);
            IsFull(cfg, exec, ts) <==>
            || |prices| >= cfg.fullBlockTxns
            || (if ends != [] then ends[0].limitReached
                else exec.blockGasLimit.Some? && GasUsed(prices) >= exec.blockGasLimit.value)
  {
    ScanCounts(ts);
    GasUsedIsTotal(ts);
    if |BlockEnds(ts)| == 1 {
      OneEndReached(ts);
    }
  }

  lemma InclusionExactly(cfg: Config, exec: ExecConfig, ts: seq<Txn>)
    ensures IsInclusion(cfg, exec, ts, InclusionOf(cfg, exec, ts))
  {
    ScanCounts(ts);
    var majority := MajorityContract(ts);
    assert ContractMajority(UseCases(ts)) <==> majority by {
      MajorityCounted(ts);
    }
    if |PricesAndUsed(ts)| >= cfg.fullBlockTxns || |BlockEnds(ts)| <= 1 {
      FullExactly(cfg, exec, ts);
    }
    if InclusionOf(cfg, exec, ts).Minimum? {
      MinimumIsSmallestRounded(cfg, exec, ts);
    }
  }

  /**
   What the scan sees of version v: a user transaction only if it and its info can be read, an
   epilogue only if it can be read, and then unchanged.
   */
  lemma ScanSees(c: Chain, errors: ReadErrors, start: nat, limit: nat, ledgerVersion: nat, v: nat)
    requires ledgerVersion < |c.txns| && start <= v < start + limit && v <= ledgerVersion
    ensures |Window(c, errors, start, limit, ledgerVersion)| == Min(limit, ledgerVersion + 1 - start)
    ensures var t := Window(c, errors, start, limit, ledgerVersion)[v - start];
            && (t.UserTxn? <==> c.txns[v].UserTxn? && v !in errors.txns && v !in errors.infos)
            && (t.BlockEpilogue? <==> c.txns[v].BlockEpilogue? && v !in errors.txns)
            && (t.UserTxn? || t.BlockEpilogue? ==> t == c.txns[v])
  {
    assert Window(c, errors, start, limit, ledgerVersion)[v - start] == Seen(c, errors, v);
  }

  /**
   Exactly when the scan panics: more than one block end, or a block taken for full although
   it has no user transaction.
   */
  lemma PanicsExactlyWhen(cfg: Config, exec: ExecConfig, ts: seq<Txn>)
    ensures InclusionOf(cfg, exec, ts).Panics? <==>
            && !(cfg.incorporateReordering && exec.spreadFactor.Some? && MajorityContract(ts))
            && (|| (CountUsers(ts) < cfg.fullBlockTxns && CountEnds(ts) > 1)
                || (!SomeUser(ts) &&
                    (|| cfg.fullBlockTxns == 0
                     || (CountEnds(ts) == 1 && LimitReached(ts))
                     || (CountEnds(ts) == 0 && exec.blockGasLimit == Some(0)))))
  {
    InclusionExactly(cfg, exec, ts);
    SomeUserCounted(ts);
  }

  /**
   The scan cannot panic when a full block needs at least one transaction, the gas limit is
   positive, a block ends at most once and a reached limit implies a user transaction.
   */
  lemma NeverPanics(cfg: Config, exec: ExecConfig, ts: seq<Txn>)
    requires cfg.fullBlockTxns > 0
    requires exec.blockGasLimit != Some(0)
    requires CountEnds(ts) <= 1
    requires LimitReached(ts) ==> SomeUser(ts)
    ensures !InclusionOf(cfg, exec, ts).Panics?
  {
    PanicsExactlyWhen(cfg, exec, ts);
  }

  /** Everything the scan of block i looks at can be read. */
  predicate ReadsBlock(c: Chain, errors: ReadErrors, i: nat)
    requires i < |c.blocks|
  {
    forall v :: c.blocks[i].first <= v < c.blocks[i].last ==> v !in errors.txns && v !in errors.infos
  }

  /** A complete block is scanned from first up to, but not including, its last version. */
  lemma CompleteWindow(c: Chain, errors: ReadErrors, ledgerVersion: nat, i: nat)
    requires ValidChain(c) && ledgerVersion < |c.txns| && i < |c.blocks|
    requires c.blocks[i].last <= ledgerVersion && ReadsBlock(c, errors, i)
    ensures BlockWindow(c, errors, ledgerVersion, i) == c.txns[c.blocks[i].first..c.blocks[i].last]
  {
    var w := BlockWindow(c, errors, ledgerVersion, i);
    LastsIncrease(c);
    forall k | 0 <= k < |w| ensures w[k] == c.txns[c.blocks[i].first + k] {
      assert w[k] == Seen(c, errors, c.blocks[i].first + k);
    }
  }

  /**
   The last transaction of a block never influences its price. A block epilogue is the last
   transaction of its block, so its limit-reached flag is never seen by the estimator.
   */
  lemma LastTransactionIgnored(c: Chain, errors: ReadErrors, ledgerVersion: nat, i: nat, t: Txn)
    requires ledgerVersion < |c.txns| && i < |c.blocks| && c.blocks[i].first <= c.blocks[i].last < |c.txns|
    ensures var d := c.(txns := c.txns[c.blocks[i].last := t]);
            BlockWindow(d, errors, ledgerVersion, i) == BlockWindow(c, errors, ledgerVersion, i)
  {
    var d := c.(txns := c.txns[c.blocks[i].last := t]);
    var first := c.blocks[i].first;
    var w, w' := BlockWindow(c, errors, ledgerVersion, i), BlockWindow(d, errors, ledgerVersion, i);
    forall k | 0 <= k < |w| ensures w[k] == w'[k] {
      assert w[k] == Seen(c, errors, first + k) && w'[k] == Seen(d, errors, first + k);
    }
  }

  /** The scan of a final block is the same at every later ledger version and chain growth. */
  lemma WindowStable(c: Chain, v: nat, d: Chain, w: nat, i: nat)
    requires ValidChain(c) && ValidChain(d) && Grows(c, d)
    requires v < |c.txns| && w < |d.txns| && i < |c.blocks|
    requires i < |c.blocks| - 1 || i == 0
    requires c.blocks[i].last <= v && c.blocks[i].last <= w
    ensures BlockWindow(d, NoReadErrors, w, i) == BlockWindow(c, NoReadErrors, v, i)
  {
    GrowsAt(c, d, i);
    CompleteWindow(c, NoReadErrors, v, i);
    CompleteWindow(d, NoReadErrors, w, i);
    assert d.txns[c.blocks[i].first..c.blocks[i].last] == c.txns[c.blocks[i].first..c.blocks[i].last];
  }
}
