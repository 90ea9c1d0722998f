/**
 All workers against one chain, step by step: building under the worker's lock, execution on
 the chain, absorbing the reply, and the two counter updates, in any interleaving.
 */
module SuiSystem {
  import opened Prelude
  import opened SuiPool
  import opened SuiWorker

  /** The current reference of every object. */
  type Chain = map<ObjectId, Ref>

  datatype Phase =
    | Idle                                    // between transactions, lock free
    | Sending(op: Op, seed: bool, tx: Tx)     // lock held, transaction signed
    | Received(op: Op, seed: bool, resp: Response)  // lock held, reply in hand
    | Finished(ok: bool)                      // lock free, before tx_submitted is bumped
    | Counted(ok: bool)                       // before tx_success or tx_failed is bumped
    | Stopped

  datatype Worker = Worker(held: Held, phase: Phase)

  datatype Stats = Stats(submitted: nat, success: nat, failed: nat)

  /** lost records the objects that an executed transaction changed without its sender being told. */
  datatype Sys = Sys(workers: seq<Worker>, chain: Chain, stats: Stats, lost: set<ObjectId>)

  // ---------------------------------------------------------------- the chain

  predicate ChainOk(chain: Chain) {
    forall id :: id in chain ==> chain[id].id == id
  }

  /** The reference is the chain's current one. */
  predicate Current(chain: Chain, r: Ref) {
    r.id in chain && chain[r.id] == r
  }

  predicate InputIds(tx: Tx, id: ObjectId) {
    exists k :: 0 <= k < |tx.inputs| && tx.inputs[k].id == id
  }

  /** What an execution did: the new gas coin and every change. */
  datatype Effects = Effects(gas: Ref, changes: seq<Change>)

  predicate ListsMutated(changes: seq<Change>, id: ObjectId) {
    exists c :: c in changes && c.Mutated? && c.mutated.id == id
  }

  /**
   A successful execution. The chain takes only current references; it gives the gas coin and
   every input a new reference, may create new objects, changes nothing else, and the effects list
   every change once.
   */
  ghost predicate Executes(chain: Chain, tx: Tx, eff: Effects, chain': Chain) {
    && Current(chain, tx.gas) && (forall k :: 0 <= k < |tx.inputs| ==> Current(chain, tx.inputs[k]))
    && ChainOk(chain') && chain.Keys <= chain'.Keys
    && eff.gas.id == tx.gas.id && Current(chain', eff.gas) && eff.gas != tx.gas
    && DistinctChanges(eff.changes)
    && (forall c :: c in eff.changes && c.Created? ==> c.created.id !in chain && Current(chain', c.created))
    && (forall c :: c in eff.changes && c.Mutated? ==>
          Current(chain', c.mutated) && (c.mutated.id == tx.gas.id || InputIds(tx, c.mutated.id)))
    && (forall id :: InputIds(tx, id) ==> id in chain && chain'[id] != chain[id] && ListsMutated(eff.changes, id))
    && (forall id :: id in chain && chain'[id] != chain[id] ==> id == tx.gas.id || InputIds(tx, id))
  }

  /** The reply to a successful execution; either part of it may be missing. */
  predicate Reports(eff: Effects, resp: Response) {
    && (resp.effects == Some(eff.gas) || resp.effects.None?)
    && (resp.changes == Some(eff.changes) || resp.changes.None?)
  }

  function InputSet(tx: Tx): (ids: set<ObjectId>)
    ensures forall id :: id in ids <==> InputIds(tx, id)
  {
    set k | 0 <= k < |tx.inputs| :: tx.inputs[k].id
  }

  /** What the sender is not told: its gas coin without effects, its inputs without effects or changes. */
  function Untold(tx: Tx, resp: Response): set<ObjectId> {
    (if resp.effects.None? then {tx.gas.id} else {}) +
    (if resp.effects.None? || resp.changes.None? then InputSet(tx) else {})
  }

  // ---------------------------------------------------------------- steps

  datatype Step =
    | BuildCreate(seed: bool)
    | BuildUpdate(count: nat, start: nat)
    | NothingToUpdate
    | RpcFails
    | RpcSucceeds(eff: Effects, resp: Response)
    | AbsorbReply
    | CountSubmitted
    | CountResult
    | Truncate(level: nat)
    | Stop

  /** What step st makes of worker w; chain effects are in Next. */
  ghost predicate WorkerStep(w: Worker, w': Worker, st: Step) {
    match st
    case BuildCreate(seed) =>
      w.phase.Idle? && w' == w.(phase := Sending(CreateOp, seed, Tx(w.held.gas, [])))
    case BuildUpdate(count, start) =>
      && w.phase.Idle? && start < |w.held.objects|
      && w' == w.(phase := Sending(UpdateOp, false, UpdateTx(w.held, count, start)))
    case NothingToUpdate =>
      w.phase.Idle? && w.held.objects == [] && w' == w.(phase := Finished(false))
    case RpcFails =>
      w.phase.Sending? && w' == w.(phase := if w.phase.seed then Stopped else Finished(false))
    case RpcSucceeds(eff, resp) =>
      w.phase.Sending? && w' == w.(phase := Received(w.phase.op, w.phase.seed, resp))
    case AbsorbReply =>
      && w.phase.Received?
      && w' == Worker(Absorb(w.held, w.phase.op, w.phase.resp), if w.phase.seed then Idle else Finished(true))
    case CountSubmitted =>
      w.phase.Finished? && w' == w.(phase := Counted(w.phase.ok))
    case CountResult =>
      w.phase.Counted? && w' == w.(phase := Idle)
    case Truncate(level) =>
      w.phase.Idle? && w' == w.(held := w.held.(objects := w.held.objects[..KeepCount(|w.held.objects|, level)]))
    case Stop =>
      w.phase.Idle? && w' == w.(phase := Stopped)
  }

  /** How the shared counters move. */
  predicate StatsStep(w: Worker, st: Step, s: Stats, s': Stats) {
    match st
    case CountSubmitted => s' == s.(submitted := s.submitted + 1)
    case CountResult =>
      w.phase.Counted? &&
      s' == if w.phase.ok then s.(success := s.success + 1) else s.(failed := s.failed + 1)
    case _ => s' == s
  }

  /** Worker i takes step st; a failed RPC leaves the chain unchanged. */
  ghost predicate Next(s: Sys, s': Sys, i: nat, st: Step) {
    && i < |s.workers| == |s'.workers|
    && s'.workers == s.workers[i := s'.workers[i]]
    && WorkerStep(s.workers[i], s'.workers[i], st)
    && StatsStep(s.workers[i], st, s.stats, s'.stats)
    && (if st.RpcSucceeds?
        then
          var tx := s.workers[i].phase.tx;
          && Executes(s.chain, tx, st.eff, s'.chain) && Reports(st.eff, st.resp)
          && s'.lost == s.lost + Untold(tx, st.resp)
        else s'.chain == s.chain && s'.lost == s.lost)
  }

  /** Fresh mode: every worker has its own current gas coin and an empty pool. */
  ghost predicate Init(s: Sys) {
    && ChainOk(s.chain) && s.stats == Stats(0, 0, 0) && s.lost == {}
    && (forall i :: 0 <= i < |s.workers| ==>
          s.workers[i].phase == Idle && s.workers[i].held.objects == [] && Current(s.chain, s.workers[i].held.gas))
    && (forall i, j :: 0 <= i < j < |s.workers| ==> s.workers[i].held.gas.id != s.workers[j].held.gas.id)
  }
}
