/** What every interleaved run of the benchmark workers keeps. */
module SuiSafety {
  import opened Prelude
  import opened SuiPool
  import opened SuiWorker
  import opened SuiSystem

  // ---------------------------------------------------------------- the invariant

  predicate CreatedId(w: Worker, id: ObjectId) {
    && w.phase.Received? && w.phase.resp.changes.Some?
    && exists c :: c in w.phase.resp.changes.value && c.Created? && c.created.id == id
  }

  predicate PoolId(h: Held, id: ObjectId) {
    exists k :: 0 <= k < |h.objects| && h.objects[k].id == id
  }

  /** The ids a worker alone may name: its gas coin, its pool, and what its last reply created. */
  predicate Owns(w: Worker, id: ObjectId) {
    id == w.held.gas.id || PoolId(w.held, id) || CreatedId(w, id)
  }

  /** What the worker will remember once a pending reply is absorbed. */
  function View(w: Worker): Held {
    if w.phase.Received? then Absorb(w.held, w.phase.op, w.phase.resp) else w.held
  }

  /** The object exists, and the reference is the chain's current one unless the object is lost. */
  predicate Known(chain: Chain, lost: set<ObjectId>, r: Ref) {
    r.id in chain && (chain[r.id] == r <==> r.id !in lost)
  }

  /** The pool is within its cap, names distinct objects, and matches the chain but for lost ones. */
  predicate HeldOk(chain: Chain, lost: set<ObjectId>, h: Held) {
    && |h.objects| <= MAX_TRACKED_OBJECTS_PER_WORKER
    && DistinctIds(h.objects)
    && Known(chain, lost, h.gas)
    && (forall k :: 0 <= k < |h.objects| ==> Known(chain, lost, h.objects[k]) && h.objects[k].id != h.gas.id)
  }

  /** A transaction names the worker's gas coin and distinct objects of its pool. */
  predicate TxOk(w: Worker) {
    w.phase.Sending? ==>
      && w.phase.tx.gas == w.held.gas
      && DistinctIds(w.phase.tx.inputs)
      && (forall k :: 0 <= k < |w.phase.tx.inputs| ==> w.phase.tx.inputs[k] in w.held.objects)
      && (w.phase.op.CreateOp? ==> w.phase.tx.inputs == [])
  }

  ghost predicate WorkerOk(chain: Chain, lost: set<ObjectId>, w: Worker) {
    && HeldOk(chain, lost, View(w))
    && |w.held.objects| <= MAX_TRACKED_OBJECTS_PER_WORKER
    && View(w).gas.id == w.held.gas.id
    && TxOk(w)
    && (forall id :: Owns(w, id) ==> id in chain)
  }

  ghost predicate Apart(a: Worker, b: Worker) {
    forall id :: Owns(a, id) ==> !Owns(b, id)
  }

  ghost predicate Inv(s: Sys) {
    && ChainOk(s.chain) && s.lost <= s.chain.Keys
    && (forall i :: 0 <= i < |s.workers| ==> WorkerOk(s.chain, s.lost, s.workers[i]))
    && (forall i, j :: 0 <= i < |s.workers| && 0 <= j < |s.workers| && i != j ==> Apart(s.workers[i], s.workers[j]))
  }

  lemma InitInv(s: Sys)
    requires Init(s)
    ensures Inv(s)
  {
  }

  // ---------------------------------------------------------------- one execution

  /** Everything the worker will remember it already owns. */
  lemma ViewIsOwned(w: Worker)
    requires |w.held.objects| <= MAX_TRACKED_OBJECTS_PER_WORKER
    ensures forall id :: PoolId(View(w), id) ==> Owns(w, id)
  {
    if w.phase.Received? && w.phase.resp.effects.Some? && w.phase.resp.changes.Some? {
      var pool, changes := w.held.objects, w.phase.resp.changes.value;
      if w.phase.op.CreateOp? {
        TrackFacts(pool, changes);
        forall k | 0 <= k < |View(w).objects| ensures Owns(w, View(w).objects[k].id) {
          if k >= |pool| {
            assert Created(View(w).objects[k]) in changes;
          }
        }
      } else {
        MutateKeepsIds(pool, changes);
      }
    }
  }

  /** An object that the transaction does not name keeps its reference. */
  lemma Untouched(chain: Chain, lost: set<ObjectId>, tx: Tx, eff: Effects, resp: Response, chain': Chain, r: Ref)
    requires Executes(chain, tx, eff, chain') && Known(chain, lost, r) && r.id != tx.gas.id && !InputIds(tx, r.id)
    ensures Known(chain', lost + Untold(tx, resp), r)
  {
  }

  /** The gas coin is known again exactly when the reply has effects. */
  lemma GasKnown(chain: Chain, lost: set<ObjectId>, tx: Tx, eff: Effects, resp: Response, chain': Chain)
    requires Executes(chain, tx, eff, chain') && Reports(eff, resp) && Known(chain, lost, tx.gas)
    requires !InputIds(tx, tx.gas.id)
    ensures Known(chain', lost + Untold(tx, resp), if resp.effects.Some? then resp.effects.value else tx.gas)
  {
  }

  /** An input whose change is not told keeps its old reference and is lost. */
  lemma InputLost(chain: Chain, lost: set<ObjectId>, tx: Tx, eff: Effects, resp: Response, chain': Chain, r: Ref)
    requires Executes(chain, tx, eff, chain') && (resp.effects.None? || resp.changes.None?)
    requires Current(chain, r) && InputIds(tx, r.id)
    ensures Known(chain', lost + Untold(tx, resp), r)
  {
  }

  /** The reply is incomplete: the pool stays as it is, and the inputs are lost. */
  lemma SilentPoolOk(chain: Chain, lost: set<ObjectId>, w: Worker, eff: Effects, resp: Response, chain': Chain)
    requires WorkerOk(chain, lost, w) && w.phase.Sending? && Executes(chain, w.phase.tx, eff, chain') && Reports(eff, resp)
    requires resp.effects.None? || resp.changes.None?
    ensures HeldOk(chain', lost + Untold(w.phase.tx, resp), Absorb(w.held, w.phase.op, resp))
  {
    var pool, tx := w.held.objects, w.phase.tx;
    InputsInPool(w);
    GasKnown(chain, lost, tx, eff, resp, chain');
    forall k | 0 <= k < |pool| ensures Known(chain', lost + Untold(tx, resp), pool[k]) {
      if InputIds(tx, pool[k].id) {
        InputIsPool(chain, w, k);
        InputLost(chain, lost, tx, eff, resp, chain', pool[k]);
      } else {
        Untouched(chain, lost, tx, eff, resp, chain', pool[k]);
      }
    }
  }

  lemma InputsInPool(w: Worker)
    requires w.phase.Sending? && TxOk(w) && forall k :: 0 <= k < |w.held.objects| ==> w.held.objects[k].id != w.held.gas.id
    ensures !InputIds(w.phase.tx, w.phase.tx.gas.id)
  {
  }

  /** A pool object that the transaction names is named at the reference the pool has. */
  lemma InputIsPool(chain: Chain, w: Worker, k: nat)
    requires w.phase.Sending? && TxOk(w) && DistinctIds(w.held.objects) && k < |w.held.objects|
    requires InputIds(w.phase.tx, w.held.objects[k].id)
    requires forall n :: 0 <= n < |w.phase.tx.inputs| ==> Current(chain, w.phase.tx.inputs[n])
    ensures Current(chain, w.held.objects[k])
  {
    var tx, pool := w.phase.tx, w.held.objects;
    var n :| 0 <= n < |tx.inputs| && tx.inputs[n].id == pool[k].id;
    assert tx.inputs[n] in pool;
    var j :| 0 <= j < |pool| && pool[j] == tx.inputs[n];
  }

  lemma CreatedPoolOk(chain: Chain, lost: set<ObjectId>, w: Worker, eff: Effects, resp: Response, chain': Chain)
    requires WorkerOk(chain, lost, w) && w.phase.Sending? && w.phase.op.CreateOp? && lost <= chain.Keys
    requires Executes(chain, w.phase.tx, eff, chain') && resp == Response(Some(eff.gas), Some(eff.changes))
    ensures HeldOk(chain', lost + Untold(w.phase.tx, resp), Absorb(w.held, CreateOp, resp))
  {
    var pool, changes := w.held.objects, eff.changes;
    TrackFacts(pool, changes);
    forall k, c | 0 <= k < |pool| && c in changes && c.Created? ensures pool[k].id != c.created.id {
      assert Known(chain, lost, pool[k]);
    }
    TrackDistinct(pool, changes);
    GasKnown(chain, lost, w.phase.tx, eff, resp, chain');
    var r := TrackCreated(pool, changes);
    forall k | 0 <= k < |r|
      ensures Known(chain', lost + Untold(w.phase.tx, resp), r[k]) && r[k].id != eff.gas.id
    {
      if k < |pool| {
        assert r[k] == pool[k];
        Untouched(chain, lost, w.phase.tx, eff, resp, chain', pool[k]);
      } else {
        assert Created(r[k]) in changes;
      }
    }
  }

  lemma UpdatedPoolOk(chain: Chain, lost: set<ObjectId>, w: Worker, eff: Effects, resp: Response, chain': Chain)
    requires WorkerOk(chain, lost, w) && w.phase.Sending?
    requires Executes(chain, w.phase.tx, eff, chain') && resp == Response(Some(eff.gas), Some(eff.changes))
    ensures HeldOk(chain', lost + Untold(w.phase.tx, resp), Absorb(w.held, UpdateOp, resp))
  {
    var pool, changes, tx := w.held.objects, eff.changes, w.phase.tx;
    MutateKeepsIds(pool, changes);
    InputsInPool(w);
    GasKnown(chain, lost, tx, eff, resp, chain');
    var r := ApplyMutated(pool, changes);
    forall k | 0 <= k < |r| ensures Known(chain', lost + Untold(tx, resp), r[k]) && r[k].id != eff.gas.id {
      MutateFacts(pool, changes, k);
      if InputIds(tx, pool[k].id) {
        InputIsPool(chain, w, k);
        InputTold(chain, lost, w, eff, resp, chain', k, r[k]);
      } else {
        Untouched(chain, lost, tx, eff, resp, chain', pool[k]);
      }
    }
  }

  /** A changed input takes the reference listed for it. */
  lemma InputTold(chain: Chain, lost: set<ObjectId>, w: Worker, eff: Effects, resp: Response, chain': Chain, k: nat, r: Ref)
    requires WorkerOk(chain, lost, w) && w.phase.Sending? && k < |w.held.objects|
    requires Executes(chain, w.phase.tx, eff, chain') && resp == Response(Some(eff.gas), Some(eff.changes))
    requires Current(chain, w.held.objects[k]) && InputIds(w.phase.tx, w.held.objects[k].id)
    requires Mutated(r) in eff.changes || forall c :: c in eff.changes && c.Mutated? ==> c.mutated.id != w.held.objects[k].id
    requires r.id == w.held.objects[k].id
    ensures Known(chain', lost + Untold(w.phase.tx, resp), r)
  {
    assert ListsMutated(eff.changes, r.id);
    assert Known(chain, lost, w.held.objects[k]);
  }

  /** The worker whose transaction executes: absorbing the reply will match the new chain, but for lost objects. */
  lemma ExecutingWorkerOk(chain: Chain, lost: set<ObjectId>, w: Worker, eff: Effects, resp: Response, chain': Chain)
    requires ChainOk(chain) && WorkerOk(chain, lost, w) && w.phase.Sending? && lost <= chain.Keys
    requires Executes(chain, w.phase.tx, eff, chain') && Reports(eff, resp)
    ensures var w' := w.(phase := Received(w.phase.op, w.phase.seed, resp));
            && WorkerOk(chain', lost + Untold(w.phase.tx, resp), w')
            && forall id :: Owns(w', id) ==> Owns(w, id) || id !in chain
  {
    if resp.effects.None? || resp.changes.None? {
      SilentPoolOk(chain, lost, w, eff, resp, chain');
    } else if w.phase.op.CreateOp? {
      CreatedPoolOk(chain, lost, w, eff, resp, chain');
    } else {
      UpdatedPoolOk(chain, lost, w, eff, resp, chain');
    }
  }

  /** What a transaction names, its sender owns. */
  lemma UntoldIsOwned(w: Worker, resp: Response, id: ObjectId)
    requires w.phase.Sending? && TxOk(w)
    requires id == w.phase.tx.gas.id || InputIds(w.phase.tx, id) || id in Untold(w.phase.tx, resp)
    ensures Owns(w, id)
  {
    if id != w.phase.tx.gas.id {
      var k :| 0 <= k < |w.phase.tx.inputs| && w.phase.tx.inputs[k].id == id;
      assert w.phase.tx.inputs[k] in w.held.objects;
    }
  }

  /** Every other worker: nothing it names is touched or lost. */
  lemma OtherWorkerOk(chain: Chain, lost: set<ObjectId>, w: Worker, eff: Effects, resp: Response, chain': Chain, other: Worker)
    requires WorkerOk(chain, lost, w) && w.phase.Sending? && WorkerOk(chain, lost, other) && Apart(w, other)
    requires Executes(chain, w.phase.tx, eff, chain')
    ensures WorkerOk(chain', lost + Untold(w.phase.tx, resp), other)
  {
    var tx := w.phase.tx;
    ViewIsOwned(other);
    forall id | Owns(other, id) ensures id != tx.gas.id && !InputIds(tx, id) {
      if id == tx.gas.id || InputIds(tx, id) {
        UntoldIsOwned(w, resp, id);
      }
    }
    assert Owns(other, other.held.gas.id);
    Untouched(chain, lost, tx, eff, resp, chain', View(other).gas);
    forall k | 0 <= k < |View(other).objects| ensures Known(chain', lost + Untold(tx, resp), View(other).objects[k]) {
      assert PoolId(View(other), View(other).objects[k].id);
      Untouched(chain, lost, tx, eff, resp, chain', View(other).objects[k]);
    }
  }

  // ---------------------------------------------------------------- local steps

  /** Steps that leave the chain alone keep the worker's promises and never own more. */
  lemma LocalStepOk(chain: Chain, lost: set<ObjectId>, w: Worker, w': Worker, st: Step)
    requires WorkerOk(chain, lost, w) && WorkerStep(w, w', st) && !st.RpcSucceeds?
    ensures WorkerOk(chain, lost, w') && forall id :: Owns(w', id) ==> Owns(w, id)
  {
    match st
    case BuildUpdate(count, start) =>
      SelectedDistinct(w.held.objects, start, Min(count, |w.held.objects|));
      assert forall id :: Owns(w', id) ==> Owns(w, id);
    case AbsorbReply =>
      ViewIsOwned(w);
      assert forall id :: Owns(w', id) ==> Owns(w, id);
    case Truncate(level) =>
      assert forall id :: PoolId(w'.held, id) ==> PoolId(w.held, id);
    case _ =>
  }

  // ---------------------------------------------------------------- every step, every run

  lemma NextKeepsInv(s: Sys, s': Sys, i: nat, st: Step)
    requires Inv(s) && Next(s, s', i, st)
    ensures Inv(s')
  {
    var w, w' := s.workers[i], s'.workers[i];
    if st.RpcSucceeds? {
      ExecutingWorkerOk(s.chain, s.lost, w, st.eff, st.resp, s'.chain);
      forall id | id in s'.lost ensures id in s'.chain {
        if id !in s.lost {
          UntoldIsOwned(w, st.resp, id);
        }
      }
      forall j | 0 <= j < |s.workers| && j != i
        ensures WorkerOk(s'.chain, s'.lost, s'.workers[j]) && Apart(w', s'.workers[j]) && Apart(s'.workers[j], w')
      {
        assert Apart(w, s.workers[j]) && Apart(s.workers[j], w);
        OtherWorkerOk(s.chain, s.lost, w, st.eff, st.resp, s'.chain, s.workers[j]);
      }
    } else {
      LocalStepOk(s.chain, s.lost, w, w', st);
      forall j | 0 <= j < |s.workers| && j != i
        ensures Apart(w', s'.workers[j]) && Apart(s'.workers[j], w')
      {
        assert Apart(w, s.workers[j]) && Apart(s.workers[j], w);
      }
    }
  }

  /** A run: states, and for each move the worker and the step. */
  ghost predicate IsRun(states: seq<Sys>, moves: seq<(nat, Step)>) {
    && |states| == |moves| + 1 && Init(states[0])
    && forall k :: 0 <= k < |moves| ==> Next(states[k], states[k + 1], moves[k].0, moves[k].1)
  }

  lemma {:induction false} RunKeepsInv(states: seq<Sys>, moves: seq<(nat, Step)>, k: nat)
    requires IsRun(states, moves) && k < |states|
    ensures Inv(states[k])
  {
    if k == 0 {
      InitInv(states[0]);
    } else {
      RunKeepsInv(states, moves, k - 1);
      NextKeepsInv(states[k - 1], states[k], moves[k - 1].0, moves[k - 1].1);
    }
  }

  /**
   At every point of every interleaved run, each transaction about to be sent names its worker's gas
   coin and distinct objects, and each of these references is current exactly when it is not lost.
   */
  lemma RunTransactionsCurrent(states: seq<Sys>, moves: seq<(nat, Step)>, k: nat, i: nat)
    requires IsRun(states, moves) && k < |states| && i < |states[k].workers|
    requires states[k].workers[i].phase.Sending?
    ensures var tx := states[k].workers[i].phase.tx;
            && Known(states[k].chain, states[k].lost, tx.gas) && DistinctIds(tx.inputs)
            && (forall n :: 0 <= n < |tx.inputs| ==>
                  Known(states[k].chain, states[k].lost, tx.inputs[n]) && tx.inputs[n].id != tx.gas.id)
  {
    RunKeepsInv(states, moves, k);
    var w := states[k].workers[i];
    assert WorkerOk(states[k].chain, states[k].lost, w);
    forall n | 0 <= n < |w.phase.tx.inputs|
      ensures Known(states[k].chain, states[k].lost, w.phase.tx.inputs[n]) && w.phase.tx.inputs[n].id != w.phase.tx.gas.id
    {
      assert w.phase.tx.inputs[n] in w.held.objects;
    }
  }

  /** Unless a reply is still to be absorbed, a worker's memory matches the chain but for lost objects. */
  lemma RunPoolsMatch(states: seq<Sys>, moves: seq<(nat, Step)>, k: nat, i: nat)
    requires IsRun(states, moves) && k < |states| && i < |states[k].workers|
    requires !states[k].workers[i].phase.Received?
    ensures HeldOk(states[k].chain, states[k].lost, states[k].workers[i].held)
  {
    RunKeepsInv(states, moves, k);
    assert WorkerOk(states[k].chain, states[k].lost, states[k].workers[i]);
  }

  /** Move j of the run, if it is an execution, told its sender everything it changed. */
  ghost predicate ToldAll(states: seq<Sys>, moves: seq<(nat, Step)>, j: nat)
    requires IsRun(states, moves) && j < |moves|
  {
    assert Next(states[j], states[j + 1], moves[j].0, moves[j].1);
    moves[j].1.RpcSucceeds? ==>
      var tx, resp := states[j].workers[moves[j].0].phase.tx, moves[j].1.resp;
      resp.effects.Some? && (resp.changes.Some? || tx.inputs == [])
  }

  /** Nothing is lost exactly while every executed transaction told its sender everything. */
  lemma {:induction false} NothingLostIff(states: seq<Sys>, moves: seq<(nat, Step)>, k: nat)
    requires IsRun(states, moves) && k < |states|
    ensures states[k].lost == {} <==> forall j :: 0 <= j < k ==> ToldAll(states, moves, j)
  {
    if k > 0 {
      NothingLostIff(states, moves, k - 1);
      assert Next(states[k - 1], states[k], moves[k - 1].0, moves[k - 1].1);
      if moves[k - 1].1.RpcSucceeds? {
        var untold := Untold(states[k - 1].workers[moves[k - 1].0].phase.tx, moves[k - 1].1.resp);
        UntoldNothing(states[k - 1].workers[moves[k - 1].0].phase.tx, moves[k - 1].1.resp);
        assert states[k].lost == {} <==> states[k - 1].lost == {} && untold == {};
        assert ToldAll(states, moves, k - 1) <==> untold == {};
      }
    }
  }

  lemma UntoldNothing(tx: Tx, resp: Response)
    ensures Untold(tx, resp) == {} <==> resp.effects.Some? && (resp.changes.Some? || tx.inputs == [])
  {
    if tx.inputs != [] {
      assert InputIds(tx, tx.inputs[0].id);
    }
    if resp.effects.None? {
      assert tx.gas.id in Untold(tx, resp);
    }
  }

  /** A worker's gas coin keeps its id, and what is lost stays lost. */
  lemma NextKeepsLoss(s: Sys, s': Sys, i: nat, st: Step, j: nat)
    requires Inv(s) && Next(s, s', i, st) && j < |s.workers|
    ensures s.lost <= s'.lost && s'.workers[j].held.gas.id == s.workers[j].held.gas.id
  {
    assert WorkerOk(s.chain, s.lost, s.workers[j]);
  }

  lemma {:induction false} RunKeepsLoss(states: seq<Sys>, moves: seq<(nat, Step)>, k: nat, j: nat, i: nat)
    requires IsRun(states, moves) && k <= j < |states| && i < |states[k].workers|
    ensures i < |states[j].workers|
    ensures states[k].lost <= states[j].lost && states[j].workers[i].held.gas.id == states[k].workers[i].held.gas.id
    decreases j
  {
    if k < j {
      var s, s', i', st := states[j - 1], states[j], moves[j - 1].0, moves[j - 1].1;
      RunKeepsLoss(states, moves, k, j - 1, i);
      assert Inv(s) by {
        RunKeepsInv(states, moves, j - 1);
      }
      assert Next(s, s', i', st);
      NextKeepsLoss(s, s', i', st, i);
    }
  }

  /** A worker that was once not told of its new gas coin never executes a transaction again. */
  lemma LostGasStops(states: seq<Sys>, moves: seq<(nat, Step)>, k: nat, j: nat, i: nat)
    requires IsRun(states, moves) && k <= j < |moves| && i < |states[k].workers|
    requires states[k].workers[i].held.gas.id in states[k].lost
    ensures !(moves[j].0 == i && moves[j].1.RpcSucceeds?)
  {
    RunKeepsLoss(states, moves, k, j, i);
    RunKeepsInv(states, moves, j);
    assert Next(states[j], states[j + 1], moves[j].0, moves[j].1);
    assert WorkerOk(states[j].chain, states[j].lost, states[j].workers[i]);
  }

  /** No two workers ever share an object: neither pool objects nor gas coins. */
  lemma RunPoolsDisjoint(states: seq<Sys>, moves: seq<(nat, Step)>, k: nat, i: nat, j: nat, id: ObjectId)
    requires IsRun(states, moves) && k < |states|
    requires i < |states[k].workers| && j < |states[k].workers| && i != j
    requires var h := states[k].workers[i].held; id == h.gas.id || PoolId(h, id)
    ensures var h := states[k].workers[j].held; id != h.gas.id && !PoolId(h, id)
  {
    RunKeepsInv(states, moves, k);
    assert Apart(states[k].workers[i], states[k].workers[j]);
    assert Owns(states[k].workers[i], id);
  }

  /** No step empties a pool that has objects. */
  lemma NextKeepsNonempty(s: Sys, s': Sys, i: nat, st: Step, j: nat)
    requires Inv(s) && Next(s, s', i, st) && j < |s.workers| && s.workers[j].held.objects != []
    ensures s'.workers[j].held.objects != []
  {
    var w := s.workers[i];
    if st.AbsorbReply? && w.phase.resp.effects.Some? && w.phase.resp.changes.Some? {
      TrackFacts(w.held.objects, w.phase.resp.changes.value);
      MutateKeepsIds(w.held.objects, w.phase.resp.changes.value);
    }
  }

  // ---------------------------------------------------------------- counters

  function Counting(ws: seq<Worker>): nat {
    if ws == [] then 0 else Counting(ws[..|ws| - 1]) + if ws[|ws| - 1].phase.Counted? then 1 else 0
  }

  lemma {:induction false} CountingUpdate(ws: seq<Worker>, i: nat, w: Worker)
    requires i < |ws|
    ensures Counting(ws[i := w]) + (if ws[i].phase.Counted? then 1 else 0)
         == Counting(ws) + (if w.phase.Counted? then 1 else 0)
    decreases |ws|
  {
    var n := |ws| - 1;
    if i == n {
      assert ws[i := w][..n] == ws[..n];
    } else {
      CountingUpdate(ws[..n], i, w);
      assert ws[i := w][..n] == ws[..n][i := w];
    }
  }

  /** submitted - (success + failed) is the number of workers between the two counter updates. */
  predicate StatsOk(s: Sys) {
    s.stats.submitted == s.stats.success + s.stats.failed + Counting(s.workers)
  }

  lemma {:induction false} RunKeepsStats(states: seq<Sys>, moves: seq<(nat, Step)>, k: nat)
    requires IsRun(states, moves) && k < |states|
    ensures StatsOk(states[k])
  {
    if k == 0 {
      NoneCounting(states[0].workers);
    } else {
      RunKeepsStats(states, moves, k - 1);
      var i := moves[k - 1].0;
      CountingUpdate(states[k - 1].workers, i, states[k].workers[i]);
    }
  }

  lemma {:induction false} NoneCounting(ws: seq<Worker>)
    requires forall i :: 0 <= i < |ws| ==> !ws[i].phase.Counted?
    ensures Counting(ws) == 0
  {
    if ws != [] {
      NoneCounting(ws[..|ws| - 1]);
    }
  }

  /** Step st of worker w ends a counted transaction, successfully or not; seeding is not counted. */
  predicate Ends(w: Worker, st: Step, ok: bool) {
    if ok then st.AbsorbReply? && w.phase.Received? && !w.phase.seed
    else st.NothingToUpdate? || (st.RpcFails? && w.phase.Sending? && !w.phase.seed)
  }

  /** How many of the first k moves ended a transaction that way. */
  function CountEnded(states: seq<Sys>, moves: seq<(nat, Step)>, k: nat, ok: bool): nat
    requires k <= |moves| < |states|
  {
    if k == 0 then 0
    else
      CountEnded(states, moves, k - 1, ok) +
      if MoveEnds(states[k - 1], moves[k - 1].0, moves[k - 1].1, ok) then 1 else 0
  }

  /** The worker's last transaction has ended that way and is not yet in the counter. */
  predicate IsPending(w: Worker, ok: bool) {
    (w.phase.Finished? || w.phase.Counted?) && w.phase.ok == ok
  }

  function Pending(ws: seq<Worker>, ok: bool): nat {
    if ws == [] then 0 else Pending(ws[..|ws| - 1], ok) + if IsPending(ws[|ws| - 1], ok) then 1 else 0
  }

  lemma {:induction false} PendingUpdate(ws: seq<Worker>, i: nat, w: Worker, ok: bool)
    requires i < |ws|
    ensures Pending(ws[i := w], ok) + (if IsPending(ws[i], ok) then 1 else 0)
         == Pending(ws, ok) + (if IsPending(w, ok) then 1 else 0)
    decreases |ws|
  {
    var n := |ws| - 1;
    if i == n {
      assert ws[i := w][..n] == ws[..n];
    } else {
      PendingUpdate(ws[..n], i, w, ok);
      assert ws[i := w][..n] == ws[..n][i := w];
    }
  }

  lemma {:induction false} NonePending(ws: seq<Worker>, ok: bool)
    requires forall i :: 0 <= i < |ws| ==> !IsPending(ws[i], ok)
    ensures Pending(ws, ok) == 0
  {
    if ws != [] {
      NonePending(ws[..|ws| - 1], ok);
    }
  }

  function Tally(s: Stats, ok: bool): nat {
    if ok then s.success else s.failed
  }

  /** A step moves one transaction into or out of the pending ones, if any. */
  lemma StepCounts(w: Worker, w': Worker, st: Step, s: Stats, s': Stats, ok: bool)
    requires WorkerStep(w, w', st) && StatsStep(w, st, s, s')
    ensures Tally(s', ok) + (if IsPending(w', ok) then 1 else 0)
         == Tally(s, ok) + (if IsPending(w, ok) then 1 else 0) + (if Ends(w, st, ok) then 1 else 0)
  {
  }

  predicate MoveEnds(s: Sys, i: nat, st: Step, ok: bool) {
    i < |s.workers| && Ends(s.workers[i], st, ok)
  }

  /** The counter and the pending transactions together count what the move ended. */
  predicate Moved(s: Sys, s': Sys, i: nat, st: Step, ok: bool) {
    Tally(s'.stats, ok) + Pending(s'.workers, ok)
    == Tally(s.stats, ok) + Pending(s.workers, ok) + if MoveEnds(s, i, st, ok) then 1 else 0
  }

  lemma NextCounts(s: Sys, s': Sys, i: nat, st: Step, ok: bool)
    requires Next(s, s', i, st)
    ensures Moved(s, s', i, st, ok)
  {
    StepCounts(s.workers[i], s'.workers[i], st, s.stats, s'.stats, ok);
    PendingUpdate(s.workers, i, s'.workers[i], ok);
  }

  lemma {:induction false} MovesCount(states: seq<Sys>, moves: seq<(nat, Step)>, k: nat, ok: bool)
    requires |moves| < |states| && k <= |moves|
    requires Tally(states[0].stats, ok) + Pending(states[0].workers, ok) == 0
    requires forall j :: 0 <= j < k ==> Moved(states[j], states[j + 1], moves[j].0, moves[j].1, ok)
    ensures Tally(states[k].stats, ok) + Pending(states[k].workers, ok) == CountEnded(states, moves, k, ok)
  {
    if k > 0 {
      MovesCount(states, moves, k - 1, ok);
      assert Moved(states[k - 1], states[k], moves[k - 1].0, moves[k - 1].1, ok);
    }
  }

  /**
   In every run the success counter is the number of transactions that ended with a reply, and the
   failure counter the number of those that failed or had nothing to update, but for pending ones.
   */
  lemma RunCountsOutcomes(states: seq<Sys>, moves: seq<(nat, Step)>, k: nat, ok: bool)
    requires IsRun(states, moves) && k < |states|
    ensures Tally(states[k].stats, ok) + Pending(states[k].workers, ok) == CountEnded(states, moves, k, ok)
  {
    NonePending(states[0].workers, ok);
    forall j | 0 <= j < k ensures Moved(states[j], states[j + 1], moves[j].0, moves[j].1, ok) {
      NextCounts(states[j], states[j + 1], moves[j].0, moves[j].1, ok);
    }
    MovesCount(states, moves, k, ok);
  }

  /** When all workers have stopped, the totals balance and each counts what it is named for. */
  lemma StoppedTotalsBalance(states: seq<Sys>, moves: seq<(nat, Step)>, k: nat)
    requires IsRun(states, moves) && k < |states|
    requires forall i :: 0 <= i < |states[k].workers| ==> states[k].workers[i].phase.Stopped?
    ensures states[k].stats.submitted == states[k].stats.success + states[k].stats.failed
    ensures states[k].stats.success == CountEnded(states, moves, k, true)
    ensures states[k].stats.failed == CountEnded(states, moves, k, false)
  {
    RunKeepsStats(states, moves, k);
    NoneCounting(states[k].workers);
    RunCountsOutcomes(states, moves, k, true);
    RunCountsOutcomes(states, moves, k, false);
    NonePending(states[k].workers, true);
    NonePending(states[k].workers, false);
  }
}
