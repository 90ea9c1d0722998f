/** One worker's state, as its transactions build from it and update it in place. */
module SuiWorker {
  import opened Prelude
  import opened SuiPool

  datatype Op = CreateOp | UpdateOp

  /** The gas coin and the objects a transaction names. */
  datatype Tx = Tx(gas: Ref, inputs: seq<Ref>)

  /** What a worker remembers of the chain. */
  datatype Held = Held(gas: Ref, objects: seq<Ref>)

  /** What the worker remembers after an RPC reply. */
  function Absorb(h: Held, op: Op, resp: Response): Held {
    if resp.effects.None? then h
    else if resp.changes.None? then h.(gas := resp.effects.value)
    else if op.CreateOp? then Held(resp.effects.value, TrackCreated(h.objects, resp.changes.value))
    else Held(resp.effects.value, ApplyMutated(h.objects, resp.changes.value))
  }

  /** The number reported as updated: mutated objects found in the pool. */
  function CountUpdated(pool: seq<Ref>, changes: seq<Change>): nat {
    if changes == [] then 0
    else
      var front, c := changes[..|changes| - 1], changes[|changes| - 1];
      CountUpdated(pool, front) + if c.Mutated? && Find(ApplyMutated(pool, front), c.mutated.id).Some? then 1 else 0
  }

  /** The objects listed as mutated that the pool names. */
  function CountTracked(pool: seq<Ref>, changes: seq<Change>): nat {
    if changes == [] then 0
    else
      var c := changes[|changes| - 1];
      CountTracked(pool, changes[..|changes| - 1]) +
      if c.Mutated? && exists k :: 0 <= k < |pool| && pool[k].id == c.mutated.id then 1 else 0
  }

  /** However references change on the way, the number reported as updated is of the pool as it was. */
  lemma {:induction false} UpdatedIsTracked(pool: seq<Ref>, changes: seq<Change>)
    ensures CountUpdated(pool, changes) == CountTracked(pool, changes)
  {
    if changes != [] {
      var front, c := changes[..|changes| - 1], changes[|changes| - 1];
      UpdatedIsTracked(pool, front);
      MutateKeepsIds(pool, front);
      var now := ApplyMutated(pool, front);
      if c.Mutated? && Find(now, c.mutated.id).Some? {
        var k := Find(now, c.mutated.id).value;
        assert pool[k].id == c.mutated.id;
      }
    }
  }

  /** An update of `count` objects, or of all when there are fewer, from position start on. */
  function UpdateTx(h: Held, count: nat, start: nat): (tx: Tx)
    requires h.objects != []
    ensures tx.gas == h.gas && |tx.inputs| == Min(count, |h.objects|)
  {
    Tx(h.gas, Selected(h.objects, start, Min(count, |h.objects|)))
  }

  class WorkerState {
    var gasCoin: Ref
    var objects: seq<Ref>

    constructor (gasCoin: Ref)
      ensures Value() == Held(gasCoin, [])
    {
      this.gasCoin := gasCoin;
      objects := [];
    }

    function Value(): Held
      reads this
    {
      Held(gasCoin, objects)
    }

    /** An update batch of at most `count` objects from a random start; None without objects. */
    method BuildUpdate(count: nat, start: nat) returns (tx: Option<Tx>)
      requires objects != [] ==> start < |objects|
      ensures objects == [] <==> tx.None?
      ensures tx.Some? ==> tx == Some(UpdateTx(Value(), count, start))
    {
      if objects == [] {
        return None;
      }
      var updateCount := Min(count, |objects|);
      var inputs: seq<Ref> := [];
      var i := 0;
      while i < updateCount
        invariant i <= updateCount
        invariant inputs == Selected(objects, start, i)
      {
        inputs := inputs + [objects[(start + i) % |objects|]];
        i := i + 1;
      }
      tx := Some(Tx(gasCoin, inputs));
    }

    /** Records the new gas coin and tracks what was created. */
    method AbsorbCreate(resp: Response) returns (created: nat)
      modifies this
      ensures Value() == Absorb(old(Value()), CreateOp, resp)
      ensures created == if resp.effects.Some? && resp.changes.Some? then CountCreated(resp.changes.value) else 0
    {
      created := 0;
      if resp.effects.Some? {
        gasCoin := resp.effects.value;
        if resp.changes.Some? {
          var changes := resp.changes.value;
          var i := 0;
          while i < |changes|
            invariant i <= |changes| && gasCoin == resp.effects.value
            invariant objects == TrackCreated(old(objects), changes[..i])
            invariant created == CountCreated(changes[..i])
          {
            assert changes[..i + 1][..i] == changes[..i];
            if changes[i].Created? {
              if |objects| < MAX_TRACKED_OBJECTS_PER_WORKER {
                objects := objects + [changes[i].created];
              }
              created := created + 1;
            }
            i := i + 1;
          }
          assert changes[..i] == changes;
        }
      }
    }

    /** Records the new gas coin and the new references of mutated objects. */
    method AbsorbUpdate(resp: Response) returns (updated: nat)
      modifies this
      ensures Value() == Absorb(old(Value()), UpdateOp, resp)
      ensures updated == if resp.effects.Some? && resp.changes.Some?
                         then CountTracked(old(objects), resp.changes.value) else 0
    {
      updated := 0;
      if resp.effects.Some? {
        gasCoin := resp.effects.value;
        if resp.changes.Some? {
          var changes := resp.changes.value;
          var i := 0;
          while i < |changes|
            invariant i <= |changes| && gasCoin == resp.effects.value
            invariant objects == ApplyMutated(old(objects), changes[..i])
            invariant updated == CountUpdated(old(objects), changes[..i])
          {
            assert changes[..i + 1][..i] == changes[..i];
            if changes[i].Mutated? {
              var k := Find(objects, changes[i].mutated.id);
              if k.Some? {
                objects := objects[k.value := changes[i].mutated];
                updated := updated + 1;
              }
            }
            i := i + 1;
          }
          assert changes[..i] == changes;
          UpdatedIsTracked(old(objects), changes);
        }
      }
    }

    /** Truncates the pool under memory pressure. */
    method DropObjects(level: nat)
      modifies this`objects
      ensures objects == old(objects)[..KeepCount(|old(objects)|, level)]
    {
      var dropPct := DropPercent(level);
      if dropPct > 0 {
        var before := |objects|;
        if before > 50 {
          objects := objects[..before * (100 - dropPct) / 100];
        }
      }
    }
  }
}
