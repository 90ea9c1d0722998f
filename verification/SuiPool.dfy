/** A benchmark worker's pool of tracked objects and how RPC responses change it. */
module SuiPool {
  import opened Prelude

  type ObjectId = nat

  /** An object reference: id, version and digest. */
  datatype Ref = Ref(id: ObjectId, version: nat, digest: nat)

  datatype Change = Created(created: Ref) | Mutated(mutated: Ref) | OtherChange(other: ObjectId)

  /** effects carries the new gas coin; both parts are optional in the RPC reply. */
  datatype Response = Response(effects: Option<Ref>, changes: Option<seq<Change>>)

  const MAX_TRACKED_OBJECTS_PER_WORKER: nat := 5000

  function ChangeId(c: Change): ObjectId {
    match c
    case Created(r) => r.id
    case Mutated(r) => r.id
    case OtherChange(id) => id
  }

  predicate DistinctIds(pool: seq<Ref>) {
    forall i, j :: 0 <= i < j < |pool| ==> pool[i].id != pool[j].id
  }

  predicate DistinctChanges(changes: seq<Change>) {
    forall i, j :: 0 <= i < j < |changes| ==> ChangeId(changes[i]) != ChangeId(changes[j])
  }

  // ---------------------------------------------------------------- created objects

  /** Each created object is appended while the pool is below its cap. */
  function TrackCreated(pool: seq<Ref>, changes: seq<Change>): seq<Ref> {
    if changes == [] then pool
    else
      var before := TrackCreated(pool, changes[..|changes| - 1]);
      var c := changes[|changes| - 1];
      if c.Created? && |before| < MAX_TRACKED_OBJECTS_PER_WORKER then before + [c.created] else before
  }

  function CountCreated(changes: seq<Change>): nat {
    if changes == [] then 0
    else CountCreated(changes[..|changes| - 1]) + if changes[|changes| - 1].Created? then 1 else 0
  }

  /** Tracking keeps the pool as a prefix, adds only created objects and respects the cap. */
  lemma {:induction false} TrackFacts(pool: seq<Ref>, changes: seq<Change>)
    requires |pool| <= MAX_TRACKED_OBJECTS_PER_WORKER
    ensures var r := TrackCreated(pool, changes);
            && pool <= r && |r| <= MAX_TRACKED_OBJECTS_PER_WORKER
            && |r| == Min(MAX_TRACKED_OBJECTS_PER_WORKER, |pool| + CountCreated(changes))
            && forall k :: |pool| <= k < |r| ==> Created(r[k]) in changes
  {
    if changes != [] {
      var front := changes[..|changes| - 1];
      TrackFacts(pool, front);
      assert forall c :: c in front ==> c in changes;
    }
  }

  /** The tracked ids stay distinct when the created ids are new. */
  lemma {:induction false} TrackDistinct(pool: seq<Ref>, changes: seq<Change>)
    requires |pool| <= MAX_TRACKED_OBJECTS_PER_WORKER && DistinctIds(pool) && DistinctChanges(changes)
    requires forall k, c :: 0 <= k < |pool| && c in changes && c.Created? ==> pool[k].id != c.created.id
    ensures DistinctIds(TrackCreated(pool, changes))
  {
    if changes != [] {
      var front := changes[..|changes| - 1];
      var last := changes[|changes| - 1];
      assert forall c :: c in front ==> c in changes;
      TrackDistinct(pool, front);
      TrackFacts(pool, front);
      var before := TrackCreated(pool, front);
      if last.Created? {
        forall k | 0 <= k < |before| ensures before[k].id != last.created.id {
          if k >= |pool| {
            assert Created(before[k]) in front;
            var i :| 0 <= i < |front| && front[i] == Created(before[k]);
            assert ChangeId(changes[i]) != ChangeId(last);
          }
        }
      }
    }
  }

  // ---------------------------------------------------------------- mutated objects

  /** The first position of an id, as Iterator::find sees it. */
  function Find(pool: seq<Ref>, id: ObjectId): (r: Option<nat>)
    ensures r.Some? ==> r.value < |pool| && pool[r.value].id == id && forall k :: 0 <= k < r.value ==> pool[k].id != id
    ensures r.None? ==> forall k :: 0 <= k < |pool| ==> pool[k].id != id
  {
    if pool == [] then None
    else
      var before := Find(pool[..|pool| - 1], id);
      if before.Some? then before
      else if pool[|pool| - 1].id == id then Some(|pool| - 1)
      else None
  }

  function ApplyOne(pool: seq<Ref>, c: Change): seq<Ref> {
    if !c.Mutated? || Find(pool, c.mutated.id).None? then pool
    else pool[Find(pool, c.mutated.id).value := c.mutated]
  }

  function ApplyMutated(pool: seq<Ref>, changes: seq<Change>): seq<Ref> {
    if changes == [] then pool
    else ApplyOne(ApplyMutated(pool, changes[..|changes| - 1]), changes[|changes| - 1])
  }

  /** Positions and ids stay; a listed object gets the listed reference, others keep theirs. */
  lemma {:induction false} MutateFacts(pool: seq<Ref>, changes: seq<Change>, k: nat)
    requires DistinctIds(pool) && DistinctChanges(changes) && k < |pool|
    ensures var r := ApplyMutated(pool, changes);
            && |r| == |pool| && r[k].id == pool[k].id
            && (Mutated(r[k]) in changes || (r[k] == pool[k] && forall c :: c in changes && c.Mutated? ==> c.mutated.id != pool[k].id))
  {
    if changes != [] {
      var front := changes[..|changes| - 1];
      var last := changes[|changes| - 1];
      assert forall c :: c in changes <==> c in front || c == last;
      MutateFacts(pool, front, k);
      MutateKeepsIds(pool, front);
      var before := ApplyMutated(pool, front);
      if last.Mutated? && last.mutated.id != pool[k].id {
        assert ApplyOne(before, last)[k] == before[k];
      } else if last.Mutated? {
        var f := Find(before, last.mutated.id);
        assert f == Some(k);
        assert last == changes[|changes| - 1];
      }
    }
  }

  lemma {:induction false} MutateKeepsIds(pool: seq<Ref>, changes: seq<Change>)
    ensures var r := ApplyMutated(pool, changes);
            |r| == |pool| && forall k :: 0 <= k < |pool| ==> r[k].id == pool[k].id
  {
    if changes != [] {
      MutateKeepsIds(pool, changes[..|changes| - 1]);
    }
  }

  // ---------------------------------------------------------------- selecting a batch

  function Position(start: nat, i: nat, len: nat): (p: nat)
    requires len > 0
    ensures p < len
  {
    (start + i) % len
  }

  /** Round-robin from a random start: `count` consecutive positions, wrapping around. */
  function Selected(pool: seq<Ref>, start: nat, count: nat): (r: seq<Ref>)
    requires pool != []
    ensures |r| == count && forall i :: 0 <= i < count ==> r[i] == pool[Position(start, i, |pool|)]
  {
    seq(count, i requires 0 <= i < count => pool[Position(start, i, |pool|)])
  }

  lemma PositionsDiffer(start: nat, i: nat, j: nat, len: nat)
    requires start < len && i < j && j < len
    ensures Position(start, i, len) != Position(start, j, len)
  {
    WrapOnce(start + i, len);
    WrapOnce(start + j, len);
  }

  lemma WrapOnce(x: nat, len: nat)
    requires 0 < len && x < 2 * len
    ensures x % len == if x < len then x else x - len
  {
    if x >= len {
      assert x == 1 * len + (x - len);
      assert (x - len) % len == x - len;
      assert (1 * len + (x - len)) % len == (x - len) % len;
    }
  }

  /** A batch no larger than the pool never names an object twice. */
  lemma SelectedDistinct(pool: seq<Ref>, start: nat, count: nat)
    requires DistinctIds(pool) && start < |pool| && count <= |pool|
    ensures DistinctIds(Selected(pool, start, count))
    ensures forall i :: 0 <= i < count ==> Selected(pool, start, count)[i] in pool
  {
    var r := Selected(pool, start, count);
    forall i, j | 0 <= i < j < count ensures r[i].id != r[j].id {
      PositionsDiffer(start, i, j, |pool|);
      var p, q := Position(start, i, |pool|), Position(start, j, |pool|);
      assert p < q || q < p;
    }
  }

  // ---------------------------------------------------------------- memory pressure

  /** The percentage of objects dropped at each pressure level. */
  function DropPercent(level: nat): nat {
    if level == 3 then 75 else if level == 2 then 50 else if level == 1 then 25 else 0
  }

  /** How many objects stay: everything up to 50 objects, a fixed share above. */
  function KeepCount(len: nat, level: nat): (keep: nat)
    ensures keep <= len
    ensures len > 50 ==> keep >= 12
    ensures len <= 50 ==> keep == len
    ensures len > 0 ==> keep > 0
    ensures len > 50 ==> 100 * keep <= len * (100 - DropPercent(level)) < 100 * (keep + 1)
  {
    if DropPercent(level) > 0 && len > 50 then len * (100 - DropPercent(level)) / 100 else len
  }

  /** Of more than 50 objects three quarters stay at level 1, half at level 2, a quarter at level 3. */
  lemma KeptShare(len: nat, level: nat)
    requires len > 50
    ensures KeepCount(len, level) ==
            match level
            case 1 => len * 3 / 4
            case 2 => len / 2
            case 3 => len / 4
            case _ => len
  {
    var keep := KeepCount(len, level);
    assert 100 * keep <= len * (100 - DropPercent(level)) < 100 * (keep + 1);
  }
}
