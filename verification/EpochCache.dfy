/**
 The double-checked per-epoch caches (gas schedule and execution config) behind a read/write
 lock, with every lock and field operation as a step of its own.
 */
module EpochCache {
  import opened Prelude

  /** Where a caller is. Places from Checking to Storing hold the write lock. */
  datatype Place<T> =
    | Start
    | Reading                  // read lock held
    | Missed                   // read lock given back after a miss
    | Checking                 // write lock held, cache not yet looked at again
    | Fetching                 // the second look missed too
    | Fetched(fetched: T)      // configuration read from storage
    | Storing(stored: T)       // value field written, epoch field not yet
    | Returned(value: T)
    | Failed

  datatype Thread<T> = Thread(epoch: nat, version: nat, place: Place<T>)

  /** The two cache fields and the lock; the execution config's value field is always Some. */
  datatype World<T> = World(
    threads: seq<Thread<T>>,
    cachedEpoch: Option<nat>,
    cachedValue: Option<T>,
    readers: set<nat>,
    writer: Option<nat>)

  /** On-chain configuration by version, and the epoch of each version. */
  datatype Storage<!T> = Storage(configAt: nat -> T, epochOf: nat -> nat)

  /** On-chain configuration is constant within an epoch. */
  ghost predicate ConstantPerEpoch<T(!new)>(st: Storage<T>) {
    forall v, w :: st.epochOf(v) == st.epochOf(w) ==> st.configAt(v) == st.configAt(w)
  }

  datatype Action =
    | AcquireRead | ReadHit | ReadMiss
    | AcquireWrite | RecheckHit | RecheckMiss
    | FetchOk | FetchFails
    | StoreValue | StoreEpoch

  predicate Hit<T>(w: World<T>, epoch: nat) {
    w.cachedEpoch == Some(epoch) && w.cachedValue.Some?
  }

  function Move<T>(w: World<T>, i: nat, p: Place<T>): World<T>
    requires i < |w.threads|
  {
    w.(threads := w.threads[i := w.threads[i].(place := p)])
  }

  predicate Next<T(==)>(st: Storage<T>, w: World<T>, w': World<T>, i: nat, a: Action) {
    i < |w.threads| &&
    var t := w.threads[i];
    match a
    case AcquireRead => t.place.Start? && w.writer.None? && w' == Move(w, i, Reading).(readers := w.readers + {i})
    case ReadHit =>
      && t.place.Reading? && Hit(w, t.epoch)
      && w' == Move(w, i, Returned(w.cachedValue.value)).(readers := w.readers - {i})
    case ReadMiss => t.place.Reading? && !Hit(w, t.epoch) && w' == Move(w, i, Missed).(readers := w.readers - {i})
    case AcquireWrite =>
      t.place.Missed? && w.writer.None? && w.readers == {} && w' == Move(w, i, Checking).(writer := Some(i))
    case RecheckHit =>
      && t.place.Checking? && Hit(w, t.epoch)
      && w' == Move(w, i, Returned(w.cachedValue.value)).(writer := None)
    case RecheckMiss => t.place.Checking? && !Hit(w, t.epoch) && w' == Move(w, i, Fetching)
    case FetchOk => t.place.Fetching? && w' == Move(w, i, Fetched(st.configAt(t.version)))
    case FetchFails => t.place.Fetching? && w' == Move(w, i, Failed).(writer := None)
    case StoreValue =>
      t.place.Fetched? && w' == Move(w, i, Storing(t.place.fetched)).(cachedValue := Some(t.place.fetched))
    case StoreEpoch =>
      t.place.Storing? && w' == Move(w, i, Returned(t.place.stored)).(cachedEpoch := Some(t.epoch), writer := None)
  }

  predicate HoldsWrite<T>(p: Place<T>) {
    p.Checking? || p.Fetching? || p.Fetched? || p.Storing?
  }

  /** A cached pair is the configuration of the recorded epoch. */
  ghost predicate CacheOk<T>(st: Storage<T>, w: World<T>) {
    w.cachedEpoch.Some? && w.cachedValue.Some? ==>
      forall v :: st.epochOf(v) == w.cachedEpoch.value ==> st.configAt(v) == w.cachedValue.value
  }

  /** Whatever a caller carries is its own version's configuration. */
  ghost predicate ThreadOk<T>(st: Storage<T>, t: Thread<T>) {
    && st.epochOf(t.version) == t.epoch
    && match t.place
       case Fetched(x) => x == st.configAt(t.version)
       case Storing(x) => x == st.configAt(t.version)
       case Returned(x) => x == st.configAt(t.version)
       case _ => true
  }

  ghost predicate Inv<T>(st: Storage<T>, w: World<T>) {
    && (forall i :: 0 <= i < |w.threads| ==> ThreadOk(st, w.threads[i]))
    && (forall i :: 0 <= i < |w.threads| && HoldsWrite(w.threads[i].place) ==> w.writer == Some(i))
    && (forall i :: 0 <= i < |w.threads| && w.threads[i].place.Reading? ==> i in w.readers)
    && (w.writer.Some? ==> w.readers == {} && w.writer.value < |w.threads|)
    && (if w.writer.Some? && w.threads[w.writer.value].place.Storing?
        then w.cachedValue == Some(w.threads[w.writer.value].place.stored)
        else CacheOk(st, w))
  }

  lemma NextKeepsInv<T(!new)>(st: Storage<T>, w: World<T>, w': World<T>, i: nat, a: Action)
    requires ConstantPerEpoch(st) && Inv(st, w) && Next(st, w, w', i, a)
    ensures Inv(st, w')
  {
    assert ThreadOk(st, w.threads[i]);
  }

  ghost predicate IsRun<T>(st: Storage<T>, states: seq<World<T>>, moves: seq<(nat, Action)>) {
    && |states| == |moves| + 1
    && states[0].cachedEpoch.None? && states[0].readers == {} && states[0].writer.None?
    && (forall i :: 0 <= i < |states[0].threads| ==>
          states[0].threads[i].place.Start? && st.epochOf(states[0].threads[i].version) == states[0].threads[i].epoch)
    && forall k :: 0 <= k < |moves| ==> Next(st, states[k], states[k + 1], moves[k].0, moves[k].1)
  }

  lemma {:induction false} RunKeepsInv<T(!new)>(st: Storage<T>, states: seq<World<T>>, moves: seq<(nat, Action)>, k: nat)
    requires ConstantPerEpoch(st) && IsRun(st, states, moves) && k < |states|
    ensures Inv(st, states[k])
  {
    if k > 0 {
      RunKeepsInv(st, states, moves, k - 1);
      assert Next(st, states[k - 1], states[k], moves[k - 1].0, moves[k - 1].1);
      NextKeepsInv(st, states[k - 1], states[k], moves[k - 1].0, moves[k - 1].1);
    }
  }

  /** In every interleaving each caller gets the configuration of its own epoch. */
  lemma ReturnsOwnEpoch<T(!new)>(st: Storage<T>, states: seq<World<T>>, moves: seq<(nat, Action)>, k: nat, i: nat)
    requires ConstantPerEpoch(st) && IsRun(st, states, moves) && k < |states|
    requires i < |states[k].threads| && states[k].threads[i].place.Returned?
    ensures forall v :: st.epochOf(v) == states[k].threads[i].epoch ==> states[k].threads[i].place.value == st.configAt(v)
  {
    RunKeepsInv(st, states, moves, k);
    assert ThreadOk(st, states[k].threads[i]);
  }

  /** Whenever no writer is inside, a cached value belongs to its recorded epoch. */
  lemma CachedBelongsToEpoch<T(!new)>(st: Storage<T>, states: seq<World<T>>, moves: seq<(nat, Action)>, k: nat)
    requires ConstantPerEpoch(st) && IsRun(st, states, moves) && k < |states| && states[k].writer.None?
    ensures CacheOk(st, states[k])
  {
    RunKeepsInv(st, states, moves, k);
  }
}
