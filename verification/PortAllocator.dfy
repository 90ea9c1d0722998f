/**
 Cross-process port allocation: a lock file, a shared counter file, and a fixed shuffled vector
 of ports that is walked round and round.
 */
module PortAllocator {
  import opened Prelude

  const PORT_COUNT: nat := 20000
  const FIRST_PORT: nat := 10000
  const MAX_PORT_RETRIES: nat := 1000
  const MAX_LOCK_ATTEMPTS: nat := 100

  /** Some shuffle of the ports 10000..29999; every process computes the same one. */
  predicate IsPortVector(v: seq<nat>) {
    && |v| == PORT_COUNT && Distinct(v)
    && forall i :: 0 <= i < |v| ==> FIRST_PORT <= v[i] < FIRST_PORT + PORT_COUNT
  }

  /** The counter as read from the file: unreadable and out-of-range contents start from 0. */
  function ReadCounter(file: Option<nat>): (c: nat)
    ensures c < PORT_COUNT
    ensures file.Some? && file.value < PORT_COUNT ==> c == file.value
    ensures file.None? || file.value >= PORT_COUNT ==> c == 0
  {
    if file.Some? && file.value < PORT_COUNT then file.value else 0
  }

  datatype Binding = Exhausted | Bound(port: nat, counter: nat)

  /** The port bound after the given number of failed attempts, and the counter past it. */
  function Claim(v: seq<nat>, start: nat, skipped: nat): Binding
    requires |v| == PORT_COUNT
  {
    Bound(v[(start + skipped) % PORT_COUNT], (start + skipped + 1) % PORT_COUNT)
  }

  lemma NextSlot(x: nat)
    ensures (x + 1) % PORT_COUNT == if x % PORT_COUNT + 1 == PORT_COUNT then 0 else x % PORT_COUNT + 1
  {
    var q, r := x / PORT_COUNT, x % PORT_COUNT;
    assert x + 1 == q * PORT_COUNT + (r + 1);
  }

  /**
   Tries consecutive ports from the counter until one binds, with bindable[i] telling whether
   attempt i finds its port free. The result names the k-th port tried and the counter after it.
   */
  method BindPortFromCounter(v: seq<nat>, start: nat, bindable: seq<bool>) returns (r: Binding, ghost k: nat)
    requires IsPortVector(v) && start < PORT_COUNT && |bindable| == MAX_PORT_RETRIES
    ensures r.Exhausted? <==> forall i :: 0 <= i < MAX_PORT_RETRIES ==> !bindable[i]
    ensures r.Bound? ==>
              && k < MAX_PORT_RETRIES && bindable[k] && (forall i :: 0 <= i < k ==> !bindable[i])
              && r == Claim(v, start, k)
  {
    var counter := start;
    k := 0;
    var attempt := 0;
    while attempt < MAX_PORT_RETRIES
      invariant attempt <= MAX_PORT_RETRIES && counter < PORT_COUNT
      invariant counter == (start + attempt) % PORT_COUNT
      invariant forall i :: 0 <= i < attempt ==> !bindable[i]
    {
      NextSlot(start + attempt);
      var port := v[counter];
      counter := counter + 1;
      if counter == |v| {
        counter := 0;
      }
      if bindable[attempt] {
        k := attempt;
        return Bound(port, counter), k;
      }
      attempt := attempt + 1;
    }
    r := Exhausted;
  }

  // ---------------------------------------------------------------- processes

  /** Where a process is in get_unique_port. */
  datatype Process =
    | Outside(attempts: nat)                       // trying to create the lock file
    | Locked                                       // lock file created
    | Opened                                       // counter file open, not yet read
    | Holding(counter: nat)                        // counter read
    | Writing(port: nat, counter: nat, ticket: nat)  // port bound, counter file not yet rewritten
    | Written(port: nat, ticket: nat)              // counter file rewritten, lock not yet removed
    | Panicking                                    // no port free: unwinding removes the lock file
    | GaveUp                                       // lock not acquired in 100 attempts
    | Dead                                         // counter file could not be opened: lock file stays

  /** A returned port; the ticket numbers the slots of the vector in the order they are used. */
  datatype Grant = Grant(port: nat, ticket: nat)

  /**
   lockFile and counterFile are the shared files; used is how many slots the written counters
   have passed since the run began, counted from the slot of the initial counter.
   */
  datatype World = World(
    processes: seq<Process>,
    lockFile: bool,
    counterFile: Option<nat>,
    used: nat,
    grants: seq<Grant>)

  predicate HoldsLock(p: Process) {
    p.Locked? || p.Opened? || p.Holding? || p.Writing? || p.Written? || p.Panicking? || p.Dead?
  }

  datatype Action =
    | CreateLock
    | LockBusy              // the lock file exists, or creating it fails for another reason
    | OpenCounter
    | OpenFails
    | ReadFile
    | Bind(skipped: nat)    // attempts that failed before one succeeded
    | NoneBinds
    | WriteFile
    | RemoveLock            // the process may then ask for another port

  function Set(w: World, i: nat, p: Process): World
    requires i < |w.processes|
  {
    w.(processes := w.processes[i := p])
  }

  /** Process i performs action a. */
  predicate Next(v: seq<nat>, w: World, w': World, i: nat, a: Action)
    requires IsPortVector(v)
  {
    i < |w.processes| &&
    var p := w.processes[i];
    match a
    case CreateLock =>
      p.Outside? && p.attempts < MAX_LOCK_ATTEMPTS && !w.lockFile && w' == Set(w, i, Locked).(lockFile := true)
    case LockBusy =>
      && p.Outside?
      && w' == Set(w, i, if p.attempts + 1 < MAX_LOCK_ATTEMPTS then Outside(p.attempts + 1) else GaveUp)
    case OpenCounter => p.Locked? && w' == Set(w, i, Opened)
    case OpenFails => p.Locked? && w' == Set(w, i, Dead)
    case ReadFile => p.Opened? && w' == Set(w, i, Holding(ReadCounter(w.counterFile)))
    case Bind(skipped) =>
      && p.Holding? && skipped < MAX_PORT_RETRIES
      && (var claim := Claim(v, p.counter, skipped);
          w' == Set(w, i, Writing(claim.port, claim.counter, w.used + skipped)))
    case NoneBinds => p.Holding? && w' == Set(w, i, Panicking)
    case WriteFile =>
      p.Writing? && w' == Set(w, i, Written(p.port, p.ticket)).(counterFile := Some(p.counter), used := p.ticket + 1)
    case RemoveLock =>
      || (p.Written? && w' == Set(w, i, Outside(0)).(lockFile := false, grants := w.grants + [Grant(p.port, p.ticket)]))
      || (p.Panicking? && w' == Set(w, i, GaveUp).(lockFile := false))
  }

  /** The slot of the vector that the next ticket stands for. */
  function Slot(origin: nat, ticket: nat): nat {
    (origin + ticket) % PORT_COUNT
  }

  predicate Init(w: World, origin: nat) {
    && !w.lockFile && w.used == 0 && w.grants == [] && origin == ReadCounter(w.counterFile)
    && forall i :: 0 <= i < |w.processes| ==> w.processes[i] == Outside(0)
  }

  // ---------------------------------------------------------------- the invariant

  /** What process p knows is consistent with the shared state. */
  predicate ProcessOk(v: seq<nat>, w: World, origin: nat, p: Process)
    requires IsPortVector(v)
  {
    match p
    case Holding(counter) => counter == Slot(origin, w.used)
    case Writing(port, counter, ticket) =>
      && w.used <= ticket && port == v[Slot(origin, ticket)] && counter == Slot(origin, ticket + 1)
    case Written(port, ticket) =>
      && w.used == ticket + 1 && port == v[Slot(origin, ticket)]
      && forall k :: 0 <= k < |w.grants| ==> w.grants[k].ticket < ticket
    case _ => true
  }

  /** Returned ports in order: increasing tickets, each the vector's entry for its ticket. */
  predicate GrantsOk(v: seq<nat>, w: World, origin: nat)
    requires IsPortVector(v)
  {
    && (forall k :: 0 <= k < |w.grants| ==> w.grants[k].ticket < w.used && w.grants[k].port == v[Slot(origin, w.grants[k].ticket)])
    && (forall j, k :: 0 <= j < k < |w.grants| ==> w.grants[j].ticket < w.grants[k].ticket)
  }

  /** The lock file is there while a process is past it, and at most one process is. */
  predicate LockOk(w: World) {
    && (forall i :: 0 <= i < |w.processes| && HoldsLock(w.processes[i]) ==> w.lockFile)
    && (forall i, j :: 0 <= i < j < |w.processes| ==> !(HoldsLock(w.processes[i]) && HoldsLock(w.processes[j])))
  }

  predicate Inv(v: seq<nat>, w: World, origin: nat)
    requires IsPortVector(v)
  {
    && LockOk(w)
    && ReadCounter(w.counterFile) == Slot(origin, w.used)
    && GrantsOk(v, w, origin)
    && (forall i :: 0 <= i < |w.processes| ==> ProcessOk(v, w, origin, w.processes[i]))
  }

  lemma SlotShift(origin: nat, ticket: nat, k: nat)
    ensures (Slot(origin, ticket) + k) % PORT_COUNT == Slot(origin, ticket + k)
  {
    ModAdd(origin + ticket, k);
  }

  lemma ModAdd(a: nat, b: nat)
    ensures (a % PORT_COUNT + b) % PORT_COUNT == (a + b) % PORT_COUNT
  {
    var q := a / PORT_COUNT;
    assert a == q * PORT_COUNT + a % PORT_COUNT;
  }

  lemma InitInv(v: seq<nat>, w: World, origin: nat)
    requires IsPortVector(v) && Init(w, origin)
    ensures Inv(v, w, origin)
  {
  }

  lemma NextKeepsLock(v: seq<nat>, w: World, w': World, i: nat, a: Action)
    requires IsPortVector(v) && LockOk(w) && Next(v, w, w', i, a)
    ensures LockOk(w')
  {
    var p' := w'.processes[i];
    assert HoldsLock(p') ==> HoldsLock(w.processes[i]) || !w.lockFile;
  }

  /** The other processes see no difference, or do not depend on what changed. */
  lemma OthersKeep(v: seq<nat>, w: World, w': World, origin: nat, i: nat, a: Action, j: nat)
    requires IsPortVector(v) && LockOk(w) && Next(v, w, w', i, a)
    requires j < |w.processes| && j != i && ProcessOk(v, w, origin, w.processes[j])
    ensures ProcessOk(v, w', origin, w'.processes[j])
  {
    if a.WriteFile? || a.RemoveLock? {
      assert HoldsLock(w.processes[i]);
      assert !HoldsLock(w.processes[j]);
    }
  }

  lemma ActorKeeps(v: seq<nat>, w: World, w': World, origin: nat, i: nat, a: Action)
    requires IsPortVector(v) && Inv(v, w, origin) && Next(v, w, w', i, a)
    ensures ProcessOk(v, w', origin, w'.processes[i])
    ensures ReadCounter(w'.counterFile) == Slot(origin, w'.used) && GrantsOk(v, w', origin)
  {
    assert ProcessOk(v, w, origin, w.processes[i]);
    if a.Bind? {
      SlotShift(origin, w.used, a.skipped);
      SlotShift(origin, w.used, a.skipped + 1);
    }
  }

  lemma NextKeepsInv(v: seq<nat>, w: World, w': World, origin: nat, i: nat, a: Action)
    requires IsPortVector(v) && Inv(v, w, origin) && Next(v, w, w', i, a)
    ensures Inv(v, w', origin)
  {
    NextKeepsLock(v, w, w', i, a);
    ActorKeeps(v, w, w', origin, i, a);
    forall j | 0 <= j < |w'.processes| ensures ProcessOk(v, w', origin, w'.processes[j]) {
      if j != i {
        OthersKeep(v, w, w', origin, i, a, j);
      }
    }
  }

  ghost predicate IsRun(v: seq<nat>, states: seq<World>, moves: seq<(nat, Action)>, origin: nat)
    requires IsPortVector(v)
  {
    && |states| == |moves| + 1 && Init(states[0], origin)
    && forall k :: 0 <= k < |moves| ==> Next(v, states[k], states[k + 1], moves[k].0, moves[k].1)
  }

  /** In every run and every state of it: the invariant. */
  lemma {:induction false} RunKeepsInv(v: seq<nat>, states: seq<World>, moves: seq<(nat, Action)>, origin: nat, k: nat)
    requires IsPortVector(v) && IsRun(v, states, moves, origin) && k < |states|
    ensures Inv(v, states[k], origin)
  {
    if k == 0 {
      InitInv(v, states[0], origin);
    } else {
      RunKeepsInv(v, states, moves, origin, k - 1);
      NextKeepsInv(v, states[k - 1], states[k], origin, moves[k - 1].0, moves[k - 1].1);
    }
  }

  /** At most one process is past the lock, in every interleaving. */
  lemma MutualExclusion(v: seq<nat>, states: seq<World>, moves: seq<(nat, Action)>, origin: nat, k: nat, i: nat, j: nat)
    requires IsPortVector(v) && IsRun(v, states, moves, origin) && k < |states|
    requires i < |states[k].processes| && j < |states[k].processes|
    requires HoldsLock(states[k].processes[i]) && HoldsLock(states[k].processes[j])
    ensures i == j && states[k].lockFile
  {
    RunKeepsInv(v, states, moves, origin, k);
  }

  lemma SameSlot(origin: nat, s: nat, t: nat)
    requires s < t
    ensures Slot(origin, s) == Slot(origin, t) <==> (t - s) % PORT_COUNT == 0
  {
    var a, d := origin + s, t - s;
    ModAdd(a, d);
    var r, e := a % PORT_COUNT, d % PORT_COUNT;
    ModAdd(d, r);
    assert (r + d) % PORT_COUNT == (e + r) % PORT_COUNT;
  }

  /**
   Two ports returned in the same run are equal exactly when the slots between them are a
   multiple of the vector's length; so they differ while fewer than 20000 slots were advanced.
   */
  lemma PortsUnique(v: seq<nat>, states: seq<World>, moves: seq<(nat, Action)>, origin: nat, k: nat, a: nat, b: nat)
    requires IsPortVector(v) && IsRun(v, states, moves, origin) && k < |states|
    requires a < b < |states[k].grants|
    ensures var x, y := states[k].grants[a], states[k].grants[b];
            && x.ticket < y.ticket
            && (x.port == y.port <==> (y.ticket - x.ticket) % PORT_COUNT == 0)
            && (y.ticket - x.ticket < PORT_COUNT ==> x.port != y.port)
  {
    RunKeepsInv(v, states, moves, origin, k);
    var x, y := states[k].grants[a], states[k].grants[b];
    SameSlot(origin, x.ticket, y.ticket);
    var i, j := Slot(origin, x.ticket), Slot(origin, y.ticket);
    assert i == j || v[i] != v[j];
  }

  /** Every port returned in any run lies in 10000..29999. */
  lemma PortsInRange(v: seq<nat>, states: seq<World>, moves: seq<(nat, Action)>, origin: nat, k: nat, a: nat)
    requires IsPortVector(v) && IsRun(v, states, moves, origin) && k < |states| && a < |states[k].grants|
    ensures 10000 <= states[k].grants[a].port <= 29999
  {
    RunKeepsInv(v, states, moves, origin, k);
  }
}
