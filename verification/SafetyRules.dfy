/** Re-initialising the safety rules until their waypoint catches up, and retrying operations. */
module SafetyRules {
  import opened Prelude

  datatype Error =
    | NotInitialized
    | IncorrectEpoch
    | WaypointOutOfDate(prevVersion: nat, currVersion: nat, currentEpoch: nat, providedEpoch: nat)
    | InternalError
    | OtherError(code: nat)

  datatype Result<+T> = Ok(value: T) | Err(error: Error)

  /**
   The wrapped safety rules with inner state S, and the storage that serves epoch change proofs
   of type P: what each call answers and the inner state it leaves.
   */
  datatype Rules<!S, !P> = Rules(
    consensusState: S -> (S, Result<nat>),
    initialize: (S, P) -> (S, Result<()>),
    retrieveProof: nat -> Option<P>)

  predicate KeepsGoing(r: Result<()>) {
    r.Err? && r.error.WaypointOutOfDate? && r.error.prevVersion < r.error.currVersion
  }

  /** The loop cut off after n passes: the inner state, and the result if it has ended. */
  function Passes<S, P>(rules: Rules<S, P>, s: S, version: nat, n: nat): (S, Option<Result<()>>)
    decreases n
  {
    if n == 0 then (s, None)
    else
      var proof := rules.retrieveProof(version);
      if proof.None? then (s, Some(Err(InternalError)))
      else
        var (s', r) := rules.initialize(s, proof.value);
        if KeepsGoing(r) then Passes(rules, s', r.error.currVersion, n - 1) else (s', Some(r))
  }

  /** The versions for which the first n passes ask for proofs. */
  function Requests<S, P>(rules: Rules<S, P>, s: S, version: nat, n: nat): seq<nat>
    decreases n
  {
    if n == 0 then []
    else
      var proof := rules.retrieveProof(version);
      if proof.None? then [version]
      else
        var (s', r) := rules.initialize(s, proof.value);
        [version] + if KeepsGoing(r) then Requests(rules, s', r.error.currVersion, n - 1) else []
  }

  /** Re-initialising from inner state s ends, within n passes if the state query succeeds. */
  predicate InitEnds<S, P>(rules: Rules<S, P>, s: S, n: nat) {
    var (s', w) := rules.consensusState(s);
    w.Err? || Passes(rules, s', w.value, n).1.Some?
  }

  /** The inner state and result that re-initialising leaves. */
  function InitResult<S, P>(rules: Rules<S, P>, s: S, n: nat): (S, Result<()>)
    requires InitEnds(rules, s, n)
  {
    var (s', w) := rules.consensusState(s);
    if w.Err? then (s', Err(w.error))
    else
      var (s'', r) := Passes(rules, s', w.value, n);
      (s'', r.value)
  }

  function InitRequests<S, P>(rules: Rules<S, P>, s: S, n: nat): seq<nat> {
    var (s', w) := rules.consensusState(s);
    if w.Err? then [] else Requests(rules, s', w.value, n)
  }

  /** How a run of passes ends whose last pass asks for the proof of the given version. */
  ghost predicate EndsPasses<S(!new), P(!new)>(rules: Rules<S, P>, version: nat, s: S, r: Result<()>) {
    if rules.retrieveProof(version).None? then r == Err(InternalError)
    else
      && (exists before :: rules.initialize(before, rules.retrieveProof(version).value) == (s, r))
      && (r.Err? && r.error.WaypointOutOfDate? ==> r.error.currVersion <= r.error.prevVersion)
  }

  /** A failed query of the consensus state, as the result of re-initialising. */
  function NoState<S>(q: (S, Result<nat>)): (S, Result<()>) {
    (q.0, if q.1.Err? then Err(q.1.error) else Ok(()))
  }

  lemma {:induction false} PassesEndWell<S(!new), P(!new)>(rules: Rules<S, P>, s: S, version: nat, n: nat)
    requires Passes(rules, s, version, n).1.Some?
    ensures var (s', r), asked := Passes(rules, s, version, n), Requests(rules, s, version, n);
            asked != [] && EndsPasses(rules, asked[|asked| - 1], s', r.value)
    decreases n
  {
    var proof := rules.retrieveProof(version);
    if proof.Some? {
      var (s', r) := rules.initialize(s, proof.value);
      if KeepsGoing(r) {
        PassesEndWell(rules, s', r.error.currVersion, n - 1);
        var rest := Requests(rules, s', r.error.currVersion, n - 1);
        assert ([version] + rest)[|rest|] == rest[|rest| - 1];
      }
    }
  }

  predicate Recoverable<T>(r: Result<T>) {
    r.Err? && (r.error.NotInitialized? || r.error.IncorrectEpoch? || r.error.WaypointOutOfDate?)
  }

  /** What has been asked for, what is left, and all of it. */
  ghost predicate Asked(done: seq<nat>, rest: seq<nat>, all: seq<nat>) {
    all == done + rest
  }

  lemma AskedOne(done: seq<nat>, v: nat, all: seq<nat>)
    ensures forall rest :: Asked(done, [v] + rest, all) ==> Asked(done + [v], rest, all)
    ensures Asked(done, [v], all) ==> done + [v] == all
    ensures Asked(done, [v] + [], all) ==> done + [v] == all
  {
    forall rest: seq<nat> | Asked(done, [v] + rest, all) ensures Asked(done + [v], rest, all) {
      assert done + ([v] + rest) == (done + [v]) + rest;
    }
    assert [v] + [] == [v];
  }

  class MetricsSafetyRules<S(!new), P(!new)> {
    const rules: Rules<S, P>
    var inner: S

    constructor (rules: Rules<S, P>, inner: S)
      ensures this.rules == rules && this.inner == inner
    {
      this.rules := rules;
      this.inner := inner;
    }

    /**
     Initialises again and again while the reported waypoint rises. It is asked of the rules only
     that this ends at all; `requested` lists the versions for which proofs were asked. Ends with an
     internal error when the last proof is missing, and otherwise with what initialising with that
     proof answered, which is not a rise.
     */
    method PerformInitialize(ghost n: nat) returns (r: Result<()>, requested: seq<nat>)
      requires InitEnds(rules, inner, n)
      modifies this
      ensures (inner, r) == InitResult(rules, old(inner), n)
      ensures requested == InitRequests(rules, old(inner), n)
      ensures requested == [] ==> (inner, r) == NoState(rules.consensusState(old(inner)))
      ensures requested != [] ==> EndsPasses(rules, requested[|requested| - 1], inner, r)
    {
      var (s', w) := rules.consensusState(inner);
      inner := s';
      if w.Err? {
        return Err(w.error), [];
      }
      PassesEndWell(rules, s', w.value, n);
      r, requested := RunPasses(w.value, n);
    }

    /** The loop: a pass per version until the waypoint no longer rises. */
    method RunPasses(start: nat, ghost n: nat) returns (r: Result<()>, requested: seq<nat>)
      requires Passes(rules, inner, start, n).1.Some?
      modifies this
      ensures (inner, Some(r)) == Passes(rules, old(inner), start, n)
      ensures requested == Requests(rules, old(inner), start, n)
    {
      var version := start;
      requested := [];
      ghost var left := n;
      while true
        invariant Passes(rules, inner, version, left) == Passes(rules, old(inner), start, n)
        invariant Asked(requested, Requests(rules, inner, version, left), Requests(rules, old(inner), start, n))
        decreases left
      {
        AskedOne(requested, version, Requests(rules, old(inner), start, n));
        var proof := rules.retrieveProof(version);
        if proof.None? {
          return Err(InternalError), requested + [version];
        }
        var (next, result) := rules.initialize(inner, proof.value);
        if !KeepsGoing(result) {
          inner := next;
          return result, requested + [version];
        }
        inner := next;
        requested := requested + [version];
        version := result.error.currVersion;
        left := left - 1;
      }
    }

    /**
     Runs an operation; after one of the three recoverable errors it re-initialises and, if that
     succeeds, runs the operation once more.
     */
    method Retry<T>(f: S -> (S, Result<T>), ghost n: nat) returns (r: Result<T>, runs: nat)
      requires Recoverable(f(inner).1) ==> InitEnds(rules, f(inner).0, n)
      modifies this
      ensures 1 <= runs <= 2
      ensures var (s1, first) := f(old(inner));
              if first.Ok? || first.error.InternalError? || first.error.OtherError?
              then r == first && inner == s1 && runs == 1
              else
                var (s2, init) := InitResult(rules, s1, n);
                if init.Err? then r == Err(init.error) && inner == s2 && runs == 1
                else (inner, r) == f(s2) && runs == 2
    {
      var (s1, first) := f(inner);
      inner := s1;
      if Recoverable(first) {
        var result, requested := PerformInitialize(n);
        if result.Err? {
          return Err(result.error), 1;
        }
        var (s3, second) := f(inner);
        inner := s3;
        return second, 2;
      }
      r, runs := first, 1;
    }
  }

  // ---------------------------------------------------------------- when it ends

  /**
   The waypoint the rules hold: the consensus state reports it, an out-of-date report starts
   from it and leaves it at the version reported, and no proof leads beyond the bound.
   */
  ghost predicate Behaved<S(!new), P(!new)>(rules: Rules<S, P>, held: S -> nat, bound: nat) {
    && (forall s :: var (s', w) := rules.consensusState(s); w.Ok? ==> w.value == held(s'))
    && (forall s, p :: var (s', r) := rules.initialize(s, p);
          KeepsGoing(r) ==> r.error.prevVersion == held(s) && r.error.currVersion == held(s') <= bound)
  }

  predicate StrictlyRising(versions: seq<nat>) {
    forall i, j :: 0 <= i < j < |versions| ==> versions[i] < versions[j]
  }

  /** Behaved rules: the passes end, the versions asked for rise strictly and respect the bound. */
  lemma {:induction false} PassesEnd<S(!new), P(!new)>(rules: Rules<S, P>, held: S -> nat, bound: nat, s: S, n: nat)
    requires Behaved(rules, held, bound)
    ensures n > SaturatingSub(bound, held(s)) ==> Passes(rules, s, held(s), n).1.Some?
    ensures var asked := Requests(rules, s, held(s), n);
            && (n > 0 ==> asked != [] && asked[0] == held(s))
            && StrictlyRising(asked)
            && forall i :: 0 < i < |asked| ==> asked[i] <= bound
    decreases n
  {
    var proof := rules.retrieveProof(held(s));
    if n > 0 && proof.Some? {
      var (s', r) := rules.initialize(s, proof.value);
      if KeepsGoing(r) {
        PassesEnd(rules, held, bound, s', n - 1);
        RisesFrom(held(s), Requests(rules, s', held(s'), n - 1), bound);
      }
    }
  }

  lemma RisesFrom(v: nat, asked: seq<nat>, bound: nat)
    requires StrictlyRising(asked) && (asked != [] ==> v < asked[0] <= bound)
    requires forall i :: 0 < i < |asked| ==> asked[i] <= bound
    ensures StrictlyRising([v] + asked) && forall i :: 0 < i < |[v] + asked| ==> ([v] + asked)[i] <= bound
  {
    forall i, j | 0 <= i < j < |[v] + asked| ensures ([v] + asked)[i] < ([v] + asked)[j] {
      assert j == 1 || asked[0] < asked[j - 1];
    }
  }

  /** So re-initialising behaved rules always ends, within one pass more than the bound. */
  lemma InitializeEnds<S(!new), P(!new)>(rules: Rules<S, P>, held: S -> nat, bound: nat, s: S)
    requires Behaved(rules, held, bound)
    ensures InitEnds(rules, s, bound + 1)
    ensures var asked := InitRequests(rules, s, bound + 1);
            StrictlyRising(asked) && forall i :: 0 < i < |asked| ==> asked[i] <= bound
  {
    var (s', w) := rules.consensusState(s);
    if w.Ok? {
      PassesEnd(rules, held, bound, s', bound + 1);
    }
  }

  /** Rules that always report a rise from 0 to 1 keep the loop going forever. */
  lemma {:induction false} ConstantReportNeverEnds<S(!new), P(!new)>(rules: Rules<S, P>, s: S, version: nat, n: nat)
    requires forall v :: rules.retrieveProof(v).Some?
    requires forall t: S, p: P :: rules.initialize(t, p).1 == Err(WaypointOutOfDate(0, 1, 0, 0))
    ensures Passes(rules, s, version, n).1.None?
    decreases n
  {
    if n > 0 {
      var proof := rules.retrieveProof(version);
      var (s', r) := rules.initialize(s, proof.value);
      ConstantReportNeverEnds(rules, s', 1, n - 1);
    }
  }
}
