/** Admission to the long poll: an atomic counter that requests bump, test and give back. */
module LongPoll {
  /** Where a request is; the counter operations are the single steps between places. */
  datatype Request =
    | Arrived
    | BackingOut      // counted, but over the limit: about to give the slot back
    | ShortPoll       // answers at once, not counted
    | Polling         // admitted and counted
    | Done

  datatype Server = Server(requests: seq<Request>, active: int)

  datatype Action = Enter | GiveBack | FinishLong | FinishShort

  /** Request i performs an action; maxActive is the configured number of connections. */
  predicate Next(maxActive: nat, s: Server, s': Server, i: nat, a: Action) {
    i < |s.requests| &&
    match a
    case Enter =>
      && s.requests[i].Arrived?
      && s' == Server(s.requests[i := if s.active >= maxActive then BackingOut else Polling], s.active + 1)
    case GiveBack => s.requests[i].BackingOut? && s' == Server(s.requests[i := ShortPoll], s.active - 1)
    case FinishLong => s.requests[i].Polling? && s' == Server(s.requests[i := Done], s.active - 1)
    case FinishShort => s.requests[i].ShortPoll? && s' == s.(requests := s.requests[i := Done])
  }

  function Count(rs: seq<Request>, which: Request): nat {
    if rs == [] then 0 else Count(rs[..|rs| - 1], which) + if rs[|rs| - 1] == which then 1 else 0
  }

  lemma {:induction false} CountUpdate(rs: seq<Request>, i: nat, r: Request, which: Request)
    requires i < |rs|
    ensures Count(rs[i := r], which) + (if rs[i] == which then 1 else 0) == Count(rs, which) + (if r == which then 1 else 0)
    decreases |rs|
  {
    var n := |rs| - 1;
    if i == n {
      assert rs[i := r][..n] == rs[..n];
    } else {
      CountUpdate(rs[..n], i, r, which);
      assert rs[i := r][..n] == rs[..n][i := r];
    }
  }

  lemma {:induction false} CountNone(rs: seq<Request>, which: Request)
    requires forall i :: 0 <= i < |rs| ==> rs[i] != which
    ensures Count(rs, which) == 0
  {
    if rs != [] {
      CountNone(rs[..|rs| - 1], which);
    }
  }

  /** The counter is the number of long polls plus requests about to back out. */
  predicate Inv(maxActive: nat, s: Server) {
    && s.active == Count(s.requests, Polling) + Count(s.requests, BackingOut)
    && Count(s.requests, Polling) <= maxActive
  }

  lemma NextKeepsInv(maxActive: nat, s: Server, s': Server, i: nat, a: Action)
    requires Inv(maxActive, s) && Next(maxActive, s, s', i, a)
    ensures Inv(maxActive, s')
  {
    CountUpdate(s.requests, i, s'.requests[i], Polling);
    CountUpdate(s.requests, i, s'.requests[i], BackingOut);
  }

  ghost predicate IsRun(maxActive: nat, states: seq<Server>, moves: seq<(nat, Action)>) {
    && |states| == |moves| + 1
    && states[0].active == 0 && (forall i :: 0 <= i < |states[0].requests| ==> states[0].requests[i] == Arrived)
    && forall k :: 0 <= k < |moves| ==> Next(maxActive, states[k], states[k + 1], moves[k].0, moves[k].1)
  }

  /** In every interleaving: the counter is exact and never more than the maximum poll at once. */
  lemma {:induction false} RunKeepsInv(maxActive: nat, states: seq<Server>, moves: seq<(nat, Action)>, k: nat)
    requires IsRun(maxActive, states, moves) && k < |states|
    ensures Inv(maxActive, states[k])
  {
    if k == 0 {
      CountNone(states[0].requests, Polling);
      CountNone(states[0].requests, BackingOut);
    } else {
      RunKeepsInv(maxActive, states, moves, k - 1);
      NextKeepsInv(maxActive, states[k - 1], states[k], moves[k - 1].0, moves[k - 1].1);
    }
  }

  /**
   A request is turned away exactly when long polls and requests still backing out together
   reach the maximum, so it can be turned away although fewer than the maximum are polling.
   */
  lemma TurnedAwayExactly(maxActive: nat, states: seq<Server>, moves: seq<(nat, Action)>, k: nat)
    requires IsRun(maxActive, states, moves) && k < |moves| && moves[k].1 == Enter
    ensures states[k + 1].requests[moves[k].0].BackingOut? <==>
            Count(states[k].requests, Polling) + Count(states[k].requests, BackingOut) >= maxActive
  {
    RunKeepsInv(maxActive, states, moves, k);
    assert Next(maxActive, states[k], states[k + 1], moves[k].0, moves[k].1);
  }

  /**
   Such a run with a maximum of one: request 0 polls, 1 is turned away, 0 finishes, and 2 is
   turned away although nobody polls, because 1 has not given its slot back yet.
   */
  lemma TurnedAwayWhileNobodyPolls() returns (states: seq<Server>, moves: seq<(nat, Action)>)
    ensures IsRun(1, states, moves) && |states| == 5
    ensures Count(states[3].requests, Polling) == 0 && moves[3] == (2, Enter) && states[4].requests[2] == BackingOut
  {
    states := [
      Server([Arrived, Arrived, Arrived], 0),
      Server([Polling, Arrived, Arrived], 1),
      Server([Polling, BackingOut, Arrived], 2),
      Server([Done, BackingOut, Arrived], 1),
      Server([Done, BackingOut, BackingOut], 2)];
    moves := [(0, Enter), (1, Enter), (0, FinishLong), (2, Enter)];
    assert Next(1, states[0], states[1], 0, Enter) && Next(1, states[1], states[2], 1, Enter);
    assert Next(1, states[2], states[3], 0, FinishLong) && Next(1, states[3], states[4], 2, Enter);
    CountNone(states[3].requests, Polling);
  }

  /** Once every request has finished, the counter is back at zero. */
  lemma DrainsToZero(maxActive: nat, states: seq<Server>, moves: seq<(nat, Action)>, k: nat)
    requires IsRun(maxActive, states, moves) && k < |states|
    requires forall i :: 0 <= i < |states[k].requests| ==> states[k].requests[i].Done?
    ensures states[k].active == 0
  {
    RunKeepsInv(maxActive, states, moves, k);
    CountNone(states[k].requests, Polling);
    CountNone(states[k].requests, BackingOut);
  }
}
