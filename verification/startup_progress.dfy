/** Every start that is served often enough comes to its end, and the lock goes round. */
module StartupProgress {
  import opened Options
  import opened Startup

  predicate IsFinished(w: Worker) {
    w.phase.Passed? || w.phase.Failed?
  }

  ghost predicate AllFinished(s: State) {
    forall i | 0 <= i < |s.workers| :: IsFinished(s.workers[i])
  }

  /** An upper bound on the steps a worker still has to take. */
  function StepsLeft(phase: Phase): nat {
    match phase
    case Waiting => 8
    case Inspecting => 7
    case Altering => 6
    case CheckingTypes => 5
    case Seeding => 4
    case LookingUp => 3
    case Creating => 2
    case Promoting => 2
    case Releasing => 1
    case _ => 0
  }

  function TotalLeft(workers: seq<Worker>): nat {
    if workers == [] then 0
    else TotalLeft(workers[..|workers| - 1]) + StepsLeft(workers[|workers| - 1].phase)
  }

  lemma {:induction false} TotalChanges(workers: seq<Worker>, i: nat, w: Worker)
    requires i < |workers|
    ensures TotalLeft(workers[i := w]) + StepsLeft(workers[i].phase) == TotalLeft(workers) + StepsLeft(w.phase)
  {
    var n := |workers| - 1;
    if i == n {
      assert workers[i := w][..n] == workers[..n];
    } else {
      assert workers[i := w][..n] == workers[..n][i := w];
      TotalChanges(workers[..n], i, w);
    }
  }

  lemma {:induction false} TotalAtMost(workers: seq<Worker>)
    ensures TotalLeft(workers) <= 8 * |workers|
    ensures TotalLeft(workers) == 0 <==> forall i | 0 <= i < |workers| :: IsFinished(workers[i])
  {
    if workers != [] {
      TotalAtMost(workers[..|workers| - 1]);
      assert forall i | 0 <= i < |workers| - 1 :: workers[..|workers| - 1][i] == workers[i];
    }
  }

  lemma {:induction false} NextIsLess(s: State, setup: Setup, phase: Phase)
    requires IsInside(phase)
    ensures StepsLeft(NextPhase(s, setup, phase)) < StepsLeft(phase)
  {
  }

  /** A finished worker is left alone; any other one that is served moves on, or waits while another holds the lock. */
  lemma {:induction false} ServedWorkerMoves(s: State, setup: Setup, e: Event)
    requires LockInv(s) && e.worker < |s.workers|
    ensures var w, t := s.workers[e.worker], Step(s, setup, e);
            if IsFinished(w) || (w.phase.Waiting? && s.lock.Some? && !e.noLockFile && !e.killed) then t == s
            else
              && |t.workers| == |s.workers| && t.workers == s.workers[e.worker := t.workers[e.worker]]
              && StepsLeft(t.workers[e.worker].phase) < StepsLeft(w.phase)
  {
    var w := s.workers[e.worker];
    if w.phase.Failed? {
      assert s.workers[e.worker := Worker(Failed, false)] == s.workers;
    }
    if IsInside(w.phase) {
      NextIsLess(s, setup, w.phase);
      CommitsOnly(s, setup, w.phase);
    }
  }

  /** A killed worker fails and gives back the lock. */
  lemma {:induction false} KilledGivesBack(s: State, setup: Setup, e: Event)
    requires LockInv(s) && e.worker < |s.workers| && e.killed && !IsFinished(s.workers[e.worker])
    ensures var t := Step(s, setup, e);
            && t == s.(lock := t.lock, workers := s.workers[e.worker := Worker(Failed, false)])
            && t.lock == if s.lock == Some(e.worker) then None else s.lock
  {
  }

  /** An effective step lowers the bound. */
  lemma {:induction false} StaysOrLowers(s: State, setup: Setup, e: Event)
    requires LockInv(s)
    ensures var t := Step(s, setup, e); t == s || TotalLeft(t.workers) < TotalLeft(s.workers)
  {
    if e.worker < |s.workers| {
      ServedWorkerMoves(s, setup, e);
      TotalChanges(s.workers, e.worker, Step(s, setup, e).workers[e.worker]);
    }
  }

  /** While somebody has not finished, somebody can move: the holder of the lock, or anybody if it is free. */
  lemma {:induction false} SomebodyCanMove(s: State) returns (i: nat)
    requires LockInv(s) && HeldByWorker(s) && !AllFinished(s)
    ensures i < |s.workers| && !IsFinished(s.workers[i]) && (s.workers[i].phase.Waiting? ==> s.lock.None?)
  {
    if s.lock.Some? {
      i := s.lock.value;
    } else {
      i :| i < |s.workers| && !IsFinished(s.workers[i]);
    }
  }

  /** The lock is held by one of the workers, or free. */
  ghost predicate HeldByWorker(s: State) {
    s.lock.Some? ==> s.lock.value < |s.workers|
  }

  lemma {:induction false} HeldKept(s: State, setup: Setup, e: Event)
    requires HeldByWorker(s)
    ensures HeldByWorker(Step(s, setup, e)) && |Step(s, setup, e).workers| == |s.workers|
  {
  }

  lemma {:induction false} RunIsLocked(s0: State, setup: Setup, events: seq<Event>)
    requires LockInv(s0) && HeldByWorker(s0) && AllLock(events)
    ensures LockInv(Run(s0, setup, events)) && HeldByWorker(Run(s0, setup, events))
    ensures |Run(s0, setup, events).workers| == |s0.workers|
  {
    if events != [] {
      var front, e := events[..|events| - 1], events[|events| - 1];
      RunIsLocked(s0, setup, front);
      LockKept(Run(s0, setup, front), setup, e);
      HeldKept(Run(s0, setup, front), setup, e);
    }
  }

  /**
   * After any run of locked starts, kills included: unless all workers have finished, the next step of some worker
   * takes it on, and every step that changes anything lowers the number of steps still to come.
   */
  lemma {:induction false} LockedStartsNeverGetStuck(s0: State, setup: Setup, events: seq<Event>)
    requires IsInitial(s0) && AllLock(events)
    ensures var s := Run(s0, setup, events);
            && (AllFinished(s) || exists i: nat :: i < |s.workers| && Step(s, setup, Event(i, false, false)) != s)
            && forall e :: Step(s, setup, e) == s || TotalLeft(Step(s, setup, e).workers) < TotalLeft(s.workers)
  {
    RunIsLocked(s0, setup, events);
    var s := Run(s0, setup, events);
    if !AllFinished(s) {
      var i := SomebodyCanMove(s);
      ServedWorkerMoves(s, setup, Event(i, false, false));
    }
    forall e ensures Step(s, setup, e) == s || TotalLeft(Step(s, setup, e).workers) < TotalLeft(s.workers) {
      StaysOrLowers(s, setup, e);
    }
  }

  // ---- Schedules that serve everybody ----

  ghost predicate NoKillAndLock(events: seq<Event>) {
    NoneKilled(events) && AllLock(events)
  }

  ghost predicate Serves(round: seq<Event>, i: nat) {
    exists e :: e in round && e.worker == i
  }

  /** Every worker is served. */
  ghost predicate ServesAll(round: seq<Event>, workers: nat) {
    forall i: nat | i < workers :: Serves(round, i)
  }

  ghost predicate NothingMoves(s: State, setup: Setup, events: seq<Event>) {
    forall e | e in events :: Step(s, setup, e) == s
  }

  lemma {:induction false} NothingMovesLast(s: State, setup: Setup, events: seq<Event>)
    requires events != [] && NothingMoves(s, setup, events[..|events| - 1])
    requires Step(s, setup, events[|events| - 1]) == s
    ensures NothingMoves(s, setup, events)
  {
    assert events == events[..|events| - 1] + [events[|events| - 1]];
  }

  /** If the bound does not fall over a round, nothing happens in it. */
  lemma {:induction false} RoundStaysOrLowers(s: State, setup: Setup, round: seq<Event>)
    requires LockInv(s) && HeldByWorker(s) && AllLock(round)
    ensures var t := Run(s, setup, round);
            TotalLeft(t.workers) < TotalLeft(s.workers) || (t == s && NothingMoves(s, setup, round))
  {
    if round != [] {
      var front, e := round[..|round| - 1], round[|round| - 1];
      RoundStaysOrLowers(s, setup, front);
      RunIsLocked(s, setup, front);
      var u := Run(s, setup, front);
      StaysOrLowers(u, setup, e);
      if u == s && Step(u, setup, e) == u && NothingMoves(s, setup, front) {
        NothingMovesLast(s, setup, round);
      }
    }
  }

  lemma {:induction false} RoundLowers(s: State, setup: Setup, round: seq<Event>)
    requires LockInv(s) && HeldByWorker(s) && NoKillAndLock(round) && ServesAll(round, |s.workers|) && !AllFinished(s)
    ensures TotalLeft(Run(s, setup, round).workers) < TotalLeft(s.workers)
  {
    RoundStaysOrLowers(s, setup, round);
    var i := SomebodyCanMove(s);
    assert Serves(round, i);
    var e :| e in round && e.worker == i;
    assert !e.noLockFile && !e.killed;
    ServedWorkerMoves(s, setup, e);
  }

  function Flat(rounds: seq<seq<Event>>): seq<Event> {
    if rounds == [] then [] else Flat(rounds[..|rounds| - 1]) + rounds[|rounds| - 1]
  }

  lemma {:induction false} RunConcat(s: State, setup: Setup, a: seq<Event>, b: seq<Event>)
    ensures Run(s, setup, a + b) == Run(Run(s, setup, a), setup, b)
  {
    if b == [] {
      assert a + b == a;
    } else {
      var n := |b| - 1;
      assert (a + b)[..|a + b| - 1] == a + b[..n];
      RunConcat(s, setup, a, b[..n]);
    }
  }

  ghost predicate AreFair(rounds: seq<seq<Event>>, workers: nat) {
    forall round | round in rounds :: NoKillAndLock(round) && ServesAll(round, workers)
  }

  lemma {:induction false} FlatIsClean(rounds: seq<seq<Event>>, workers: nat)
    requires AreFair(rounds, workers)
    ensures NoKillAndLock(Flat(rounds))
  {
    if rounds != [] {
      FlatIsClean(rounds[..|rounds| - 1], workers);
      assert rounds[|rounds| - 1] in rounds;
    }
  }

  lemma {:induction false} RoundsLower(s0: State, setup: Setup, rounds: seq<seq<Event>>)
    requires IsInitial(s0) && AreFair(rounds, |s0.workers|)
    ensures var s := Run(s0, setup, Flat(rounds));
            AllFinished(s) || TotalLeft(s.workers) + |rounds| <= 8 * |s0.workers|
  {
    if rounds == [] {
      TotalAtMost(s0.workers);
    } else {
      var front, round := rounds[..|rounds| - 1], rounds[|rounds| - 1];
      RoundsLower(s0, setup, front);
      assert round in rounds;
      FlatIsClean(front, |s0.workers|);
      RunIsLocked(s0, setup, Flat(front));
      RunConcat(s0, setup, Flat(front), round);
      var s := Run(s0, setup, Flat(front));
      TotalAtMost(s.workers);
      TotalAtMost(Run(s, setup, round).workers);
      if AllFinished(s) {
        RoundStaysOrLowers(s, setup, round);
      } else {
        RoundLowers(s, setup, round);
      }
    }
  }

  lemma {:induction false} NoneFailedKept(s: State, setup: Setup, e: Event)
    requires PhasesInv(s, setup.admin) && NoneFailed(s) && !e.killed
    ensures NoneFailed(Step(s, setup, e))
  {
    forall i: nat | i < |s.workers| ensures !Step(s, setup, e).workers[i].phase.Failed? {
      SafeStep(s, setup, e, i);
    }
  }

  lemma {:induction false} NoneFails(s0: State, setup: Setup, events: seq<Event>)
    requires IsInitial(s0) && NoKillAndLock(events) && setup.defaults != map[]
    ensures NoneFailed(Run(s0, setup, events))
  {
    if events != [] {
      var front, e := events[..|events| - 1], events[|events| - 1];
      NoneFails(s0, setup, front);
      RunKeeps(s0, setup, front);
      NoneFailedKept(Run(s0, setup, front), setup, e);
    }
  }

  /**
   * A schedule of locked starts without kills that serves every worker again and again ends with every worker having
   * passed, after at most eight rounds for each.
   */
  lemma {:induction false} FairStartsAllPass(s0: State, setup: Setup, rounds: seq<seq<Event>>)
    requires IsInitial(s0) && setup.defaults != map[]
    requires AreFair(rounds, |s0.workers|) && |rounds| >= 8 * |s0.workers|
    ensures var s := Run(s0, setup, Flat(rounds));
            |s.workers| == |s0.workers| && forall i | 0 <= i < |s.workers| :: s.workers[i].phase == Passed
  {
    var s := Run(s0, setup, Flat(rounds));
    RoundsLower(s0, setup, rounds);
    FlatIsClean(rounds, |s0.workers|);
    RunIsLocked(s0, setup, Flat(rounds));
    NoneFails(s0, setup, Flat(rounds));
    TotalAtMost(s.workers);
    forall i | 0 <= i < |s.workers| ensures s.workers[i].phase == Passed {
      assert IsFinished(s.workers[i]) && !s.workers[i].phase.Failed?;
    }
  }
}
