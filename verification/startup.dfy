/** `lifespan` and `_initialize`: the one-time set-up of the database, serialised by a file lock. */
module Startup {
  import opened Options

  /** A row of the record type table, by name. */
  datatype RecordType = RecordType(enabled: bool, applicableTo: string)

  const DEFAULT_RECORD_TYPES: map<string, RecordType> := map[
    "A" := RecordType(true, "direct"),
    "AAAA" := RecordType(true, "direct"),
    "CAA" := RecordType(true, "direct"),
    "CNAME" := RecordType(true, "direct"),
    "DNAME" := RecordType(true, "both"),
    "LOC" := RecordType(true, "both"),
    "MX" := RecordType(true, "direct"),
    "NS" := RecordType(true, "both"),
    "PTR" := RecordType(true, "both"),
    "SOA" := RecordType(true, "both"),
    "SPF" := RecordType(true, "direct"),
    "SRV" := RecordType(true, "direct"),
    "TXT" := RecordType(true, "both")
  ]

  /** What the workers are to set up: the name of the administrator and the rows that seed an empty table. */
  datatype Setup = Setup(admin: string, defaults: map<string, RecordType>)

  /** Between two database or lock operations of a worker. `Failed` is a start that raised or was killed. */
  datatype Phase =
    | Waiting | Inspecting | Altering | CheckingTypes | Seeding | LookingUp | Creating | Promoting | Releasing
    | Passed | Failed

  datatype Worker = Worker(phase: Phase, holdsLock: bool)

  /**
   * `current` says whether the schema is at the latest revision. Of the rows only committed ones are here; a user is
   * its administrator flag. The counters count committed migrations, seedings and creations.
   */
  datatype State = State(lock: Option<nat>, current: bool, recordTypes: map<string, RecordType>,
                         users: map<string, bool>, workers: seq<Worker>,
                         migrations: nat, seedings: nat, creations: nat)

  /** `noLockFile`: the lock file cannot be opened; `killed`: the worker dies or an operation raises. */
  datatype Event = Event(worker: nat, noLockFile: bool, killed: bool)

  function Moved(s: State, i: nat, phase: Phase): State
    requires i < |s.workers|
  {
    s.(workers := s.workers[i := s.workers[i].(phase := phase)])
  }

  /** Leaving the `with` block, or dying in it, gives the lock back. */
  function Left(s: State, i: nat, phase: Phase): State
    requires i < |s.workers|
  {
    s.(lock := if s.workers[i].holdsLock then None else s.lock, workers := s.workers[i := Worker(phase, false)])
  }

  predicate IsInside(phase: Phase) {
    !phase.Waiting? && !phase.Passed? && !phase.Failed?
  }

  /** Where a worker that is inside goes: to `Failed` when what it found missing has been added meanwhile. */
  function NextPhase(s: State, setup: Setup, phase: Phase): Phase {
    match phase
    case Inspecting => if s.current then CheckingTypes else Altering
    case Altering => if s.current then Failed else CheckingTypes
    case CheckingTypes => if s.recordTypes == map[] then Seeding else LookingUp
    case Seeding => if s.recordTypes.Keys !! setup.defaults.Keys then LookingUp else Failed
    case LookingUp =>
      if setup.admin !in s.users then Creating else if !s.users[setup.admin] then Promoting else Releasing
    case Creating => if setup.admin in s.users then Failed else Releasing
    case Promoting => Releasing
    case Releasing => Passed
    case _ => phase
  }

  /** What it commits on the way. */
  function Committed(s: State, setup: Setup, phase: Phase): State {
    match phase
    case Altering => s.(current := true, migrations := s.migrations + 1)
    case Seeding => s.(recordTypes := s.recordTypes + setup.defaults, seedings := s.seedings + 1)
    case Creating => s.(users := s.users[setup.admin := true], creations := s.creations + 1)
    case Promoting => s.(users := s.users[setup.admin := true])
    case _ => s
  }

  function Step(s: State, setup: Setup, e: Event): State {
    if e.worker >= |s.workers| then s
    else
      var i := e.worker;
      var phase := s.workers[i].phase;
      if e.killed && !phase.Passed? then Left(s, i, Failed)
      else if phase.Waiting? then
        if e.noLockFile then Moved(s, i, Inspecting)
        else if s.lock.Some? then s
        else s.(lock := Some(i), workers := s.workers[i := Worker(Inspecting, true)])
      else
        var next := NextPhase(s, setup, phase);
        if !IsInside(phase) then s
        else if IsInside(next) then Moved(Committed(s, setup, phase), i, next)
        else Left(s, i, next)
  }

  function Run(s: State, setup: Setup, events: seq<Event>): State {
    if events == [] then s else Step(Run(s, setup, events[..|events| - 1]), setup, events[|events| - 1])
  }

  ghost predicate IsInitial(s: State) {
    && s.lock == None && s.migrations == 0 && s.seedings == 0 && s.creations == 0
    && forall i | 0 <= i < |s.workers| :: s.workers[i] == Worker(Waiting, false)
  }

  ghost predicate AllLock(events: seq<Event>) {
    forall e | e in events :: !e.noLockFile
  }

  // ---- The invariant ----

  /** Only the holder of the lock is inside. */
  ghost predicate LockInv(s: State) {
    forall i | 0 <= i < |s.workers| ::
      && (IsInside(s.workers[i].phase) <==> s.workers[i].holdsLock)
      && (s.workers[i].holdsLock <==> s.lock == Some(i))
  }

  /** What the phase of a worker says about the schema and the committed rows. */
  ghost predicate PhaseInv(s: State, admin: string, phase: Phase) {
    && (phase.Altering? ==> !s.current)
    && (phase in {CheckingTypes, Seeding, LookingUp, Creating, Promoting, Releasing, Passed} ==> s.current)
    && (phase.Seeding? ==> s.recordTypes == map[])
    && (phase in {LookingUp, Creating, Promoting, Releasing, Passed} ==> s.recordTypes != map[])
    && (phase.Creating? ==> admin !in s.users)
    && (phase.Promoting? ==> admin in s.users)
    && (phase in {Releasing, Passed} ==> admin in s.users && s.users[admin])
  }

  ghost predicate HasAdmin(users: map<string, bool>, admin: string) {
    admin in users && users[admin]
  }

  /** The rows are the initial ones, or those with the defaults and the administrator added. */
  ghost predicate RowsInv(s0: State, s: State, setup: Setup) {
    SchemaInv(s0, s) && TypesInv(s0, s, setup) && UsersInv(s0, s, setup)
  }

  ghost predicate SchemaInv(s0: State, s: State) {
    if s.migrations == 0 then s.current == s0.current else s.migrations == 1 && !s0.current && s.current
  }

  ghost predicate TypesInv(s0: State, s: State, setup: Setup) {
    if s.seedings == 0 then s.recordTypes == s0.recordTypes
    else s.seedings == 1 && s0.recordTypes == map[] && s.recordTypes == setup.defaults
  }

  ghost predicate UsersInv(s0: State, s: State, setup: Setup) {
    if s.creations == 0
    then s.users == s0.users || (setup.admin in s0.users && s.users == s0.users[setup.admin := true])
    else s.creations == 1 && setup.admin !in s0.users && s.users == s0.users[setup.admin := true]
  }

  ghost predicate PhasesInv(s: State, admin: string) {
    forall i | 0 <= i < |s.workers| :: PhaseInv(s, admin, s.workers[i].phase)
  }

  ghost predicate Inv(s0: State, s: State, setup: Setup) {
    LockInv(s) && RowsInv(s0, s, setup) && PhasesInv(s, setup.admin)
  }

  /** A step that does not take the lock moves one worker on, or has it leave and give back what it holds. */
  ghost predicate MovesOrLeaves(s: State, i: nat, t: State)
    requires i < |s.workers|
  {
    && |t.workers| == |s.workers| && t.workers == s.workers[i := t.workers[i]]
    && var was, now := s.workers[i], t.workers[i];
       || (t.lock == s.lock && now.holdsLock == was.holdsLock && IsInside(was.phase) && IsInside(now.phase))
       || (t.lock == (if was.holdsLock then None else s.lock) && !now.holdsLock && !IsInside(now.phase))
  }

  lemma {:induction false} CommitsOnly(s: State, setup: Setup, phase: Phase)
    ensures Committed(s, setup, phase).workers == s.workers && Committed(s, setup, phase).lock == s.lock
  {
  }

  lemma {:induction false} InsideMoves(s: State, setup: Setup, e: Event)
    requires e.worker < |s.workers| && IsInside(s.workers[e.worker].phase)
    ensures MovesOrLeaves(s, e.worker, Step(s, setup, e))
  {
    CommitsOnly(s, setup, s.workers[e.worker].phase);
  }

  lemma {:induction false} LockKept(s: State, setup: Setup, e: Event)
    requires LockInv(s) && !e.noLockFile
    ensures LockInv(Step(s, setup, e))
  {
    if e.worker < |s.workers| && IsInside(s.workers[e.worker].phase) {
      InsideMoves(s, setup, e);
    }
  }

  lemma {:induction false} SchemaKept(s0: State, s: State, setup: Setup, e: Event)
    requires SchemaInv(s0, s)
    requires e.worker < |s.workers| ==> PhaseInv(s, setup.admin, s.workers[e.worker].phase)
    ensures SchemaInv(s0, Step(s, setup, e))
  {
  }

  lemma {:induction false} TypesKept(s0: State, s: State, setup: Setup, e: Event)
    requires TypesInv(s0, s, setup) && setup.defaults != map[]
    requires e.worker < |s.workers| ==> PhaseInv(s, setup.admin, s.workers[e.worker].phase)
    ensures TypesInv(s0, Step(s, setup, e), setup)
  {
    assert map[] + setup.defaults == setup.defaults;
  }

  lemma {:induction false} UsersKept(s0: State, s: State, setup: Setup, e: Event)
    requires UsersInv(s0, s, setup)
    requires e.worker < |s.workers| ==> PhaseInv(s, setup.admin, s.workers[e.worker].phase)
    ensures UsersInv(s0, Step(s, setup, e), setup)
  {
  }

  lemma {:induction false} RowsKept(s0: State, s: State, setup: Setup, e: Event)
    requires RowsInv(s0, s, setup) && PhasesInv(s, setup.admin) && setup.defaults != map[]
    ensures RowsInv(s0, Step(s, setup, e), setup)
  {
    SchemaKept(s0, s, setup, e);
    TypesKept(s0, s, setup, e);
    UsersKept(s0, s, setup, e);
  }

  /** A current schema, seeded rows and the administrator stay. */
  lemma {:induction false} RowsStay(s: State, setup: Setup, e: Event)
    ensures s.current ==> Step(s, setup, e).current
    ensures s.recordTypes != map[] ==> Step(s, setup, e).recordTypes != map[]
    ensures HasAdmin(s.users, setup.admin) ==> HasAdmin(Step(s, setup, e).users, setup.admin)
  {
    if name :| name in s.recordTypes {
      assert name in Step(s, setup, e).recordTypes;
    }
  }

  lemma {:induction false} NextPhaseSound(s: State, setup: Setup, phase: Phase)
    requires PhaseInv(s, setup.admin, phase) && IsInside(phase) && setup.defaults != map[]
    ensures var next := NextPhase(s, setup, phase);
            PhaseInv(if IsInside(next) then Committed(s, setup, phase) else s, setup.admin, next)
  {
    assert map[] + setup.defaults == setup.defaults;
  }

  lemma {:induction false} MoverKept(s: State, setup: Setup, e: Event)
    requires e.worker < |s.workers| && PhaseInv(s, setup.admin, s.workers[e.worker].phase) && setup.defaults != map[]
    ensures var next := Step(s, setup, e);
            |next.workers| == |s.workers| && PhaseInv(next, setup.admin, next.workers[e.worker].phase)
  {
    var phase := s.workers[e.worker].phase;
    if IsInside(phase) {
      NextPhaseSound(s, setup, phase);
    }
  }

  lemma {:induction false} OtherKept(s: State, setup: Setup, e: Event, i: nat)
    requires LockInv(s) && i < |s.workers| && i != e.worker && PhaseInv(s, setup.admin, s.workers[i].phase)
    ensures var next := Step(s, setup, e);
            |next.workers| == |s.workers| && PhaseInv(next, setup.admin, next.workers[i].phase)
  {
    RowsStay(s, setup, e);
    var next := Step(s, setup, e);
    assert |next.workers| == |s.workers| && next.workers[i] == s.workers[i];
    if e.worker < |s.workers| && !IsInside(s.workers[e.worker].phase) {
      assert next.current == s.current && next.recordTypes == s.recordTypes && next.users == s.users;
    } else if e.worker < |s.workers| {
      assert !s.workers[i].holdsLock;
    }
  }

  lemma {:induction false} PhasesKept(s: State, setup: Setup, e: Event)
    requires LockInv(s) && PhasesInv(s, setup.admin) && setup.defaults != map[]
    ensures PhasesInv(Step(s, setup, e), setup.admin)
  {
    if e.worker < |s.workers| {
      MoverKept(s, setup, e);
      forall i: nat | i < |s.workers| && i != e.worker
        ensures PhaseInv(Step(s, setup, e), setup.admin, Step(s, setup, e).workers[i].phase)
      {
        OtherKept(s, setup, e, i);
      }
    }
  }

  lemma {:induction false} RunKeeps(s0: State, setup: Setup, events: seq<Event>)
    requires IsInitial(s0) && AllLock(events) && setup.defaults != map[]
    ensures Inv(s0, Run(s0, setup, events), setup)
  {
    if events != [] {
      var s, e := Run(s0, setup, events[..|events| - 1]), events[|events| - 1];
      RunKeeps(s0, setup, events[..|events| - 1]);
      LockKept(s, setup, e);
      RowsKept(s0, s, setup, e);
      PhasesKept(s, setup, e);
    }
  }

  // ---- Exactly once ----

  ghost predicate AtMostOneInside(s: State) {
    forall i, j | 0 <= i < j < |s.workers| :: !(IsInside(s.workers[i].phase) && IsInside(s.workers[j].phase))
  }

  ghost predicate SomePassed(s: State) {
    exists i | 0 <= i < |s.workers| :: s.workers[i].phase == Passed
  }

  /**
   * Over any interleaving in which every worker takes the lock: at most one worker is inside, and once one has
   * passed the schema was migrated exactly if it was not current, the record types were seeded exactly if the table
   * was empty, the administrator was created exactly if it was missing, it is one now, and no other row has changed.
   */
  lemma {:induction false} InitializedExactlyOnce(s0: State, setup: Setup, events: seq<Event>)
    requires IsInitial(s0) && AllLock(events) && setup.defaults == DEFAULT_RECORD_TYPES
    ensures var s := Run(s0, setup, events);
            && AtMostOneInside(s) && s.migrations <= 1 && s.seedings <= 1 && s.creations <= 1
            && (SomePassed(s) ==>
                  && s.current && s.migrations == (if s0.current then 0 else 1)
                  && s.seedings == (if s0.recordTypes == map[] then 1 else 0)
                  && s.recordTypes == (if s0.recordTypes == map[] then setup.defaults else s0.recordTypes)
                  && s.creations == (if setup.admin in s0.users then 0 else 1)
                  && s.users == s0.users[setup.admin := true])
  {
    assert "A" in setup.defaults;
    RunKeeps(s0, setup, events);
    var s := Run(s0, setup, events);
    if i :| 0 <= i < |s.workers| && s.workers[i].phase == Passed {
      assert PhaseInv(s, setup.admin, s.workers[i].phase);
      if setup.admin in s0.users && s.users == s0.users {
        assert s0.users == s0.users[setup.admin := true];
      }
    }
  }

  /** A worker that takes the lock never meets the rows of another one: it fails only when it is killed. */
  lemma {:induction false} OnlyKillsFail(s0: State, setup: Setup, events: seq<Event>, e: Event, i: nat)
    requires IsInitial(s0) && AllLock(events) && setup.defaults != map[] && !e.noLockFile && !e.killed
    requires i < |Run(s0, setup, events).workers| && !Run(s0, setup, events).workers[i].phase.Failed?
    ensures var next := Step(Run(s0, setup, events), setup, e);
            i < |next.workers| && !next.workers[i].phase.Failed?
  {
    RunKeeps(s0, setup, events);
    SafeStep(Run(s0, setup, events), setup, e, i);
  }

  lemma {:induction false} SafeStep(s: State, setup: Setup, e: Event, i: nat)
    requires PhasesInv(s, setup.admin) && !e.killed && i < |s.workers| && !s.workers[i].phase.Failed?
    ensures var next := Step(s, setup, e);
            i < |next.workers| && !next.workers[i].phase.Failed?
  {
    if e.worker == i {
      assert PhaseInv(s, setup.admin, s.workers[i].phase);
    }
  }

  // ---- Without the lock ----

  lemma {:induction false} RunOne(s0: State, setup: Setup, events: seq<Event>, e: Event)
    ensures Run(s0, setup, events + [e]) == Step(Run(s0, setup, events), setup, e)
  {
    assert (events + [e])[..|events|] == events;
  }

  ghost predicate NoneKilled(events: seq<Event>) {
    forall e | e in events :: !e.killed
  }

  ghost predicate NoneFailed(s: State) {
    forall i | 0 <= i < |s.workers| :: !s.workers[i].phase.Failed?
  }

  /** With a current schema, a seeded table and the administrator there, nobody gets to add anything. */
  ghost predicate NothingToAdd(s: State, admin: string) {
    && s.current && s.recordTypes != map[] && admin in s.users
    && forall i | 0 <= i < |s.workers| :: s.workers[i].phase !in {Altering, Seeding, Creating, Failed}
  }

  lemma {:induction false} NothingToAddKept(s: State, setup: Setup, e: Event)
    requires NothingToAdd(s, setup.admin) && !e.killed
    ensures NothingToAdd(Step(s, setup, e), setup.admin)
  {
  }

  /** A worker that starts alone meets only its own rows. */
  ghost predicate Alone(s: State, admin: string) {
    && |s.workers| <= 1 && PhasesInv(s, admin) && NoneFailed(s)
  }

  lemma {:induction false} AloneKept(s: State, setup: Setup, e: Event)
    requires Alone(s, setup.admin) && setup.defaults != map[] && !e.killed
    ensures Alone(Step(s, setup, e), setup.admin)
  {
    if e.worker < |s.workers| {
      MoverKept(s, setup, e);
      SafeStep(s, setup, e, e.worker);
    }
  }

  /** Whether workers that may start without the lock cannot meet each other's changes. */
  predicate CannotCollide(s0: State, setup: Setup) {
    |s0.workers| < 2 || (s0.current && s0.recordTypes != map[] && setup.admin in s0.users)
  }

  lemma {:induction false} WithoutCollisionNoneFail(s0: State, setup: Setup, events: seq<Event>)
    requires IsInitial(s0) && setup.defaults != map[] && NoneKilled(events) && CannotCollide(s0, setup)
    ensures NoneFailed(Run(s0, setup, events))
    ensures if |s0.workers| < 2 then Alone(Run(s0, setup, events), setup.admin)
            else NothingToAdd(Run(s0, setup, events), setup.admin)
  {
    if events != [] {
      var front, e := events[..|events| - 1], events[|events| - 1];
      WithoutCollisionNoneFail(s0, setup, front);
      assert !e.killed;
      if |s0.workers| < 2 {
        AloneKept(Run(s0, setup, front), setup, e);
      } else {
        NothingToAddKept(Run(s0, setup, front), setup, e);
      }
    }
  }

  /** The state with one worker at a phase, outside the lock. */
  function With(s: State, i: nat, phase: Phase): State
    requires i < |s.workers|
  {
    s.(workers := s.workers[i := Worker(phase, false)])
  }

  ghost predicate IsUnlocked(s: State, e: Event) {
    e.worker < |s.workers| && e.noLockFile && !e.killed
  }

  lemma {:induction false} UnlockedSteps(s: State, setup: Setup, e: Event)
    requires IsUnlocked(s, e)
    ensures Step(With(s, e.worker, Waiting), setup, e) == With(s, e.worker, Inspecting)
    ensures Step(With(s, e.worker, Inspecting), setup, e)
         == With(s, e.worker, if s.current then CheckingTypes else Altering)
    ensures Step(With(s, e.worker, CheckingTypes), setup, e)
         == With(s, e.worker, if s.recordTypes == map[] then Seeding else LookingUp)
    ensures setup.admin !in s.users ==>
              Step(With(s, e.worker, LookingUp), setup, e) == With(s, e.worker, Creating)
  {
  }

  /** A worker without the lock comes to the migration of an old schema in two steps. */
  lemma {:induction false} UnlockedFindsOldSchema(s0: State, setup: Setup, events: seq<Event>, s: State, e: Event)
    requires IsUnlocked(s, e) && !s.current && Run(s0, setup, events) == With(s, e.worker, Waiting)
    ensures Run(s0, setup, events + [e] + [e]) == With(s, e.worker, Altering)
    ensures NoneKilled(events) ==> NoneKilled(events + [e] + [e])
  {
    UnlockedSteps(s, setup, e);
    RunOne(s0, setup, events, e);
    RunOne(s0, setup, events + [e], e);
  }

  lemma {:induction false} UnlockedChecksTypes(s0: State, setup: Setup, events: seq<Event>, s: State, e: Event)
    requires IsUnlocked(s, e) && s.current && Run(s0, setup, events) == With(s, e.worker, Waiting)
    ensures Run(s0, setup, events + [e] + [e]) == With(s, e.worker, CheckingTypes)
  {
    UnlockedSteps(s, setup, e);
    RunOne(s0, setup, events, e);
    RunOne(s0, setup, events + [e], e);
  }

  /** It comes to the seeding of an empty table in three. */
  lemma {:induction false} UnlockedFindsNoTypes(s0: State, setup: Setup, events: seq<Event>, s: State, e: Event)
    requires IsUnlocked(s, e) && s.current && s.recordTypes == map[]
    requires Run(s0, setup, events) == With(s, e.worker, Waiting)
    ensures Run(s0, setup, events + [e] + [e] + [e]) == With(s, e.worker, Seeding)
    ensures NoneKilled(events) ==> NoneKilled(events + [e] + [e] + [e])
  {
    UnlockedSteps(s, setup, e);
    UnlockedChecksTypes(s0, setup, events, s, e);
    RunOne(s0, setup, events + [e] + [e], e);
  }

  /** It comes to the creation of a missing administrator in four. */
  lemma {:induction false} UnlockedFindsNoAdmin(s0: State, setup: Setup, events: seq<Event>, s: State, e: Event)
    requires IsUnlocked(s, e) && s.current && s.recordTypes != map[] && setup.admin !in s.users
    requires Run(s0, setup, events) == With(s, e.worker, Waiting)
    ensures Run(s0, setup, events + [e] + [e] + [e] + [e]) == With(s, e.worker, Creating)
    ensures NoneKilled(events) ==> NoneKilled(events + [e] + [e] + [e] + [e])
  {
    UnlockedSteps(s, setup, e);
    UnlockedChecksTypes(s0, setup, events, s, e);
    RunOne(s0, setup, events + [e] + [e], e);
    RunOne(s0, setup, events + [e] + [e] + [e], e);
  }

  lemma {:induction false} AllWait(s0: State, i: nat)
    requires IsInitial(s0) && i < |s0.workers|
    ensures With(s0, i, Waiting) == s0
  {
    assert s0.workers[i := Worker(Waiting, false)] == s0.workers;
  }

  /** Whether there is something to add at a phase, and whether adding it would fail. */
  predicate IsMissing(s: State, setup: Setup, phase: Phase) {
    match phase
    case Altering => !s.current
    case Seeding => s.recordTypes.Keys !! setup.defaults.Keys
    case Creating => setup.admin !in s.users
    case _ => false
  }

  lemma {:induction false} WinnerAdds(s: State, setup: Setup, phase: Phase)
    requires |s.workers| >= 2 && s.workers[0] == Worker(phase, false) && s.workers[1] == Worker(phase, false)
    requires setup.defaults != map[] && IsMissing(s, setup, phase)
    ensures var t := Step(s, setup, Event(0, true, false));
            |t.workers| >= 2 && t.workers[1] == Worker(phase, false) && !IsMissing(t, setup, phase)
  {
    if phase.Seeding? {
      Overlap(s.recordTypes, setup.defaults);
    }
  }

  lemma {:induction false} LoserFails(s: State, setup: Setup, phase: Phase)
    requires |s.workers| >= 2 && s.workers[1] == Worker(phase, false) && phase in {Altering, Seeding, Creating}
    requires !IsMissing(s, setup, phase)
    ensures var t := Step(s, setup, Event(1, true, false));
            |t.workers| >= 2 && t.workers[1].phase.Failed?
  {
  }

  /** Of two workers at the same phase the second one moves on to the other's changes. */
  lemma {:induction false} BothAt(s0: State, setup: Setup, events: seq<Event>, phase: Phase)
    requires |s0.workers| >= 2 && setup.defaults != map[] && phase in {Altering, Seeding, Creating}
    requires Run(s0, setup, events) == With(With(s0, 0, phase), 1, phase) && IsMissing(s0, setup, phase)
    ensures var end := Run(s0, setup, events + [Event(0, true, false)] + [Event(1, true, false)]);
            |end.workers| >= 2 && end.workers[1].phase.Failed?
  {
    var a, b := Event(0, true, false), Event(1, true, false);
    var s := With(With(s0, 0, phase), 1, phase);
    WinnerAdds(s, setup, phase);
    LoserFails(Step(s, setup, a), setup, phase);
    RunOne(s0, setup, events, a);
    RunOne(s0, setup, events + [a], b);
  }

  lemma {:induction false} Overlap(rows: map<string, RecordType>, defaults: map<string, RecordType>)
    requires defaults != map[]
    ensures !((rows + defaults).Keys !! defaults.Keys)
  {
    var name :| name in defaults;
    assert name in (rows + defaults).Keys;
  }

  lemma {:induction false} SecondWaits(s0: State, phase: Phase)
    requires IsInitial(s0) && |s0.workers| >= 2
    ensures With(With(s0, 0, phase), 1, Waiting) == With(s0, 0, phase)
  {
    assert With(s0, 0, phase).workers[1 := Worker(Waiting, false)] == With(s0, 0, phase).workers;
  }

  lemma {:induction false} BothMigrate(s0: State, setup: Setup) returns (events: seq<Event>)
    requires IsInitial(s0) && |s0.workers| >= 2 && !s0.current
    ensures NoneKilled(events)
    ensures Run(s0, setup, events) == With(With(s0, 0, Altering), 1, Altering)
  {
    var a, b := Event(0, true, false), Event(1, true, false);
    AllWait(s0, 0);
    UnlockedFindsOldSchema(s0, setup, [], s0, a);
    SecondWaits(s0, Altering);
    UnlockedFindsOldSchema(s0, setup, [] + [a] + [a], With(s0, 0, Altering), b);
    events := [] + [a] + [a] + [b] + [b];
  }

  lemma {:induction false} BothSeed(s0: State, setup: Setup) returns (events: seq<Event>)
    requires IsInitial(s0) && |s0.workers| >= 2 && s0.current && s0.recordTypes == map[]
    ensures NoneKilled(events)
    ensures Run(s0, setup, events) == With(With(s0, 0, Seeding), 1, Seeding)
  {
    var a, b := Event(0, true, false), Event(1, true, false);
    AllWait(s0, 0);
    UnlockedFindsNoTypes(s0, setup, [], s0, a);
    SecondWaits(s0, Seeding);
    UnlockedFindsNoTypes(s0, setup, [] + [a] + [a] + [a], With(s0, 0, Seeding), b);
    events := [] + [a] + [a] + [a] + [b] + [b] + [b];
  }

  lemma {:induction false} BothCreate(s0: State, setup: Setup) returns (events: seq<Event>)
    requires IsInitial(s0) && |s0.workers| >= 2 && s0.current && s0.recordTypes != map[] && setup.admin !in s0.users
    ensures NoneKilled(events)
    ensures Run(s0, setup, events) == With(With(s0, 0, Creating), 1, Creating)
  {
    var a, b := Event(0, true, false), Event(1, true, false);
    AllWait(s0, 0);
    UnlockedFindsNoAdmin(s0, setup, [], s0, a);
    SecondWaits(s0, Creating);
    var first := [] + [a] + [a] + [a] + [a];
    UnlockedFindsNoAdmin(s0, setup, first, With(s0, 0, Creating), b);
    events := first + [b] + [b] + [b] + [b];
  }

  /** Two workers that cannot take the lock can both find something missing; the second one then fails to start. */
  lemma {:induction false} UnlockedWorkerCanFail(s0: State, setup: Setup) returns (events: seq<Event>)
    requires IsInitial(s0) && setup.defaults != map[] && !CannotCollide(s0, setup)
    ensures NoneKilled(events) && !NoneFailed(Run(s0, setup, events))
  {
    if !s0.current {
      events := BothMigrate(s0, setup);
      BothAt(s0, setup, events, Altering);
    } else if s0.recordTypes == map[] {
      events := BothSeed(s0, setup);
      BothAt(s0, setup, events, Seeding);
    } else {
      events := BothCreate(s0, setup);
      BothAt(s0, setup, events, Creating);
    }
    events := events + [Event(0, true, false)] + [Event(1, true, false)];
    assert Run(s0, setup, events).workers[1].phase.Failed?;
  }

  /** Without a kill, and with or without the lock, no start ever fails exactly when there is nothing to collide on. */
  lemma {:induction false} StartCondition(s0: State, setup: Setup)
    requires IsInitial(s0) && setup.defaults != map[]
    ensures (forall events | NoneKilled(events) :: NoneFailed(Run(s0, setup, events))) <==> CannotCollide(s0, setup)
  {
    if CannotCollide(s0, setup) {
      forall events | NoneKilled(events) ensures NoneFailed(Run(s0, setup, events)) {
        WithoutCollisionNoneFail(s0, setup, events);
      }
    } else {
      var events := UnlockedWorkerCanFail(s0, setup);
    }
  }
}
