/** `_resolve_secret_key`: workers that start together agree on one signing key through a file and a hard link. */
module SecretKey {
  import opened Options
  import opened Strings

  datatype LinkResult = Linked | AlreadyThere | LinkFailed

  /** How far one worker has come. `Done` is a normal return, `Ephemeral` the return after an `OSError`. */
  datatype Worker =
    | Starting
    | Reading
    | Generating
    | Preparing(generated: string)
    | Writing(generated: string, tmp: string)
    | Linking(generated: string, tmp: string)
    | Unlinking(generated: string, link: LinkResult)
    | ReadingBack(generated: string)
    | Done(key: string)
    | Ephemeral(key: string)
    | Crashed

  /** `configured` is SECRET_KEY, empty when it is not set; `file` is the content of the key file. */
  datatype State = State(configured: string, file: Option<string>, workers: seq<Worker>)

  /** One step of a worker: whether the I/O it does fails, and the token it gets if it generates one. */
  datatype Event = Event(worker: nat, fails: bool, token: string)

  /** Where a worker goes from `w`, and the content of the key file afterwards. */
  function Advance(configured: string, file: Option<string>, w: Worker, e: Event): (Option<string>, Worker) {
    match w
    case Starting =>
      (file,
       if configured != "" then Done(configured)
       else if !e.fails && file.Some? then Reading
       else Generating)
    case Reading =>
      (file,
       if !e.fails && file.Some? && Strip(file.value) != "" then Done(Strip(file.value)) else Generating)
    case Generating => (file, Preparing(e.token))
    case Preparing(generated) => (file, if e.fails then Ephemeral(generated) else Writing(generated, ""))
    case Writing(generated, tmp) =>
      (file, if e.fails then Ephemeral(generated) else Linking(generated, tmp + generated))
    case Linking(generated, tmp) =>
      if e.fails then (file, Unlinking(generated, LinkFailed))
      else if file.Some? then (file, Unlinking(generated, AlreadyThere))
      else (Some(tmp), Unlinking(generated, Linked))
    case Unlinking(generated, link) =>
      (file,
       if e.fails || link.LinkFailed? then Ephemeral(generated)
       else if link.Linked? then Done(generated)
       else ReadingBack(generated))
    case ReadingBack(generated) =>
      (file,
       if e.fails || file.None? then Crashed
       else Done(if Strip(file.value) != "" then Strip(file.value) else generated))
    case _ => (file, w)
  }

  function Step(s: State, e: Event): State {
    if e.worker >= |s.workers| then s
    else
      var (file, w) := Advance(s.configured, s.file, s.workers[e.worker], e);
      s.(file := file, workers := s.workers[e.worker := w])
  }

  /** Any interleaving of the workers' steps. */
  function Run(s: State, events: seq<Event>): State {
    if events == [] then s else Step(Run(s, events[..|events| - 1]), events[|events| - 1])
  }

  ghost predicate IsInitial(s: State) {
    forall i | 0 <= i < |s.workers| :: s.workers[i] == Starting
  }

  /** `token_urlsafe` gives text that is not blank and has no space at its ends. */
  ghost predicate AreTokens(events: seq<Event>) {
    forall e | e in events :: IsTrimmed(e.token)
  }

  ghost predicate NotBlank(file: Option<string>) {
    file.Some? ==> !IsBlank(file.value)
  }

  // ---- Agreement ----

  /** What is known of one worker. */
  ghost predicate WorkerInv(configured: string, file: Option<string>, w: Worker) {
    match w
    case Starting => true
    case Preparing(generated) => IsTrimmed(generated)
    case Writing(generated, tmp) => IsTrimmed(generated) && tmp == ""
    case Linking(generated, tmp) => IsTrimmed(generated) && tmp == generated
    case Unlinking(generated, link) =>
      && IsTrimmed(generated)
      && (link.Linked? ==> file == Some(generated))
      && (link.AlreadyThere? ==> file.Some?)
    case ReadingBack(_) => file.Some?
    case Done(key) => if configured != "" then key == configured else file.Some? && key == Strip(file.value)
    case _ => true
  }

  ghost predicate Inv(s: State) {
    && NotBlank(s.file)
    && (forall i | 0 <= i < |s.workers| :: WorkerInv(s.configured, s.file, s.workers[i]))
    && (s.configured != "" ==> forall i | 0 <= i < |s.workers| :: s.workers[i].Starting? || s.workers[i].Done?)
  }

  lemma {:induction false} TrimmedIsItself(s: string)
    requires IsTrimmed(s)
    ensures Strip(s) == s && !IsBlank(s)
  {
    StripTrimmed("", s);
    assert "" + s == s;
  }

  lemma {:induction false} AdvanceKeeps(configured: string, file: Option<string>, w: Worker, e: Event)
    requires NotBlank(file) && WorkerInv(configured, file, w) && IsTrimmed(e.token)
    requires configured != "" ==> w.Starting? || w.Done?
    ensures var (file', w') := Advance(configured, file, w, e);
            && NotBlank(file') && WorkerInv(configured, file', w')
            && (configured != "" ==> w'.Starting? || w'.Done?)
            && (file.Some? ==> file' == file)
  {
    if file.Some? {
      StripBlank(file.value);
    }
    match w
    case Linking(generated, tmp) =>
      TrimmedIsItself(generated);
    case Unlinking(generated, link) =>
      TrimmedIsItself(generated);
    case _ =>
  }

  lemma {:induction false} StepKeeps(s: State, e: Event)
    requires Inv(s) && IsTrimmed(e.token)
    ensures Inv(Step(s, e)) && (s.file.Some? ==> Step(s, e).file == s.file)
  {
    if e.worker < |s.workers| {
      AdvanceKeeps(s.configured, s.file, s.workers[e.worker], e);
    }
  }

  /** Every interleaving keeps the invariant, and a published key is never replaced. */
  lemma {:induction false} RunKeeps(s: State, events: seq<Event>)
    requires Inv(s) && AreTokens(events)
    ensures Inv(Run(s, events)) && Run(s, events).configured == s.configured
    ensures s.file.Some? ==> Run(s, events).file == s.file
  {
    if events != [] {
      RunKeeps(s, events[..|events| - 1]);
      StepKeeps(Run(s, events[..|events| - 1]), events[|events| - 1]);
    }
  }

  /** All workers that return normally return the same key. */
  ghost predicate Agree(s: State) {
    forall i, j | 0 <= i < |s.workers| && 0 <= j < |s.workers| && s.workers[i].Done? && s.workers[j].Done? ::
      s.workers[i].key == s.workers[j].key
  }

  /** The key that counts: the configured one, else the published one. */
  ghost predicate Returns(s: State, key: string) {
    if s.configured != "" then key == s.configured else s.file.Some? && key == Strip(s.file.value)
  }

  /** Over any interleaving every worker that returns normally returns the configured or the published key. */
  lemma {:induction false} KeyAgreement(s: State, events: seq<Event>)
    requires IsInitial(s) && NotBlank(s.file) && AreTokens(events)
    ensures var end := Run(s, events);
            && Agree(end)
            && forall i | 0 <= i < |end.workers| && end.workers[i].Done? :: Returns(end, end.workers[i].key)
  {
    RunKeeps(s, events);
  }

  /** A later start finds the key that the first one used. */
  lemma {:induction false} LaterStartAgrees(s: State, events: seq<Event>, later: State, more: seq<Event>,
                                            i: nat, j: nat)
    requires IsInitial(s) && NotBlank(s.file) && AreTokens(events) && AreTokens(more)
    requires IsInitial(later) && later.configured == s.configured && later.file == Run(s, events).file
    requires i < |Run(s, events).workers| && Run(s, events).workers[i].Done?
    requires j < |Run(later, more).workers| && Run(later, more).workers[j].Done?
    ensures Run(later, more).workers[j].key == Run(s, events).workers[i].key
  {
    RunKeeps(s, events);
    RunKeeps(later, more);
  }

  // ---- Progress ----

  predicate IsFinished(w: Worker) {
    w.Done? || w.Ephemeral? || w.Crashed?
  }

  /** An upper bound on the steps a worker still has to take. */
  function StepsLeft(w: Worker): nat {
    match w
    case Starting => 8
    case Reading => 7
    case Generating => 6
    case Preparing(_) => 5
    case Writing(_, _) => 4
    case Linking(_, _) => 3
    case Unlinking(_, _) => 2
    case ReadingBack(_) => 1
    case _ => 0
  }

  lemma {:induction false} EveryStepAdvances(configured: string, file: Option<string>, w: Worker, e: Event)
    requires !IsFinished(w)
    ensures StepsLeft(Advance(configured, file, w, e).1) < StepsLeft(w)
    ensures StepsLeft(w) == 0 <==> IsFinished(w)
  {
  }

  /** How many of the events are steps of worker `i`. */
  function OwnSteps(events: seq<Event>, i: nat): nat {
    if events == [] then 0
    else OwnSteps(events[..|events| - 1], i) + if events[|events| - 1].worker == i then 1 else 0
  }

  lemma {:induction false} OwnStepsCount(s: State, events: seq<Event>, i: nat)
    requires i < |s.workers|
    ensures |Run(s, events).workers| == |s.workers|
    ensures StepsLeft(Run(s, events).workers[i]) + OwnSteps(events, i) <= StepsLeft(s.workers[i])
            || IsFinished(Run(s, events).workers[i])
  {
    if events != [] {
      var t, e := Run(s, events[..|events| - 1]), events[|events| - 1];
      OwnStepsCount(s, events[..|events| - 1], i);
      if e.worker == i && !IsFinished(t.workers[i]) {
        EveryStepAdvances(t.configured, t.file, t.workers[i], e);
      }
    }
  }

  /** Whatever the others do and whichever I/O fails, a worker has returned after eight steps of its own. */
  lemma {:induction false} ReturnsWithinEightSteps(s: State, events: seq<Event>, i: nat)
    requires i < |s.workers| && OwnSteps(events, i) >= 8
    ensures i < |Run(s, events).workers| && IsFinished(Run(s, events).workers[i])
  {
    OwnStepsCount(s, events, i);
  }

  ghost predicate NoFallback(s: State) {
    forall i | 0 <= i < |s.workers| ::
      && !s.workers[i].Ephemeral? && !s.workers[i].Crashed?
      && !(s.workers[i].Unlinking? && s.workers[i].link.LinkFailed?)
  }

  /** If no I/O fails, no worker ends with a key of its own or crashes. */
  lemma {:induction false} WithoutFailuresAllReturn(s: State, events: seq<Event>)
    requires IsInitial(s) && NotBlank(s.file) && AreTokens(events) && forall e | e in events :: !e.fails
    ensures NoFallback(Run(s, events))
    ensures forall i | 0 <= i < |Run(s, events).workers| && IsFinished(Run(s, events).workers[i]) ::
              Run(s, events).workers[i].Done?
  {
    if events != [] {
      WithoutFailuresAllReturn(s, events[..|events| - 1]);
      RunKeeps(s, events[..|events| - 1]);
      assert !events[|events| - 1].fails;
    }
  }

  // ---- A blank key file ----

  /** The steps of a worker that finds a key file it cannot use. */
  function Blocked(worker: nat, token: string): seq<Event> {
    var e := Event(worker, false, token);
    [e, e, e, e, e, e, e, e]
  }

  function With(s: State, worker: nat, w: Worker): State
    requires worker < |s.workers|
  {
    s.(workers := s.workers[worker := w])
  }

  /** One step of worker `e.worker` from `w` to `next` that leaves the file alone. */
  lemma {:induction false} RunOne(s: State, events: seq<Event>, e: Event, t: State, w: Worker, next: Worker)
    requires e.worker < |t.workers| && Run(s, events) == With(t, e.worker, w)
    requires Advance(t.configured, t.file, w, e) == (t.file, next)
    ensures Run(s, events + [e]) == With(t, e.worker, next)
  {
    assert (events + [e])[..|events|] == events;
  }

  ghost predicate IsBlocked(t: State, e: Event) {
    e.worker < |t.workers| && !e.fails && t.configured == "" && t.file.Some? && Strip(t.file.value) == ""
  }

  /** The way of a worker that finds a key file it cannot use. */
  lemma {:induction false} BlockedSteps(t: State, e: Event)
    requires IsBlocked(t, e)
    ensures Advance(t.configured, t.file, Starting, e) == (t.file, Reading)
    ensures Advance(t.configured, t.file, Reading, e) == (t.file, Generating)
    ensures Advance(t.configured, t.file, Generating, e) == (t.file, Preparing(e.token))
    ensures Advance(t.configured, t.file, Preparing(e.token), e) == (t.file, Writing(e.token, ""))
    ensures Advance(t.configured, t.file, Writing(e.token, ""), e) == (t.file, Linking(e.token, e.token))
    ensures Advance(t.configured, t.file, Linking(e.token, e.token), e) == (t.file, Unlinking(e.token, AlreadyThere))
    ensures Advance(t.configured, t.file, Unlinking(e.token, AlreadyThere), e) == (t.file, ReadingBack(e.token))
    ensures Advance(t.configured, t.file, ReadingBack(e.token), e) == (t.file, Done(e.token))
  {
    assert "" + e.token == e.token;
  }

  lemma {:induction false} BlockedTriesToLink(s: State, events: seq<Event>, t: State, e: Event)
    requires IsBlocked(t, e) && Run(s, events) == With(t, e.worker, Starting)
    ensures Run(s, events + [e] + [e] + [e] + [e]) == With(t, e.worker, Writing(e.token, ""))
  {
    BlockedSteps(t, e);
    RunOne(s, events, e, t, Starting, Reading);
    RunOne(s, events + [e], e, t, Reading, Generating);
    RunOne(s, events + [e] + [e], e, t, Generating, Preparing(e.token));
    RunOne(s, events + [e] + [e] + [e], e, t, Preparing(e.token), Writing(e.token, ""));
  }

  lemma {:induction false} BlockedFallsBack(s: State, events: seq<Event>, t: State, e: Event)
    requires IsBlocked(t, e) && Run(s, events) == With(t, e.worker, Writing(e.token, ""))
    ensures Run(s, events + [e] + [e] + [e] + [e]) == With(t, e.worker, Done(e.token))
  {
    BlockedSteps(t, e);
    RunOne(s, events, e, t, Writing(e.token, ""), Linking(e.token, e.token));
    RunOne(s, events + [e], e, t, Linking(e.token, e.token), Unlinking(e.token, AlreadyThere));
    RunOne(s, events + [e] + [e], e, t, Unlinking(e.token, AlreadyThere), ReadingBack(e.token));
    RunOne(s, events + [e] + [e] + [e], e, t, ReadingBack(e.token), Done(e.token));
  }

  lemma {:induction false} EightTimes(events: seq<Event>, worker: nat, token: string)
    ensures var e := Event(worker, false, token);
            events + Blocked(worker, token) == events + [e] + [e] + [e] + [e] + [e] + [e] + [e] + [e]
  {
  }

  /** With a blank file a worker fails to link, reads nothing back and keeps the token it generated. */
  lemma {:induction false} BlockedKeepsOwn(s: State, events: seq<Event>, t: State, worker: nat, token: string)
    requires worker < |t.workers| && Run(s, events) == With(t, worker, Starting)
    requires t.configured == "" && t.file.Some? && IsBlank(t.file.value)
    ensures Run(s, events + Blocked(worker, token)) == With(t, worker, Done(token))
  {
    var e := Event(worker, false, token);
    StripBlank(t.file.value);
    BlockedTriesToLink(s, events, t, e);
    var half := events + [e] + [e] + [e] + [e];
    BlockedFallsBack(s, half, t, e);
    EightTimes(events, worker, token);
  }

  /** Two workers that start on a blank file can end with different keys. */
  lemma {:induction false} BlankFileBreaksAgreement(s: State, k: string, l: string)
    requires IsInitial(s) && s.configured == "" && s.file.Some? && IsBlank(s.file.value) && |s.workers| >= 2
    requires IsTrimmed(k) && IsTrimmed(l) && k != l
    ensures var events := Blocked(0, k) + Blocked(1, l);
            AreTokens(events) && !Agree(Run(s, events))
  {
    assert s == With(s, 0, Starting) && [] + Blocked(0, k) == Blocked(0, k);
    BlockedKeepsOwn(s, [], s, 0, k);
    var t := With(s, 0, Done(k));
    assert t == With(t, 1, Starting);
    BlockedKeepsOwn(s, Blocked(0, k), t, 1, l);
    var end := Run(s, Blocked(0, k) + Blocked(1, l));
    assert end.workers[0] == Done(k) && end.workers[1] == Done(l);
  }

  /** Agreement is certain exactly when a key is configured or the key file does not start out blank. */
  lemma {:induction false} AgreementCondition(s: State)
    requires IsInitial(s) && |s.workers| >= 2
    ensures (forall events | AreTokens(events) :: Agree(Run(s, events))) <==> s.configured != "" || NotBlank(s.file)
  {
    if s.configured != "" {
      forall events | AreTokens(events) ensures Agree(Run(s, events)) {
        ConfiguredAgrees(s, events);
      }
    } else if NotBlank(s.file) {
      forall events | AreTokens(events) ensures Agree(Run(s, events)) {
        KeyAgreement(s, events);
      }
    } else {
      BlankFileBreaksAgreement(s, "a", "b");
    }
  }

  lemma {:induction false} ConfiguredAgrees(s: State, events: seq<Event>)
    requires IsInitial(s) && s.configured != ""
    ensures var end := Run(s, events);
            && end.configured == s.configured
            && forall i | 0 <= i < |end.workers| :: end.workers[i] == Starting || end.workers[i] == Done(s.configured)
  {
    if events != [] {
      ConfiguredAgrees(s, events[..|events| - 1]);
    }
  }
}
