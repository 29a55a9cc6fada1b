/** With which key, if any, each single worker ends, and why. */
module SecretKeyOutcomes {
  import opened Options
  import opened Strings
  import opened SecretKey

  // ---- Keys of a worker's own ----

  /** Whether event `k` of a run is an I/O failure of worker `i` while it publishes its token. */
  ghost predicate FailsToPublish(s: State, events: seq<Event>, i: nat, k: int) {
    && 0 <= k < |events| && events[k].worker == i && events[k].fails
    && i < |Run(s, events[..k]).workers|
    && var w := Run(s, events[..k]).workers[i]; w.Preparing? || w.Writing? || w.Linking? || w.Unlinking?
  }

  /** Whether worker `i` has been given the token by one of its own events. */
  ghost predicate WasGiven(events: seq<Event>, i: nat, token: string) {
    exists k :: 0 <= k < |events| && events[k].worker == i && events[k].token == token
  }

  lemma {:induction false} WasGivenMore(events: seq<Event>, i: nat, token: string)
    requires events != [] && WasGiven(events[..|events| - 1], i, token)
    ensures WasGiven(events, i, token)
  {
    var front := events[..|events| - 1];
    var k :| 0 <= k < |front| && front[k].worker == i && front[k].token == token;
    assert events[k] == front[k];
  }

  /** Every token that a worker carries is its own. */
  ghost predicate CarriesOwn(events: seq<Event>, i: nat, w: Worker) {
    match w
    case Preparing(generated) => WasGiven(events, i, generated)
    case Writing(generated, _) => WasGiven(events, i, generated)
    case Linking(generated, _) => WasGiven(events, i, generated)
    case Unlinking(generated, _) => WasGiven(events, i, generated)
    case ReadingBack(generated) => WasGiven(events, i, generated)
    case Ephemeral(key) => WasGiven(events, i, key)
    case _ => true
  }

  lemma {:induction false} CarriesOwnMore(events: seq<Event>, i: nat, w: Worker)
    requires events != [] && CarriesOwn(events[..|events| - 1], i, w)
    ensures CarriesOwn(events, i, w)
  {
    match w
    case Preparing(generated) => WasGivenMore(events, i, generated);
    case Writing(generated, _) => WasGivenMore(events, i, generated);
    case Linking(generated, _) => WasGivenMore(events, i, generated);
    case Unlinking(generated, _) => WasGivenMore(events, i, generated);
    case ReadingBack(generated) => WasGivenMore(events, i, generated);
    case Ephemeral(key) => WasGivenMore(events, i, key);
    case _ =>
  }

  /** A worker that falls back to an ephemeral key uses the token that it generated itself. */
  lemma {:induction false} EphemeralIsOwn(s: State, events: seq<Event>, i: nat)
    requires IsInitial(s) && i < |s.workers|
    ensures i < |Run(s, events).workers| && CarriesOwn(events, i, Run(s, events).workers[i])
  {
    if events != [] {
      var front, e := events[..|events| - 1], events[|events| - 1];
      var t := Run(s, front);
      EphemeralIsOwn(s, front, i);
      CarriesOwnMore(events, i, t.workers[i]);
      if e.worker == i {
        assert events[|events| - 1].worker == i;
        assert WasGiven(events, i, e.token);
      }
    }
  }

  /** Whether a worker has failed to publish. */
  predicate HasFallenBack(w: Worker) {
    w.Ephemeral? || (w.Unlinking? && w.link.LinkFailed?)
  }

  lemma {:induction false} FailureIsEarlier(s: State, events: seq<Event>, i: nat)
    requires events != []
    ensures var front := events[..|events| - 1];
            (exists k :: FailsToPublish(s, events, i, k))
            <==> FailsToPublish(s, events, i, |events| - 1) || exists k :: FailsToPublish(s, front, i, k)
  {
    var n := |events| - 1;
    forall k | 0 <= k < n
      ensures FailsToPublish(s, events, i, k) <==> FailsToPublish(s, events[..n], i, k)
    {
      assert events[..n][..k] == events[..k] && events[..n][k] == events[k];
    }
  }

  lemma {:induction false} FallsBackOnce(configured: string, file: Option<string>, w: Worker, e: Event)
    ensures HasFallenBack(Advance(configured, file, w, e).1)
            <==> HasFallenBack(w) || (e.fails && (w.Preparing? || w.Writing? || w.Linking? || w.Unlinking?))
  {
  }

  /** It falls back exactly when one of its own steps of publishing the token fails, never because of others. */
  lemma {:induction false} FallsBackIff(s: State, events: seq<Event>, i: nat)
    requires IsInitial(s) && i < |s.workers|
    ensures i < |Run(s, events).workers|
    ensures HasFallenBack(Run(s, events).workers[i]) <==> exists k :: FailsToPublish(s, events, i, k)
  {
    if events != [] {
      var front, e := events[..|events| - 1], events[|events| - 1];
      var t := Run(s, front);
      FallsBackIff(s, front, i);
      FailureIsEarlier(s, events, i);
      FallsBackOnce(t.configured, t.file, t.workers[i], e);
    }
  }

  /** Whether event `k` is a failure of worker `i` to read back the key that another one has published. */
  ghost predicate FailsToReadBack(s: State, events: seq<Event>, i: nat, k: int) {
    && 0 <= k < |events| && events[k].worker == i && events[k].fails
    && i < |Run(s, events[..k]).workers| && Run(s, events[..k]).workers[i].ReadingBack?
  }

  /** A worker that reads back has met the file of another one, and that stays. */
  ghost predicate FileIsThere(s: State) {
    forall i | 0 <= i < |s.workers| ::
      s.workers[i].ReadingBack? || (s.workers[i].Unlinking? && s.workers[i].link.AlreadyThere?) ==> s.file.Some?
  }

  lemma {:induction false} FileStaysThere(s: State, events: seq<Event>)
    requires IsInitial(s)
    ensures FileIsThere(Run(s, events)) && |Run(s, events).workers| == |s.workers|
  {
    if events != [] {
      FileStaysThere(s, events[..|events| - 1]);
    }
  }

  lemma {:induction false} ReadBackFailureIsEarlier(s: State, events: seq<Event>, i: nat)
    requires events != []
    ensures var front := events[..|events| - 1];
            (exists k :: FailsToReadBack(s, events, i, k))
            <==> FailsToReadBack(s, events, i, |events| - 1) || exists k :: FailsToReadBack(s, front, i, k)
  {
    var n := |events| - 1;
    forall k | 0 <= k < n
      ensures FailsToReadBack(s, events, i, k) <==> FailsToReadBack(s, events[..n], i, k)
    {
      assert events[..n][..k] == events[..k] && events[..n][k] == events[k];
    }
  }

  lemma {:induction false} CrashesOnce(configured: string, file: Option<string>, w: Worker, e: Event)
    requires w.ReadingBack? ==> file.Some?
    ensures Advance(configured, file, w, e).1.Crashed? <==> w.Crashed? || (w.ReadingBack? && e.fails)
  {
  }

  /** It crashes exactly when it fails to read back the key of another worker. */
  lemma {:induction false} CrashesIff(s: State, events: seq<Event>, i: nat)
    requires IsInitial(s) && i < |s.workers|
    ensures i < |Run(s, events).workers|
    ensures Run(s, events).workers[i].Crashed? <==> exists k :: FailsToReadBack(s, events, i, k)
  {
    if events != [] {
      var front, e := events[..|events| - 1], events[|events| - 1];
      var t := Run(s, front);
      CrashesIff(s, front, i);
      FileStaysThere(s, front);
      ReadBackFailureIsEarlier(s, events, i);
      CrashesOnce(t.configured, t.file, t.workers[i], e);
    }
  }

  // ---- Keys that are there ----

  /** A configured key is returned after one step, and a key in the file after two that do not fail. */
  lemma {:induction false} KnownKeyIsReturned(s: State, events: seq<Event>, i: nat)
    requires IsInitial(s) && i < |s.workers| && AreTokens(events)
    ensures |Run(s, events).workers| == |s.workers|
    ensures s.configured != "" && OwnSteps(events, i) >= 1 ==> Run(s, events).workers[i] == Done(s.configured)
    ensures s.configured == "" && s.file.Some? && !IsBlank(s.file.value) ==>
              Run(s, events).file == s.file
              && (OwnSteps(events, i) >= 2 && (forall e | e in events && e.worker == i :: !e.fails) ==>
                    Run(s, events).workers[i] == Done(Strip(s.file.value)))
  {
    FileStaysThere(s, events);
    if s.configured != "" {
      ConfiguredAfterOne(s, events, i);
    } else if s.file.Some? && !IsBlank(s.file.value) {
      RunKeeps(s, events);
      if forall e | e in events && e.worker == i :: !e.fails {
        FileKeyAfterTwo(s, events, i);
      }
    }
  }

  lemma {:induction false} ConfiguredAfterOne(s: State, events: seq<Event>, i: nat)
    requires IsInitial(s) && i < |s.workers| && s.configured != ""
    ensures |Run(s, events).workers| == |s.workers| && Run(s, events).configured == s.configured
    ensures Run(s, events).workers[i] == if OwnSteps(events, i) == 0 then Starting else Done(s.configured)
  {
    if events != [] {
      ConfiguredAfterOne(s, events[..|events| - 1], i);
    }
  }

  lemma {:induction false} FileKeyAfterTwo(s: State, events: seq<Event>, i: nat)
    requires IsInitial(s) && i < |s.workers| && AreTokens(events)
    requires s.configured == "" && s.file.Some? && !IsBlank(s.file.value)
    requires forall e | e in events && e.worker == i :: !e.fails
    ensures |Run(s, events).workers| == |s.workers|
    ensures Run(s, events).workers[i]
         == if OwnSteps(events, i) == 0 then Starting
            else if OwnSteps(events, i) == 1 then Reading
            else Done(Strip(s.file.value))
  {
    if events != [] {
      var front, e := events[..|events| - 1], events[|events| - 1];
      FileKeyAfterTwo(s, front, i);
      RunKeeps(s, front);
      StripBlank(s.file.value);
      assert e in events;
    }
  }
}
