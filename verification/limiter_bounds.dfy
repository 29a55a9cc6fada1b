/** Consequences of the refinement: the window bound, isolation of keys, and Retry-After. */
module LimiterBounds {
  import opened RateLimiter
  import opened LimiterRuns
  import opened LimiterSkew

  // ---- Window safety ----

  lemma {:induction false} LiveIsWithin(history: Run, key: string, cutoff: real, now: real)
    requires UpTo(history, now)
    ensures |Live(history, key, cutoff)| == CountWithin(history, key, cutoff, now)
  {
    if history.Then? {
      LiveIsWithin(history.before, key, cutoff, now);
    }
  }

  /** No interval of one window length ever holds more admitted hits of a key than its limit. */
  lemma {:induction false} WindowSafety(policy: string -> Policy, run: Run, key: string, t: real)
    requires InOrder(run)
    ensures CountWithin(Admitted(policy, run), key, t - policy(key).window as real, t) <= Cap(policy(key).limit)
  {
    NoSkewIsInOrder(run);
    WindowSafetyWithSkew(policy, run, key, t, 0.0);
  }

  // ---- Isolation ----

  function OnlyKey(run: Run, key: string): Run {
    if run.Start? then Start
    else if run.last.key == key then Then(OnlyKey(run.before, key), run.last)
    else OnlyKey(run.before, key)
  }

  /** The verdicts given on the calls of one key. */
  function VerdictsOn(policy: string -> Policy, run: Run, key: string): seq<Verdict> {
    if run.Start? then []
    else if run.last.key == key
    then VerdictsOn(policy, run.before, key) + [CheckAfter(policy, run.before, run.last).1]
    else VerdictsOn(policy, run.before, key)
  }

  lemma {:induction false} OnlyKeyInOrder(run: Run, key: string, now: real)
    requires InOrder(run) && UpTo(run, now)
    ensures InOrder(OnlyKey(run, key)) && UpTo(OnlyKey(run, key), now)
  {
    if run.Then? {
      OnlyKeyInOrder(run.before, key, now);
      if run.last.key == key {
        OnlyKeyInOrder(run.before, key, run.last.now);
      }
    }
  }

  /** The verdicts on one key, and its admitted hits, are those it would get if no other key were ever checked. */
  lemma {:induction false} OtherKeysUnseen(policy: string -> Policy, run: Run, key: string)
    requires InOrder(run)
    ensures VerdictsOn(policy, run, key) == Verdicts(policy, OnlyKey(run, key))
    ensures OnlyKey(Admitted(policy, run), key) == Admitted(policy, OnlyKey(run, key))
  {
    if run.Then? {
      OtherKeysUnseen(policy, run.before, key);
      if run.last.key == key {
        OnlyKeyInOrder(run.before, key, run.last.now);
        VerdictIsReference(policy, run.before, run.last);
        VerdictIsReference(policy, OnlyKey(run.before, key), run.last);
        LiveOnlyKey(Admitted(policy, run.before), key, run.last.now - policy(key).window as real);
      }
    }
  }

  lemma {:induction false} LiveOnlyKey(history: Run, key: string, cutoff: real)
    ensures Live(OnlyKey(history, key), key, cutoff) == Live(history, key, cutoff)
  {
    if history.Then? {
      LiveOnlyKey(history.before, key, cutoff);
    }
  }

  // ---- Retry-After ----

  /** `later` continues `run`. */
  ghost predicate Continues(run: Run, later: Run) {
    later == run || (later.Then? && Continues(run, later.before))
  }

  /** Whether no check of `key` made between `run` and `later` is admitted. */
  ghost predicate NoneAdmitted(policy: string -> Policy, run: Run, later: Run, key: string)
    requires Continues(run, later)
  {
    later == run
    || (NoneAdmitted(policy, run, later.before, key)
        && (later.last.key == key ==> !CheckAfter(policy, later.before, later.last).1.Allowed?))
  }

  lemma {:induction false} LiveGrows(policy: string -> Policy, run: Run, later: Run, key: string, cutoff: real)
    requires Continues(run, later)
    ensures Live(Admitted(policy, run), key, cutoff) <= Live(Admitted(policy, later), key, cutoff)
    ensures NoneAdmitted(policy, run, later, key)
            ==> Live(Admitted(policy, run), key, cutoff) == Live(Admitted(policy, later), key, cutoff)
    decreases later
  {
    if later != run {
      LiveGrows(policy, run, later.before, key, cutoff);
    }
  }

  /** Moving the cutoff up keeps all hits if the oldest survives, and loses some if it does not. */
  lemma {:induction false} LiveTightens(history: Run, key: string, early: real, late: real)
    requires early <= late
    ensures var was, still := Live(history, key, early), Live(history, key, late);
            && |still| <= |was|
            && ((forall i | 0 <= i < |was| :: was[i] > late) ==> still == was)
            && (was != [] && was[0] <= late ==> |still| < |was|)
  {
    if history.Then? {
      LiveTightens(history.before, key, early, late);
      var front, was := Live(history.before, key, early), Live(history, key, early);
      assert forall i | 0 <= i < |front| :: front[i] == was[i];
      assert was != front ==> was[|front|] == history.last.now;
    }
  }

  lemma {:induction false} LiveSorted(history: Run, key: string, cutoff: real, now: real)
    requires InOrder(history) && UpTo(history, now)
    ensures var live := Live(history, key, cutoff);
            Sorted(live) && NoneAfter(live, now) && forall i | 0 <= i < |live| :: live[i] > cutoff
  {
    if history.Then? {
      LiveSorted(history.before, key, cutoff, history.last.now);
    }
  }

  lemma {:induction false} AdmittedInOrder(policy: string -> Policy, run: Run, now: real)
    requires InOrder(run) && UpTo(run, now)
    ensures InOrder(Admitted(policy, run)) && UpTo(Admitted(policy, run), now)
  {
    if run.Then? {
      AdmittedInOrder(policy, run.before, now);
      AdmittedInOrder(policy, run.before, run.last.now);
    }
  }

  /**
   * A check is allowed exactly while fewer admitted hits of its key than the limit lie in its window; it raises
   * exactly when the limit is zero or less.
   */
  lemma {:induction false} AllowedBelowLimit(policy: string -> Policy, run: Run, c: Call)
    requires InOrder(Then(run, c))
    ensures var p, verdict := policy(c.key), CheckAfter(policy, run, c).1;
            var hits := CountWithin(Admitted(policy, run), c.key, c.now - p.window as real, c.now);
            && (verdict.Allowed? <==> hits < p.limit)
            && (verdict.IndexError? <==> p.limit <= 0)
  {
    VerdictIsReference(policy, run, c);
    AdmittedInOrder(policy, run, c.now);
    WindowSafety(policy, run, c.key, c.now);
    LiveIsWithin(Admitted(policy, run), c.key, c.now - policy(c.key).window as real, c.now);
  }

  lemma {:induction false} RetryAfterNames(oldest: real, window: int, now: real)
    requires oldest > now - window as real
    ensures var r := RetryAfter(oldest, window, now);
            r >= 1 && now + (r - 1) as real <= oldest + window as real < now + r as real
  {
    var left := oldest + window as real - now;
    assert Truncate(left) as real <= left < (Truncate(left) + 1) as real;
  }

  /** The counted hits fill the limit exactly, and `r` whole seconds from `now` the first of them has just left. */
  ghost predicate RetryInBounds(p: Policy, live: seq<real>, now: real, r: int) {
    && |live| == p.limit >= 1
    && (forall i | 0 <= i < |live| :: live[0] <= live[i])
    && r >= 1
    && now + (r - 1) as real <= live[0] + p.window as real < now + r as real
  }

  /** On a denial the announced delay is at least one second and overshoots the oldest hit's end by at most one. */
  lemma {:induction false} RetryAfterBound(policy: string -> Policy, run: Run, c: Call)
    requires InOrder(Then(run, c)) && CheckAfter(policy, run, c).1.Denied?
    ensures RetryInBounds(policy(c.key), Live(Admitted(policy, run), c.key, c.now - policy(c.key).window as real),
                          c.now, CheckAfter(policy, run, c).1.retryAfter)
  {
    var history, start := Admitted(policy, run), c.now - policy(c.key).window as real;
    VerdictIsReference(policy, run, c);
    AdmittedInOrder(policy, run, c.now);
    WindowSafety(policy, run, c.key, c.now);
    LiveSorted(history, c.key, start, c.now);
    LiveIsWithin(history, c.key, start, c.now);
    RetryAfterNames(Live(history, c.key, start)[0], policy(c.key).window, c.now);
  }

  lemma {:induction false} ContinuesLater(run: Run, later: Run, now: real)
    requires Continues(run, later) && InOrder(later) && UpTo(later, now)
    ensures InOrder(run) && UpTo(run, now)
    decreases later
  {
    if later != run {
      ContinuesLater(run, later.before, now);
    }
  }

  /**
   * After a denial of `c`: every check of the key before the oldest counted hit leaves the window is denied, and
   * a check from the announced moment on is allowed if no other check of the key was admitted in between.
   */
  lemma {:induction false} RetryAfterIsEnough(policy: string -> Policy, run: Run, c: Call, later: Run, d: Call)
    requires InOrder(Then(later, d)) && Continues(Then(run, c), later) && d.key == c.key
    requires CheckAfter(policy, run, c).1.Denied?
    ensures var p := policy(c.key);
            var live := Live(Admitted(policy, run), c.key, c.now - p.window as real);
            var verdict := CheckAfter(policy, later, d).1;
            && live != []
            && (d.now < live[0] + p.window as real ==> verdict.Denied?)
            && (d.now >= c.now + CheckAfter(policy, run, c).1.retryAfter as real ==>
                  NoneAdmitted(policy, Then(run, c), later, c.key) ==> verdict.Allowed?)
  {
    var early, late := c.now - policy(c.key).window as real, d.now - policy(c.key).window as real;
    ContinuesLater(Then(run, c), later, d.now);
    RetryAfterBound(policy, run, c);
    VerdictIsReference(policy, later, d);
    LiveGrows(policy, Then(run, c), later, c.key, late);
    LiveTightens(Admitted(policy, run), c.key, early, late);
  }
}
