/** The refinement: over any run of checks the limiter behaves as one that never forgets a hit. */
module LimiterRuns {
  import opened RateLimiter

  /** The fixed limit and window under which every check of a key is made. */
  datatype Policy = Policy(limit: int, window: int)

  datatype Call = Call(key: string, now: real)

  /** Calls in the order in which they take the lock. */
  datatype Run = Start | Then(before: Run, last: Call)

  ghost predicate UpTo(run: Run, now: real) {
    run.Then? ==> run.last.now <= now && UpTo(run.before, now)
  }

  /** Clock readings do not go back. */
  ghost predicate InOrder(run: Run) {
    run.Then? ==> InOrder(run.before) && UpTo(run.before, run.last.now)
  }

  function StateAfter(policy: string -> Policy, run: Run): State
    decreases run, 0
  {
    if run.Start? then INITIAL else CheckAfter(policy, run.before, run.last).0
  }

  function CheckAfter(policy: string -> Policy, run: Run, c: Call): (State, Verdict)
    decreases run, 1
  {
    CheckEffect(StateAfter(policy, run), c.key, policy(c.key).limit, policy(c.key).window, c.now)
  }

  /** The verdict the limiter gives on each call. */
  function Verdicts(policy: string -> Policy, run: Run): seq<Verdict> {
    if run.Start? then [] else Verdicts(policy, run.before) + [CheckAfter(policy, run.before, run.last).1]
  }

  function Admitted(policy: string -> Policy, run: Run): Run {
    if run.Start? then Start
    else if CheckAfter(policy, run.before, run.last).1.Allowed? then Then(Admitted(policy, run.before), run.last)
    else Admitted(policy, run.before)
  }

  // ---- The reference: a limiter that keeps every admitted hit for ever ----

  /** The hits of `key` later than `cutoff`, oldest first. */
  function Live(history: Run, key: string, cutoff: real): seq<real> {
    if history.Start? then []
    else if history.last.key == key && history.last.now > cutoff
    then Live(history.before, key, cutoff) + [history.last.now]
    else Live(history.before, key, cutoff)
  }

  function ReferenceVerdict(policy: string -> Policy, history: Run, c: Call): Verdict {
    var p := policy(c.key);
    Judge(Live(history, c.key, c.now - p.window as real), p.limit, p.window, c.now)
  }

  /** What the reference limiter has admitted. */
  function ReferenceAdmitted(policy: string -> Policy, run: Run): Run {
    if run.Start? then Start
    else
      var history := ReferenceAdmitted(policy, run.before);
      if ReferenceVerdict(policy, history, run.last).Allowed? then Then(history, run.last) else history
  }

  function ReferenceVerdicts(policy: string -> Policy, run: Run): seq<Verdict> {
    if run.Start? then []
    else
      ReferenceVerdicts(policy, run.before)
      + [ReferenceVerdict(policy, ReferenceAdmitted(policy, run.before), run.last)]
  }

  // ---- Deques ----

  ghost predicate Sorted(hits: seq<real>) {
    forall i, j | 0 <= i < j < |hits| :: hits[i] <= hits[j]
  }

  ghost predicate NoneAfter(hits: seq<real>, now: real) {
    forall i | 0 <= i < |hits| :: hits[i] <= now
  }

  lemma {:induction false} EvictSuffix(hits: seq<real>, cutoff: real)
    ensures |Evict(hits, cutoff)| <= |hits|
    ensures Evict(hits, cutoff) == hits[|hits| - |Evict(hits, cutoff)|..]
  {
    if hits != [] && hits[0] <= cutoff {
      EvictSuffix(hits[1..], cutoff);
    }
  }

  lemma {:induction false} EvictTwice(hits: seq<real>, early: real, late: real)
    requires early <= late
    ensures Evict(Evict(hits, early), late) == Evict(hits, late)
  {
    if hits != [] && hits[0] <= early {
      EvictTwice(hits[1..], early, late);
    }
  }

  lemma {:induction false} EvictAll(hits: seq<real>, cutoff: real)
    requires NoneAfter(hits, cutoff)
    ensures Evict(hits, cutoff) == []
  {
    if hits != [] {
      EvictAll(hits[1..], cutoff);
    }
  }

  lemma {:induction false} EvictAppend(hits: seq<real>, now: real, cutoff: real)
    requires NoneAfter(hits, now)
    ensures Evict(hits + [now], cutoff) == if now > cutoff then Evict(hits, cutoff) + [now] else Evict(hits, cutoff)
  {
    if now <= cutoff {
      EvictAll(hits, cutoff);
      EvictAll(hits + [now], cutoff);
    } else if hits != [] && hits[0] <= cutoff {
      assert (hits + [now])[1..] == hits[1..] + [now];
      EvictAppend(hits[1..], now, cutoff);
    }
  }

  // ---- Refinement ----

  ghost predicate Orderly(policy: string -> Policy, s: State, now: real) {
    forall key | key in s.hits ::
      Sorted(s.hits[key]) && NoneAfter(s.hits[key], now) && policy(key).window as real <= s.maxWindow
  }

  /** At any cutoff a check could still use, a deque shows exactly what the full history shows. */
  ghost predicate Mirrors(window: int, bucket: seq<real>, history: Run, key: string, now: real) {
    forall cutoff | cutoff >= now - window as real :: Evict(bucket, cutoff) == Live(history, key, cutoff)
  }

  ghost predicate Tracks(policy: string -> Policy, s: State, history: Run, now: real) {
    && Orderly(policy, s, now)
    && forall key :: Mirrors(policy(key).window, Bucket(s.hits, key), history, key, now)
  }

  /** What a check makes of the deques before the sweep. */
  function Recorded(policy: string -> Policy, s: State, c: Call, allowed: bool): State {
    var live := Evict(Bucket(s.hits, c.key), c.now - policy(c.key).window as real);
    s.(hits := s.hits[c.key := if allowed then live + [c.now] else live],
       maxWindow := Larger(s.maxWindow, policy(c.key).window as real))
  }

  function Grown(history: Run, c: Call, allowed: bool): Run {
    if allowed then Then(history, c) else history
  }

  lemma {:induction false} RecordOrderly(policy: string -> Policy, s: State, c: Call, allowed: bool)
    requires Orderly(policy, s, c.now)
    ensures Orderly(policy, Recorded(policy, s, c, allowed), c.now)
  {
    EvictSuffix(Bucket(s.hits, c.key), c.now - policy(c.key).window as real);
  }

  lemma {:induction false} RecordMirrors(window: int, bucket: seq<real>, history: Run, c: Call, allowed: bool)
    requires NoneAfter(bucket, c.now) && Mirrors(window, bucket, history, c.key, c.now)
    ensures var live := Evict(bucket, c.now - window as real);
            Mirrors(window, if allowed then live + [c.now] else live, Grown(history, c, allowed), c.key, c.now)
  {
    var start := c.now - window as real;
    var live := Evict(bucket, start);
    var kept := if allowed then live + [c.now] else live;
    EvictSuffix(bucket, start);
    forall cutoff | cutoff >= start
      ensures Evict(kept, cutoff) == Live(Grown(history, c, allowed), c.key, cutoff)
    {
      EvictTwice(bucket, start, cutoff);
      EvictAppend(live, c.now, cutoff);
    }
  }

  lemma {:induction false} OtherMirrors(window: int, bucket: seq<real>, history: Run, c: Call, allowed: bool,
                                        key: string, now: real)
    requires key != c.key && Mirrors(window, bucket, history, key, now)
    ensures Mirrors(window, bucket, Grown(history, c, allowed), key, now)
  {
    forall cutoff | cutoff >= now - window as real
      ensures Evict(bucket, cutoff) == Live(Grown(history, c, allowed), key, cutoff)
    {
      assert Evict(bucket, cutoff) == Live(history, key, cutoff);
    }
  }

  lemma {:induction false} RecordMirrorsKey(policy: string -> Policy, s: State, history: Run, c: Call, allowed: bool,
                                            key: string)
    requires Orderly(policy, s, c.now) && Mirrors(policy(key).window, Bucket(s.hits, key), history, key, c.now)
    ensures Mirrors(policy(key).window, Bucket(Recorded(policy, s, c, allowed).hits, key),
                    Grown(history, c, allowed), key, c.now)
  {
    if key == c.key {
      RecordMirrors(policy(key).window, Bucket(s.hits, key), history, c, allowed);
    } else {
      OtherMirrors(policy(key).window, Bucket(s.hits, key), history, c, allowed, key, c.now);
    }
  }

  lemma {:induction false} RecordTracks(policy: string -> Policy, s: State, history: Run, c: Call, allowed: bool)
    requires Tracks(policy, s, history, c.now)
    ensures Tracks(policy, Recorded(policy, s, c, allowed), Grown(history, c, allowed), c.now)
  {
    RecordOrderly(policy, s, c, allowed);
    forall key
      ensures Mirrors(policy(key).window, Bucket(Recorded(policy, s, c, allowed).hits, key),
                      Grown(history, c, allowed), key, c.now)
    {
      RecordMirrorsKey(policy, s, history, c, allowed, key);
    }
  }

  lemma {:induction false} SweepTracks(policy: string -> Policy, s: State, history: Run, now: real)
    requires Tracks(policy, s, history, now)
    ensures Tracks(policy, SweepEffect(s, now), history, now)
  {
    var swept := SweepEffect(s, now);
    forall key
      ensures Mirrors(policy(key).window, Bucket(swept.hits, key), history, key, now)
    {
      assert Mirrors(policy(key).window, Bucket(s.hits, key), history, key, now);
      if key in s.hits && key !in swept.hits {
        forall cutoff | cutoff >= now - policy(key).window as real
          ensures Evict(s.hits[key], cutoff) == []
        {
          EvictAll(s.hits[key], cutoff);
        }
      }
    }
  }

  lemma {:induction false} TracksLater(policy: string -> Policy, s: State, history: Run, now: real, later: real)
    requires Tracks(policy, s, history, now) && now <= later
    ensures Tracks(policy, s, history, later)
  {
    forall key
      ensures Mirrors(policy(key).window, Bucket(s.hits, key), history, key, later)
    {
      assert Mirrors(policy(key).window, Bucket(s.hits, key), history, key, now);
    }
  }

  lemma {:induction false} CheckRecords(policy: string -> Policy, s: State, c: Call)
    ensures var (after, verdict) := CheckEffect(s, c.key, policy(c.key).limit, policy(c.key).window, c.now);
            after == if verdict.Allowed? then SweepEffect(Recorded(policy, s, c, true), c.now)
                     else Recorded(policy, s, c, false)
  {
  }

  lemma {:induction false} CheckTracks(policy: string -> Policy, s: State, history: Run, c: Call)
    requires Tracks(policy, s, history, c.now)
    ensures var (after, verdict) := CheckEffect(s, c.key, policy(c.key).limit, policy(c.key).window, c.now);
            && verdict == ReferenceVerdict(policy, history, c)
            && Tracks(policy, after, Grown(history, c, verdict.Allowed?), c.now)
  {
    var verdict := ReferenceVerdict(policy, history, c);
    assert Mirrors(policy(c.key).window, Bucket(s.hits, c.key), history, c.key, c.now);
    CheckRecords(policy, s, c);
    RecordTracks(policy, s, history, c, verdict.Allowed?);
    if verdict.Allowed? {
      SweepTracks(policy, Recorded(policy, s, c, true), Then(history, c), c.now);
    }
  }

  lemma {:induction false} RunTracks(policy: string -> Policy, run: Run, now: real)
    requires InOrder(run) && UpTo(run, now)
    ensures Tracks(policy, StateAfter(policy, run), Admitted(policy, run), now)
  {
    if run.Then? {
      RunTracks(policy, run.before, run.last.now);
      CheckTracks(policy, StateAfter(policy, run.before), Admitted(policy, run.before), run.last);
      TracksLater(policy, StateAfter(policy, run), Admitted(policy, run), run.last.now, now);
    }
  }

  /** Every verdict is the one the full history calls for. */
  lemma {:induction false} VerdictIsReference(policy: string -> Policy, run: Run, c: Call)
    requires InOrder(Then(run, c))
    ensures CheckAfter(policy, run, c).1 == ReferenceVerdict(policy, Admitted(policy, run), c)
  {
    RunTracks(policy, run, c.now);
    CheckTracks(policy, StateAfter(policy, run), Admitted(policy, run), c);
  }

  /** Lazy eviction and sweeping cannot be seen: verdicts and admissions are those of the limiter that never forgets. */
  lemma {:induction false} RefinesReference(policy: string -> Policy, run: Run)
    requires InOrder(run)
    ensures Verdicts(policy, run) == ReferenceVerdicts(policy, run)
    ensures Admitted(policy, run) == ReferenceAdmitted(policy, run)
  {
    if run.Then? {
      RefinesReference(policy, run.before);
      VerdictIsReference(policy, run.before, run.last);
    }
  }
}
