/** The window bound when clock readings, taken before the lock, reach the limiter late. */
module LimiterSkew {
  import opened RateLimiter
  import opened LimiterRuns

  /** How many hits of `key` lie in the half-open interval from `after` (excluded) to `upTo` (included). */
  function CountWithin(history: Run, key: string, after: real, upTo: real): nat {
    if history.Start? then 0
    else
      CountWithin(history.before, key, after, upTo)
      + if history.last.key == key && after < history.last.now <= upTo then 1 else 0
  }

  function Cap(limit: int): nat {
    if limit < 0 then 0 else limit
  }

  /** No reading lags more than `skew` behind an earlier one. */
  ghost predicate Nearly(run: Run, skew: real) {
    run.Then? ==> Nearly(run.before, skew) && UpTo(run.before, run.last.now + skew)
  }

  /** Readings without skew are in order. */
  lemma {:induction false} NoSkewIsInOrder(run: Run)
    ensures Nearly(run, 0.0) <==> InOrder(run)
  {
    if run.Then? {
      NoSkewIsInOrder(run.before);
    }
  }

  /** How many hits of a deque are later than `cutoff`. */
  function CountOver(hits: seq<real>, cutoff: real): nat {
    if hits == [] then 0
    else CountOver(hits[..|hits| - 1], cutoff) + if hits[|hits| - 1] > cutoff then 1 else 0
  }

  /** How many admitted hits of a key are later than `cutoff`. */
  function CountAfter(history: Run, key: string, cutoff: real): nat {
    if history.Start? then 0
    else CountAfter(history.before, key, cutoff) + if history.last.key == key && history.last.now > cutoff then 1 else 0
  }

  lemma {:induction false} OverAtMost(hits: seq<real>, cutoff: real)
    ensures CountOver(hits, cutoff) <= |hits|
  {
    if hits != [] {
      OverAtMost(hits[..|hits| - 1], cutoff);
    }
  }

  lemma {:induction false} OverNothing(hits: seq<real>, cutoff: real)
    requires NoneAfter(hits, cutoff)
    ensures CountOver(hits, cutoff) == 0
  {
    if hits != [] {
      OverNothing(hits[..|hits| - 1], cutoff);
    }
  }

  lemma {:induction false} OverTail(hits: seq<real>, cutoff: real)
    requires hits != [] && hits[0] <= cutoff
    ensures CountOver(hits[1..], cutoff) == CountOver(hits, cutoff)
  {
    var n := |hits| - 1;
    if n > 0 {
      OverTail(hits[..n], cutoff);
      assert hits[1..][..n - 1] == hits[..n][1..];
    }
  }

  lemma {:induction false} OverEvict(hits: seq<real>, early: real, cutoff: real)
    requires early <= cutoff
    ensures CountOver(Evict(hits, early), cutoff) == CountOver(hits, cutoff)
  {
    if hits != [] && hits[0] <= early {
      OverTail(hits, cutoff);
      OverEvict(hits[1..], early, cutoff);
    }
  }

  lemma {:induction false} OverAppend(hits: seq<real>, now: real, cutoff: real)
    ensures CountOver(hits + [now], cutoff) == CountOver(hits, cutoff) + if now > cutoff then 1 else 0
  {
    assert (hits + [now])[..|hits|] == hits;
  }

  // ---- The invariant ----

  /** The newest hit of a deque may be older than others, but not by more than `skew`. */
  ghost predicate NearlySorted(hits: seq<real>, skew: real) {
    forall i | 0 <= i < |hits| :: hits[i] <= hits[|hits| - 1] + skew
  }

  /** No hit later than the window before `top`, less the skew, has been lost. */
  ghost predicate Remembers(window: int, bucket: seq<real>, history: Run, key: string, top: real, skew: real) {
    && NearlySorted(bucket, skew)
    && forall cutoff | cutoff >= top + skew - window as real ::
         CountAfter(history, key, cutoff) <= CountOver(bucket, cutoff)
  }

  ghost predicate Fits(policy: string -> Policy, s: State, top: real) {
    forall key | key in s.hits :: NoneAfter(s.hits[key], top) && policy(key).window as real <= s.maxWindow
  }

  ghost predicate Holds(policy: string -> Policy, s: State, history: Run, top: real, skew: real) {
    && Fits(policy, s, top)
    && forall key :: Remembers(policy(key).window, Bucket(s.hits, key), history, key, top, skew)
  }

  lemma {:induction false} StillNearlySorted(bucket: seq<real>, start: real, now: real, allowed: bool, skew: real)
    requires NearlySorted(bucket, skew) && NoneAfter(bucket, now + skew) && skew >= 0.0
    ensures var live := Evict(bucket, start);
            NearlySorted(if allowed then live + [now] else live, skew)
  {
    EvictSuffix(bucket, start);
  }

  lemma {:induction false} RecordCounts(bucket: seq<real>, history: Run, c: Call, allowed: bool, start: real,
                                        cutoff: real)
    requires start <= cutoff && CountAfter(history, c.key, cutoff) <= CountOver(bucket, cutoff)
    ensures var live := Evict(bucket, start);
            CountAfter(Grown(history, c, allowed), c.key, cutoff)
            <= CountOver(if allowed then live + [c.now] else live, cutoff)
  {
    OverEvict(bucket, start, cutoff);
    OverAppend(Evict(bucket, start), c.now, cutoff);
  }

  lemma {:induction false} RecordRemembers(p: Policy, bucket: seq<real>, history: Run, c: Call, allowed: bool,
                                           top: real, skew: real)
    requires Remembers(p.window, bucket, history, c.key, top, skew) && NoneAfter(bucket, c.now + skew)
    requires c.now <= top && skew >= 0.0
    ensures var live := Evict(bucket, c.now - p.window as real);
            Remembers(p.window, if allowed then live + [c.now] else live, Grown(history, c, allowed), c.key, top, skew)
  {
    var start := c.now - p.window as real;
    var live := Evict(bucket, start);
    StillNearlySorted(bucket, start, c.now, allowed, skew);
    forall cutoff | cutoff >= top + skew - p.window as real
      ensures CountAfter(Grown(history, c, allowed), c.key, cutoff)
           <= CountOver(if allowed then live + [c.now] else live, cutoff)
    {
      RecordCounts(bucket, history, c, allowed, start, cutoff);
    }
  }

  lemma {:induction false} OtherRemembers(window: int, bucket: seq<real>, history: Run, c: Call, allowed: bool,
                                          key: string, top: real, skew: real)
    requires key != c.key && Remembers(window, bucket, history, key, top, skew)
    ensures Remembers(window, bucket, Grown(history, c, allowed), key, top, skew)
  {
    forall cutoff | cutoff >= top + skew - window as real
      ensures CountAfter(Grown(history, c, allowed), key, cutoff) <= CountOver(bucket, cutoff)
    {
      assert CountAfter(history, key, cutoff) <= CountOver(bucket, cutoff);
    }
  }

  lemma {:induction false} RecordFits(policy: string -> Policy, s: State, c: Call, allowed: bool, top: real)
    requires Fits(policy, s, top) && c.now <= top
    ensures Fits(policy, Recorded(policy, s, c, allowed), top)
  {
    EvictSuffix(Bucket(s.hits, c.key), c.now - policy(c.key).window as real);
  }

  lemma {:induction false} RecordRemembersKey(policy: string -> Policy, s: State, history: Run, c: Call, allowed: bool,
                                              key: string, top: real, skew: real)
    requires Remembers(policy(key).window, Bucket(s.hits, key), history, key, top, skew)
    requires NoneAfter(Bucket(s.hits, c.key), c.now + skew) && c.now <= top && skew >= 0.0
    ensures Remembers(policy(key).window, Bucket(Recorded(policy, s, c, allowed).hits, key),
                      Grown(history, c, allowed), key, top, skew)
  {
    if key == c.key {
      RecordRemembers(policy(key), Bucket(s.hits, key), history, c, allowed, top, skew);
    } else {
      OtherRemembers(policy(key).window, Bucket(s.hits, key), history, c, allowed, key, top, skew);
    }
  }

  lemma {:induction false} RecordHolds(policy: string -> Policy, s: State, history: Run, c: Call, allowed: bool,
                                       top: real, skew: real)
    requires Holds(policy, s, history, top, skew) && NoneAfter(Bucket(s.hits, c.key), c.now + skew)
    requires c.now <= top && skew >= 0.0
    ensures Holds(policy, Recorded(policy, s, c, allowed), Grown(history, c, allowed), top, skew)
  {
    RecordFits(policy, s, c, allowed, top);
    forall key
      ensures Remembers(policy(key).window, Bucket(Recorded(policy, s, c, allowed).hits, key),
                        Grown(history, c, allowed), key, top, skew)
    {
      RecordRemembersKey(policy, s, history, c, allowed, key, top, skew);
    }
  }

  lemma {:induction false} SweptRemembers(window: int, bucket: seq<real>, history: Run, key: string, top: real,
                                          skew: real, now: real, maxWindow: real)
    requires Remembers(window, bucket, history, key, top, skew) && IsStale(bucket, now - maxWindow)
    requires now <= top && window as real <= maxWindow && skew >= 0.0
    ensures Remembers(window, [], history, key, top, skew)
  {
    forall cutoff | cutoff >= top + skew - window as real
      ensures CountAfter(history, key, cutoff) <= CountOver([], cutoff)
    {
      OverNothing(bucket, cutoff);
    }
  }

  lemma {:induction false} SweepHolds(policy: string -> Policy, s: State, history: Run, now: real, top: real,
                                      skew: real)
    requires Holds(policy, s, history, top, skew) && now <= top && skew >= 0.0
    ensures Holds(policy, SweepEffect(s, now), history, top, skew)
  {
    var swept := SweepEffect(s, now);
    forall key
      ensures Remembers(policy(key).window, Bucket(swept.hits, key), history, key, top, skew)
    {
      assert Remembers(policy(key).window, Bucket(s.hits, key), history, key, top, skew);
      if key in s.hits && key !in swept.hits {
        SweptRemembers(policy(key).window, s.hits[key], history, key, top, skew, now, s.maxWindow);
      }
    }
  }

  lemma {:induction false} CheckHolds(policy: string -> Policy, s: State, history: Run, c: Call, top: real, skew: real)
    requires Holds(policy, s, history, top, skew) && NoneAfter(Bucket(s.hits, c.key), c.now + skew)
    requires c.now <= top && skew >= 0.0
    ensures var (after, verdict) := CheckEffect(s, c.key, policy(c.key).limit, policy(c.key).window, c.now);
            Holds(policy, after, Grown(history, c, verdict.Allowed?), top, skew)
  {
    var allowed := CheckEffect(s, c.key, policy(c.key).limit, policy(c.key).window, c.now).1.Allowed?;
    CheckRecords(policy, s, c);
    RecordHolds(policy, s, history, c, allowed, top, skew);
    if allowed {
      SweepHolds(policy, Recorded(policy, s, c, true), Then(history, c), c.now, top, skew);
    }
  }

  /** After any run whose readings lag by at most `skew`, and reach up to `top`. */
  lemma {:induction false} RunHolds(policy: string -> Policy, run: Run, top: real, skew: real)
    requires Nearly(run, skew) && UpTo(run, top) && skew >= 0.0
    ensures Holds(policy, StateAfter(policy, run), Admitted(policy, run), top, skew)
  {
    if run.Then? {
      RunHolds(policy, run.before, run.last.now + skew, skew);
      var s := StateAfter(policy, run.before);
      assert NoneAfter(Bucket(s.hits, run.last.key), run.last.now + skew);
      RunHolds(policy, run.before, top, skew);
      CheckHolds(policy, s, Admitted(policy, run.before), run.last, top, skew);
    }
  }

  // ---- The bound ----

  lemma {:induction false} WithinAtMostAfter(history: Run, key: string, after: real, upTo: real)
    ensures CountWithin(history, key, after, upTo) <= CountAfter(history, key, after)
  {
    if history.Then? {
      WithinAtMostAfter(history.before, key, after, upTo);
    }
  }

  lemma {:induction false} LateIsCounted(policy: string -> Policy, run: Run, c: Call, after: real, skew: real)
    requires Nearly(Then(run, c), skew) && skew >= 0.0 && CheckAfter(policy, run, c).1.Allowed?
    requires after >= c.now + 2.0 * skew - policy(c.key).window as real
    ensures CountAfter(Admitted(policy, run), c.key, after) < policy(c.key).limit
  {
    var bucket := Bucket(StateAfter(policy, run).hits, c.key);
    var start := c.now - policy(c.key).window as real;
    RunHolds(policy, run, c.now + skew, skew);
    assert Remembers(policy(c.key).window, bucket, Admitted(policy, run), c.key, c.now + skew, skew);
    OverEvict(bucket, start, after);
    OverAtMost(Evict(bucket, start), after);
  }

  /**
   * With readings that lag by at most `skew`, an interval that is shorter than the window by twice the skew never
   * holds more admitted hits of a key than its limit: once because a late check looks back less far, and once
   * because a sweep judges a deque by its newest entry.
   */
  lemma {:induction false} WindowSafetyWithSkew(policy: string -> Policy, run: Run, key: string, t: real, skew: real)
    requires Nearly(run, skew) && skew >= 0.0
    ensures CountWithin(Admitted(policy, run), key, t - (policy(key).window as real - 2.0 * skew), t)
         <= Cap(policy(key).limit)
  {
    if run.Then? {
      WindowSafetyWithSkew(policy, run.before, key, t, skew);
      var c, after := run.last, t - (policy(key).window as real - 2.0 * skew);
      if c.key == key && c.now <= t && CheckAfter(policy, run.before, c).1.Allowed? {
        LateIsCounted(policy, run.before, c, after, skew);
        WithinAtMostAfter(Admitted(policy, run.before), key, after, t);
      }
    }
  }
}
