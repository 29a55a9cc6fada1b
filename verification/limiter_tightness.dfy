/** The window bound for late clock readings cannot be improved, whatever the limit, the window and the skew. */
module LimiterTightness {
  import opened RateLimiter
  import opened LimiterRuns
  import opened LimiterSkew

  /** One limit and window for all keys, and the skew of the readings. */
  datatype Case = Case(limit: int, window: int, skew: real) {
    predicate Valid() {
      limit >= 2 && skew > 0.0 && window as real > 2.0 * skew
    }

    function Policies(): string -> Policy {
      _ => Policy(limit, window)
    }

    /** When a first key is swept, so that the next sweep is due at `SweptAt`. */
    function FirstAt(): real {
      if window as real <= 300.0 + skew then 300.0 + window as real else 600.0 + skew
    }

    function SweptAt(): real {
      600.0 + window as real
    }

    function LateAt(): real {
      SweptAt() - skew
    }
  }

  /** Two hits of `k`, the newer one late; the sweep of another check judges them by the late one and drops both. */
  function EarlyRun(c: Case): Run {
    Then(Then(Then(Then(Start, Call("p", c.FirstAt())), Call("k", 600.0 + c.skew)), Call("k", 600.0)),
         Call("o", c.SweptAt()))
  }

  /** Then late hits, as many as the limit allows. */
  function LateRun(c: Case, n: nat): Run {
    if n == 0 then EarlyRun(c) else Then(LateRun(c, n - 1), Call("k", c.LateAt()))
  }

  ghost predicate IsAt(s: State, c: Case, bucket: seq<real>, cleanup: real) {
    Bucket(s.hits, "k") == bucket && s.lastCleanup == cleanup && s.maxWindow == c.window as real
  }

  lemma {:induction false} FirstHit(c: Case)
    requires c.Valid()
    ensures var (after, verdict) := CheckEffect(INITIAL, "p", c.limit, c.window, c.FirstAt());
            verdict.Allowed? && IsAt(after, c, [], c.FirstAt()) && "o" !in after.hits
  {
  }

  /** A hit of `k` while nothing leaves the window and no sweep is due. */
  lemma {:induction false} Hit(s: State, c: Case, bucket: seq<real>, cleanup: real, now: real)
    requires c.Valid() && IsAt(s, c, bucket, cleanup) && |bucket| < c.limit && now - cleanup < CLEANUP_INTERVAL
    requires forall i | 0 <= i < |bucket| :: bucket[i] > now - c.window as real
    ensures var (after, verdict) := CheckEffect(s, "k", c.limit, c.window, now);
            && verdict.Allowed? && IsAt(after, c, bucket + [now], cleanup)
            && ("o" !in s.hits ==> "o" !in after.hits)
  {
    assert Evict(bucket, now - c.window as real) == bucket;
  }

  lemma {:induction false} SweepingHit(s: State, c: Case)
    requires c.Valid() && IsAt(s, c, [600.0 + c.skew, 600.0], c.FirstAt()) && "o" !in s.hits
    ensures var (after, verdict) := CheckEffect(s, "o", c.limit, c.window, c.SweptAt());
            verdict.Allowed? && IsAt(after, c, [], c.SweptAt())
  {
    assert c.SweptAt() - c.FirstAt() >= CLEANUP_INTERVAL;
    assert IsStale([600.0 + c.skew, 600.0], c.SweptAt() - c.window as real);
  }

  lemma {:induction false} Admits(c: Case, run: Run, call: Call, s: State)
    requires StateAfter(c.Policies(), run) == s && Admitted(c.Policies(), run) == run
    requires CheckEffect(s, call.key, c.limit, c.window, call.now).1.Allowed?
    ensures StateAfter(c.Policies(), Then(run, call)) == CheckEffect(s, call.key, c.limit, c.window, call.now).0
    ensures Admitted(c.Policies(), Then(run, call)) == Then(run, call)
  {
  }

  lemma {:induction false} EarlyHits(c: Case)
    requires c.Valid()
    ensures IsAt(StateAfter(c.Policies(), EarlyRun(c)), c, [], c.SweptAt())
    ensures Admitted(c.Policies(), EarlyRun(c)) == EarlyRun(c)
  {
    var one := Then(Start, Call("p", c.FirstAt()));
    FirstHit(c);
    Admits(c, Start, one.last, INITIAL);
    var s := StateAfter(c.Policies(), one);
    Hit(s, c, [], c.FirstAt(), 600.0 + c.skew);
    var two := Then(one, Call("k", 600.0 + c.skew));
    Admits(c, one, two.last, s);
    assert [] + [600.0 + c.skew] == [600.0 + c.skew];
    EarlySweep(c, two);
  }

  lemma {:induction false} EarlySweep(c: Case, two: Run)
    requires c.Valid() && Admitted(c.Policies(), two) == two
    requires IsAt(StateAfter(c.Policies(), two), c, [600.0 + c.skew], c.FirstAt())
    requires "o" !in StateAfter(c.Policies(), two).hits
    ensures var four := Then(Then(two, Call("k", 600.0)), Call("o", c.SweptAt()));
            Admitted(c.Policies(), four) == four && IsAt(StateAfter(c.Policies(), four), c, [], c.SweptAt())
  {
    var s := StateAfter(c.Policies(), two);
    Hit(s, c, [600.0 + c.skew], c.FirstAt(), 600.0);
    var three := Then(two, Call("k", 600.0));
    Admits(c, two, three.last, s);
    assert [600.0 + c.skew] + [600.0] == [600.0 + c.skew, 600.0];
    SweepingHit(StateAfter(c.Policies(), three), c);
    Admits(c, three, Call("o", c.SweptAt()), StateAfter(c.Policies(), three));
  }

  lemma {:induction false} UpToLater(run: Run, now: real, later: real)
    requires UpTo(run, now) && now <= later
    ensures UpTo(run, later)
  {
    if run.Then? {
      UpToLater(run.before, now, later);
    }
  }

  lemma {:induction false} EarlyIsNear(c: Case, length: real)
    requires c.Valid() && length > c.window as real - 2.0 * c.skew
    ensures Nearly(EarlyRun(c), c.skew) && UpTo(EarlyRun(c), c.SweptAt())
    ensures CountWithin(EarlyRun(c), "k", c.LateAt() - length, c.LateAt()) >= 1
  {
    var one := Then(Start, Call("p", c.FirstAt()));
    var two := Then(one, Call("k", 600.0 + c.skew));
    var three := Then(two, Call("k", 600.0));
    assert UpTo(Start, c.FirstAt()) && UpTo(one, c.FirstAt()) && Nearly(one, c.skew);
    UpToLater(one, c.FirstAt(), 600.0 + c.skew);
    UpToLater(one, c.FirstAt(), 600.0 + 2.0 * c.skew);
    assert UpTo(two, 600.0 + c.skew) && Nearly(two, c.skew);
    assert UpTo(three, 600.0 + c.skew) && Nearly(three, c.skew);
    UpToLater(three, 600.0 + c.skew, c.SweptAt());
    UpToLater(three, 600.0 + c.skew, c.SweptAt() + c.skew);
    assert CountWithin(two, "k", c.LateAt() - length, c.LateAt()) >= 1;
    assert CountWithin(three, "k", c.LateAt() - length, c.LateAt()) >= 1;
  }

  function Copies(x: real, n: nat): (copies: seq<real>)
    ensures |copies| == n && forall i | 0 <= i < n :: copies[i] == x
  {
    if n == 0 then [] else Copies(x, n - 1) + [x]
  }

  lemma {:induction false} LateHit(c: Case, run: Run, n: nat)
    requires c.Valid() && n < c.limit && Admitted(c.Policies(), run) == run
    requires IsAt(StateAfter(c.Policies(), run), c, Copies(c.LateAt(), n), c.SweptAt())
    ensures var more := Then(run, Call("k", c.LateAt()));
            && Admitted(c.Policies(), more) == more
            && IsAt(StateAfter(c.Policies(), more), c, Copies(c.LateAt(), n) + [c.LateAt()], c.SweptAt())
  {
    Hit(StateAfter(c.Policies(), run), c, Copies(c.LateAt(), n), c.SweptAt(), c.LateAt());
    Admits(c, run, Call("k", c.LateAt()), StateAfter(c.Policies(), run));
  }

  lemma {:induction false} LateHits(c: Case, n: nat)
    requires c.Valid() && n <= c.limit
    ensures IsAt(StateAfter(c.Policies(), LateRun(c, n)), c, Copies(c.LateAt(), n), c.SweptAt())
    ensures Admitted(c.Policies(), LateRun(c, n)) == LateRun(c, n)
  {
    EarlyHits(c);
    if n > 0 {
      LateHits(c, n - 1);
      LateHit(c, LateRun(c, n - 1), n - 1);
    }
  }

  lemma {:induction false} LateIsNear(c: Case, n: nat, length: real)
    requires c.Valid() && length > c.window as real - 2.0 * c.skew
    ensures Nearly(LateRun(c, n), c.skew) && UpTo(LateRun(c, n), c.SweptAt())
    ensures CountWithin(LateRun(c, n), "k", c.LateAt() - length, c.LateAt()) >= n + 1
  {
    if n == 0 {
      EarlyIsNear(c, length);
    } else {
      LateIsNear(c, n - 1, length);
    }
  }

  /**
   * For every limit of at least two, every positive skew and every window longer than twice the skew, some run with
   * that skew has, in an interval only just longer than the window less twice the skew, more hits than the limit.
   */
  lemma {:induction false} SkewBoundIsTight(c: Case, length: real)
    requires c.Valid() && length > c.window as real - 2.0 * c.skew
    ensures var run := LateRun(c, c.limit);
            && Nearly(run, c.skew)
            && CountWithin(Admitted(c.Policies(), run), "k", c.LateAt() - length, c.LateAt()) > c.limit
  {
    LateHits(c, c.limit);
    LateIsNear(c, c.limit, length);
  }
}
