/** How much the limiter stores, and why its clock readings must not go back. */
module LimiterMemory {
  import opened Sets
  import opened RateLimiter
  import opened LimiterRuns
  import opened LimiterSkew

  ghost predicate Contains(history: Run, c: Call) {
    history.Then? && (history.last == c || Contains(history.before, c))
  }

  ghost predicate NonNegative(run: Run) {
    run.Then? ==> run.last.now >= 0.0 && NonNegative(run.before)
  }

  /**
   * A deque is neither over its limit nor, unless the limit admits nothing, empty; its newest hit is an admitted
   * one, not before `horizon`.
   */
  ghost predicate Compact(bucket: seq<real>, key: string, limit: int, horizon: real, history: Run) {
    if limit < 1 then bucket == []
    else
      && 1 <= |bucket| <= limit
      && bucket[|bucket| - 1] >= horizon
      && Contains(history, Call(key, bucket[|bucket| - 1]))
  }

  ghost predicate Bounded(policy: string -> Policy, s: State, history: Run, now: real) {
    && s.lastCleanup <= now && s.maxWindow >= 0.0
    && forall key | key in s.hits ::
         Compact(s.hits[key], key, policy(key).limit, s.lastCleanup - s.maxWindow, history)
  }

  lemma {:induction false} StillCompact(bucket: seq<real>, key: string, limit: int, horizon: real, lower: real,
                                        history: Run, c: Call, allowed: bool)
    requires Compact(bucket, key, limit, horizon, history) && lower <= horizon
    ensures Compact(bucket, key, limit, lower, Grown(history, c, allowed))
  {
  }

  lemma {:induction false} SuffixCompact(bucket: seq<real>, live: seq<real>, key: string, limit: int, horizon: real,
                                         history: Run)
    requires bucket == [] || Compact(bucket, key, limit, horizon, history)
    requires |live| <= |bucket| && live == bucket[|bucket| - |live|..] && |live| >= limit
    ensures Compact(live, key, limit, horizon, history)
  {
    if limit >= 1 {
      assert live[|live| - 1] == bucket[|bucket| - 1];
    }
  }

  /** The deque of the checked key. */
  lemma {:induction false} CheckedCompact(bucket: seq<real>, c: Call, p: Policy, horizon: real, history: Run)
    requires horizon <= c.now
    requires bucket == [] || Compact(bucket, c.key, p.limit, horizon, history)
    ensures var live := Evict(bucket, c.now - p.window as real);
            if |live| < p.limit then Compact(live + [c.now], c.key, p.limit, horizon, Then(history, c))
            else Compact(live, c.key, p.limit, horizon, history)
  {
    EvictSuffix(bucket, c.now - p.window as real);
    if |Evict(bucket, c.now - p.window as real)| >= p.limit {
      SuffixCompact(bucket, Evict(bucket, c.now - p.window as real), c.key, p.limit, horizon, history);
    }
  }

  lemma {:induction false} RecordBounded(policy: string -> Policy, s: State, history: Run, c: Call, allowed: bool)
    requires Bounded(policy, s, history, c.now)
    requires var live := Evict(Bucket(s.hits, c.key), c.now - policy(c.key).window as real);
             allowed <==> |live| < policy(c.key).limit
    ensures Bounded(policy, Recorded(policy, s, c, allowed), Grown(history, c, allowed), c.now)
  {
    var recorded := Recorded(policy, s, c, allowed);
    var horizon, lower := s.lastCleanup - s.maxWindow, recorded.lastCleanup - recorded.maxWindow;
    forall key | key in recorded.hits
      ensures Compact(recorded.hits[key], key, policy(key).limit, lower, Grown(history, c, allowed))
    {
      if key == c.key {
        CheckedCompact(Bucket(s.hits, key), c, policy(key), horizon, history);
      } else {
        StillCompact(s.hits[key], key, policy(key).limit, horizon, lower, history, c, allowed);
      }
    }
  }

  lemma {:induction false} SweepBounded(policy: string -> Policy, s: State, history: Run, now: real)
    requires Bounded(policy, s, history, now)
    ensures Bounded(policy, SweepEffect(s, now), history, now)
  {
  }

  lemma {:induction false} BoundedLater(policy: string -> Policy, s: State, history: Run, now: real, later: real)
    requires Bounded(policy, s, history, now) && now <= later
    ensures Bounded(policy, s, history, later)
  {
  }

  lemma {:induction false} RunBounded(policy: string -> Policy, run: Run, now: real)
    requires InOrder(run) && UpTo(run, now) && NonNegative(run) && now >= 0.0
    ensures Bounded(policy, StateAfter(policy, run), Admitted(policy, run), now)
  {
    if run.Then? {
      var s, c := StateAfter(policy, run.before), run.last;
      RunBounded(policy, run.before, c.now);
      CheckRecords(policy, s, c);
      RecordBounded(policy, s, Admitted(policy, run.before), c, CheckAfter(policy, run.before, c).1.Allowed?);
      if CheckAfter(policy, run.before, c).1.Allowed? {
        SweepBounded(policy, Recorded(policy, s, c, true), Then(Admitted(policy, run.before), c), c.now);
      }
      BoundedLater(policy, StateAfter(policy, run), Admitted(policy, run), c.now, now);
    }
  }

  // ---- What the horizon is ----

  /** The largest window seen is that of some check made, and none is larger; a sweep is never in the future. */
  lemma {:induction false} MaxWindowIsLargest(policy: string -> Policy, run: Run, c: Call)
    requires Contains(run, c)
    ensures policy(c.key).window as real <= StateAfter(policy, run).maxWindow
  {
    KeepsMaxWindow(policy, run);
    if run.last != c {
      MaxWindowIsLargest(policy, run.before, c);
    }
  }

  lemma {:induction false} MaxWindowIsOne(policy: string -> Policy, run: Run)
    ensures var widest := StateAfter(policy, run).maxWindow;
            widest == 0.0 || exists c :: Contains(run, c) && policy(c.key).window as real == widest
  {
    if run.Then? {
      KeepsMaxWindow(policy, run);
      MaxWindowIsOne(policy, run.before);
      if StateAfter(policy, run).maxWindow == policy(run.last.key).window as real {
        assert Contains(run, run.last);
      } else if StateAfter(policy, run.before).maxWindow != 0.0 {
        var c :| Contains(run.before, c) && policy(c.key).window as real == StateAfter(policy, run.before).maxWindow;
        assert Contains(run, c);
      }
    }
  }

  /** A check leaves the larger one of the window it is made under and the largest so far. */
  lemma {:induction false} KeepsMaxWindow(policy: string -> Policy, run: Run)
    requires run.Then?
    ensures var was, window := StateAfter(policy, run.before).maxWindow, policy(run.last.key).window as real;
            StateAfter(policy, run).maxWindow == if was < window then window else was
  {
  }

  /** The keys of the admitted calls later than `cutoff`, and how many such calls there are. */
  ghost function KeysSince(history: Run, cutoff: real): set<string> {
    if history.Start? then {}
    else KeysSince(history.before, cutoff) + if history.last.now > cutoff then {history.last.key} else {}
  }

  function CountSince(history: Run, cutoff: real): nat {
    if history.Start? then 0
    else CountSince(history.before, cutoff) + if history.last.now > cutoff then 1 else 0
  }

  lemma {:induction false} FewKeysSince(history: Run, cutoff: real)
    ensures |KeysSince(history, cutoff)| <= CountSince(history, cutoff)
  {
    if history.Then? {
      FewKeysSince(history.before, cutoff);
      assert |KeysSince(history.before, cutoff) + {history.last.key}| <= |KeysSince(history.before, cutoff)| + 1;
    }
  }

  lemma {:induction false} ContainedKey(history: Run, c: Call, cutoff: real)
    requires Contains(history, c) && c.now > cutoff
    ensures c.key in KeysSince(history, cutoff)
  {
    if history.last != c {
      ContainedKey(history.before, c, cutoff);
    }
  }

  /** The keys whose deque holds a hit. */
  function InUse(hits: map<string, seq<real>>): set<string> {
    set key | key in hits && hits[key] != []
  }

  lemma {:induction false} NewestAreRecent(policy: string -> Policy, s: State, history: Run, now: real)
    requires Bounded(policy, s, history, now) && now - s.lastCleanup < CLEANUP_INTERVAL
    ensures var horizon := now - (s.maxWindow + CLEANUP_INTERVAL);
            && (forall key | key in s.hits && s.hits[key] != [] :: s.hits[key][|s.hits[key]| - 1] > horizon)
            && InUse(s.hits) <= KeysSince(history, horizon)
  {
    forall key | key in s.hits && s.hits[key] != []
      ensures key in KeysSince(history, now - (s.maxWindow + CLEANUP_INTERVAL))
    {
      var newest := s.hits[key][|s.hits[key]| - 1];
      ContainedKey(history, Call(key, newest), now - (s.maxWindow + CLEANUP_INTERVAL));
    }
  }

  lemma {:induction false} SweptIfDue(s: State, key: string, limit: int, window: int, now: real)
    ensures var (after, verdict) := CheckEffect(s, key, limit, window, now);
            verdict.Allowed? ==> now - after.lastCleanup < CLEANUP_INTERVAL
  {
  }

  lemma {:induction false} LastAdmittedSweeps(policy: string -> Policy, run: Run)
    requires run.Then? && CheckAfter(policy, run.before, run.last).1.Allowed?
    ensures run.last.now - StateAfter(policy, run).lastCleanup < CLEANUP_INTERVAL
  {
    var c := run.last;
    SweptIfDue(StateAfter(policy, run.before), c.key, policy(c.key).limit, policy(c.key).window, c.now);
  }

  lemma {:induction false} RunOrderly(policy: string -> Policy, run: Run, now: real)
    requires InOrder(run) && UpTo(run, now)
    ensures Orderly(policy, StateAfter(policy, run), now)
  {
    RunTracks(policy, run, now);
  }

  /**
   * Every deque is sorted, within its limit and recent, or empty if its limit admits nothing; no more deques are in
   * use than there are recent admitted hits.
   */
  ghost predicate IsSmall(policy: string -> Policy, s: State, history: Run, now: real) {
    var horizon := now - (s.maxWindow + CLEANUP_INTERVAL);
    && (forall key | key in s.hits ::
          if policy(key).limit < 1 then s.hits[key] == []
          else
            && Sorted(s.hits[key]) && 1 <= |s.hits[key]| <= policy(key).limit
            && s.hits[key][|s.hits[key]| - 1] > horizon)
    && |InUse(s.hits)| <= CountSince(history, horizon)
  }

  lemma {:induction false} BoundedIsSmall(policy: string -> Policy, s: State, history: Run, now: real)
    requires Bounded(policy, s, history, now) && Orderly(policy, s, now)
    requires now - s.lastCleanup < CLEANUP_INTERVAL
    ensures IsSmall(policy, s, history, now)
  {
    var horizon := now - (s.maxWindow + CLEANUP_INTERVAL);
    NewestAreRecent(policy, s, history, now);
    FewKeysSince(history, horizon);
    SubsetSize(InUse(s.hits), KeysSince(history, horizon));
  }

  /**
   * After an admitted check every deque is sorted, within its limit and recent, and no more are in use than there
   * are recent admitted hits.
   */
  lemma {:induction false} MemoryBound(policy: string -> Policy, run: Run)
    requires InOrder(run) && NonNegative(run)
    requires run.Then? && CheckAfter(policy, run.before, run.last).1.Allowed?
    ensures IsSmall(policy, StateAfter(policy, run), Admitted(policy, run), run.last.now)
  {
    RunBounded(policy, run, run.last.now);
    RunOrderly(policy, run, run.last.now);
    LastAdmittedSweeps(policy, run);
    BoundedIsSmall(policy, StateAfter(policy, run), Admitted(policy, run), run.last.now);
  }

  lemma {:induction false} EvictTwo(a: real, b: real, cutoff: real)
    requires a <= cutoff && b <= cutoff
    ensures Evict([a, b], cutoff) == []
  {
    assert [a, b][1..] == [b] && [b][1..] == [];
    assert Evict([b], cutoff) == [];
  }

  /**
   * The clock is read before the lock is taken, so readings can arrive out of order; then the window bound
   * fails: two hits at 10, one at 15 that evicts them, and a late one read at 14.5 put three hits in 5 s.
   */
  lemma {:induction false} OutOfOrderBreaksTheWindow()
    ensures var policy: string -> Policy := _ => Policy(2, 5);
            var run := Then(Then(Then(Then(Start, Call("k", 10.0)), Call("k", 10.0)), Call("k", 15.0)),
                            Call("k", 14.5));
            CountWithin(Admitted(policy, run), "k", 14.5 - 5.0, 14.5) == 3
  {
    var policy: string -> Policy := _ => Policy(2, 5);
    var a := Then(Start, Call("k", 10.0));
    var b := Then(a, Call("k", 10.0));
    var c := Then(b, Call("k", 15.0));
    assert StateAfter(policy, Start) == INITIAL;
    assert Evict([], 5.0) + [10.0] == [10.0];
    assert StateAfter(policy, a) == State(map["k" := [10.0]], 0.0, 5.0);
    assert [10.0] + [10.0] == [10.0, 10.0];
    assert StateAfter(policy, b) == State(map["k" := [10.0, 10.0]], 0.0, 5.0);
    EvictTwo(10.0, 10.0, 10.0);
    assert Evict([10.0, 10.0], 10.0) + [15.0] == [15.0];
    assert StateAfter(policy, c) == State(map["k" := [15.0]], 0.0, 5.0);
    assert Admitted(policy, a) == a && Admitted(policy, b) == b && Admitted(policy, c) == c;
  }
}
