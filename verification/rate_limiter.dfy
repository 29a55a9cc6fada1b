/** The sliding-window limiter of `security.py`: its in-place form and the meaning of one check. */
module RateLimiter {

  const CLEANUP_INTERVAL: real := 300.0

  /** `IndexError` is what a limit of zero or less gives: `hits[0]` on an empty deque. */
  datatype Verdict = Allowed | Denied(retryAfter: int) | IndexError

  /** One deque per key, the time of the last sweep and the largest window seen. */
  datatype State = State(hits: map<string, seq<real>>, lastCleanup: real, maxWindow: real)

  const INITIAL := State(map[], 0.0, 0.0)

  /** Python's `int()` on a float: towards zero. */
  function Truncate(x: real): int {
    if x >= 0.0 then x.Floor else -((-x).Floor)
  }

  function Larger(x: real, y: real): real {
    if x < y then y else x
  }

  function RetryAfter(oldest: real, window: int, now: real): int {
    var seconds := Truncate(oldest + window as real - now) + 1;
    if seconds < 1 then 1 else seconds
  }

  function Bucket(hits: map<string, seq<real>>, key: string): seq<real> {
    if key in hits then hits[key] else []
  }

  /** Drop hits from the front of a deque up to the first one after `cutoff`. */
  function Evict(hits: seq<real>, cutoff: real): seq<real> {
    if hits != [] && hits[0] <= cutoff then Evict(hits[1..], cutoff) else hits
  }

  function Judge(live: seq<real>, limit: int, window: int, now: real): Verdict {
    if |live| < limit then Allowed
    else if live == [] then IndexError
    else Denied(RetryAfter(live[0], window, now))
  }

  predicate IsStale(hits: seq<real>, boundary: real) {
    hits == [] || hits[|hits| - 1] <= boundary
  }

  function SweepEffect(s: State, now: real): State {
    if now - s.lastCleanup < CLEANUP_INTERVAL then s
    else
      s.(hits := map key | key in s.hits && !IsStale(s.hits[key], now - s.maxWindow) :: s.hits[key],
         lastCleanup := now)
  }

  lemma {:induction false} StaleRemoved(hits: map<string, seq<real>>, boundary: real)
    ensures hits - (set key | key in hits && IsStale(hits[key], boundary))
         == map key | key in hits && !IsStale(hits[key], boundary) :: hits[key]
  {
  }

  /**
   * A sweep less than 300 s after the last one does nothing; any other removes exactly the deques that are empty or
   * whose newest hit is not later than the largest window before now.
   */
  lemma {:induction false} SweepExactly(s: State, now: real, key: string)
    ensures var t := SweepEffect(s, now);
            if now - s.lastCleanup < 300.0 then t == s
            else
              && t.lastCleanup == now && t.maxWindow == s.maxWindow
              && (key in t.hits <==>
                    key in s.hits && s.hits[key] != [] && s.hits[key][|s.hits[key]| - 1] > now - s.maxWindow)
              && (key in t.hits ==> t.hits[key] == s.hits[key])
  {
  }

  /** The state a check leaves and its verdict. */
  function CheckEffect(s: State, key: string, limit: int, window: int, now: real): (State, Verdict) {
    var live := Evict(Bucket(s.hits, key), now - window as real);
    var verdict := Judge(live, limit, window, now);
    var touched := s.(maxWindow := Larger(s.maxWindow, window as real));
    if verdict.Allowed?
    then (SweepEffect(touched.(hits := s.hits[key := live + [now]]), now), verdict)
    else (touched.(hits := s.hits[key := live]), verdict)
  }

  class SlidingWindowLimiter {
    var hits: map<string, seq<real>>
    var lastCleanup: real
    var maxWindow: real

    ghost function Contents(): State
      reads this
    {
      State(hits, lastCleanup, maxWindow)
    }

    constructor ()
      ensures Contents() == INITIAL
    {
      hits, lastCleanup, maxWindow := map[], 0.0, 0.0;
    }

    /** One check under the lock; `now` is the clock reading taken before it. */
    method Check(key: string, limit: int, window: int, now: real) returns (verdict: Verdict)
      modifies this
      ensures (Contents(), verdict) == CheckEffect(old(Contents()), key, limit, window, now)
    {
      var cutoff := now - window as real;
      maxWindow := Larger(maxWindow, window as real);
      if key !in hits {
        hits := hits[key := []];
      }
      ghost var bucket := hits[key];
      while hits[key] != [] && hits[key][0] <= cutoff
        invariant key in hits && hits == old(hits)[key := hits[key]]
        invariant lastCleanup == old(lastCleanup)
        invariant maxWindow == Larger(old(maxWindow), window as real)
        invariant Evict(hits[key], cutoff) == Evict(bucket, cutoff)
        decreases |hits[key]|
      {
        hits := hits[key := hits[key][1..]];
      }
      if |hits[key]| >= limit {
        if hits[key] == [] {
          return IndexError;
        }
        var retryAfter := Truncate(hits[key][0] + window as real - now) + 1;
        return Denied(if retryAfter < 1 then 1 else retryAfter);
      }
      hits := hits[key := hits[key] + [now]];
      assert hits[key] == Evict(bucket, cutoff) + [now];
      assert hits == old(hits)[key := Evict(bucket, cutoff) + [now]];
      assert Contents() == State(old(hits)[key := Evict(bucket, cutoff) + [now]], old(lastCleanup),
                                 Larger(old(maxWindow), window as real));
      Sweep(now);
      return Allowed;
    }

    /** Drop idle buckets, at most once per interval. */
    method Sweep(now: real)
      modifies this
      ensures Contents() == SweepEffect(old(Contents()), now)
    {
      if now - lastCleanup < CLEANUP_INTERVAL {
        return;
      }
      lastCleanup := now;
      var boundary := now - maxWindow;
      var stale := set key | key in hits && IsStale(hits[key], boundary);
      ghost var allStale := stale;
      while stale != {}
        invariant stale <= allStale && hits == old(hits) - (allStale - stale)
        invariant lastCleanup == now && maxWindow == old(maxWindow)
        decreases |stale|
      {
        var key :| key in stale;
        stale := stale - {key};
        hits := hits - {key};
      }
      assert allStale - stale == allStale;
      StaleRemoved(old(hits), boundary);
    }
  }
}
