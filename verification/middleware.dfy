/** `RateLimitMiddleware`: two budgets per client address in one limiter. */
module Middleware {
  import opened Options
  import opened RateLimiter
  import opened LimiterRuns
  import opened LimiterBounds
  import opened LimiterSkew

  datatype Config = Config(maxRequests: int, window: int, loginMax: int, loginWindow: int, loginPath: string)

  /** A request with its resolved client address and the clock readings of its one or two checks. */
  datatype Request = Request(isHttp: bool, path: string, verb: string, clientIp: Option<string>,
                             globalNow: real, loginNow: real)

  /** `ServerError` is the `IndexError` of the limiter reaching the server. */
  datatype Outcome = Forwarded | TooManyRequests(login: bool, retryAfter: int) | ServerError

  predicate IsThrottled(r: Request) {
    r.isHttp && "/api/" <= r.path && r.path != "/api/health"
  }

  function ClientOf(r: Request): string {
    if r.clientIp.Some? && r.clientIp.value != "" then r.clientIp.value else "unknown"
  }

  predicate IsLogin(config: Config, r: Request) {
    r.verb == "POST" && r.path == config.loginPath
  }

  /** Each key is always checked under the same limit and window. */
  function PolicyOf(config: Config): string -> Policy {
    (key: string) =>
      if "login:" <= key then Policy(config.loginMax, config.loginWindow)
      else Policy(config.maxRequests, config.window)
  }

  function GlobalCall(r: Request): Call {
    Call("ip:" + ClientOf(r), r.globalNow)
  }

  function LoginCall(r: Request): Call {
    Call("login:" + ClientOf(r), r.loginNow)
  }

  /** Whether the request passes the global budget and goes on to the login budget. */
  predicate ReachesLoginCheck(config: Config, run: Run, r: Request) {
    IsLogin(config, r) && CheckAfter(PolicyOf(config), run, GlobalCall(r)).1.Allowed?
  }

  /** The checks made so far, after one more request. */
  function CallsAfter(config: Config, run: Run, r: Request): Run {
    if !IsThrottled(r) then run
    else if ReachesLoginCheck(config, run, r) then Then(Then(run, GlobalCall(r)), LoginCall(r))
    else Then(run, GlobalCall(r))
  }

  function Answer(verdict: Verdict, login: bool): Outcome {
    match verdict
    case Allowed => Forwarded
    case Denied(retryAfter) => TooManyRequests(login, retryAfter)
    case IndexError => ServerError
  }

  function OutcomeAfter(config: Config, run: Run, r: Request): Outcome {
    if !IsThrottled(r) then Forwarded
    else if ReachesLoginCheck(config, run, r)
    then Answer(CheckAfter(PolicyOf(config), Then(run, GlobalCall(r)), LoginCall(r)).1, true)
    else Answer(CheckAfter(PolicyOf(config), run, GlobalCall(r)).1, false)
  }

  class RateLimitMiddleware {
    const config: Config
    const limiter: SlidingWindowLimiter
    /** Every check made so far. */
    ghost var run: Run

    ghost predicate Valid()
      reads this, limiter
    {
      limiter.Contents() == StateAfter(PolicyOf(config), run)
    }

    constructor (config: Config)
      ensures Valid() && this.config == config && run == Start && fresh(limiter)
    {
      this.config := config;
      limiter := new SlidingWindowLimiter();
      run := Start;
    }

    /** Decide whether a request reaches the application. */
    method Handle(r: Request) returns (outcome: Outcome)
      requires Valid()
      modifies this, limiter
      ensures Valid()
      ensures run == CallsAfter(config, old(run), r)
      ensures outcome == OutcomeAfter(config, old(run), r)
    {
      if !IsThrottled(r) {
        return Forwarded;
      }
      var login := false;
      KeysDistinct(ClientOf(r), ClientOf(r));
      assert PolicyOf(config)("ip:" + ClientOf(r)) == Policy(config.maxRequests, config.window);
      assert PolicyOf(config)("login:" + ClientOf(r)) == Policy(config.loginMax, config.loginWindow);
      var verdict := limiter.Check("ip:" + ClientOf(r), config.maxRequests, config.window, r.globalNow);
      assert (limiter.Contents(), verdict) == CheckAfter(PolicyOf(config), run, GlobalCall(r));
      run := Then(run, GlobalCall(r));
      if verdict.Allowed? && IsLogin(config, r) {
        login := true;
        verdict := limiter.Check("login:" + ClientOf(r), config.loginMax, config.loginWindow, r.loginNow);
        assert (limiter.Contents(), verdict) == CheckAfter(PolicyOf(config), run, LoginCall(r));
        run := Then(run, LoginCall(r));
      }
      outcome := Answer(verdict, login);
    }
  }

  // ---- What reaches the application ----

  datatype Traffic = Quiet | More(before: Traffic, request: Request)

  function RunOf(config: Config, traffic: Traffic): Run {
    if traffic.Quiet? then Start else CallsAfter(config, RunOf(config, traffic.before), traffic.request)
  }

  predicate Reaches(config: Config, before: Traffic, r: Request) {
    IsThrottled(r) && OutcomeAfter(config, RunOf(config, before), r).Forwarded?
  }

  /** Rate-limited requests of one client that reach the application in an interval. */
  function CountRequests(config: Config, traffic: Traffic, client: string, after: real, upTo: real): nat {
    if traffic.Quiet? then 0
    else
      var r := traffic.request;
      CountRequests(config, traffic.before, client, after, upTo)
      + if Reaches(config, traffic.before, r) && ClientOf(r) == client && after < r.globalNow <= upTo then 1 else 0
  }

  function CountLogins(config: Config, traffic: Traffic, client: string, after: real, upTo: real): nat {
    if traffic.Quiet? then 0
    else
      var r := traffic.request;
      CountLogins(config, traffic.before, client, after, upTo)
      + if Reaches(config, traffic.before, r) && IsLogin(config, r) && ClientOf(r) == client
           && after < r.loginNow <= upTo then 1 else 0
  }

  lemma {:induction false} KeysDistinct(a: string, b: string)
    ensures "ip:" + a == "ip:" + b <==> a == b
    ensures "login:" + a == "login:" + b <==> a == b
    ensures "ip:" + a != "login:" + b
    ensures "login:" <= "login:" + a && !("login:" <= "ip:" + a)
  {
    assert ("ip:" + a)[3..] == a && ("ip:" + b)[3..] == b;
    assert ("login:" + a)[6..] == a && ("login:" + b)[6..] == b;
    assert ("ip:" + a)[0] == 'i' && ("login:" + b)[0] == 'l';
  }

  lemma {:induction false} RequestsAreAdmitted(config: Config, traffic: Traffic, client: string,
                                               after: real, upTo: real)
    ensures CountRequests(config, traffic, client, after, upTo)
         <= CountWithin(Admitted(PolicyOf(config), RunOf(config, traffic)), "ip:" + client, after, upTo)
  {
    if traffic.More? {
      RequestsAreAdmitted(config, traffic.before, client, after, upTo);
      KeysDistinct(ClientOf(traffic.request), client);
    }
  }

  lemma {:induction false} LoginsAreAdmitted(config: Config, traffic: Traffic, client: string, after: real, upTo: real)
    ensures CountLogins(config, traffic, client, after, upTo)
         <= CountWithin(Admitted(PolicyOf(config), RunOf(config, traffic)), "login:" + client, after, upTo)
  {
    if traffic.More? {
      LoginsAreAdmitted(config, traffic.before, client, after, upTo);
      KeysDistinct(ClientOf(traffic.request), client);
    }
  }

  /**
   * Per client address, both budgets bound what reaches the application in any window, shortened by twice the skew
   * of the clock readings, whatever the traffic.
   */
  lemma {:induction false} BudgetsHold(config: Config, traffic: Traffic, client: string, t: real, skew: real)
    requires Nearly(RunOf(config, traffic), skew) && skew >= 0.0
    ensures CountRequests(config, traffic, client, t - (config.window as real - 2.0 * skew), t)
         <= Cap(config.maxRequests)
    ensures CountLogins(config, traffic, client, t - (config.loginWindow as real - 2.0 * skew), t)
         <= Cap(config.loginMax)
  {
    KeysDistinct(client, client);
    RequestsAreAdmitted(config, traffic, client, t - (config.window as real - 2.0 * skew), t);
    LoginsAreAdmitted(config, traffic, client, t - (config.loginWindow as real - 2.0 * skew), t);
    WindowSafetyWithSkew(PolicyOf(config), RunOf(config, traffic), "ip:" + client, t, skew);
    WindowSafetyWithSkew(PolicyOf(config), RunOf(config, traffic), "login:" + client, t, skew);
  }
}
