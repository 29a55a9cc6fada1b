/** What the middleware answers: which requests reach the application, and what the others are told. */
module MiddlewareAnswers {
  import opened Options
  import opened RateLimiter
  import opened LimiterRuns
  import opened LimiterSkew
  import opened LimiterBounds
  import opened Middleware

  /** Requests that are not throttled reach the application and are not counted. */
  lemma {:induction false} ExemptIsForwarded(config: Config, run: Run, r: Request)
    requires !r.isHttp || !("/api/" <= r.path) || r.path == "/api/health"
    ensures OutcomeAfter(config, run, r) == Forwarded && CallsAfter(config, run, r) == run
  {
  }

  /** The resolved client address, or the one name shared by all requests that have none. */
  ghost predicate IsClient(r: Request, client: string) {
    client == match r.clientIp case None => "unknown" case Some(ip) => if ip == "" then "unknown" else ip
  }

  ghost predicate IsLoginPost(config: Config, r: Request) {
    r.verb == "POST" && r.path == config.loginPath
  }

  /** The admitted hits of a key in the window that ends at a check. */
  ghost function Hits(config: Config, run: Run, c: Call, window: int): nat {
    CountWithin(Admitted(PolicyOf(config), run), c.key, c.now - window as real, c.now)
  }

  lemma {:induction false} PoliciesOf(config: Config, client: string)
    ensures PolicyOf(config)("ip:" + client) == Policy(config.maxRequests, config.window)
    ensures PolicyOf(config)("login:" + client) == Policy(config.loginMax, config.loginWindow)
  {
    KeysDistinct(client, client);
  }

  lemma {:induction false} InOrderBefore(run: Run, c: Call, d: Call)
    requires InOrder(Then(Then(run, c), d))
    ensures InOrder(Then(run, c)) && InOrder(Then(run, d)) && c.now <= d.now
  {
  }

  /** A check of one budget: admitted below the limit, else told to come back when the oldest hit has left. */
  ghost predicate IsJudged(config: Config, run: Run, c: Call, limit: int, window: int, verdict: Verdict) {
    && (verdict.Allowed? <==> Hits(config, run, c, window) < limit)
    && (verdict.IndexError? <==> limit <= 0)
    && (verdict.Denied? ==>
          RetryInBounds(Policy(limit, window), Live(Admitted(PolicyOf(config), run), c.key, c.now - window as real),
                        c.now, verdict.retryAfter))
  }

  lemma {:induction false} Judged(config: Config, run: Run, c: Call)
    requires InOrder(Then(run, c))
    ensures var p := PolicyOf(config)(c.key);
            IsJudged(config, run, c, p.limit, p.window, CheckAfter(PolicyOf(config), run, c).1)
  {
    AllowedBelowLimit(PolicyOf(config), run, c);
    if CheckAfter(PolicyOf(config), run, c).1.Denied? {
      RetryAfterBound(PolicyOf(config), run, c);
    }
  }

  /** The check of the global budget does not change what the login budget has counted. */
  lemma {:induction false} OtherKeyUncounted(config: Config, run: Run, c: Call, d: Call, window: int)
    requires c.key != d.key
    ensures Hits(config, Then(run, c), d, window) == Hits(config, run, d, window)
    ensures Live(Admitted(PolicyOf(config), Then(run, c)), d.key, d.now - window as real)
         == Live(Admitted(PolicyOf(config), run), d.key, d.now - window as real)
  {
  }

  /** Told to wait on account of one budget, with a delay that is at most a second too long and never too short. */
  ghost predicate IsTurnedAway(config: Config, run: Run, c: Call, limit: int, window: int, login: bool,
                               outcome: Outcome)
  {
    && outcome.TooManyRequests? && outcome.login == login
    && RetryInBounds(Policy(limit, window), Live(Admitted(PolicyOf(config), run), c.key, c.now - window as real),
                     c.now, outcome.retryAfter)
  }

  /**
   * The answer to a throttled request: within both budgets, where the second is for login posts only, it reaches the
   * application; otherwise it names the budget that is full; a budget of nothing makes the server fail.
   */
  ghost predicate IsAnswered(config: Config, run: Run, r: Request, global: Call, login: Call, outcome: Outcome) {
    var within := Hits(config, run, global, config.window) < config.maxRequests;
    var loginWithin := IsLoginPost(config, r) ==> Hits(config, run, login, config.loginWindow) < config.loginMax;
    && (outcome.Forwarded? <==> within && loginWithin)
    && (outcome.ServerError? <==>
          config.maxRequests <= 0 || (within && IsLoginPost(config, r) && config.loginMax <= 0))
    && (!within && config.maxRequests > 0 ==>
          IsTurnedAway(config, run, global, config.maxRequests, config.window, false, outcome))
    && (within && !loginWithin && config.loginMax > 0 ==>
          IsTurnedAway(config, run, login, config.loginMax, config.loginWindow, true, outcome))
  }

  /** A login post that passes the global budget takes a hit of both budgets, any other request of the first only. */
  ghost predicate IsCounted(config: Config, run: Run, r: Request, global: Call, login: Call) {
    CallsAfter(config, run, r)
    == if IsLoginPost(config, r) && Hits(config, run, global, config.window) < config.maxRequests
       then Then(Then(run, global), login) else Then(run, global)
  }

  /** For clock readings in order, what a throttled request is answered and how it is counted. */
  lemma {:induction false} ThrottledIsAnswered(config: Config, run: Run, r: Request, client: string)
    requires r.isHttp && "/api/" <= r.path && r.path != "/api/health" && IsClient(r, client)
    requires InOrder(Then(Then(run, Call("ip:" + client, r.globalNow)), Call("login:" + client, r.loginNow)))
    ensures var global, login := Call("ip:" + client, r.globalNow), Call("login:" + client, r.loginNow);
            IsAnswered(config, run, r, global, login, OutcomeAfter(config, run, r))
            && IsCounted(config, run, r, global, login)
  {
    var global, login := Call("ip:" + client, r.globalNow), Call("login:" + client, r.loginNow);
    PoliciesOf(config, client);
    KeysDistinct(client, client);
    InOrderBefore(run, global, login);
    Judged(config, run, global);
    Judged(config, Then(run, global), login);
    OtherKeyUncounted(config, run, global, login, config.loginWindow);
    assert global == GlobalCall(r) && login == LoginCall(r);
  }
}
