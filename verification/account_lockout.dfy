/** Who can be locked out when the environment changes what it pins between one process and the next. */
module AccountLockOut {
  import opened Options
  import opened Accounts
  import opened AccountRuns
  import opened AccountSafety

  // ---- Restarts under other pins ----

  /** What one process does, from a start under some pins to its end. */
  datatype Segment = Segment(pins: Pins, requests: seq<Request>)

  function RunSegments(s: State, segments: seq<Segment>): State {
    if segments == [] then s
    else
      var last := segments[|segments| - 1];
      Run(RunSegments(s, segments[..|segments| - 1]), last.pins, last.requests)
  }

  ghost predicate PinnedFrom(segments: seq<Segment>, allowed: set<Pins>) {
    forall segment | segment in segments :: segment.pins in allowed
  }

  /** Whether one of the two settings is pinned off. */
  predicate PinsOneOff(pins: Pins) {
    pins.enabled == Some(false) || pins.localLoginDisabled == Some(false)
  }

  const UNPINNED := Pins(None, None)

  predicate SafeTogether(allowed: set<Pins>) {
    (forall pins | pins in allowed :: PinsOneOff(pins)) || allowed == {UNPINNED}
  }

  lemma {:induction false} UnpinnedIsSafe(s: State, segments: seq<Segment>)
    requires Inv(s) && NotLockedOut(UNPINNED, s) && PinnedFrom(segments, {UNPINNED})
    ensures Inv(RunSegments(s, segments)) && NotLockedOut(UNPINNED, RunSegments(s, segments))
  {
    if segments != [] {
      var front, last := segments[..|segments| - 1], segments[|segments| - 1];
      UnpinnedIsSafe(s, front);
      assert last.pins == UNPINNED;
      RunKeeps(RunSegments(s, front), UNPINNED, last.requests);
      NeverLockedOut(RunSegments(s, front), UNPINNED, last.requests);
    }
  }

  lemma {:induction false} OneSegment(s: State, pins: Pins, requests: seq<Request>)
    ensures RunSegments(s, [Segment(pins, requests)]) == Run(s, pins, requests)
  {
    assert [Segment(pins, requests)][..0] == [];
  }

  lemma {:induction false} OneMore(s: State, segments: seq<Segment>, segment: Segment)
    ensures RunSegments(s, segments + [segment]) == Run(RunSegments(s, segments), segment.pins, segment.requests)
  {
    assert (segments + [segment])[..|segments|] == segments;
  }

  lemma {:induction false} NotOff(pin: Option<bool>)
    requires pin != Some(false)
    ensures pin == None || pin == Some(true)
  {
    var pinned := pin.Some? && pin.value;
    assert pin == if pinned then Some(true) else None;
  }

  lemma {:induction false} OnePinnedOn(pins: Pins)
    requires !PinsOneOff(pins) && pins != UNPINNED && !PinnedOidcOnly(pins)
    ensures !SafePins(pins)
  {
    NotOff(pins.enabled);
    NotOff(pins.localLoginDisabled);
  }

  /** With no setting pinned off, and one of them pinned on, one process under these pins is enough. */
  lemma {:induction false} PinnedOnLocksOut(pins: Pins, admin: string, password: string)
    returns (segments: seq<Segment>)
    requires !PinsOneOff(pins) && pins != UNPINNED
    ensures segments != [] && PinnedFrom(segments, {pins}) && segments[|segments| - 1].pins == pins
    ensures !NotLockedOut(pins, RunSegments(FirstStart(admin, password), segments))
  {
    var first := FirstStart(admin, password);
    if PinnedOidcOnly(pins) {
      segments := PinnedAtOnce(pins, admin, password);
    } else {
      var r := UpdateOidc(ByToken(1), FatalForm(pins));
      OnePinnedOn(pins);
      FatalFormLocksOut(first, pins, ByToken(1));
      RunOne(first, pins, [], r);
      OneSegment(first, pins, [] + [r]);
      segments := [Segment(pins, [] + [r])];
    }
  }

  function Session(admin: string): Credentials {
    Credentials(Some(Token(admin, 1, 0)), None)
  }

  /** The first administrator signs in, and makes an OIDC account the administrator of OIDC-only mode. */
  function OidcOnlyRequests(admin: string, password: string): seq<Request> {
    [] + [Login(admin, password)]
    + [UpdateOidc(Session(admin), OidcSettings(true, false))]
    + [OidcCallback(Identity("", ""), "o" + admin, 2)]
    + [UpdateUser(Session(admin), 2, Some(true), None)]
    + [UpdateOidc(Session(admin), OidcSettings(true, true))]
  }

  function LocalAdmin(admin: string, password: string): User {
    User(admin, Some(password), true, false, true, 0, None)
  }

  function OidcUser(admin: string, isAdmin: bool): User {
    User("o" + admin, None, true, true, isAdmin, 0, Some(Identity("", "")))
  }

  lemma {:induction false} SignsIn(admin: string, password: string, pins: Pins)
    requires pins.localLoginDisabled != Some(true)
    ensures Handle(FirstStart(admin, password), pins, Login(admin, password)).0
         == State(map[1 := LocalAdmin(admin, password)], None, {Token(admin, 1, 0)})
  {
    assert WithUsername(FirstStart(admin, password).users, admin) == {1};
  }

  lemma {:induction false} EnablesOidc(admin: string, password: string, s: State)
    requires s == State(map[1 := LocalAdmin(admin, password)], None, {Token(admin, 1, 0)})
    ensures Handle(s, UNPINNED, UpdateOidc(Session(admin), OidcSettings(true, false))).0
         == s.(oidc := Some(OidcSettings(true, false)))
  {
  }

  lemma {:induction false} OidcSignsIn(admin: string, password: string, s: State)
    requires s == State(map[1 := LocalAdmin(admin, password)], Some(OidcSettings(true, false)), {Token(admin, 1, 0)})
    ensures Handle(s, UNPINNED, OidcCallback(Identity("", ""), "o" + admin, 2)).0
         == State(map[1 := LocalAdmin(admin, password), 2 := OidcUser(admin, false)], s.oidc,
                  {Token(admin, 1, 0), Token("o" + admin, 2, 0)})
  {
    assert |"o" + admin| == |admin| + 1;
    assert WithIdentity(s.users, Identity("", "")) == {} && WithUsername(s.users, "o" + admin) == {};
    assert s.users[2 := OidcUser(admin, false)] == map[1 := LocalAdmin(admin, password), 2 := OidcUser(admin, false)];
  }

  lemma {:induction false} PromotesOidc(admin: string, password: string, s: State)
    requires s.users == map[1 := LocalAdmin(admin, password), 2 := OidcUser(admin, false)]
    requires Token(admin, 1, 0) in s.issued
    ensures Handle(s, UNPINNED, UpdateUser(Session(admin), 2, Some(true), None)).0
         == s.(users := map[1 := LocalAdmin(admin, password), 2 := OidcUser(admin, true)])
  {
    assert s.users[2 := OidcUser(admin, true)] == map[1 := LocalAdmin(admin, password), 2 := OidcUser(admin, true)];
  }

  lemma {:induction false} GoesOidcOnly(admin: string, password: string, s: State)
    requires s.users == map[1 := LocalAdmin(admin, password), 2 := OidcUser(admin, true)]
    requires Token(admin, 1, 0) in s.issued
    ensures Handle(s, UNPINNED, UpdateOidc(Session(admin), OidcSettings(true, true))).0
         == s.(oidc := Some(OidcSettings(true, true)))
  {
    assert 2 in ActiveOidcAdmins(s.users);
  }

  lemma {:induction false} OidcOnlyReached(admin: string, password: string)
    ensures var s := Run(FirstStart(admin, password), UNPINNED, OidcOnlyRequests(admin, password));
            && s.users == map[1 := LocalAdmin(admin, password), 2 := OidcUser(admin, true)]
            && s.oidc == Some(OidcSettings(true, true)) && Token(admin, 1, 0) in s.issued
  {
    var s := FirstStart(admin, password);
    var done := [] + [Login(admin, password)];
    RunOne(s, UNPINNED, [], Login(admin, password));
    SignsIn(admin, password, UNPINNED);
    var r := UpdateOidc(Session(admin), OidcSettings(true, false));
    EnablesOidc(admin, password, Run(s, UNPINNED, done));
    RunOne(s, UNPINNED, done, r);
    done := done + [r];
    r := OidcCallback(Identity("", ""), "o" + admin, 2);
    OidcSignsIn(admin, password, Run(s, UNPINNED, done));
    RunOne(s, UNPINNED, done, r);
    done := done + [r];
    r := UpdateUser(Session(admin), 2, Some(true), None);
    PromotesOidc(admin, password, Run(s, UNPINNED, done));
    RunOne(s, UNPINNED, done, r);
    done := done + [r];
    r := UpdateOidc(Session(admin), OidcSettings(true, true));
    GoesOidcOnly(admin, password, Run(s, UNPINNED, done));
    RunOne(s, UNPINNED, done, r);
  }

  /** While a setting is pinned off, nothing guards the OIDC administrator. */
  lemma {:induction false} GuardIsOff(admin: string, password: string, pins: Pins, s: State)
    requires PinsOneOff(pins) && Token(admin, 1, 0) in s.issued
    requires s.users == map[1 := LocalAdmin(admin, password), 2 := OidcUser(admin, true)]
    ensures var t := Handle(s, pins, DeleteUser(Session(admin), 2)).0;
            t == s.(users := map[1 := LocalAdmin(admin, password)])
  {
    assert s.users - {2} == map[1 := LocalAdmin(admin, password)];
  }

  /** OIDC-only mode; a restart with a setting pinned off, when the OIDC administrator is deleted; one without pins. */
  lemma {:induction false} UnpinningLocksOut(pins: Pins, admin: string, password: string)
    returns (segments: seq<Segment>)
    requires PinsOneOff(pins)
    ensures segments != [] && PinnedFrom(segments, {UNPINNED, pins}) && segments[|segments| - 1].pins == UNPINNED
    ensures forall segment | segment in segments :: WithoutTokens(segment.requests)
    ensures !NotLockedOut(UNPINNED, RunSegments(FirstStart(admin, password), segments))
  {
    var first := FirstStart(admin, password);
    var before := [Segment(UNPINNED, OidcOnlyRequests(admin, password))];
    OneSegment(first, UNPINNED, OidcOnlyRequests(admin, password));
    OidcOnlyReached(admin, password);
    var s, delete := RunSegments(first, before), DeleteUser(Session(admin), 2);
    GuardIsOff(admin, password, pins, s);
    RunOne(s, pins, [], delete);
    var off, on := Segment(pins, [] + [delete]), Segment(UNPINNED, []);
    OneMore(first, before, off);
    OneMore(first, before + [off], on);
    segments := before + [off] + [on];
    OidcOnlyInSession(admin, password);
    assert !HasActiveOidcAdmin(RunSegments(first, segments).users);
  }

  lemma {:induction false} OidcOnlyInSession(admin: string, password: string)
    ensures WithoutTokens(OidcOnlyRequests(admin, password))
  {
  }

  /** Nobody is locked out at any time of any sequence of processes whose pins are taken from a set. */
  ghost predicate NeverUnder(allowed: set<Pins>, s: State) {
    forall segments: seq<Segment> | segments != [] && PinnedFrom(segments, allowed) ::
      NotLockedOut(segments[|segments| - 1].pins, RunSegments(s, segments))
  }

  /**
   * From the first start on, over any sequence of processes under pins from a set, nobody is ever locked out exactly
   * when each of these pins one setting off, or nothing is ever pinned.
   */
  lemma {:induction false} LockOutCondition(allowed: set<Pins>, admin: string, password: string)
    ensures NeverUnder(allowed, FirstStart(admin, password)) <==> SafeTogether(allowed)
  {
    var first := FirstStart(admin, password);
    if SafeTogether(allowed) {
      FirstStartIsSound(admin, password, UNPINNED);
      forall segments: seq<Segment> | segments != [] && PinnedFrom(segments, allowed)
        ensures NotLockedOut(segments[|segments| - 1].pins, RunSegments(first, segments))
      {
        assert segments[|segments| - 1].pins in allowed;
        if allowed == {UNPINNED} {
          UnpinnedIsSafe(first, segments);
        }
      }
    } else {
      LockedOutUnder(allowed, admin, password);
    }
  }

  lemma {:induction false} LockedOutUnder(allowed: set<Pins>, admin: string, password: string)
    requires !SafeTogether(allowed)
    ensures !NeverUnder(allowed, FirstStart(admin, password))
  {
    var bad :| bad in allowed && !PinsOneOff(bad);
    if bad != UNPINNED {
      var segments := PinnedOnLocksOut(bad, admin, password);
      assert PinnedFrom(segments, allowed);
    } else {
      var other :| other in allowed && other != UNPINNED;
      var segments: seq<Segment>;
      if PinsOneOff(other) {
        segments := UnpinningLocksOut(other, admin, password);
      } else {
        segments := PinnedOnLocksOut(other, admin, password);
      }
      assert PinnedFrom(segments, allowed);
    }
  }

  // ---- Access tokens only of accounts that have signed in ----

  /** What a request presents. */
  function ActorOf(r: Request): Credentials {
    match r
    case CreateUser(actor, _, _, _, _, _) => actor
    case UpdateUser(actor, _, _, _) => actor
    case ResetPassword(actor, _, _, _) => actor
    case DeleteUser(actor, _) => actor
    case UpdateOidc(actor, _) => actor
    case ChangePassword(actor, _, _, _) => actor
    case _ => Credentials(None, None)
  }

  /** An access token is made in a session: its owner has signed in some time. */
  ghost predicate IsEarned(s: State, r: Request) {
    var owner := ActorOf(r).tokenOwner;
    owner.Some? ==> exists token :: token in s.issued && token.uid == owner.value
  }

  ghost predicate EarnedRun(s: State, pins: Pins, requests: seq<Request>) {
    requests != [] ==>
      EarnedRun(s, pins, requests[..|requests| - 1])
      && IsEarned(Run(s, pins, requests[..|requests| - 1]), requests[|requests| - 1])
  }

  ghost predicate EarnedSegments(s: State, segments: seq<Segment>) {
    segments != [] ==>
      var front, last := segments[..|segments| - 1], segments[|segments| - 1];
      EarnedSegments(s, front) && EarnedRun(RunSegments(s, front), last.pins, last.requests)
  }

  ghost predicate WithoutTokens(requests: seq<Request>) {
    forall r | r in requests :: ActorOf(r).tokenOwner == None
  }

  lemma {:induction false} SessionsAreEarned(s: State, pins: Pins, requests: seq<Request>)
    requires WithoutTokens(requests)
    ensures EarnedRun(s, pins, requests)
  {
    if requests != [] {
      SessionsAreEarned(s, pins, requests[..|requests| - 1]);
      assert requests[|requests| - 1] in requests;
    }
  }

  lemma {:induction false} SegmentsAreEarned(s: State, segments: seq<Segment>)
    requires forall segment | segment in segments :: WithoutTokens(segment.requests)
    ensures EarnedSegments(s, segments)
  {
    if segments != [] {
      var front, last := segments[..|segments| - 1], segments[|segments| - 1];
      SegmentsAreEarned(s, front);
      assert last in segments;
      SessionsAreEarned(RunSegments(s, front), last.pins, last.requests);
    }
  }

  /** Nobody can sign in from the first start on: local login is pinned off, and OIDC never on. */
  predicate NobodySignsIn(allowed: set<Pins>) {
    forall pins | pins in allowed :: pins.localLoginDisabled == Some(true) && pins.enabled != Some(true)
  }

  lemma {:induction false} NothingHappens(s: State, pins: Pins, r: Request)
    requires s.issued == {} && s.oidc == None && IsEarned(s, r)
    requires pins.localLoginDisabled == Some(true) && pins.enabled != Some(true)
    ensures Handle(s, pins, r).0 == s
  {
    assert CurrentUser(s, ActorOf(r)) == None;
  }

  lemma {:induction false} NothingHappensInRun(s: State, pins: Pins, requests: seq<Request>)
    requires s.issued == {} && s.oidc == None && EarnedRun(s, pins, requests)
    requires pins.localLoginDisabled == Some(true) && pins.enabled != Some(true)
    ensures Run(s, pins, requests) == s
  {
    if requests != [] {
      NothingHappensInRun(s, pins, requests[..|requests| - 1]);
      NothingHappens(s, pins, requests[|requests| - 1]);
    }
  }

  lemma {:induction false} NothingEverHappens(s: State, segments: seq<Segment>, allowed: set<Pins>)
    requires s.issued == {} && s.oidc == None && EarnedSegments(s, segments)
    requires NobodySignsIn(allowed) && PinnedFrom(segments, allowed)
    ensures RunSegments(s, segments) == s
  {
    if segments != [] {
      var front, last := segments[..|segments| - 1], segments[|segments| - 1];
      NothingEverHappens(s, front, allowed);
      assert last.pins in allowed;
      NothingHappensInRun(s, last.pins, last.requests);
    }
  }

  /** The first administrator signs in where that is possible, and submits the form where it is fatal. */
  lemma {:induction false} SessionLocksOut(start: Pins, bad: Pins, admin: string, password: string)
    returns (segments: seq<Segment>)
    requires start.localLoginDisabled != Some(true) && !SafePins(bad)
    ensures segments != [] && PinnedFrom(segments, {start, bad}) && segments[|segments| - 1].pins == bad
    ensures forall segment | segment in segments :: WithoutTokens(segment.requests)
    ensures !NotLockedOut(bad, RunSegments(FirstStart(admin, password), segments))
  {
    var first, login := FirstStart(admin, password), Login(admin, password);
    var form := UpdateOidc(Session(admin), FatalForm(bad));
    var one, two := Segment(start, [] + [login]), Segment(bad, [] + [form]);
    SignsIn(admin, password, start);
    RunOne(first, start, [], login);
    OneSegment(first, start, [] + [login]);
    var s := RunSegments(first, [one]);
    FatalFormLocksOut(s, bad, Session(admin));
    RunOne(s, bad, [], form);
    OneMore(first, [one], two);
    segments := [one] + [two];
  }

  /** The same as `NeverUnder`, if access tokens are presented only by accounts that have signed in. */
  ghost predicate NeverUnderEarned(allowed: set<Pins>, s: State) {
    forall segments: seq<Segment> | segments != [] && PinnedFrom(segments, allowed) && EarnedSegments(s, segments) ::
      NotLockedOut(segments[|segments| - 1].pins, RunSegments(s, segments))
  }

  /**
   * If access tokens come from sessions only, there is one more way in which the present administrators are never
   * shut out: nobody can ever sign in.
   */
  lemma {:induction false} EarnedLockOutCondition(allowed: set<Pins>, admin: string, password: string)
    ensures NeverUnderEarned(allowed, FirstStart(admin, password)) <==> SafeTogether(allowed) || NobodySignsIn(allowed)
  {
    var first := FirstStart(admin, password);
    if SafeTogether(allowed) {
      LockOutCondition(allowed, admin, password);
    } else if NobodySignsIn(allowed) {
      forall segments: seq<Segment> | segments != [] && PinnedFrom(segments, allowed) && EarnedSegments(first, segments)
        ensures NotLockedOut(segments[|segments| - 1].pins, RunSegments(first, segments))
      {
        assert segments[|segments| - 1].pins in allowed;
        NothingEverHappens(first, segments, allowed);
      }
    } else {
      EarnedLockedOut(allowed, admin, password);
    }
  }

  lemma {:induction false} EarnedLockedOut(allowed: set<Pins>, admin: string, password: string)
    requires !SafeTogether(allowed) && !NobodySignsIn(allowed)
    ensures !NeverUnderEarned(allowed, FirstStart(admin, password))
  {
    var bad :| bad in allowed && !PinsOneOff(bad);
    if bad == UNPINNED {
      var other :| other in allowed && other != UNPINNED;
      EarnedWithUnpinned(allowed, other, admin, password);
    } else {
      var start :| start in allowed && !(start.localLoginDisabled == Some(true) && start.enabled != Some(true));
      EarnedWithPinnedOn(allowed, bad, start, admin, password);
    }
  }

  lemma {:induction false} BreaksEarned(allowed: set<Pins>, s: State, segments: seq<Segment>)
    requires segments != [] && PinnedFrom(segments, allowed)
    requires forall segment | segment in segments :: WithoutTokens(segment.requests)
    requires !NotLockedOut(segments[|segments| - 1].pins, RunSegments(s, segments))
    ensures !NeverUnderEarned(allowed, s)
  {
    SegmentsAreEarned(s, segments);
  }

  lemma {:induction false} EarnedWithUnpinned(allowed: set<Pins>, other: Pins, admin: string, password: string)
    requires UNPINNED in allowed && other in allowed && other != UNPINNED
    ensures !NeverUnderEarned(allowed, FirstStart(admin, password))
  {
    if PinsOneOff(other) {
      var segments := UnpinningLocksOut(other, admin, password);
      BreaksEarned(allowed, FirstStart(admin, password), segments);
    } else {
      EarnedWithPinnedOn(allowed, other, UNPINNED, admin, password);
    }
  }

  lemma {:induction false} EarnedWithPinnedOn(allowed: set<Pins>, bad: Pins, start: Pins, admin: string,
                                              password: string)
    requires bad in allowed && !PinsOneOff(bad) && bad != UNPINNED && start in allowed
    requires start.localLoginDisabled == Some(true) ==> start.enabled == Some(true)
    ensures !NeverUnderEarned(allowed, FirstStart(admin, password))
  {
    var segments;
    if PinnedOidcOnly(bad) {
      segments := PinnedAtOnce(bad, admin, password);
    } else if PinnedOidcOnly(start) {
      segments := PinnedAtOnce(start, admin, password);
    } else {
      OnePinnedOn(bad);
      segments := SessionLocksOut(start, bad, admin, password);
    }
    BreaksEarned(allowed, FirstStart(admin, password), segments);
  }

  /** With both settings pinned on the first administrator is shut out at once. */
  lemma {:induction false} PinnedAtOnce(pins: Pins, admin: string, password: string) returns (segments: seq<Segment>)
    requires PinnedOidcOnly(pins)
    ensures segments == [Segment(pins, [])]
    ensures !NotLockedOut(pins, RunSegments(FirstStart(admin, password), segments))
  {
    FirstStartIsSound(admin, password, pins);
    OneSegment(FirstStart(admin, password), pins, []);
    segments := [Segment(pins, [])];
  }
}
