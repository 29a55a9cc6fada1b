/** What holds over every run of requests. */
module AccountRuns {
  import opened Options
  import opened Sets
  import opened Accounts

  // ---- Runs ----

  function Run(s: State, pins: Pins, requests: seq<Request>): State {
    if requests == [] then s
    else Handle(Run(s, pins, requests[..|requests| - 1]), pins, requests[|requests| - 1]).0
  }

  /** Whether an account is there during the whole run: at the start, at the end and at any time between. */
  ghost predicate Kept(s: State, pins: Pins, requests: seq<Request>, id: nat) {
    && id in Run(s, pins, requests).users
    && (requests != [] ==> Kept(s, pins, requests[..|requests| - 1], id))
  }

  // ---- Invariants ----

  ghost predicate UniqueNames(users: map<nat, User>) {
    forall a, b | a in users && b in users && users[a].username == users[b].username :: a == b
  }

  ghost predicate UniqueIdentities(users: map<nat, User>) {
    forall a, b | a in users && b in users && users[a].identity.Some? && users[a].identity == users[b].identity ::
      a == b
  }

  ghost predicate LocalUnbound(users: map<nat, User>) {
    forall id | id in users && !users[id].isOidc :: users[id].identity == None
  }

  ghost predicate HasAdmin(users: map<nat, User>) {
    exists id :: id in users && users[id].isAdmin
  }

  ghost predicate HasActiveOidcAdmin(users: map<nat, User>) {
    exists id :: id in users && users[id].isAdmin && users[id].isActive && users[id].isOidc
  }

  ghost predicate Rows(users: map<nat, User>) {
    UniqueNames(users) && UniqueIdentities(users) && LocalUnbound(users)
  }

  ghost predicate Inv(s: State) {
    Rows(s.users) && HasAdmin(s.users)
  }

  /** In OIDC-only mode somebody can still sign in and administer. */
  ghost predicate NotLockedOut(pins: Pins, s: State) {
    OidcOnly(Effective(pins, s.oidc)) ==> HasActiveOidcAdmin(s.users)
  }

  predicate PinnedOidcOnly(pins: Pins) {
    pins.enabled == Some(true) && pins.localLoginDisabled == Some(true)
  }

  // ---- Lemmas on the row operations ----

  /** A changed row that keeps name, kind and bound identity. */
  ghost predicate SameAccount(before: User, after: User) {
    && after.username == before.username && after.isOidc == before.isOidc
    && (before.identity.Some? ==> after.identity == before.identity)
    && (!before.isOidc ==> after.identity == before.identity)
    && before.tokenVersion <= after.tokenVersion
  }

  lemma {:induction false} SetKeepsRows(users: map<nat, User>, id: nat, user: User)
    requires Rows(users) && id in users && SameAccount(users[id], user)
    requires user.identity == users[id].identity
             || (user.identity.Some? && WithIdentity(users, user.identity.value) == {})
    ensures Rows(users[id := user])
  {
    var after := users[id := user];
    forall a, b | a in after && b in after && after[a].identity.Some? && after[a].identity == after[b].identity
      ensures a == b
    {
      if user.identity != users[id].identity && (a == id || b == id) {
        assert forall c | c in users :: users[c].identity != user.identity by {
          assert forall c | c in users && users[c].identity == Some(user.identity.value) ::
              c in WithIdentity(users, user.identity.value);
        }
      }
    }
  }

  lemma {:induction false} AddKeepsRows(users: map<nat, User>, id: nat, user: User)
    requires Rows(users) && id !in users && WithUsername(users, user.username) == {}
    requires user.identity.Some? ==> WithIdentity(users, user.identity.value) == {}
    requires user.isOidc || user.identity == None
    ensures Rows(users[id := user])
  {
    assert forall c | c in users :: users[c].username != user.username by {
      assert forall c | c in users && users[c].username == user.username :: c in WithUsername(users, user.username);
    }
    if user.identity.Some? {
      assert forall c | c in users :: users[c].identity != user.identity by {
        assert forall c | c in users && users[c].identity == user.identity ::
            c in WithIdentity(users, user.identity.value);
      }
    }
  }

  // ---- What one step does to the rows ----

  lemma {:induction false} StepEvolves(s: State, pins: Pins, r: Request, id: nat)
    requires id in s.users && id in Handle(s, pins, r).0.users
    ensures SameAccount(s.users[id], Handle(s, pins, r).0.users[id])
  {
  }

  lemma {:induction false} KeptFromStart(s: State, pins: Pins, requests: seq<Request>, id: nat)
    requires Kept(s, pins, requests, id)
    ensures id in s.users
  {
    if requests != [] {
      KeptFromStart(s, pins, requests[..|requests| - 1], id);
    }
  }

  /** Until it is deleted an account keeps its name, kind and bound identity, and its version never goes down. */
  lemma {:induction false} RunEvolves(s: State, pins: Pins, requests: seq<Request>, id: nat)
    requires Kept(s, pins, requests, id)
    ensures id in s.users && SameAccount(s.users[id], Run(s, pins, requests).users[id])
  {
    if requests != [] {
      var front := requests[..|requests| - 1];
      RunEvolves(s, pins, front, id);
      StepEvolves(Run(s, pins, front), pins, requests[|requests| - 1], id);
    }
  }

  lemma {:induction false} RunKeepsIssued(s: State, pins: Pins, requests: seq<Request>)
    ensures s.issued <= Run(s, pins, requests).issued
  {
    if requests != [] {
      RunKeepsIssued(s, pins, requests[..|requests| - 1]);
      StepKeepsIssued(Run(s, pins, requests[..|requests| - 1]), pins, requests[|requests| - 1]);
    }
  }

  lemma {:induction false} StepKeepsIssued(s: State, pins: Pins, r: Request)
    ensures s.issued <= Handle(s, pins, r).0.issued
  {
  }

  lemma {:induction false} CallbackKeepsRows(s: State, identity: Identity, username: string, newId: nat)
    requires Rows(s.users)
    ensures Rows(AfterOidcCallback(s, identity, username, newId).0.users)
  {
    var bound, named := WithIdentity(s.users, identity), WithUsername(s.users, username);
    if bound == {} {
      if named != {} {
        var id := First(named);
        if s.users[id].isOidc && s.users[id].identity.None? {
          SetKeepsRows(s.users, id, s.users[id].(identity := Some(identity)));
        }
      } else if newId !in s.users {
        AddKeepsRows(s.users, newId, User(username, None, true, true, false, 0, Some(identity)));
      }
    }
  }

  lemma {:induction false} CreateKeepsRows(s: State, r: Request)
    requires r.CreateUser? && Rows(s.users)
    ensures Rows(AfterCreateUser(s, r).0.users)
  {
    if WithUsername(s.users, r.username) == {} && r.newId !in s.users {
      AddKeepsRows(s.users, r.newId, User(r.username, Some(r.password), true, false, r.isAdmin, 0, None));
    }
  }

  /** Accounts are at most removed, or changed in version, password or flags. */
  ghost predicate Narrows(was: map<nat, User>, users: map<nat, User>) {
    forall id | id in users ::
      && id in was && users[id].username == was[id].username
      && users[id].isOidc == was[id].isOidc && users[id].identity == was[id].identity
  }

  lemma {:induction false} OthersNarrow(s: State, pins: Pins, r: Request)
    requires !r.CreateUser? && !r.OidcCallback?
    ensures Narrows(s.users, Handle(s, pins, r).0.users)
  {
  }

  lemma {:induction false} NarrowsKeepsRows(was: map<nat, User>, users: map<nat, User>)
    requires Rows(was) && Narrows(was, users)
    ensures Rows(users)
  {
  }

  lemma {:induction false} OthersKeepRows(s: State, pins: Pins, r: Request)
    requires Rows(s.users) && !r.CreateUser? && !r.OidcCallback?
    ensures Rows(Handle(s, pins, r).0.users)
  {
    OthersNarrow(s, pins, r);
    NarrowsKeepsRows(s.users, Handle(s, pins, r).0.users);
  }

  lemma {:induction false} StepKeepsRows(s: State, pins: Pins, r: Request)
    requires Rows(s.users)
    ensures Rows(Handle(s, pins, r).0.users)
  {
    match r
    case CreateUser(_, _, _, _, _, _) => CreateKeepsRows(s, r);
    case OidcCallback(identity, username, newId) => CallbackKeepsRows(s, identity, username, newId);
    case _ => OthersKeepRows(s, pins, r);
  }

  /** The only ways to lose an administrator are guarded. */
  lemma {:induction false} StepKeepsAdmin(s: State, pins: Pins, r: Request)
    requires HasAdmin(s.users)
    ensures HasAdmin(Handle(s, pins, r).0.users)
  {
    var after := Handle(s, pins, r).0.users;
    var admin :| admin in s.users && s.users[admin].isAdmin;
    match r
    case UpdateUser(_, id, setAdmin, setActive) =>
      if id in s.users && s.users[id].isAdmin && |Admins(s.users)| >= 2 {
        AnotherMember(Admins(s.users), id);
        var other :| other in Admins(s.users) && other != id;
        assert other in after ==> after[other].isAdmin;
      } else {
        assert admin in after && after[admin].isAdmin;
      }
    case DeleteUser(actor, id) =>
      var current := CurrentUser(s, actor);
      if current.Some? && s.users[current.value].isAdmin {
        assert current.value in after ==> after[current.value].isAdmin;
      } else {
        assert admin in after;
      }
    case _ =>
      assert admin in after && after[admin].isAdmin;
  }

  lemma {:induction false} StepKeeps(s: State, pins: Pins, r: Request)
    requires Inv(s)
    ensures Inv(Handle(s, pins, r).0)
  {
    StepKeepsRows(s, pins, r);
    StepKeepsAdmin(s, pins, r);
  }

  /**
   * In every reachable state user names and identities are unique, local accounts have no identity, and there is a
   * super administrator, whichever free ids the database gives out.
   */
  lemma {:induction false} RunKeeps(s: State, pins: Pins, requests: seq<Request>)
    requires Inv(s)
    ensures Inv(Run(s, pins, requests))
  {
    if requests != [] {
      RunKeeps(s, pins, requests[..|requests| - 1]);
      StepKeeps(Run(s, pins, requests[..|requests| - 1]), pins, requests[|requests| - 1]);
    }
  }

  // ---- Revocation ----

  /** A token that its account has left behind. */
  ghost predicate IsDead(s: State, token: Token) {
    token.uid in s.users && token.ver < s.users[token.uid].tokenVersion
  }

  /** The requests that end all sessions of account `id`: logout, password change or reset, and deactivation. */
  ghost predicate Revokes(s: State, pins: Pins, r: Request, id: nat) {
    match r
    case Logout(cookie) => cookie.Some? && Accepts(s, cookie.value) && cookie.value.uid == id
    case ChangePassword(actor, _, _, _) => CurrentUser(s, actor) == Some(id) && Handle(s, pins, r).1.SignedIn?
    case ResetPassword(_, target, _, _) => target == id && Handle(s, pins, r).1.Success?
    case UpdateUser(_, target, _, setActive) =>
      && target == id && id in s.users && s.users[id].isActive && setActive == Some(false)
      && Handle(s, pins, r).1.Success?
    case _ => false
  }

  lemma {:induction false} RevokingKills(s: State, pins: Pins, r: Request, token: Token)
    requires token.uid in s.users && token.ver <= s.users[token.uid].tokenVersion && Revokes(s, pins, r, token.uid)
    ensures IsDead(Handle(s, pins, r).0, token)
  {
  }

  lemma {:induction false} SignInIsCurrent(s: State, pins: Pins, r: Request)
    requires Handle(s, pins, r).1.SignedIn?
    ensures var (t, response) := Handle(s, pins, r);
            response.token.uid in t.users && response.token == TokenOf(response.token.uid, t.users[response.token.uid])
  {
  }

  lemma {:induction false} DeadStaysDead(s: State, pins: Pins, requests: seq<Request>, token: Token)
    requires IsDead(s, token) && Kept(s, pins, requests, token.uid)
    ensures IsDead(Run(s, pins, requests), token) && !Accepts(Run(s, pins, requests), token)
  {
    RunEvolves(s, pins, requests, token.uid);
  }

  /**
   * A token that a sign-in gave is never accepted again once the sessions of its account have been revoked, whatever
   * happens before and after, for as long as that account is not deleted.
   */
  lemma {:induction false} RevocationIsPermanent(s: State, pins: Pins, signIn: Request, between: seq<Request>,
                                                 r: Request, more: seq<Request>)
    requires Handle(s, pins, signIn).1.SignedIn?
    requires var (start, response) := Handle(s, pins, signIn);
             var revoked := Run(start, pins, between);
             && Kept(start, pins, between, response.token.uid)
             && Revokes(revoked, pins, r, response.token.uid)
             && Kept(Handle(revoked, pins, r).0, pins, more, response.token.uid)
    ensures var (start, response) := Handle(s, pins, signIn);
            !Accepts(Run(Handle(Run(start, pins, between), pins, r).0, pins, more), response.token)
  {
    var (start, response) := Handle(s, pins, signIn);
    var revoked := Run(start, pins, between);
    SignInIsCurrent(s, pins, signIn);
    RunEvolves(start, pins, between, response.token.uid);
    RevokingKills(revoked, pins, r, response.token);
    DeadStaysDead(Handle(revoked, pins, r).0, pins, more, response.token);
  }

  /** The session that a password change starts is accepted at once. */
  lemma {:induction false} ChangedPasswordSessionWorks(s: State, pins: Pins, r: Request)
    requires r.ChangePassword? && Handle(s, pins, r).1.SignedIn?
    ensures Accepts(Handle(s, pins, r).0, Handle(s, pins, r).1.token)
  {
  }

  /** Any sign-in gives a token that is accepted exactly while its account is active: login does not check that. */
  lemma {:induction false} SignInWorksIfActive(s: State, pins: Pins, r: Request)
    requires Handle(s, pins, r).1.SignedIn?
    ensures var (t, response) := Handle(s, pins, r);
            response.token.uid in t.users
            && (Accepts(t, response.token) <==> t.users[response.token.uid].isActive)
  {
  }

  // ---- Building runs ----

  lemma {:induction false} RunOne(s: State, pins: Pins, requests: seq<Request>, r: Request)
    ensures Run(s, pins, requests + [r]) == Handle(Run(s, pins, requests), pins, r).0
  {
    assert (requests + [r])[..|requests|] == requests;
  }

  /** An administrator who presents an access token. */
  function ByToken(admin: nat): Credentials {
    Credentials(None, Some(admin))
  }

  ghost predicate CanAdminister(s: State, admin: nat) {
    admin in s.users && s.users[admin].isAdmin && s.users[admin].isActive
  }
}
