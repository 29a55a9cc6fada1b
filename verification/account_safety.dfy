/** Identities stay with their accounts, and who can be locked out. */
module AccountSafety {
  import opened Options
  import opened Sets
  import opened Accounts
  import opened AccountRuns

  // ---- Identities ----

  /** The account an identity signs in to bears it afterwards, and is not a local one. */
  lemma {:induction false} CallbackBinds(s: State, pins: Pins, r: Request)
    requires LocalUnbound(s.users) && r.OidcCallback? && Handle(s, pins, r).1.SignedIn?
    ensures var (t, response) := Handle(s, pins, r);
            && response.token.uid in t.users
            && t.users[response.token.uid].identity == Some(r.identity) && t.users[response.token.uid].isOidc
  {
    if WithIdentity(s.users, r.identity) != {} {
      assert First(WithIdentity(s.users, r.identity)) in WithIdentity(s.users, r.identity);
    }
  }

  lemma {:induction false} BoundResolves(s: State, identity: Identity, username: string, newId: nat, id: nat)
    requires UniqueIdentities(s.users) && id in s.users && s.users[id].identity == Some(identity)
    ensures var (t, response) := AfterOidcCallback(s, identity, username, newId);
            response.SignedIn? && response.token.uid == id && t.users == s.users
  {
    assert id in WithIdentity(s.users, identity);
    assert First(WithIdentity(s.users, identity)) in WithIdentity(s.users, identity);
  }

  /**
   * An identity that has signed in resolves to the same account for as long as that account exists, whatever user
   * name the provider sends later, and the account is neither rebound nor shared with another identity.
   */
  lemma {:induction false} IdentityIsStable(s: State, pins: Pins, r: Request, more: seq<Request>, again: Request)
    requires Inv(s) && r.OidcCallback? && Handle(s, pins, r).1.SignedIn?
    requires Kept(Handle(s, pins, r).0, pins, more, Handle(s, pins, r).1.token.uid)
    requires again.OidcCallback? && Effective(pins, Run(Handle(s, pins, r).0, pins, more).oidc).enabled
    ensures var id := Handle(s, pins, r).1.token.uid;
            var later := Run(Handle(s, pins, r).0, pins, more);
            var (t, response) := Handle(later, pins, again);
            && later.users[id].identity == Some(r.identity)
            && (again.identity == r.identity ==>
                  response.SignedIn? && response.token.uid == id && t.users == later.users)
            && (again.identity != r.identity && response.SignedIn? ==> response.token.uid != id)
  {
    var id := Handle(s, pins, r).1.token.uid;
    var start := Handle(s, pins, r).0;
    CallbackBinds(s, pins, r);
    StepKeeps(s, pins, r);
    RunKeeps(start, pins, more);
    RunEvolves(start, pins, more, id);
    var later := Run(start, pins, more);
    if again.identity == r.identity {
      BoundResolves(later, again.identity, again.username, again.newId, id);
    } else if Handle(later, pins, again).1.SignedIn? {
      OtherIdentityElsewhere(later, pins, again, id);
    }
  }

  lemma {:induction false} OtherIdentityElsewhere(s: State, pins: Pins, r: Request, id: nat)
    requires r.OidcCallback? && Handle(s, pins, r).1.SignedIn?
    requires id in s.users && s.users[id].identity.Some? && s.users[id].identity != Some(r.identity)
    ensures Handle(s, pins, r).1.token.uid != id
  {
    if WithIdentity(s.users, r.identity) != {} {
      assert First(WithIdentity(s.users, r.identity)) in WithIdentity(s.users, r.identity);
    }
  }

  /** Until it is deleted a local account stays local and never gains an identity. */
  lemma {:induction false} LocalAccountIsNeverTaken(s: State, pins: Pins, requests: seq<Request>, id: nat)
    requires Inv(s) && Kept(s, pins, requests, id) && id in s.users && !s.users[id].isOidc
    ensures !Run(s, pins, requests).users[id].isOidc && Run(s, pins, requests).users[id].identity == None
  {
    RunEvolves(s, pins, requests, id);
  }

  // ---- Passwords ----

  lemma {:induction false} OnlyNamed(s: State, id: nat)
    requires UniqueNames(s.users) && id in s.users
    ensures WithUsername(s.users, s.users[id].username) == {id}
  {
  }

  /** Local login signs in to the account of that name and password, and only while it is not disabled. */
  lemma {:induction false} LoginSucceedsIff(s: State, pins: Pins, username: string, password: string)
    requires UniqueNames(s.users)
    ensures var response := Handle(s, pins, Login(username, password)).1;
            && (response.SignedIn? <==>
                  && !Effective(pins, s.oidc).localLoginDisabled
                  && exists id ::
                       id in s.users && s.users[id].username == username && s.users[id].password == Some(password))
            && (response.SignedIn? ==>
                  response.token.uid in s.users && s.users[response.token.uid].username == username)
  {
    if id :| id in s.users && s.users[id].username == username {
      OnlyNamed(s, id);
    }
  }

  /** After a password change the new password, and no other, signs in. */
  lemma {:induction false} ChangedPasswordIsTheOnlyOne(s: State, pins: Pins, r: Request, password: string)
    requires Inv(s) && r.ChangePassword? && Handle(s, pins, r).1.SignedIn?
    ensures var t := Handle(s, pins, r).0;
            var username := Handle(s, pins, r).1.token.sub;
            Handle(t, pins, Login(username, password)).1.SignedIn?
            <==> !Effective(pins, s.oidc).localLoginDisabled && password == r.newPassword
  {
    var (t, response) := Handle(s, pins, r);
    StepKeeps(s, pins, r);
    LoginSucceedsIff(t, pins, response.token.sub, password);
    OnlyNamed(t, response.token.uid);
    assert forall id :: id in WithUsername(t.users, response.token.sub) <==> id == response.token.uid;
  }

  // ---- Lock-out ----

  /** Not exactly one of the two settings pinned on with the other left to the form. */
  predicate SafePins(pins: Pins) {
    && !(pins.enabled == Some(true) && pins.localLoginDisabled == None)
    && !(pins.enabled == None && pins.localLoginDisabled == Some(true))
  }

  lemma {:induction false} UpdateUserKeepsOidcAdmin(s: State, pins: Pins, id: nat, setAdmin: Option<bool>,
                                                    setActive: Option<bool>)
    requires NotLockedOut(pins, s)
    ensures NotLockedOut(pins, AfterUpdateUser(s, pins, id, setAdmin, setActive).0)
  {
    if OidcOnly(Effective(pins, s.oidc)) {
      var after := AfterUpdateUser(s, pins, id, setAdmin, setActive).0.users;
      var admin :| admin in s.users && s.users[admin].isAdmin && s.users[admin].isActive && s.users[admin].isOidc;
      if admin == id && |ActiveOidcAdmins(s.users)| >= 2 {
        AnotherMember(ActiveOidcAdmins(s.users), id);
        var other :| other in ActiveOidcAdmins(s.users) && other != id;
        assert other in after && after[other] == s.users[other];
      } else {
        assert admin in after && after[admin].isAdmin && after[admin].isActive && after[admin].isOidc;
      }
    }
  }

  lemma {:induction false} DeleteUserKeepsOidcAdmin(s: State, pins: Pins, actor: Credentials, id: nat)
    requires NotLockedOut(pins, s)
    ensures NotLockedOut(pins, AfterDeleteUser(s, pins, actor, id).0)
  {
    if OidcOnly(Effective(pins, s.oidc)) {
      var after := AfterDeleteUser(s, pins, actor, id).0.users;
      var admin :| admin in s.users && s.users[admin].isAdmin && s.users[admin].isActive && s.users[admin].isOidc;
      if admin == id && |ActiveOidcAdmins(s.users)| >= 2 {
        AnotherMember(ActiveOidcAdmins(s.users), id);
        var other :| other in ActiveOidcAdmins(s.users) && other != id;
        assert other in after && after[other] == s.users[other];
      } else {
        assert admin in after && after[admin].isAdmin && after[admin].isActive && after[admin].isOidc;
      }
    }
  }

  lemma {:induction false} UpdateOidcKeepsOidcAdmin(s: State, pins: Pins, settings: OidcSettings)
    requires NotLockedOut(pins, s) && SafePins(pins)
    ensures NotLockedOut(pins, AfterUpdateOidc(s, pins, settings).0)
  {
    if OidcOnly(settings) && ActiveOidcAdmins(s.users) != {} {
      var admin :| admin in ActiveOidcAdmins(s.users);
      assert HasActiveOidcAdmin(s.users);
    }
  }

  /** Requests that leave the settings alone and every active OIDC administrator as such. */
  lemma {:induction false} OthersKeepOidcAdmin(s: State, pins: Pins, r: Request)
    requires NotLockedOut(pins, s) && !r.UpdateUser? && !r.DeleteUser? && !r.UpdateOidc?
    ensures NotLockedOut(pins, Handle(s, pins, r).0)
  {
    var after := Handle(s, pins, r).0;
    if OidcOnly(Effective(pins, s.oidc)) {
      var admin :| admin in s.users && s.users[admin].isAdmin && s.users[admin].isActive && s.users[admin].isOidc;
      assert admin in after.users && after.users[admin].isAdmin && after.users[admin].isActive
             && after.users[admin].isOidc;
    }
  }

  lemma {:induction false} StepKeepsOidcAdmin(s: State, pins: Pins, r: Request)
    requires NotLockedOut(pins, s) && SafePins(pins)
    ensures NotLockedOut(pins, Handle(s, pins, r).0)
  {
    match r
    case UpdateUser(_, id, setAdmin, setActive) => UpdateUserKeepsOidcAdmin(s, pins, id, setAdmin, setActive);
    case DeleteUser(actor, id) => DeleteUserKeepsOidcAdmin(s, pins, actor, id);
    case UpdateOidc(_, settings) => UpdateOidcKeepsOidcAdmin(s, pins, settings);
    case _ => OthersKeepOidcAdmin(s, pins, r);
  }

  /** Over any run there is always a super administrator, and in OIDC-only mode an active OIDC one. */
  lemma {:induction false} NeverLockedOut(s: State, pins: Pins, requests: seq<Request>)
    requires Inv(s) && NotLockedOut(pins, s) && SafePins(pins)
    ensures HasAdmin(Run(s, pins, requests).users) && NotLockedOut(pins, Run(s, pins, requests))
  {
    if requests != [] {
      NeverLockedOut(s, pins, requests[..|requests| - 1]);
      StepKeepsOidcAdmin(Run(s, pins, requests[..|requests| - 1]), pins, requests[|requests| - 1]);
    }
    RunKeeps(s, pins, requests);
  }

  /** One local administrator, signed in, with both settings stored off. */
  function LocalOnly(): State {
    State(map[1 := User("admin", Some("a"), true, false, true, 0, None)], None, {Token("admin", 1, 0)})
  }

  function AsAdmin(): Credentials {
    Credentials(Some(Token("admin", 1, 0)), None)
  }

  /** The form that locks everybody out under unsafe pins. */
  function FatalForm(pins: Pins): OidcSettings {
    OidcSettings(pins.enabled == None, pins.localLoginDisabled == None)
  }

  /** With exactly one setting pinned on, storing the other one locks everybody out: the guard reads the form only. */
  lemma {:induction false} UnsafePinsLockOut(pins: Pins)
    requires !SafePins(pins)
    ensures var s := LocalOnly();
            && Inv(s) && NotLockedOut(pins, s)
            && !NotLockedOut(pins, Handle(s, pins, UpdateOidc(AsAdmin(), FatalForm(pins))).0)
  {
    var s := LocalOnly();
    assert s.users[1].isAdmin;
    assert Handle(s, pins, UpdateOidc(AsAdmin(), FatalForm(pins))).0.users == s.users;
  }

  /** The guards keep a state that is not locked out so under exactly the safe pins. */
  lemma {:induction false} GuardCondition(pins: Pins)
    ensures (forall s: State, r: Request | Inv(s) && NotLockedOut(pins, s) :: NotLockedOut(pins, Handle(s, pins, r).0))
            <==> SafePins(pins)
  {
    if SafePins(pins) {
      forall s: State, r: Request | Inv(s) && NotLockedOut(pins, s)
        ensures NotLockedOut(pins, Handle(s, pins, r).0)
      {
        StepKeepsOidcAdmin(s, pins, r);
      }
    } else {
      UnsafePinsLockOut(pins);
    }
  }

  lemma {:induction false} FirstStartIsSound(admin: string, password: string, pins: Pins)
    ensures Inv(FirstStart(admin, password))
    ensures NotLockedOut(pins, FirstStart(admin, password)) <==> !PinnedOidcOnly(pins)
  {
    assert FirstStart(admin, password).users[1].isAdmin;
  }

  lemma {:induction false} FatalFormLocksOut(s: State, pins: Pins, actor: Credentials)
    requires !SafePins(pins) && AdminRefusal(s, actor) == 0 && ActiveOidcAdmins(s.users) == {}
    ensures !NotLockedOut(pins, Handle(s, pins, UpdateOidc(actor, FatalForm(pins))).0)
  {
    var after := Handle(s, pins, UpdateOidc(actor, FatalForm(pins))).0;
    assert after.users == s.users;
    SomeActiveOidcAdmin(s.users);
  }

  lemma {:induction false} SomeActiveOidcAdmin(users: map<nat, User>)
    ensures HasActiveOidcAdmin(users) <==> ActiveOidcAdmins(users) != {}
  {
    if id :| id in users && users[id].isAdmin && users[id].isActive && users[id].isOidc {
      assert id in ActiveOidcAdmins(users);
    }
  }

  // ---- Active administrators ----

  function ActiveAdmins(users: map<nat, User>): set<nat> {
    set id | id in users && users[id].isAdmin && users[id].isActive
  }

  lemma {:induction false} AdminActs(s: State, actor: Credentials)
    requires AdminRefusal(s, actor) == 0
    ensures CurrentUser(s, actor).Some? && CurrentUser(s, actor).value in ActiveAdmins(s.users)
  {
  }

  /** What a user update makes of the other administrators: nothing. */
  lemma {:induction false} UpdateLeavesOthers(s: State, pins: Pins, id: nat, setAdmin: Option<bool>,
                                              setActive: Option<bool>)
    ensures var after := AfterUpdateUser(s, pins, id, setAdmin, setActive).0.users;
            ActiveAdmins(after) - {id} == ActiveAdmins(s.users) - {id}
  {
  }

  /** Whether an update demotes or deactivates the account. */
  predicate Weakens(r: Request)
    requires r.UpdateUser?
  {
    r.setAdmin == Some(false) || r.setActive == Some(false)
  }

  /** The guards that an update of the only active administrator by itself has to pass. */
  predicate TakesLastActiveAdmin(s: State, pins: Pins, r: Request)
    requires r.UpdateUser?
  {
    && Weakens(r) && ActiveAdmins(s.users) == {r.id} && CurrentUser(s, r.actor) == Some(r.id)
    && |Admins(s.users)| >= 2 && !(s.users[r.id].isOidc && OidcOnly(Effective(pins, s.oidc)))
  }

  lemma {:induction false} OnlyActiveOidcAdmin(s: State, id: nat)
    requires ActiveAdmins(s.users) == {id} && s.users[id].isOidc
    ensures |ActiveOidcAdmins(s.users)| <= 1
  {
    assert forall other | other in ActiveOidcAdmins(s.users) :: other in ActiveAdmins(s.users);
    SubsetSize(ActiveOidcAdmins(s.users), {id});
  }

  lemma {:induction false} NothingElse(s: set<nat>, id: nat)
    requires s - {id} == {}
    ensures s == {} <==> id !in s
  {
    if id !in s {
      assert s == s - {id};
    }
  }

  lemma {:induction false} UpdateTakesLast(s: State, pins: Pins, r: Request)
    requires r.UpdateUser? && ActiveAdmins(s.users) != {}
    ensures ActiveAdmins(Handle(s, pins, r).0.users) == {} <==> TakesLastActiveAdmin(s, pins, r)
  {
    if AdminRefusal(s, r.actor) == 0 {
      var after := Handle(s, pins, r).0.users;
      AdminActs(s, r.actor);
      UpdateLeavesOthers(s, pins, r.id, r.setAdmin, r.setActive);
      if ActiveAdmins(s.users) == {r.id} {
        assert r.id in ActiveAdmins(s.users);
        if s.users[r.id].isOidc {
          OnlyActiveOidcAdmin(s, r.id);
        }
        assert r.id in ActiveAdmins(after) <==> after[r.id].isAdmin && after[r.id].isActive;
        NothingElse(ActiveAdmins(after), r.id);
      }
    }
  }

  lemma {:induction false} OthersLeaveActiveAdmin(s: State, pins: Pins, r: Request)
    requires !r.UpdateUser? && ActiveAdmins(s.users) != {}
    ensures ActiveAdmins(Handle(s, pins, r).0.users) != {}
  {
    var after := Handle(s, pins, r).0.users;
    if r.DeleteUser? && Handle(s, pins, r).1.Success? {
      assert CurrentUser(s, r.actor).value in ActiveAdmins(after);
    } else {
      var admin :| admin in ActiveAdmins(s.users);
      assert admin in ActiveAdmins(after);
    }
  }

  /**
   * The guard of user updates counts inactive administrators too, so the last active one can be taken away: this
   * happens exactly when it demotes or deactivates itself while an inactive one is counted beside it, unless the
   * guard of OIDC-only mode applies.
   */
  lemma {:induction false} LastActiveAdminLost(s: State, pins: Pins, r: Request)
    requires ActiveAdmins(s.users) != {}
    ensures ActiveAdmins(Handle(s, pins, r).0.users) == {} <==> r.UpdateUser? && TakesLastActiveAdmin(s, pins, r)
  {
    if r.UpdateUser? {
      UpdateTakesLast(s, pins, r);
    } else {
      OthersLeaveActiveAdmin(s, pins, r);
    }
  }

  /** With a second, inactive administrator the active one can deactivate itself; then nobody can administer. */
  lemma {:induction false} SelfDeactivation(pins: Pins, s: State)
    requires pins == Pins(None, None)
    requires s == LocalOnly().(users := LocalOnly().users[2 := User("old", Some("o"), false, false, true, 0, None)])
    ensures Inv(s) && ActiveAdmins(s.users) == {1}
    ensures ActiveAdmins(Handle(s, pins, UpdateUser(AsAdmin(), 1, None, Some(false))).0.users) == {}
  {
    assert s.users[1].isAdmin;
    assert {1, 2} <= Admins(s.users);
    SubsetSize({1, 2}, Admins(s.users));
    assert ActiveAdmins(s.users) == {1};
    LastActiveAdminLost(s, pins, UpdateUser(AsAdmin(), 1, None, Some(false)));
  }
}
