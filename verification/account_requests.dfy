/** What each request is answered, and exactly which row and which field it changes. */
module AccountRequests {
  import opened Options
  import opened Accounts
  import opened AccountRuns
  import opened AccountSafety

  // ---- Who is asking ----

  /** The session of an active account: name, id and version of the token are those of the row. */
  ghost predicate HasSession(s: State, actor: Credentials, id: nat) {
    actor.cookie.Some?
    && var token := actor.cookie.value;
       && token in s.issued && token.uid == id && id in s.users
       && s.users[id].isActive && token.sub == s.users[id].username && token.ver == s.users[id].tokenVersion
  }

  ghost predicate HasAccessToken(s: State, actor: Credentials, id: nat) {
    actor.tokenOwner == Some(id) && id in s.users && s.users[id].isActive
  }

  /** The session decides, and without a valid one the access token. */
  lemma {:induction false} WhoIsAsking(s: State, actor: Credentials, id: nat)
    ensures CurrentUser(s, actor) == Some(id)
            <==> HasSession(s, actor, id)
                 || (HasAccessToken(s, actor, id) && forall other :: !HasSession(s, actor, other))
  {
    assert actor.cookie.Some? ==> (HasSession(s, actor, actor.cookie.value.uid) <==> Accepts(s, actor.cookie.value));
  }

  /** Whether an active administrator is asking, and what anybody else is told. */
  ghost predicate AsksAsAdmin(s: State, actor: Credentials) {
    var who := CurrentUser(s, actor);
    who.Some? && who.value in s.users && s.users[who.value].isActive && s.users[who.value].isAdmin
  }

  function AdminStatus(s: State, actor: Credentials): int {
    if CurrentUser(s, actor) == None then 401 else 403
  }

  // ---- What stays ----

  /** All rows but one, and the settings, are as before. */
  ghost predicate OnlyRow(s: State, t: State, id: nat) {
    && t.oidc == s.oidc && (forall other | other != id :: other in t.users <==> other in s.users)
    && forall other | other != id && other in s.users :: t.users[other] == s.users[other]
  }

  /** A refusal changes nothing. */
  ghost predicate IsRefused(s: State, t: State, response: Response, status: int) {
    t == s && response == Refused(status)
  }

  // ---- Passwords ----

  /**
   * A password change succeeds exactly for a local account with its current password and a strong new one; it sets
   * the password and the next version of that row and starts a session with it.
   */
  lemma {:induction false} ChangePasswordExactly(s: State, pins: Pins, r: Request)
    requires r.ChangePassword?
    ensures var (t, response) := Handle(s, pins, r);
            var who := CurrentUser(s, r.actor);
            if who.None? then IsRefused(s, t, response, 401)
            else
              var id := who.value;
              var was := s.users[id];
              if was.isOidc then IsRefused(s, t, response, 400)
              else if was.password != Some(r.currentPassword) then IsRefused(s, t, response, 401)
              else if !r.strong then IsRefused(s, t, response, 422)
              else
                && OnlyRow(s, t, id) && id in t.users
                && t.users[id] == User(was.username, Some(r.newPassword), was.isActive, was.isOidc, was.isAdmin,
                                       was.tokenVersion + 1, was.identity)
                && response == SignedIn(Token(was.username, id, was.tokenVersion + 1))
                && t.issued == s.issued + {response.token}
  {
  }

  /** A password reset by an administrator succeeds exactly for a local account and a strong password. */
  lemma {:induction false} ResetPasswordExactly(s: State, pins: Pins, r: Request)
    requires r.ResetPassword?
    ensures var (t, response) := Handle(s, pins, r);
            if !AsksAsAdmin(s, r.actor) then IsRefused(s, t, response, AdminStatus(s, r.actor))
            else if r.id !in s.users then IsRefused(s, t, response, 404)
            else if s.users[r.id].isOidc then IsRefused(s, t, response, 400)
            else if !r.strong then IsRefused(s, t, response, 422)
            else
              var was := s.users[r.id];
              && response.Success? && OnlyRow(s, t, r.id) && t.issued == s.issued && r.id in t.users
              && t.users[r.id] == User(was.username, Some(r.newPassword), was.isActive, was.isOidc, was.isAdmin,
                                       was.tokenVersion + 1, was.identity)
  {
  }

  /** A new local account needs a free name and a strong password. */
  lemma {:induction false} CreateUserExactly(s: State, pins: Pins, r: Request)
    requires r.CreateUser?
    ensures var (t, response) := Handle(s, pins, r);
            if !AsksAsAdmin(s, r.actor) then IsRefused(s, t, response, AdminStatus(s, r.actor))
            else if exists id :: id in s.users && s.users[id].username == r.username
            then IsRefused(s, t, response, 409)
            else if !r.strong then IsRefused(s, t, response, 422)
            else if r.newId in s.users then IsRefused(s, t, response, 500)
            else
              && response.Success? && OnlyRow(s, t, r.newId) && t.issued == s.issued && r.newId in t.users
              && t.users[r.newId] == User(r.username, Some(r.password), true, false, r.isAdmin, 0, None)
  {
    assert WithUsername(s.users, r.username) == {}
      <==> forall id | id in s.users :: s.users[id].username != r.username by {
      assert forall id :: id in WithUsername(s.users, r.username)
                          <==> id in s.users && s.users[id].username == r.username;
    }
  }

  /** Exactly the given password signs in afterwards. */
  lemma {:induction false} GivenPasswordSignsIn(s: State, pins: Pins, r: Request, password: string)
    requires Inv(s) && (r.ResetPassword? || r.CreateUser?) && Handle(s, pins, r).1.Success?
    ensures var t := Handle(s, pins, r).0;
            var username := if r.ResetPassword? then s.users[r.id].username else r.username;
            var given := if r.ResetPassword? then r.newPassword else r.password;
            Handle(t, pins, Login(username, password)).1.SignedIn?
            <==> !Effective(pins, s.oidc).localLoginDisabled && password == given
  {
    var t := Handle(s, pins, r).0;
    var id := if r.ResetPassword? then r.id else r.newId;
    StepKeeps(s, pins, r);
    LoginSucceedsIff(t, pins, t.users[id].username, password);
    OnlyNamed(t, id);
    assert forall other :: other in WithUsername(t.users, t.users[id].username) <==> other == id;
  }

  // ---- Sessions ----

  /** A login changes no row; it starts a session of the named account. */
  lemma {:induction false} LoginExactly(s: State, pins: Pins, r: Request)
    requires r.Login? && UniqueNames(s.users)
    ensures var (t, response) := Handle(s, pins, r);
            if Effective(pins, s.oidc).localLoginDisabled then IsRefused(s, t, response, 403)
            else if forall id | id in s.users && s.users[id].username == r.username ::
              s.users[id].password != Some(r.password)
            then IsRefused(s, t, response, 401)
            else
              && response.SignedIn? && response.token.uid in s.users
              && var user := s.users[response.token.uid];
                 && user.username == r.username && user.password == Some(r.password)
                 && response.token == Token(r.username, response.token.uid, user.tokenVersion)
                 && t == s.(issued := s.issued + {response.token})
  {
    if id :| id in s.users && s.users[id].username == r.username {
      OnlyNamed(s, id);
      assert forall other :: other in WithUsername(s.users, r.username) <==> other == id;
    }
  }

  /** A logout raises the version of the account whose session it is, and nothing else; it always succeeds. */
  lemma {:induction false} LogoutExactly(s: State, pins: Pins, r: Request)
    requires r.Logout?
    ensures var (t, response) := Handle(s, pins, r);
            && response.Success?
            && (if r.cookie.Some? && HasSession(s, Credentials(r.cookie, None), r.cookie.value.uid)
                then
                  var id := r.cookie.value.uid;
                  && OnlyRow(s, t, id) && t.issued == s.issued && id in t.users
                  && t.users[id] == s.users[id].(tokenVersion := s.users[id].tokenVersion + 1)
                else t == s)
  {
  }

  // ---- Accounts ----

  /** Whether an update takes an administrator's rights or activity away, as it is submitted. */
  ghost predicate TakesAway(r: Request)
    requires r.UpdateUser?
  {
    r.setAdmin == Some(false) || r.setActive == Some(false)
  }

  /** In OIDC-only mode, the only active administrator among the OIDC accounts. */
  ghost predicate IsNeeded(s: State, pins: Pins, id: nat) {
    && OidcOnly(Effective(pins, s.oidc))
    && id in s.users && s.users[id].isOidc && s.users[id].isAdmin && s.users[id].isActive
    && forall other | other in s.users && s.users[other].isOidc && s.users[other].isAdmin && s.users[other].isActive ::
         other == id
  }

  ghost predicate IsOnlyAdmin(s: State, id: nat) {
    id in s.users && s.users[id].isAdmin && forall other | other in s.users && s.users[other].isAdmin :: other == id
  }

  lemma {:induction false} OneOrMore(ids: set<nat>, id: nat)
    requires id in ids
    ensures |ids| <= 1 <==> forall other | other in ids :: other == id
  {
    assert |ids - {id}| == |ids| - 1;
    if forall other | other in ids :: other == id {
      assert ids == {id};
    }
  }

  lemma {:induction false} CountsAreOnly(s: State, pins: Pins, id: nat)
    requires id in s.users
    ensures s.users[id].isAdmin ==> (|Admins(s.users)| <= 1 <==> IsOnlyAdmin(s, id))
    ensures IsLastOidcAdmin(s, pins, s.users[id]) <==> IsNeeded(s, pins, id)
  {
    if s.users[id].isAdmin {
      OneOrMore(Admins(s.users), id);
      assert forall other :: other in Admins(s.users) <==> other in s.users && s.users[other].isAdmin;
      if s.users[id].isOidc && s.users[id].isActive {
        OneOrMore(ActiveOidcAdmins(s.users), id);
        assert forall other :: other in ActiveOidcAdmins(s.users) <==>
          other in s.users && s.users[other].isAdmin && s.users[other].isActive && s.users[other].isOidc;
      }
    }
  }

  /**
   * An update is refused exactly when it would take something from the only super administrator, or from the OIDC
   * administrator that OIDC-only mode needs; else it sets what is submitted, and deactivation revokes the sessions.
   */
  lemma {:induction false} UpdateUserExactly(s: State, pins: Pins, r: Request)
    requires r.UpdateUser?
    ensures var (t, response) := Handle(s, pins, r);
            if !AsksAsAdmin(s, r.actor) then IsRefused(s, t, response, AdminStatus(s, r.actor))
            else if r.id !in s.users then IsRefused(s, t, response, 404)
            else if TakesAway(r) && (IsOnlyAdmin(s, r.id) || IsNeeded(s, pins, r.id))
            then IsRefused(s, t, response, 409)
            else
              var was := s.users[r.id];
              && response.Success? && OnlyRow(s, t, r.id) && t.issued == s.issued && r.id in t.users
              && t.users[r.id] == User(was.username, was.password,
                                       match r.setActive case None => was.isActive case Some(active) => active,
                                       was.isOidc,
                                       match r.setAdmin case None => was.isAdmin case Some(admin) => admin,
                                       was.tokenVersion + if was.isActive && r.setActive == Some(false) then 1 else 0,
                                       was.identity)
  {
    if r.id in s.users {
      CountsAreOnly(s, pins, r.id);
    }
  }

  /** A deletion is refused exactly for the own account and for the OIDC administrator that OIDC-only mode needs. */
  lemma {:induction false} DeleteUserExactly(s: State, pins: Pins, r: Request)
    requires r.DeleteUser?
    ensures var (t, response) := Handle(s, pins, r);
            if !AsksAsAdmin(s, r.actor) then IsRefused(s, t, response, AdminStatus(s, r.actor))
            else if CurrentUser(s, r.actor) == Some(r.id) then IsRefused(s, t, response, 400)
            else if r.id !in s.users then IsRefused(s, t, response, 404)
            else if IsNeeded(s, pins, r.id) then IsRefused(s, t, response, 409)
            else response.Success? && OnlyRow(s, t, r.id) && r.id !in t.users && t.issued == s.issued
  {
    if r.id in s.users {
      CountsAreOnly(s, pins, r.id);
    }
  }

  // ---- OIDC ----

  /** The settings in force: the pinned value, else the stored one, else off. */
  lemma {:induction false} EffectiveIs(pins: Pins, row: Option<OidcSettings>)
    ensures var settings := Effective(pins, row);
            && (settings.enabled <==> pins.enabled == Some(true)
                                      || (pins.enabled == None && row.Some? && row.value.enabled))
            && (settings.localLoginDisabled <==> pins.localLoginDisabled == Some(true)
                                                 || (pins.localLoginDisabled == None && row.Some?
                                                     && row.value.localLoginDisabled))
  {
  }

  /** The value a field is stored with: the submitted one, unless it is pinned; then the old one, at first off. */
  ghost predicate IsStored(pin: Option<bool>, submitted: bool, was: bool, now: bool) {
    now == if pin == None then submitted else was
  }

  /** A form is refused exactly when it asks for OIDC-only mode without an active OIDC administrator. */
  lemma {:induction false} UpdateOidcExactly(s: State, pins: Pins, r: Request)
    requires r.UpdateOidc?
    ensures var (t, response) := Handle(s, pins, r);
            if !AsksAsAdmin(s, r.actor) then IsRefused(s, t, response, AdminStatus(s, r.actor))
            else if r.settings.enabled && r.settings.localLoginDisabled && !HasActiveOidcAdmin(s.users)
            then IsRefused(s, t, response, 409)
            else
              && response.Success? && t.users == s.users && t.issued == s.issued && t.oidc.Some?
              && IsStored(pins.enabled, r.settings.enabled, s.oidc.Some? && s.oidc.value.enabled, t.oidc.value.enabled)
              && IsStored(pins.localLoginDisabled, r.settings.localLoginDisabled,
                          s.oidc.Some? && s.oidc.value.localLoginDisabled, t.oidc.value.localLoginDisabled)
  {
    SomeActiveOidcAdmin(s.users);
  }

  /** A session of an account as it stands. */
  ghost predicate StartsSession(t: State, before: State, id: nat, response: Response) {
    && id in t.users && response == SignedIn(Token(t.users[id].username, id, t.users[id].tokenVersion))
    && t.issued == before.issued + {response.token}
  }

  ghost predicate Bears(s: State, id: nat, identity: Identity) {
    id in s.users && s.users[id].identity == Some(identity)
  }

  ghost predicate IsCalled(s: State, id: nat, username: string) {
    id in s.users && s.users[id].username == username
  }

  /**
   * An identity signs in to the account that bears it; else it is linked to the OIDC account of that name that bears
   * none; else, if no account has the name, it gets a new account without rights.
   */
  lemma {:induction false} OidcCallbackExactly(s: State, pins: Pins, r: Request)
    requires r.OidcCallback? && Rows(s.users)
    ensures var (t, response) := Handle(s, pins, r);
            if !Effective(pins, s.oidc).enabled then IsRefused(s, t, response, 400)
            else if exists id :: Bears(s, id, r.identity) then
              && t.users == s.users && t.oidc == s.oidc
              && forall id | Bears(s, id, r.identity) :: StartsSession(t, s, id, response)
            else if exists id :: IsCalled(s, id, r.username) then
              forall id | IsCalled(s, id, r.username) ::
                if !s.users[id].isOidc || s.users[id].identity.Some? then IsRefused(s, t, response, 409)
                else
                  && OnlyRow(s, t, id) && StartsSession(t, s, id, response)
                  && t.users[id] == s.users[id].(identity := Some(r.identity))
            else if r.newId in s.users then IsRefused(s, t, response, 500)
            else
              && OnlyRow(s, t, r.newId) && StartsSession(t, s, r.newId, response)
              && t.users[r.newId] == User(r.username, None, true, true, false, 0, Some(r.identity))
  {
    assert forall id :: id in WithIdentity(s.users, r.identity) <==> Bears(s, id, r.identity);
    assert forall id :: id in WithUsername(s.users, r.username) <==> IsCalled(s, id, r.username);
  }
}
