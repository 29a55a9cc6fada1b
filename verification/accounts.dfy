/** Users, sessions and OIDC identities: what each request makes of the stored rows. */
module Accounts {
  import opened Options

  /** The stable identity of an OIDC account. */
  datatype Identity = Identity(issuer: string, subject: string)

  /** A password stands for its hash. */
  datatype User = User(username: string, password: Option<string>, isActive: bool, isOidc: bool, isAdmin: bool,
                       tokenVersion: nat, identity: Option<Identity>)

  /** The two settings that decide who can sign in. */
  datatype OidcSettings = OidcSettings(enabled: bool, localLoginDisabled: bool)

  /** The settings the environment pins, fixed while the process runs. */
  datatype Pins = Pins(enabled: Option<bool>, localLoginDisabled: Option<bool>)

  /** The claims of a session JWT. */
  datatype Token = Token(sub: string, uid: nat, ver: nat)

  /** `issued` are the session tokens signed so far, the only ones that can be presented. */
  datatype State = State(users: map<nat, User>, oidc: Option<OidcSettings>, issued: set<Token>)

  /** A session cookie and the owner of a valid personal access token, as far as a request carries them. */
  datatype Credentials = Credentials(cookie: Option<Token>, tokenOwner: Option<nat>)

  /**
   * `newId` is the id the database gives to a row the request adds, possibly that of a deleted row; `strong` is
   * whether a password meets the policy.
   */
  datatype Request =
    | CreateUser(actor: Credentials, username: string, password: string, isAdmin: bool, strong: bool, newId: nat)
    | UpdateUser(actor: Credentials, id: nat, setAdmin: Option<bool>, setActive: Option<bool>)
    | ResetPassword(actor: Credentials, id: nat, newPassword: string, strong: bool)
    | DeleteUser(actor: Credentials, id: nat)
    | UpdateOidc(actor: Credentials, settings: OidcSettings)
    | Login(username: string, password: string)
    | Logout(cookie: Option<Token>)
    | ChangePassword(actor: Credentials, currentPassword: string, newPassword: string, strong: bool)
    | OidcCallback(identity: Identity, username: string, newId: nat)

  datatype Response = Success | SignedIn(token: Token) | Refused(status: int)

  /** What the first start leaves: the initial administrator. */
  function FirstStart(admin: string, password: string): State {
    State(map[1 := User(admin, Some(password), true, false, true, 0, None)], None, {})
  }

  // ---- Queries ----

  function TokenOf(id: nat, user: User): Token {
    Token(user.username, id, user.tokenVersion)
  }

  /** `user_from_session_cookie` on a token that has not expired. */
  predicate Accepts(s: State, token: Token) {
    && token in s.issued && token.uid in s.users
    && s.users[token.uid].isActive && TokenOf(token.uid, s.users[token.uid]) == token
  }

  /** `get_current_user`: the session, else the personal access token. */
  function CurrentUser(s: State, actor: Credentials): (id: Option<nat>)
    ensures id.Some? ==> id.value in s.users && s.users[id.value].isActive
  {
    if actor.cookie.Some? && Accepts(s, actor.cookie.value) then Some(actor.cookie.value.uid)
    else if actor.tokenOwner.Some? && actor.tokenOwner.value in s.users && s.users[actor.tokenOwner.value].isActive
    then actor.tokenOwner
    else None
  }

  /** `get_current_admin`: 0 when an administrator is signed in, else the status of the refusal. */
  function AdminRefusal(s: State, actor: Credentials): int {
    var user := CurrentUser(s, actor);
    if user.None? then 401 else if !s.users[user.value].isAdmin then 403 else 0
  }

  function Admins(users: map<nat, User>): set<nat> {
    set id | id in users && users[id].isAdmin
  }

  function ActiveOidcAdmins(users: map<nat, User>): set<nat> {
    set id | id in users && users[id].isAdmin && users[id].isActive && users[id].isOidc
  }

  /** `get_oidc_settings`: the stored row with the environment on top. */
  function Effective(pins: Pins, row: Option<OidcSettings>): OidcSettings {
    OidcSettings(
      if pins.enabled.Some? then pins.enabled.value else row.Some? && row.value.enabled,
      if pins.localLoginDisabled.Some? then pins.localLoginDisabled.value
      else row.Some? && row.value.localLoginDisabled)
  }

  predicate OidcOnly(settings: OidcSettings) {
    settings.enabled && settings.localLoginDisabled
  }

  function WithUsername(users: map<nat, User>, username: string): set<nat> {
    set id | id in users && users[id].username == username
  }

  function WithIdentity(users: map<nat, User>, identity: Identity): set<nat> {
    set id | id in users && users[id].identity == Some(identity)
  }

  /** `result.first()`: the row with the smallest id. */
  function First(ids: set<nat>): (id: nat)
    requires ids != {}
    ensures IsLeast(ids, id)
  {
    HasLeast(ids);
    var id :| id in ids && IsLeast(ids, id);
    id
  }

  predicate IsLeast(ids: set<nat>, id: nat) {
    id in ids && forall other | other in ids :: id <= other
  }

  lemma {:induction false} SomeMinimum(ids: set<nat>) returns (least: nat)
    requires ids != {}
    ensures IsLeast(ids, least)
  {
    least :| least in ids;
    var rest := ids - {least};
    if rest != {} {
      var other := SomeMinimum(rest);
      if other < least {
        assert IsLeast(ids, other) by { assert ids == rest + {least}; }
        least := other;
      } else {
        assert IsLeast(ids, least) by { assert ids == rest + {least}; }
      }
    } else {
      assert ids == {least};
    }
  }

  lemma {:induction false} HasLeast(ids: set<nat>)
    requires ids != {}
    ensures exists id :: IsLeast(ids, id)
  {
    var least := SomeMinimum(ids);
  }

  // ---- Requests ----

  function RevokeSessions(user: User): User {
    user.(tokenVersion := user.tokenVersion + 1)
  }

  /** `update_user` of the service: sessions are revoked when an active user is deactivated. */
  function Updated(user: User, setAdmin: Option<bool>, setActive: Option<bool>): User {
    var u := if setActive == Some(false) && user.isActive then RevokeSessions(user) else user;
    u.(isAdmin := if setAdmin.Some? then setAdmin.value else u.isAdmin,
       isActive := if setActive.Some? then setActive.value else u.isActive)
  }

  /** Whether taking the user away as an active administrator is refused in OIDC-only mode. */
  predicate IsLastOidcAdmin(s: State, pins: Pins, user: User) {
    && user.isOidc && user.isAdmin && user.isActive
    && OidcOnly(Effective(pins, s.oidc)) && |ActiveOidcAdmins(s.users)| <= 1
  }

  function SignIn(s: State, id: nat): (State, Response)
    requires id in s.users
  {
    var token := TokenOf(id, s.users[id]);
    (s.(issued := s.issued + {token}), SignedIn(token))
  }

  function AddUser(s: State, id: nat, user: User): State {
    s.(users := s.users[id := user])
  }

  function SetUser(s: State, id: nat, user: User): State {
    s.(users := s.users[id := user])
  }

  function AfterUpdateUser(s: State, pins: Pins, id: nat, setAdmin: Option<bool>, setActive: Option<bool>):
    (State, Response)
  {
    if id !in s.users then (s, Refused(404))
    else
      var user := s.users[id];
      var weakening := setAdmin == Some(false) || setActive == Some(false);
      if weakening && user.isAdmin && |Admins(s.users)| <= 1 then (s, Refused(409))
      else if weakening && IsLastOidcAdmin(s, pins, user) then (s, Refused(409))
      else (SetUser(s, id, Updated(user, setAdmin, setActive)), Success)
  }

  function AfterDeleteUser(s: State, pins: Pins, actor: Credentials, id: nat): (State, Response) {
    if CurrentUser(s, actor) == Some(id) then (s, Refused(400))
    else if id !in s.users then (s, Refused(404))
    else if IsLastOidcAdmin(s, pins, s.users[id]) then (s, Refused(409))
    else (s.(users := s.users - {id}), Success)
  }

  /** The guard looks at the submitted values; pinned fields are not stored. */
  function AfterUpdateOidc(s: State, pins: Pins, settings: OidcSettings): (State, Response) {
    if OidcOnly(settings) && |ActiveOidcAdmins(s.users)| < 1 then (s, Refused(409))
    else
      var row := if s.oidc.Some? then s.oidc.value else OidcSettings(false, false);
      (s.(oidc := Some(OidcSettings(
            if pins.enabled.Some? then row.enabled else settings.enabled,
            if pins.localLoginDisabled.Some? then row.localLoginDisabled else settings.localLoginDisabled))),
       Success)
  }

  function AfterLogin(s: State, pins: Pins, username: string, password: string): (State, Response) {
    if Effective(pins, s.oidc).localLoginDisabled then (s, Refused(403))
    else
      var ids := WithUsername(s.users, username);
      if ids == {} || s.users[First(ids)].password != Some(password) then (s, Refused(401))
      else SignIn(s, First(ids))
  }

  function AfterChangePassword(s: State, id: nat, currentPassword: string, newPassword: string, strong: bool):
    (State, Response)
    requires id in s.users
  {
    var user := s.users[id];
    if user.isOidc then (s, Refused(400))
    else if user.password != Some(currentPassword) then (s, Refused(401))
    else if !strong then (s, Refused(422))
    else SignIn(SetUser(s, id, RevokeSessions(user.(password := Some(newPassword)))), id)
  }

  /** `get_or_create_oidc_user` and the session that follows. */
  function AfterOidcCallback(s: State, identity: Identity, username: string, newId: nat): (State, Response) {
    var bound, named := WithIdentity(s.users, identity), WithUsername(s.users, username);
    if bound != {} then SignIn(s, First(bound))
    else if named != {} then
      var id := First(named);
      var user := s.users[id];
      if !user.isOidc || user.identity.Some? then (s, Refused(409))
      else SignIn(SetUser(s, id, user.(identity := Some(identity))), id)
    else if newId in s.users then (s, Refused(500))
    else SignIn(AddUser(s, newId, User(username, None, true, true, false, 0, Some(identity))), newId)
  }

  function AfterCreateUser(s: State, r: Request): (State, Response)
    requires r.CreateUser?
  {
    if WithUsername(s.users, r.username) != {} then (s, Refused(409))
    else if !r.strong then (s, Refused(422))
    else if r.newId in s.users then (s, Refused(500))
    else (AddUser(s, r.newId, User(r.username, Some(r.password), true, false, r.isAdmin, 0, None)), Success)
  }

  function AfterResetPassword(s: State, id: nat, newPassword: string, strong: bool): (State, Response) {
    if id !in s.users then (s, Refused(404))
    else if s.users[id].isOidc then (s, Refused(400))
    else if !strong then (s, Refused(422))
    else (SetUser(s, id, RevokeSessions(s.users[id].(password := Some(newPassword)))), Success)
  }

  predicate NeedsAdmin(r: Request) {
    r.CreateUser? || r.UpdateUser? || r.ResetPassword? || r.DeleteUser? || r.UpdateOidc?
  }

  /** One request, as one atomic step. */
  function Handle(s: State, pins: Pins, r: Request): (State, Response) {
    if NeedsAdmin(r) && AdminRefusal(s, r.actor) != 0 then (s, Refused(AdminRefusal(s, r.actor)))
    else
      match r
      case CreateUser(_, _, _, _, _, _) => AfterCreateUser(s, r)
      case UpdateUser(_, id, setAdmin, setActive) => AfterUpdateUser(s, pins, id, setAdmin, setActive)
      case ResetPassword(_, id, newPassword, strong) => AfterResetPassword(s, id, newPassword, strong)
      case DeleteUser(actor, id) => AfterDeleteUser(s, pins, actor, id)
      case UpdateOidc(_, settings) => AfterUpdateOidc(s, pins, settings)
      case Login(username, password) => AfterLogin(s, pins, username, password)
      case Logout(cookie) =>
        if cookie.Some? && Accepts(s, cookie.value)
        then (SetUser(s, cookie.value.uid, RevokeSessions(s.users[cookie.value.uid])), Success)
        else (s, Success)
      case ChangePassword(actor, currentPassword, newPassword, strong) =>
        var user := CurrentUser(s, actor);
        if user.None? then (s, Refused(401))
        else AfterChangePassword(s, user.value, currentPassword, newPassword, strong)
      case OidcCallback(identity, username, newId) =>
        if !Effective(pins, s.oidc).enabled then (s, Refused(400))
        else AfterOidcCallback(s, identity, username, newId)
  }
}
