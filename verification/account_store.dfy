/** The request handlers as they change the database in place. */
module AccountStore {
  import opened Options
  import opened Accounts
  import opened AccountRuns

  class Database {
    const pins: Pins
    var users: map<nat, User>
    var oidc: Option<OidcSettings>
    /** Tokens that carry a valid signature. */
    var issued: set<Token>

    ghost function Contents(): State
      reads this
    {
      State(users, oidc, issued)
    }

    ghost predicate Valid()
      reads this
    {
      Inv(Contents())
    }

    /** The first start: only the initial administrator. */
    constructor (pins: Pins, admin: string, password: string)
      ensures Valid() && this.pins == pins && Contents() == FirstStart(admin, password)
      ensures NotLockedOut(pins, Contents()) <==> !PinnedOidcOnly(pins)
    {
      this.pins := pins;
      users := map[1 := User(admin, Some(password), true, false, true, 0, None)];
      oidc, issued := None, {};
      new;
      assert users[1].isAdmin;
    }

    method GetCurrentUser(actor: Credentials) returns (id: Option<nat>)
      ensures id == CurrentUser(Contents(), actor)
    {
      if actor.cookie.Some? {
        var token := actor.cookie.value;
        if token in issued && token.uid in users {
          var user := users[token.uid];
          if user.isActive && user.username == token.sub && user.tokenVersion == token.ver {
            return Some(token.uid);
          }
        }
      }
      if actor.tokenOwner.Some? && actor.tokenOwner.value in users && users[actor.tokenOwner.value].isActive {
        return actor.tokenOwner;
      }
      return None;
    }

    method GetCurrentAdmin(actor: Credentials) returns (refusal: int)
      ensures refusal == AdminRefusal(Contents(), actor)
    {
      var id := GetCurrentUser(actor);
      if id.None? {
        return 401;
      }
      if !users[id.value].isAdmin {
        return 403;
      }
      return 0;
    }

    method CreateSessionToken(id: nat) returns (token: Token)
      requires id in users
      modifies `issued
      ensures token == TokenOf(id, users[id]) && issued == old(issued) + {token}
    {
      token := Token(users[id].username, id, users[id].tokenVersion);
      issued := issued + {token};
    }

    method RevokeSessionsOf(id: nat)
      requires id in users
      modifies `users
      ensures users == old(users)[id := RevokeSessions(old(users)[id])]
    {
      users := users[id := users[id].(tokenVersion := users[id].tokenVersion + 1)];
    }

    method CreateUser(actor: Credentials, username: string, password: string, isAdmin: bool, strong: bool, newId: nat)
      returns (response: Response)
      requires Valid()
      modifies this
      ensures Valid()
      ensures (Contents(), response)
           == Handle(old(Contents()), pins, Accounts.CreateUser(actor, username, password, isAdmin, strong, newId))
    {
      StepKeeps(Contents(), pins, Accounts.CreateUser(actor, username, password, isAdmin, strong, newId));
      var refusal := GetCurrentAdmin(actor);
      if refusal != 0 {
        return Refused(refusal);
      }
      if WithUsername(users, username) != {} {
        return Refused(409);
      }
      if !strong {
        return Refused(422);
      }
      if newId in users {
        return Refused(500);
      }
      users := users[newId := User(username, Some(password), true, false, isAdmin, 0, None)];
      return Success;
    }

    /** `update_user` of the service: revoke on deactivation, then set the submitted fields. */
    method ApplyUpdate(id: nat, setAdmin: Option<bool>, setActive: Option<bool>)
      requires id in users
      modifies `users
      ensures users == old(users)[id := Updated(old(users)[id], setAdmin, setActive)]
    {
      if setActive == Some(false) && users[id].isActive {
        RevokeSessionsOf(id);
      }
      if setAdmin.Some? {
        users := users[id := users[id].(isAdmin := setAdmin.value)];
      }
      if setActive.Some? {
        users := users[id := users[id].(isActive := setActive.value)];
      }
    }

    method UpdateUser(actor: Credentials, id: nat, setAdmin: Option<bool>, setActive: Option<bool>)
      returns (response: Response)
      requires Valid()
      modifies this
      ensures Valid()
      ensures (Contents(), response)
           == Handle(old(Contents()), pins, Accounts.UpdateUser(actor, id, setAdmin, setActive))
    {
      StepKeeps(Contents(), pins, Accounts.UpdateUser(actor, id, setAdmin, setActive));
      var refusal := GetCurrentAdmin(actor);
      if refusal != 0 {
        return Refused(refusal);
      }
      if id !in users {
        return Refused(404);
      }
      var demoting, deactivating := setAdmin == Some(false), setActive == Some(false);
      if users[id].isAdmin && |Admins(users)| <= 1 {
        if demoting || deactivating {
          return Refused(409);
        }
      }
      if (demoting || deactivating) && users[id].isOidc && users[id].isAdmin && users[id].isActive {
        var settings := Effective(pins, oidc);
        if settings.enabled && settings.localLoginDisabled && |ActiveOidcAdmins(users)| <= 1 {
          return Refused(409);
        }
      }
      ApplyUpdate(id, setAdmin, setActive);
      return Success;
    }

    method ResetPassword(actor: Credentials, id: nat, newPassword: string, strong: bool) returns (response: Response)
      requires Valid()
      modifies this
      ensures Valid()
      ensures (Contents(), response)
           == Handle(old(Contents()), pins, Accounts.ResetPassword(actor, id, newPassword, strong))
    {
      StepKeeps(Contents(), pins, Accounts.ResetPassword(actor, id, newPassword, strong));
      var refusal := GetCurrentAdmin(actor);
      if refusal != 0 {
        return Refused(refusal);
      }
      if id !in users {
        return Refused(404);
      }
      if users[id].isOidc {
        return Refused(400);
      }
      if !strong {
        return Refused(422);
      }
      users := users[id := users[id].(password := Some(newPassword))];
      RevokeSessionsOf(id);
      assert users == old(users)[id := RevokeSessions(old(users)[id].(password := Some(newPassword)))];
      return Success;
    }

    method DeleteUser(actor: Credentials, id: nat) returns (response: Response)
      requires Valid()
      modifies this
      ensures Valid()
      ensures (Contents(), response) == Handle(old(Contents()), pins, Accounts.DeleteUser(actor, id))
    {
      StepKeeps(Contents(), pins, Accounts.DeleteUser(actor, id));
      var refusal := GetCurrentAdmin(actor);
      if refusal != 0 {
        return Refused(refusal);
      }
      var current := GetCurrentUser(actor);
      if current == Some(id) {
        return Refused(400);
      }
      if id !in users {
        return Refused(404);
      }
      if users[id].isOidc && users[id].isAdmin && users[id].isActive {
        var settings := Effective(pins, oidc);
        if settings.enabled && settings.localLoginDisabled && |ActiveOidcAdmins(users)| <= 1 {
          return Refused(409);
        }
      }
      users := users - {id};
      return Success;
    }

    method UpdateOidcSettings(actor: Credentials, settings: OidcSettings) returns (response: Response)
      requires Valid()
      modifies this
      ensures Valid()
      ensures (Contents(), response) == Handle(old(Contents()), pins, UpdateOidc(actor, settings))
    {
      StepKeeps(Contents(), pins, UpdateOidc(actor, settings));
      var refusal := GetCurrentAdmin(actor);
      if refusal != 0 {
        return Refused(refusal);
      }
      if settings.enabled && settings.localLoginDisabled && |ActiveOidcAdmins(users)| < 1 {
        return Refused(409);
      }
      var row := if oidc.Some? then oidc.value else OidcSettings(false, false);
      if pins.enabled.None? {
        row := row.(enabled := settings.enabled);
      }
      if pins.localLoginDisabled.None? {
        row := row.(localLoginDisabled := settings.localLoginDisabled);
      }
      oidc := Some(row);
      return Success;
    }

    method Login(username: string, password: string) returns (response: Response)
      requires Valid()
      modifies this
      ensures Valid()
      ensures (Contents(), response) == Handle(old(Contents()), pins, Accounts.Login(username, password))
    {
      StepKeeps(Contents(), pins, Accounts.Login(username, password));
      if Effective(pins, oidc).localLoginDisabled {
        return Refused(403);
      }
      var ids := WithUsername(users, username);
      if ids == {} {
        return Refused(401);
      }
      var id := First(ids);
      if users[id].password.None? || users[id].password.value != password {
        return Refused(401);
      }
      var token := CreateSessionToken(id);
      return SignedIn(token);
    }

    method Logout(cookie: Option<Token>) returns (response: Response)
      requires Valid()
      modifies this
      ensures Valid()
      ensures (Contents(), response) == Handle(old(Contents()), pins, Accounts.Logout(cookie))
    {
      StepKeeps(Contents(), pins, Accounts.Logout(cookie));
      var user := GetCurrentUser(Credentials(cookie, None));
      if user.Some? {
        RevokeSessionsOf(user.value);
      }
      return Success;
    }

    method ChangePassword(actor: Credentials, currentPassword: string, newPassword: string, strong: bool)
      returns (response: Response)
      requires Valid()
      modifies this
      ensures Valid()
      ensures (Contents(), response)
           == Handle(old(Contents()), pins, Accounts.ChangePassword(actor, currentPassword, newPassword, strong))
    {
      StepKeeps(Contents(), pins, Accounts.ChangePassword(actor, currentPassword, newPassword, strong));
      var current := GetCurrentUser(actor);
      if current.None? {
        return Refused(401);
      }
      var id := current.value;
      if users[id].isOidc {
        return Refused(400);
      }
      if users[id].password.None? || users[id].password.value != currentPassword {
        return Refused(401);
      }
      if !strong {
        return Refused(422);
      }
      users := users[id := users[id].(password := Some(newPassword))];
      RevokeSessionsOf(id);
      assert users == old(users)[id := RevokeSessions(old(users)[id].(password := Some(newPassword)))];
      var token := CreateSessionToken(id);
      return SignedIn(token);
    }

    method OidcCallback(identity: Identity, username: string, newId: nat) returns (response: Response)
      requires Valid()
      modifies this
      ensures Valid()
      ensures (Contents(), response) == Handle(old(Contents()), pins, Accounts.OidcCallback(identity, username, newId))
    {
      StepKeeps(Contents(), pins, Accounts.OidcCallback(identity, username, newId));
      if !Effective(pins, oidc).enabled {
        return Refused(400);
      }
      var bound, named := WithIdentity(users, identity), WithUsername(users, username);
      var id;
      if bound != {} {
        id := First(bound);
      } else if named != {} {
        id := First(named);
        if !users[id].isOidc || users[id].identity.Some? {
          return Refused(409);
        }
        users := users[id := users[id].(identity := Some(identity))];
      } else {
        if newId in users {
          return Refused(500);
        }
        id := newId;
        users := users[id := User(username, None, true, true, false, 0, Some(identity))];
      }
      var token := CreateSessionToken(id);
      return SignedIn(token);
    }
  }
}
