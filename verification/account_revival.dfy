/** Ids that the database gives out again, and when a revoked token can come back with one. */
module AccountRevival {
  import opened Options
  import opened Sets
  import opened Accounts
  import opened AccountRuns
  import opened AccountSafety

  /** The first request of a run after which an account is gone. */
  lemma {:induction false} FindDeletion(s: State, pins: Pins, requests: seq<Request>, id: nat)
    returns (before: seq<Request>, r: Request)
    requires id in s.users && !Kept(s, pins, requests, id)
    ensures before + [r] <= requests
    ensures Kept(s, pins, before, id) && id !in Handle(Run(s, pins, before), pins, r).0.users
  {
    before, r := requests[..|requests| - 1], requests[|requests| - 1];
    if !Kept(s, pins, before, id) {
      before, r := FindDeletion(s, pins, before, id);
    }
  }

  /** A revoked token can only come back on an account that was created with its id and name after a deletion. */
  lemma {:induction false} RevivedOnNewAccount(s: State, pins: Pins, token: Token, requests: seq<Request>)
    returns (before: seq<Request>, r: Request)
    requires IsDead(s, token) && Accepts(Run(s, pins, requests), token)
    ensures before + [r] <= requests
    ensures Kept(s, pins, before, token.uid) && token.uid !in Handle(Run(s, pins, before), pins, r).0.users
    ensures Run(s, pins, requests).users[token.uid].username == token.sub
  {
    if Kept(s, pins, requests, token.uid) {
      DeadStaysDead(s, pins, requests, token);
    } else {
      before, r := FindDeletion(s, pins, requests, token.uid);
    }
  }

  // ---- Giving out ids ----

  /** Any free id, or the one after the highest in use, as SQLite gives them. */
  datatype Ids = AnyFree | Next

  ghost predicate IsNextId(users: map<nat, User>, id: nat) {
    && (forall other | other in users :: other < id)
    && (id == 1 || exists last :: last in users && last + 1 == id)
  }

  ghost predicate Allocates(ids: Ids, s: State, r: Request) {
    && (ids.Next? && r.CreateUser? ==> IsNextId(s.users, r.newId))
    && (ids.Next? && r.OidcCallback? ==> IsNextId(s.users, r.newId))
  }

  ghost predicate Allocated(ids: Ids, s: State, pins: Pins, requests: seq<Request>) {
    requests != [] ==>
      Allocated(ids, s, pins, requests[..|requests| - 1])
      && Allocates(ids, Run(s, pins, requests[..|requests| - 1]), requests[|requests| - 1])
  }

  ghost predicate Reaches(ids: Ids, s: State, pins: Pins, t: State) {
    exists requests :: Allocated(ids, s, pins, requests) && Run(s, pins, requests) == t
  }

  lemma {:induction false} ReachesStart(ids: Ids, s: State, pins: Pins)
    ensures Reaches(ids, s, pins, s)
  {
    assert Allocated(ids, s, pins, []) && Run(s, pins, []) == s;
  }

  lemma {:induction false} ReachesNext(ids: Ids, s: State, pins: Pins, t: State, r: Request)
    requires Reaches(ids, s, pins, t) && Allocates(ids, t, r)
    ensures Reaches(ids, s, pins, Handle(t, pins, r).0)
  {
    var requests :| Allocated(ids, s, pins, requests) && Run(s, pins, requests) == t;
    RunOne(s, pins, requests, r);
    assert (requests + [r])[..|requests|] == requests;
    assert Allocated(ids, s, pins, requests + [r]);
  }

  // ---- Fresh names and ids ----

  lemma {:induction false} Longest(names: set<string>) returns (n: nat)
    ensures forall name | name in names :: |name| <= n
  {
    n := 0;
    if names != {} {
      var name :| name in names;
      var rest := Longest(names - {name});
      n := if rest < |name| then |name| else rest;
    }
  }

  lemma {:induction false} FreshName(users: map<nat, User>, other: string) returns (name: string)
    ensures name != other && WithUsername(users, name) == {}
  {
    var n := Longest({other} + set id | id in users :: users[id].username);
    name := seq(n + 1, _ => 'u');
  }

  lemma {:induction false} FreshIdentity(users: map<nat, User>) returns (identity: Identity)
    ensures WithIdentity(users, identity) == {}
  {
    var issuers := set id | id in users && users[id].identity.Some? :: users[id].identity.value.issuer;
    var n := Longest(issuers);
    identity := Identity(seq(n + 1, _ => 'i'), "");
    forall id | id in users ensures users[id].identity != Some(identity) {
      assert users[id].identity.Some? ==> users[id].identity.value.issuer in issuers;
    }
  }

  lemma {:induction false} Greatest(ids: set<nat>) returns (top: nat)
    requires ids != {}
    ensures top in ids && forall id | id in ids :: id <= top
  {
    top :| top in ids;
    if ids - {top} != {} {
      var rest := Greatest(ids - {top});
      assert forall id | id in ids :: id in ids - {top} || id == top;
      top := if rest < top then top else rest;
    } else {
      assert ids == {top};
    }
  }

  // ---- What an administrator can do ----

  /** Switch OIDC-only mode off, unless both settings are pinned on. */
  lemma {:induction false} SwitchOff(ids: Ids, s: State, pins: Pins, t: State, admin: nat) returns (end: State)
    requires Reaches(ids, s, pins, t) && CanAdminister(t, admin) && !PinnedOidcOnly(pins)
    ensures Reaches(ids, s, pins, end) && end == t.(oidc := end.oidc) && !OidcOnly(Effective(pins, end.oidc))
  {
    var r := UpdateOidc(ByToken(admin), OidcSettings(false, false));
    ReachesNext(ids, s, pins, t, r);
    end := Handle(t, pins, r).0;
  }

  function Promoted(t: State, id: nat): State
    requires id in t.users
  {
    t.(users := t.users[id := t.users[id].(isAdmin := true, isActive := true)])
  }

  /** Make any account an active administrator. */
  lemma {:induction false} Promote(ids: Ids, s: State, pins: Pins, t: State, admin: nat, id: nat)
    requires Reaches(ids, s, pins, t) && CanAdminister(t, admin) && id in t.users
    ensures Reaches(ids, s, pins, Promoted(t, id)) && CanAdminister(Promoted(t, id), id)
  {
    var r := UpdateUser(ByToken(admin), id, Some(true), Some(true));
    ReachesNext(ids, s, pins, t, r);
    assert Handle(t, pins, r).0 == Promoted(t, id);
  }

  /** Whether the guard of OIDC-only mode leaves account `id` to the administrator. */
  ghost predicate IsUnguarded(t: State, pins: Pins, admin: nat, id: nat) {
    || !OidcOnly(Effective(pins, t.oidc)) || (admin in t.users && t.users[admin].isOidc)
    || id !in ActiveOidcAdmins(t.users)
  }

  lemma {:induction false} NotTheLast(t: State, pins: Pins, admin: nat, id: nat)
    requires CanAdminister(t, admin) && id in t.users && id != admin && IsUnguarded(t, pins, admin, id)
    ensures !IsLastOidcAdmin(t, pins, t.users[id])
  {
    if id in ActiveOidcAdmins(t.users) && t.users[admin].isOidc {
      SubsetSize({id, admin}, ActiveOidcAdmins(t.users));
    }
  }

  lemma {:induction false} Delete(ids: Ids, s: State, pins: Pins, t: State, admin: nat, id: nat)
    requires Reaches(ids, s, pins, t) && CanAdminister(t, admin) && id in t.users && id != admin
    requires IsUnguarded(t, pins, admin, id)
    ensures Reaches(ids, s, pins, t.(users := t.users - {id}))
  {
    NotTheLast(t, pins, admin, id);
    ReachesNext(ids, s, pins, t, DeleteUser(ByToken(admin), id));
  }

  lemma {:induction false} Recreate(s: State, pins: Pins, admin: nat, id: nat, username: string)
    requires CanAdminister(s, admin) && id !in s.users && WithUsername(s.users, username) == {}
    ensures Handle(s, pins, CreateUser(ByToken(admin), username, "", false, true, id)).0
         == AddUser(s, id, User(username, Some(""), true, false, false, 0, None))
  {
  }

  /** Raise the version of an account by resetting its password again and again. */
  lemma {:induction false} Raise(ids: Ids, s: State, pins: Pins, t: State, admin: nat, id: nat, version: nat)
    returns (end: State)
    requires Reaches(ids, s, pins, t) && CanAdminister(t, admin) && id != admin && id in t.users
    requires !t.users[id].isOidc && t.users[id].tokenVersion == 0
    ensures Reaches(ids, s, pins, end) && CanAdminister(end, admin) && end.issued == t.issued && id in end.users
    ensures !end.users[id].isOidc && end.users[id].username == t.users[id].username
    ensures end.users[id].isActive == t.users[id].isActive && end.users[id].tokenVersion == version
  {
    if version == 0 {
      end := t;
    } else {
      var before := Raise(ids, s, pins, t, admin, id, version - 1);
      var r := ResetPassword(ByToken(admin), id, "", true);
      ReachesNext(ids, s, pins, before, r);
      end := Handle(before, pins, r).0;
    }
  }

  /** Bring a token back once its id and name are free. */
  lemma {:induction false} Revive(ids: Ids, s: State, pins: Pins, t: State, admin: nat, token: Token)
    returns (end: State)
    requires Reaches(ids, s, pins, t) && CanAdminister(t, admin) && token in t.issued && token.uid !in t.users
    requires WithUsername(t.users, token.sub) == {} && (ids.Next? ==> IsNextId(t.users, token.uid))
    ensures Reaches(ids, s, pins, end) && Accepts(end, token)
  {
    var create := CreateUser(ByToken(admin), token.sub, "", false, true, token.uid);
    Recreate(t, pins, admin, token.uid, token.sub);
    ReachesNext(ids, s, pins, t, create);
    end := Raise(ids, s, pins, Handle(t, pins, create).0, admin, token.uid, token.ver);
  }

  // ---- Any free id ----

  /** A second administrator, whom the guard of OIDC-only mode lets delete any other account. */
  lemma {:induction false} Helper(ids: Ids, s: State, pins: Pins, t: State, admin: nat, token: Token)
    returns (end: State, helper: nat)
    requires ids.AnyFree? && Reaches(ids, s, pins, t) && CanAdminister(t, admin) && token.uid in t.users
    requires forall id | id in t.users && id != token.uid :: t.users[id].username != token.sub
    ensures Reaches(ids, s, pins, end) && CanAdminister(end, helper) && t.issued <= end.issued
    ensures helper != token.uid && token.uid in end.users && IsUnguarded(end, pins, helper, token.uid)
    ensures forall id | id in end.users && id != token.uid :: end.users[id].username != token.sub
  {
    var top := Greatest(t.users.Keys);
    helper := top + 1;
    var name := FreshName(t.users, token.sub);
    if PinnedOidcOnly(pins) {
      var identity := FreshIdentity(t.users);
      ReachesNext(ids, s, pins, t, OidcCallback(identity, name, helper));
      var u := Handle(t, pins, OidcCallback(identity, name, helper)).0;
      assert u.users == t.users[helper := User(name, None, true, true, false, 0, Some(identity))];
      Promote(ids, s, pins, u, admin, helper);
      end := Promoted(u, helper);
    } else {
      var u := SwitchOff(ids, s, pins, t, admin);
      var create := CreateUser(ByToken(admin), name, "", true, true, helper);
      ReachesNext(ids, s, pins, u, create);
      end := Handle(u, pins, create).0;
      assert end == AddUser(u, helper, User(name, Some(""), true, false, true, 0, None));
    }
  }

  lemma {:induction false} ReviveAnyFree(s: State, pins: Pins, token: Token)
    requires Rows(s.users) && token in s.issued && IsDead(s, token) && s.users[token.uid].username == token.sub
    requires ActiveAdmins(s.users) != {}
    ensures exists t :: Reaches(AnyFree, s, pins, t) && Accepts(t, token)
  {
    var admin :| admin in ActiveAdmins(s.users);
    ReachesStart(AnyFree, s, pins);
    var t, helper := Helper(AnyFree, s, pins, s, admin, token);
    Delete(AnyFree, s, pins, t, helper, token.uid);
    var end := Revive(AnyFree, s, pins, t.(users := t.users - {token.uid}), helper, token);
  }

  // ---- Nothing is deleted without an administrator ----

  lemma {:induction false} NoAdminStep(s: State, pins: Pins, r: Request, id: nat)
    requires ActiveAdmins(s.users) == {} && id in s.users
    ensures ActiveAdmins(Handle(s, pins, r).0.users) == {} && id in Handle(s, pins, r).0.users
  {
    var after := Handle(s, pins, r).0.users;
    if NeedsAdmin(r) && AdminRefusal(s, r.actor) == 0 {
      AdminActs(s, r.actor);
    } else {
      assert forall other | other in ActiveAdmins(after) :: other in ActiveAdmins(s.users);
    }
  }

  lemma {:induction false} NoAdminKeeps(s: State, pins: Pins, requests: seq<Request>, id: nat)
    requires ActiveAdmins(s.users) == {} && id in s.users
    ensures ActiveAdmins(Run(s, pins, requests).users) == {} && Kept(s, pins, requests, id)
  {
    if requests != [] {
      var front := requests[..|requests| - 1];
      NoAdminKeeps(s, pins, front, id);
      NoAdminStep(Run(s, pins, front), pins, requests[|requests| - 1], id);
    }
  }

  /**
   * Where the database may give out any free id, a revoked token of an account can become valid again exactly when
   * there is an active administrator.
   */
  lemma {:induction false} RevivalCondition(s: State, pins: Pins, token: Token)
    requires Rows(s.users) && token in s.issued && IsDead(s, token) && s.users[token.uid].username == token.sub
    ensures (exists t :: Reaches(AnyFree, s, pins, t) && Accepts(t, token)) <==> ActiveAdmins(s.users) != {}
  {
    if ActiveAdmins(s.users) == {} {
      forall t | Reaches(AnyFree, s, pins, t) ensures !Accepts(t, token) {
        var requests :| Allocated(AnyFree, s, pins, requests) && Run(s, pins, requests) == t;
        NoAdminKeeps(s, pins, requests, token.uid);
        DeadStaysDead(s, pins, requests, token);
      }
    } else {
      ReviveAnyFree(s, pins, token);
    }
  }

  // ---- The id after the highest ----

  /** The accounts with smaller ids. */
  function Below(users: map<nat, User>, id: nat): map<nat, User> {
    map other | other in users && other < id :: users[other]
  }

  ghost predicate AllUnguarded(t: State, pins: Pins, admin: nat, id: nat) {
    forall other | other in t.users && other >= id :: IsUnguarded(t, pins, admin, other)
  }

  lemma {:induction false} StillUnguarded(t: State, pins: Pins, admin: nat, id: nat, gone: nat)
    requires AllUnguarded(t, pins, admin, id) && admin < id <= gone
    ensures AllUnguarded(t.(users := t.users - {gone}), pins, admin, id)
  {
    var u := t.(users := t.users - {gone});
    forall other | other in u.users && other >= id ensures IsUnguarded(u, pins, admin, other) {
      assert IsUnguarded(t, pins, admin, other);
    }
  }

  /** Delete every account from an id on. */
  lemma {:induction false} DeleteFrom(ids: Ids, s: State, pins: Pins, t: State, admin: nat, id: nat)
    requires Reaches(ids, s, pins, t) && CanAdminister(t, admin) && admin < id && AllUnguarded(t, pins, admin, id)
    ensures Reaches(ids, s, pins, t.(users := Below(t.users, id)))
    decreases |t.users|
  {
    if other :| other in t.users && other >= id {
      var u := t.(users := t.users - {other});
      assert IsUnguarded(t, pins, admin, other);
      Delete(ids, s, pins, t, admin, other);
      StillUnguarded(t, pins, admin, id, other);
      DeleteFrom(ids, s, pins, u, admin, id);
      assert Below(u.users, id) == Below(t.users, id);
    } else {
      assert Below(t.users, id) == t.users;
    }
  }

  /** Create accounts until an id is the next one. */
  lemma {:induction false} Refill(ids: Ids, s: State, pins: Pins, t: State, admin: nat, top: nat, id: nat, name: string)
    returns (end: State)
    requires Reaches(ids, s, pins, t) && CanAdminister(t, admin) && WithUsername(t.users, name) == {}
    requires top in t.users && top < id && forall other | other in t.users :: other <= top
    ensures Reaches(ids, s, pins, end) && CanAdminister(end, admin) && WithUsername(end.users, name) == {}
    ensures IsNextId(end.users, id) && end.issued == t.issued
    decreases id - top
  {
    if top + 1 == id {
      TopIsNext(t.users, top);
      end := t;
    } else {
      var filler := FreshName(t.users, name);
      var create := CreateUser(ByToken(admin), filler, "", false, true, top + 1);
      var next := AddUser(t, top + 1, User(filler, Some(""), true, false, false, 0, None));
      Recreate(t, pins, admin, top + 1, filler);
      TopIsNext(t.users, top);
      ReachesNext(ids, s, pins, t, create);
      OneMoreName(t.users, top + 1, User(filler, Some(""), true, false, false, 0, None), name);
      end := Refill(ids, s, pins, next, admin, top + 1, id, name);
    }
  }

  lemma {:induction false} TopIsNext(users: map<nat, User>, top: nat)
    requires top in users && forall other | other in users :: other <= top
    ensures IsNextId(users, top + 1)
  {
  }

  lemma {:induction false} OneMoreName(users: map<nat, User>, id: nat, user: User, name: string)
    requires WithUsername(users, name) == {} && user.username != name
    ensures WithUsername(users[id := user], name) == {}
  {
    var after := users[id := user];
    forall other | other in after ensures after[other].username != name {
      assert other != id ==> other !in WithUsername(users, name);
    }
  }

  /** Once an administrator below an id may delete every account from it on, a token of that id can be revived. */
  lemma {:induction false} ReviveFromBelow(s: State, pins: Pins, t: State, admin: nat, token: Token)
    requires Reaches(Next, s, pins, t) && CanAdminister(t, admin) && admin < token.uid && token in t.issued
    requires AllUnguarded(t, pins, admin, token.uid)
    requires forall id | id in t.users && id != token.uid :: t.users[id].username != token.sub
    ensures exists end :: Reaches(Next, s, pins, end) && Accepts(end, token)
  {
    var cleared := t.(users := Below(t.users, token.uid));
    DeleteFrom(Next, s, pins, t, admin, token.uid);
    assert admin in cleared.users;
    var top := Greatest(cleared.users.Keys);
    var filled := Refill(Next, s, pins, cleared, admin, top, token.uid, token.sub);
    var end := Revive(Next, s, pins, filled, admin, token);
  }

  /**
   * Whether the id of an account can become the next one: an active administrator, an account with a smaller id, and,
   * if both settings are pinned on and an active OIDC administrator has this id or a greater one, a smaller OIDC one.
   */
  ghost predicate CanComeNext(s: State, pins: Pins, id: nat) {
    && ActiveAdmins(s.users) != {} && (exists other :: other in s.users && other < id)
    && (PinnedOidcOnly(pins) && (exists other :: other in ActiveOidcAdmins(s.users) && other >= id)
        ==> exists other :: other in s.users && other < id && s.users[other].isOidc)
  }

  /** A promoted helper below an id can delete every account from that id on. */
  lemma {:induction false} HelperIsUnguarded(s: State, pins: Pins, helper: nat, id: nat)
    requires helper in s.users && helper < id
    requires !OidcOnly(Effective(pins, s.oidc)) || s.users[helper].isOidc
             || forall other | other in ActiveOidcAdmins(s.users) :: other < id
    ensures AllUnguarded(Promoted(s, helper), pins, helper, id)
  {
    var t := Promoted(s, helper);
    forall other | other in t.users && other >= id ensures IsUnguarded(t, pins, helper, other) {
      assert other in ActiveOidcAdmins(t.users) <==> other in ActiveOidcAdmins(s.users);
    }
  }

  lemma {:induction false} ReviveWithHelper(s: State, pins: Pins, t: State, admin: nat, helper: nat, token: Token)
    requires Reaches(Next, s, pins, t) && CanAdminister(t, admin) && token in t.issued
    requires helper in t.users && helper < token.uid
    requires !OidcOnly(Effective(pins, t.oidc)) || t.users[helper].isOidc
             || forall other | other in ActiveOidcAdmins(t.users) :: other < token.uid
    requires forall id | id in t.users && id != token.uid :: t.users[id].username != token.sub
    ensures exists end :: Reaches(Next, s, pins, end) && Accepts(end, token)
  {
    Promote(Next, s, pins, t, admin, helper);
    HelperIsUnguarded(t, pins, helper, token.uid);
    ReviveFromBelow(s, pins, Promoted(t, helper), helper, token);
  }

  lemma {:induction false} ReviveNext(s: State, pins: Pins, token: Token)
    requires Rows(s.users) && token in s.issued && IsDead(s, token) && s.users[token.uid].username == token.sub
    requires CanComeNext(s, pins, token.uid)
    ensures exists t :: Reaches(Next, s, pins, t) && Accepts(t, token)
  {
    var id := token.uid;
    var admin :| admin in ActiveAdmins(s.users);
    ReachesStart(Next, s, pins);
    if PinnedOidcOnly(pins) {
      var helper: nat;
      if other :| other in s.users && other < id && s.users[other].isOidc {
        helper := other;
      } else {
        helper :| helper in s.users && helper < id;
      }
      ReviveWithHelper(s, pins, s, admin, helper, token);
    } else {
      var t := SwitchOff(Next, s, pins, s, admin);
      var helper :| helper in t.users && helper < id;
      ReviveWithHelper(s, pins, t, admin, helper, token);
    }
  }

  // ---- Ids that never come next ----

  /** The account of the token has left it behind, or is gone. */
  ghost predicate IsDeadOrGone(s: State, token: Token) {
    token.uid in s.users ==> IsDead(s, token)
  }

  lemma {:induction false} StaysGone(s: State, pins: Pins, r: Request, token: Token, high: nat)
    requires IsDeadOrGone(s, token) && Allocates(Next, s, r) && high in s.users && high >= token.uid
    ensures IsDeadOrGone(Handle(s, pins, r).0, token)
  {
    var t := Handle(s, pins, r).0;
    if token.uid in s.users && token.uid in t.users {
      StepEvolves(s, pins, r, token.uid);
    }
  }

  /** Why an account with the id of the token, or a greater one, is there for good. */
  ghost predicate IsBlocked(s: State, pins: Pins, id: nat) {
    || (forall other | other in s.users :: other >= id)
    || (PinnedOidcOnly(pins) && HasActiveOidcAdmin(s.users)
        && forall other | other in s.users && s.users[other].isOidc :: other >= id)
  }

  lemma {:induction false} BlockedHasHigh(s: State, pins: Pins, id: nat) returns (high: nat)
    requires HasAdmin(s.users) && IsBlocked(s, pins, id)
    ensures high in s.users && high >= id
  {
    if forall other | other in s.users :: other >= id {
      high :| high in s.users && s.users[high].isAdmin;
    } else {
      high :| high in s.users && s.users[high].isAdmin && s.users[high].isActive && s.users[high].isOidc;
    }
  }

  /** A new account has a greater id than any other, and no account changes its kind. */
  lemma {:induction false} NewIsHigh(s: State, pins: Pins, r: Request, high: nat, id: nat)
    requires Allocates(Next, s, r) && high in s.users && id in Handle(s, pins, r).0.users
    ensures id in s.users || id > high
    ensures id in s.users ==> Handle(s, pins, r).0.users[id].isOidc == s.users[id].isOidc
  {
    if id in s.users {
      StepEvolves(s, pins, r, id);
    }
  }

  lemma {:induction false} BlockedStep(s: State, pins: Pins, r: Request, id: nat)
    requires HasAdmin(s.users) && IsBlocked(s, pins, id) && Allocates(Next, s, r)
    ensures IsBlocked(Handle(s, pins, r).0, pins, id)
  {
    var t := Handle(s, pins, r).0;
    var high := BlockedHasHigh(s, pins, id);
    forall other | other in t.users
      ensures other in s.users || other > high
      ensures other in s.users ==> t.users[other].isOidc == s.users[other].isOidc
    {
      NewIsHigh(s, pins, r, high, other);
    }
    if PinnedOidcOnly(pins) && HasActiveOidcAdmin(s.users) {
      StepKeepsOidcAdmin(s, pins, r);
    }
  }

  lemma {:induction false} BlockedRun(s: State, pins: Pins, requests: seq<Request>, token: Token)
    requires Inv(s) && IsDeadOrGone(s, token) && IsBlocked(s, pins, token.uid) && Allocated(Next, s, pins, requests)
    ensures var t := Run(s, pins, requests);
            Inv(t) && IsDeadOrGone(t, token) && IsBlocked(t, pins, token.uid)
  {
    if requests != [] {
      var front, r := requests[..|requests| - 1], requests[|requests| - 1];
      BlockedRun(s, pins, front, token);
      var t := Run(s, pins, front);
      var high := BlockedHasHigh(t, pins, token.uid);
      StepKeeps(t, pins, r);
      StaysGone(t, pins, r, token, high);
      BlockedStep(t, pins, r, token.uid);
    }
  }

  lemma {:induction false} BlockedOrCanComeNext(s: State, pins: Pins, id: nat)
    requires ActiveAdmins(s.users) != {} && !CanComeNext(s, pins, id)
    ensures IsBlocked(s, pins, id)
  {
    SomeActiveOidcAdmin(s.users);
  }

  /**
   * On SQLite, which gives out the id after the highest, a revoked token of an account can become valid again exactly
   * when its id can come next.
   */
  lemma {:induction false} SqliteRevivalCondition(s: State, pins: Pins, token: Token)
    requires Inv(s) && token in s.issued && IsDead(s, token) && s.users[token.uid].username == token.sub
    ensures (exists t :: Reaches(Next, s, pins, t) && Accepts(t, token)) <==> CanComeNext(s, pins, token.uid)
  {
    if CanComeNext(s, pins, token.uid) {
      ReviveNext(s, pins, token);
    } else {
      forall t | Reaches(Next, s, pins, t) ensures !Accepts(t, token) {
        var requests :| Allocated(Next, s, pins, requests) && Run(s, pins, requests) == t;
        if ActiveAdmins(s.users) == {} {
          NoAdminKeeps(s, pins, requests, token.uid);
          DeadStaysDead(s, pins, requests, token);
        } else {
          BlockedOrCanComeNext(s, pins, token.uid);
          BlockedRun(s, pins, requests, token);
        }
      }
    }
  }

  /** A concrete run: an administrator deletes an account and creates one of the same name. */
  lemma {:induction false} ReusedIdRevivesToken(pins: Pins)
    requires pins == Pins(None, None)
    ensures exists s: State, requests: seq<Request>, token: Token ::
              Inv(s) && IsDead(s, token) && Accepts(Run(s, pins, requests), token)
  {
    var root := User("admin", Some("a"), true, false, true, 0, None);
    var bob := User("bob", Some("b"), true, false, false, 1, None);
    var session, stale := Token("admin", 1, 0), Token("bob", 2, 0);
    var s := State(map[1 := root, 2 := bob], None, {session, stale});
    assert s.users[1].isAdmin;
    var delete, create := DeleteUser(ByToken(1), 2), CreateUser(ByToken(1), "bob", "", false, true, 2);
    var t := s.(users := map[1 := root]);
    assert s.users - {2} == t.users;
    assert Handle(s, pins, delete) == (t, Success);
    RunOne(s, pins, [], delete);
    Recreate(t, pins, 1, 2, "bob");
    RunOne(s, pins, [] + [delete], create);
    var requests := [] + [delete] + [create];
    assert Inv(s) && IsDead(s, stale) && Accepts(Run(s, pins, requests), stale);
  }
}
