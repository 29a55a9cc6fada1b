/** `_upgrade_legacy_sqlite`: ACME keys and access tokens of a database from before Alembic. */
module Migration {
  import opened Options

  /** A row of `acmeapikey`; `zones` is its JSON list, empty when missing or malformed. */
  datatype AcmeKey = AcmeKey(userId: Option<nat>, name: string, prefix: string, hash: string, zones: seq<string>,
                             keyType: string, comment: Option<string>, createdAt: string, zoneName: Option<string>)

  datatype AccessToken = AccessToken(userId: nat, name: string, prefix: string, comment: Option<string>,
                                     createdAt: string)

  /** The columns that may be missing, the rows of keys, and the tokens by their unique hash. */
  datatype Database = Database(hasKeyType: bool, hasComment: bool, hasZoneName: bool,
                               keys: seq<AcmeKey>, tokens: map<string, AccessToken>)

  /** `zone.rstrip(".") + "."` */
  function Normalized(zone: string): (name: string)
    ensures name != "" && name[|name| - 1] == '.' && (|name| > 1 ==> name[|name| - 2] != '.')
    ensures name[..|name| - 1] <= zone && forall i | |name| - 1 <= i < |zone| :: zone[i] == '.'
  {
    if zone != "" && zone[|zone| - 1] == '.' then Normalized(zone[..|zone| - 1]) else zone + "."
  }

  // ---- The steps ----

  /** A column that is added takes its default in every row. */
  function WithDefaults(db: Database, key: AcmeKey): AcmeKey {
    key.(keyType := if db.hasKeyType then key.keyType else "acme",
         comment := if db.hasComment then key.comment else None,
         zoneName := if db.hasZoneName then key.zoneName else None)
  }

  /** A key is bound to the first of its zones when the column for it is new. */
  function Bound(db: Database, key: AcmeKey): AcmeKey {
    var k := WithDefaults(db, key);
    if !db.hasZoneName && k.keyType == "acme" && k.zones != [] then k.(zoneName := Some(Normalized(k.zones[0]))) else k
  }

  function BoundKeys(db: Database): (keys: seq<AcmeKey>)
    ensures |keys| == |db.keys| && forall i | 0 <= i < |keys| :: keys[i] == Bound(db, db.keys[i])
  {
    seq(|db.keys|, i requires 0 <= i < |db.keys| => Bound(db, db.keys[i]))
  }

  /**
   * What a failed upgrade leaves: the driver begins a transaction at the first changed row only, so the columns added
   * before stay, with their defaults, and everything else is rolled back.
   */
  function ColumnsAdded(db: Database): (after: Database)
    ensures |after.keys| == |db.keys| && forall i | 0 <= i < |db.keys| :: after.keys[i] == WithDefaults(db, db.keys[i])
  {
    Database(true, true, true, seq(|db.keys|, i requires 0 <= i < |db.keys| => WithDefaults(db, db.keys[i])), db.tokens)
  }

  predicate IsLegacyToken(key: AcmeKey) {
    key.keyType == "api" && key.userId.Some?
  }

  /** The access tokens that used to be kept among the keys. */
  function Legacy(keys: seq<AcmeKey>): (legacy: seq<AcmeKey>)
    ensures forall i | 0 <= i < |legacy| :: IsLegacyToken(legacy[i])
  {
    if keys == [] then []
    else
      var front := Legacy(keys[..|keys| - 1]);
      if IsLegacyToken(keys[|keys| - 1]) then front + [keys[|keys| - 1]] else front
  }

  function WithoutApi(keys: seq<AcmeKey>): (kept: seq<AcmeKey>)
    ensures forall i | 0 <= i < |kept| :: kept[i].keyType != "api"
  {
    if keys == [] then []
    else
      var front := WithoutApi(keys[..|keys| - 1]);
      if keys[|keys| - 1].keyType == "api" then front else front + [keys[|keys| - 1]]
  }

  function TokenOf(key: AcmeKey): AccessToken
    requires key.userId.Some?
  {
    AccessToken(key.userId.value, key.name, key.prefix, key.comment, key.createdAt)
  }

  /** One INSERT after the other, `None` when the unique index on hashes refuses one. */
  function InsertAll(rows: seq<AcmeKey>, tokens: map<string, AccessToken>): Option<map<string, AccessToken>>
    requires forall i | 0 <= i < |rows| :: IsLegacyToken(rows[i])
  {
    if rows == [] then Some(tokens)
    else
      var last := rows[|rows| - 1];
      assert IsLegacyToken(last);
      match InsertAll(rows[..|rows| - 1], tokens)
      case None => None
      case Some(before) => if last.hash in before then None else Some(before[last.hash := TokenOf(last)])
  }

  /** The whole upgrade, `None` when an insert fails. */
  function Upgrade(db: Database): Option<Database> {
    var keys := BoundKeys(db);
    var legacy := Legacy(keys);
    match InsertAll(legacy, db.tokens)
    case None => None
    case Some(tokens) => Some(Database(true, true, true, if legacy == [] then keys else WithoutApi(keys), tokens))
  }

  class LegacyDatabase {
    var contents: Database

    constructor (contents: Database)
      ensures this.contents == contents
    {
      this.contents := contents;
    }

    /** A failed insert rolls back the changed rows, but not the added columns. */
    method UpgradeLegacySqlite() returns (ok: bool)
      modifies this
      ensures ok <==> Upgrade(old(contents)).Some?
      ensures contents == if ok then Upgrade(old(contents)).value else ColumnsAdded(old(contents))
    {
      var db := contents;
      contents := ColumnsAdded(db);
      var keys := BindZones(db);
      var legacy := SelectLegacy(keys);
      var tokens := db.tokens;
      for i := 0 to |legacy|
        invariant InsertAll(legacy[..i], db.tokens) == Some(tokens)
      {
        var row := legacy[i];
        assert legacy[..i + 1][..i] == legacy[..i];
        if row.hash in tokens {
          FailsEarly(legacy, i + 1, db.tokens);
          return false;
        }
        tokens := tokens[row.hash := TokenOf(row)];
      }
      assert legacy[..|legacy|] == legacy;
      if legacy != [] {
        keys := DeleteApi(keys);
      }
      contents := Database(true, true, true, keys, tokens);
      return true;
    }

    /** Add the missing columns and, if the one for the zone is new, fill it. */
    static method BindZones(db: Database) returns (keys: seq<AcmeKey>)
      ensures keys == BoundKeys(db)
    {
      keys := [];
      for i := 0 to |db.keys|
        invariant |keys| == i && forall j | 0 <= j < i :: keys[j] == Bound(db, db.keys[j])
      {
        var key := WithDefaults(db, db.keys[i]);
        if !db.hasZoneName && key.keyType == "acme" {
          if key.zones != [] {
            key := key.(zoneName := Some(Normalized(key.zones[0])));
          }
        }
        keys := keys + [key];
      }
    }

    static method SelectLegacy(keys: seq<AcmeKey>) returns (legacy: seq<AcmeKey>)
      ensures legacy == Legacy(keys)
    {
      legacy := [];
      for i := 0 to |keys|
        invariant legacy == Legacy(keys[..i])
      {
        assert keys[..i + 1][..i] == keys[..i];
        if keys[i].keyType == "api" && keys[i].userId.Some? {
          legacy := legacy + [keys[i]];
        }
      }
      assert keys[..|keys|] == keys;
    }

    static method DeleteApi(keys: seq<AcmeKey>) returns (kept: seq<AcmeKey>)
      ensures kept == WithoutApi(keys)
    {
      kept := [];
      for i := 0 to |keys|
        invariant kept == WithoutApi(keys[..i])
      {
        assert keys[..i + 1][..i] == keys[..i];
        if keys[i].keyType != "api" {
          kept := kept + [keys[i]];
        }
      }
      assert keys[..|keys|] == keys;
    }
  }

  lemma {:induction false} FailsEarly(rows: seq<AcmeKey>, i: nat, tokens: map<string, AccessToken>)
    requires i <= |rows| && forall j | 0 <= j < |rows| :: IsLegacyToken(rows[j])
    requires InsertAll(rows[..i], tokens) == None
    ensures InsertAll(rows, tokens) == None
    decreases |rows|
  {
    if i < |rows| {
      assert rows[..|rows| - 1][..i] == rows[..i];
      FailsEarly(rows[..|rows| - 1], i, tokens);
    } else {
      assert rows[..i] == rows;
    }
  }

  // ---- The inserts ----

  /** No hash is among the tokens, and no two rows share one. */
  ghost predicate NewHashes(rows: seq<AcmeKey>, tokens: map<string, AccessToken>) {
    && (forall i | 0 <= i < |rows| :: rows[i].hash !in tokens)
    && (forall i, j | 0 <= i < j < |rows| :: rows[i].hash != rows[j].hash)
  }

  ghost predicate HasHash(rows: seq<AcmeKey>, hash: string) {
    exists i :: 0 <= i < |rows| && rows[i].hash == hash
  }

  lemma {:induction false} HasHashLast(rows: seq<AcmeKey>, hash: string)
    requires rows != []
    ensures HasHash(rows, hash) <==> HasHash(rows[..|rows| - 1], hash) || rows[|rows| - 1].hash == hash
  {
    var n := |rows| - 1;
    assert forall i | 0 <= i < n :: rows[..n][i] == rows[i];
  }

  lemma {:induction false} NewHashesLast(rows: seq<AcmeKey>, tokens: map<string, AccessToken>)
    requires rows != []
    ensures NewHashes(rows, tokens) <==>
              var front, last := rows[..|rows| - 1], rows[|rows| - 1];
              NewHashes(front, tokens) && last.hash !in tokens && !HasHash(front, last.hash)
  {
    var n := |rows| - 1;
    assert forall i | 0 <= i < n :: rows[..n][i] == rows[i];
  }

  lemma {:induction false} InsertAllHashes(rows: seq<AcmeKey>, tokens: map<string, AccessToken>, hash: string)
    requires forall i | 0 <= i < |rows| :: IsLegacyToken(rows[i])
    requires InsertAll(rows, tokens).Some?
    ensures hash in InsertAll(rows, tokens).value <==> hash in tokens || HasHash(rows, hash)
  {
    if rows != [] {
      InsertAllHashes(rows[..|rows| - 1], tokens, hash);
      HasHashLast(rows, hash);
    }
  }

  lemma {:induction false} InsertAllSucceedsIff(rows: seq<AcmeKey>, tokens: map<string, AccessToken>)
    requires forall i | 0 <= i < |rows| :: IsLegacyToken(rows[i])
    ensures InsertAll(rows, tokens).Some? <==> NewHashes(rows, tokens)
  {
    if rows != [] {
      var front, last := rows[..|rows| - 1], rows[|rows| - 1];
      InsertAllSucceedsIff(front, tokens);
      NewHashesLast(rows, tokens);
      if InsertAll(front, tokens).Some? {
        InsertAllHashes(front, tokens, last.hash);
      }
    }
  }

  lemma {:induction false} InsertAllKeeps(rows: seq<AcmeKey>, tokens: map<string, AccessToken>)
    requires forall i | 0 <= i < |rows| :: IsLegacyToken(rows[i])
    requires InsertAll(rows, tokens).Some?
    ensures var after := InsertAll(rows, tokens).value;
            && |after| == |tokens| + |rows|
            && (forall hash | hash in tokens :: hash in after && after[hash] == tokens[hash])
            && (forall i | 0 <= i < |rows| :: rows[i].hash in after && after[rows[i].hash] == TokenOf(rows[i]))
  {
    if rows != [] {
      InsertAllKeeps(rows[..|rows| - 1], tokens);
    }
  }

  // ---- Conservation ----

  function ApiKeys(keys: seq<AcmeKey>): seq<AcmeKey> {
    if keys == [] then []
    else
      var front := ApiKeys(keys[..|keys| - 1]);
      if keys[|keys| - 1].keyType == "api" then front + [keys[|keys| - 1]] else front
  }

  lemma {:induction false} OnlyApiKeysGo(keys: seq<AcmeKey>)
    ensures multiset(keys) == multiset(WithoutApi(keys)) + multiset(ApiKeys(keys))
  {
    if keys != [] {
      var front, last := keys[..|keys| - 1], keys[|keys| - 1];
      OnlyApiKeysGo(front);
      assert keys == front + [last];
      var moved := last.keyType == "api";
      assert multiset(WithoutApi(keys)) == multiset(WithoutApi(front)) + if moved then multiset{} else multiset{last};
      assert multiset(ApiKeys(keys)) == multiset(ApiKeys(front)) + if moved then multiset{last} else multiset{};
    }
  }

  /**
   * A successful upgrade adds exactly one token for each owned `api` key, with the same owner, prefix and hash, to
   * the old tokens, and loses no key but, if there was something to move, those of type `api`.
   */
  lemma {:induction false} UpgradeConserves(db: Database)
    requires Upgrade(db).Some?
    ensures var after := Upgrade(db).value;
            var legacy := Legacy(BoundKeys(db));
            && |after.tokens| == |db.tokens| + |legacy|
            && (forall hash | hash in db.tokens :: hash in after.tokens && after.tokens[hash] == db.tokens[hash])
            && (forall i | 0 <= i < |legacy| ::
                  legacy[i].hash in after.tokens && after.tokens[legacy[i].hash] == TokenOf(legacy[i]))
            && multiset(BoundKeys(db))
               == multiset(after.keys) + if legacy == [] then multiset{} else multiset(ApiKeys(BoundKeys(db)))
  {
    InsertAllKeeps(Legacy(BoundKeys(db)), db.tokens);
    OnlyApiKeysGo(BoundKeys(db));
  }

  /** What the upgrade reads of a row: columns that were missing have their defaults. */
  ghost predicate IsApiKeyOf(db: Database, i: nat, owner: nat) {
    i < |db.keys| && db.hasKeyType && db.keys[i].keyType == "api" && db.keys[i].userId == Some(owner)
  }

  /** The token that a row becomes. */
  ghost predicate IsTokenOf(db: Database, i: nat, token: AccessToken)
    requires i < |db.keys|
  {
    var was := db.keys[i];
    && was.userId == Some(token.userId) && token.name == was.name && token.prefix == was.prefix
    && token.createdAt == was.createdAt && token.comment == if db.hasComment then was.comment else None
  }

  lemma {:induction false} LegacyHas(keys: seq<AcmeKey>, i: nat)
    requires i < |keys| && keys[i].keyType == "api" && keys[i].userId.Some?
    ensures keys[i] in Legacy(keys)
  {
    if i < |keys| - 1 {
      LegacyHas(keys[..|keys| - 1], i);
    }
  }

  lemma {:induction false} LegacyHasOnly(keys: seq<AcmeKey>, key: AcmeKey)
    requires key in Legacy(keys)
    ensures key in keys && key.keyType == "api" && key.userId.Some?
  {
    if key !in Legacy(keys[..|keys| - 1]) {
      assert key == keys[|keys| - 1];
    } else {
      LegacyHasOnly(keys[..|keys| - 1], key);
    }
  }

  lemma {:induction false} InsertAllAddsOnly(rows: seq<AcmeKey>, tokens: map<string, AccessToken>, hash: string)
    requires forall i | 0 <= i < |rows| :: IsLegacyToken(rows[i])
    requires InsertAll(rows, tokens).Some? && hash in InsertAll(rows, tokens).value && hash !in tokens
    ensures exists row :: row in rows && row.hash == hash && row.userId.Some?
                          && InsertAll(rows, tokens).value[hash] == TokenOf(row)
  {
    var last := rows[|rows| - 1];
    assert IsLegacyToken(last);
    if hash == last.hash {
      assert last in rows;
    } else {
      InsertAllAddsOnly(rows[..|rows| - 1], tokens, hash);
    }
  }

  /** Every owned `api` row becomes the token of its hash, with its owner, name, prefix, comment and date. */
  lemma {:induction false} EveryApiKeyMoves(db: Database, i: nat, owner: nat)
    requires Upgrade(db).Some? && IsApiKeyOf(db, i, owner)
    ensures db.keys[i].hash in Upgrade(db).value.tokens
    ensures IsTokenOf(db, i, Upgrade(db).value.tokens[db.keys[i].hash])
  {
    var keys := BoundKeys(db);
    BoundKeepsKey(db, i);
    LegacyHas(keys, i);
    InsertAllKeeps(Legacy(keys), db.tokens);
    var j :| 0 <= j < |Legacy(keys)| && Legacy(keys)[j] == keys[i];
  }

  /** Every token that was not there before comes from such a row. */
  lemma {:induction false} OnlyApiKeysMove(db: Database, hash: string)
    requires Upgrade(db).Some? && hash in Upgrade(db).value.tokens && hash !in db.tokens
    ensures exists i: nat, owner :: IsApiKeyOf(db, i, owner) && db.keys[i].hash == hash
                                    && IsTokenOf(db, i, Upgrade(db).value.tokens[hash])
  {
    var keys := BoundKeys(db);
    InsertAllAddsOnly(Legacy(keys), db.tokens, hash);
    var row :| row in Legacy(keys) && row.hash == hash && row.userId.Some?
               && InsertAll(Legacy(keys), db.tokens).value[hash] == TokenOf(row);
    LegacyHasOnly(keys, row);
    var i: nat :| i < |keys| && keys[i] == row;
    BoundKeepsKey(db, i);
    assert IsApiKeyOf(db, i, row.userId.value);
  }

  lemma {:induction false} KeptHas(keys: seq<AcmeKey>, i: nat)
    requires i < |keys| && keys[i].keyType != "api"
    ensures keys[i] in WithoutApi(keys)
  {
    if i < |keys| - 1 {
      KeptHas(keys[..|keys| - 1], i);
    }
  }

  /** Every other row stays, with its data and its zone; the `api` rows stay only if none of them had an owner. */
  lemma {:induction false} OtherKeysStay(db: Database, i: nat)
    requires Upgrade(db).Some? && i < |db.keys|
    ensures (db.hasKeyType ==> db.keys[i].keyType != "api") ==> BoundKeys(db)[i] in Upgrade(db).value.keys
    ensures (forall j, owner :: !IsApiKeyOf(db, j, owner)) ==> Upgrade(db).value.keys == BoundKeys(db)
    ensures (exists j, owner :: IsApiKeyOf(db, j, owner)) ==>
              forall key | key in Upgrade(db).value.keys :: key.keyType != "api"
  {
    var keys := BoundKeys(db);
    BoundKeepsKey(db, i);
    if keys[i].keyType != "api" {
      KeptHas(keys, i);
    }
    if j: nat, owner: nat :| IsApiKeyOf(db, j, owner) {
      BoundKeepsKey(db, j);
      LegacyHas(keys, j);
    } else if Legacy(keys) != [] {
      NoneOwned(db);
    }
  }

  lemma {:induction false} NoneOwned(db: Database)
    requires Legacy(BoundKeys(db)) != []
    ensures exists j: nat, owner: nat :: IsApiKeyOf(db, j, owner)
  {
    var keys := BoundKeys(db);
    var row := Legacy(keys)[0];
    LegacyHasOnly(keys, row);
    var j: nat :| j < |keys| && keys[j] == row;
    BoundKeepsKey(db, j);
    assert IsApiKeyOf(db, j, row.userId.value);
  }

  /** A failed upgrade leaves the rows as they are, with the defaults of new columns, and the tokens alone. */
  lemma {:induction false} FailureKeepsData(db: Database, i: nat)
    requires i < |db.keys|
    ensures var after := ColumnsAdded(db);
            && after.hasKeyType && after.hasComment && after.hasZoneName && after.tokens == db.tokens
            && |after.keys| == |db.keys|
            && after.keys[i] == db.keys[i].(keyType := if db.hasKeyType then db.keys[i].keyType else "acme",
                                            comment := if db.hasComment then db.keys[i].comment else None,
                                            zoneName := if db.hasZoneName then db.keys[i].zoneName else None)
  {
  }

  /** The upgrade succeeds exactly when no moved hash is among the tokens and no two moved keys share one. */
  lemma {:induction false} UpgradeSucceedsIff(db: Database)
    ensures Upgrade(db).Some? <==> NewHashes(Legacy(BoundKeys(db)), db.tokens)
  {
    InsertAllSucceedsIff(Legacy(BoundKeys(db)), db.tokens);
  }

  /** Every key keeps its data; an ACME key gets its first zone, with one final dot, exactly when the column is new. */
  lemma {:induction false} BoundKeepsKey(db: Database, i: nat)
    requires i < |db.keys|
    ensures var was, bound := db.keys[i], BoundKeys(db)[i];
            && bound.userId == was.userId && bound.name == was.name && bound.prefix == was.prefix
            && bound.hash == was.hash && bound.zones == was.zones && bound.createdAt == was.createdAt
            && (db.hasKeyType ==> bound.keyType == was.keyType) && (!db.hasKeyType ==> bound.keyType == "acme")
            && (db.hasComment ==> bound.comment == was.comment)
            && bound.zoneName == if db.hasZoneName then was.zoneName
                                 else if bound.keyType != "acme" || was.zones == [] then None
                                 else Some(Normalized(was.zones[0]))
  {
  }

  lemma {:induction false} NothingLegacyLeft(keys: seq<AcmeKey>)
    ensures Legacy(WithoutApi(keys)) == []
  {
    NoLegacy(WithoutApi(keys));
  }

  lemma {:induction false} NoLegacy(keys: seq<AcmeKey>)
    requires forall i | 0 <= i < |keys| :: keys[i].keyType != "api"
    ensures Legacy(keys) == []
  {
    if keys != [] {
      NoLegacy(keys[..|keys| - 1]);
    }
  }

  /** A second run finds nothing left to do. */
  lemma {:induction false} UpgradeTwiceIsOnce(db: Database)
    requires Upgrade(db).Some?
    ensures Upgrade(Upgrade(db).value) == Upgrade(db)
  {
    var after := Upgrade(db).value;
    assert BoundKeys(after) == after.keys;
    NothingLegacyLeft(BoundKeys(db));
    assert Legacy(after.keys) == [];
  }

  // ---- After a failed upgrade ----

  /** The same key, but for the zone of an ACME key. */
  ghost predicate SameButZone(x: AcmeKey, y: AcmeKey) {
    x == y || (x.keyType == "acme" && y.keyType == "acme")
  }

  ghost predicate AreSameButZone(xs: seq<AcmeKey>, ys: seq<AcmeKey>) {
    |xs| == |ys| && forall i | 0 <= i < |xs| :: SameButZone(xs[i], ys[i])
  }

  lemma {:induction false} SameLegacy(xs: seq<AcmeKey>, ys: seq<AcmeKey>)
    requires AreSameButZone(xs, ys)
    ensures Legacy(xs) == Legacy(ys)
  {
    if xs != [] {
      assert SameButZone(xs[|xs| - 1], ys[|xs| - 1]);
      SameLegacy(xs[..|xs| - 1], ys[..|xs| - 1]);
    }
  }

  /** Deleting the `api` keys hides no difference. */
  lemma {:induction false} SameKept(xs: seq<AcmeKey>, ys: seq<AcmeKey>)
    requires AreSameButZone(xs, ys)
    ensures |WithoutApi(xs)| == |WithoutApi(ys)|
    ensures WithoutApi(xs) == WithoutApi(ys) <==> xs == ys
  {
    if xs != [] {
      var n := |xs| - 1;
      assert SameButZone(xs[n], ys[n]);
      SameKept(xs[..n], ys[..n]);
      assert xs == xs[..n] + [xs[n]] && ys == ys[..n] + [ys[n]];
      if WithoutApi(xs) == WithoutApi(ys) {
        SnocInjective(WithoutApi(xs[..n]), WithoutApi(ys[..n]), xs[n], ys[n]);
      }
    }
  }

  lemma {:induction false} SnocInjective<T>(a: seq<T>, b: seq<T>, x: T, y: T)
    requires |a| == |b|
    ensures a + [x] == b + [y] <==> a == b && x == y
  {
    if a + [x] == b + [y] {
      assert (a + [x])[..|a|] == a && (b + [y])[..|b|] == b;
      assert (a + [x])[|a|] == x && (b + [y])[|b|] == y;
    }
  }

  /** No ACME key is waiting for its zone. */
  predicate NoZoneToBind(db: Database) {
    db.hasZoneName
    || forall i | 0 <= i < |db.keys| :: WithDefaults(db, db.keys[i]).keyType == "acme" ==> db.keys[i].zones == []
  }

  lemma {:induction false} BoundDiffers(db: Database, i: nat)
    requires i < |db.keys|
    ensures SameButZone(Bound(db, db.keys[i]), WithDefaults(db, db.keys[i]))
    ensures Bound(db, db.keys[i]) == WithDefaults(db, db.keys[i])
            <==> db.hasZoneName || (WithDefaults(db, db.keys[i]).keyType == "acme" ==> db.keys[i].zones == [])
  {
  }

  lemma {:induction false} BoundAfterFailure(db: Database)
    ensures BoundKeys(ColumnsAdded(db)) == ColumnsAdded(db).keys
    ensures AreSameButZone(BoundKeys(db), ColumnsAdded(db).keys)
    ensures BoundKeys(db) == ColumnsAdded(db).keys <==> NoZoneToBind(db)
  {
    forall i | 0 <= i < |db.keys|
      ensures SameButZone(BoundKeys(db)[i], ColumnsAdded(db).keys[i])
      ensures BoundKeys(db)[i] == ColumnsAdded(db).keys[i]
              <==> db.hasZoneName || (WithDefaults(db, db.keys[i]).keyType == "acme" ==> db.keys[i].zones == [])
    {
      BoundDiffers(db, i);
    }
  }

  /**
   * An upgrade that succeeds after a failed one, the tokens in its way being gone, does what it would have done at
   * once exactly when no ACME key was waiting for its zone: the second run takes the zone column for an old one.
   */
  lemma {:induction false} RetryCondition(db: Database, tokens: map<string, AccessToken>)
    requires Upgrade(db.(tokens := tokens)).Some?
    ensures Upgrade(ColumnsAdded(db).(tokens := tokens)) == Upgrade(db.(tokens := tokens)) <==> NoZoneToBind(db)
  {
    assert ColumnsAdded(db).(tokens := tokens) == ColumnsAdded(db.(tokens := tokens));
    RetryAtOnce(db.(tokens := tokens));
  }

  lemma {:induction false} RetryAtOnce(db: Database)
    requires Upgrade(db).Some?
    ensures Upgrade(ColumnsAdded(db)) == Upgrade(db) <==> NoZoneToBind(db)
  {
    BoundAfterFailure(db);
    SameLegacy(BoundKeys(db), ColumnsAdded(db).keys);
    SameKept(BoundKeys(db), ColumnsAdded(db).keys);
  }
}
