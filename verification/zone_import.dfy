/** `import_zone`: a zone file is imported as one patch of REPLACE and DELETE changes. */
module ZoneImport {

  datatype Key = Key(name: string, rtype: string)

  datatype Data = Data(ttl: int, records: seq<string>)

  datatype RRset = RRset(key: Key, data: Data)

  datatype Change = Replace(rrset: RRset) | Delete(removed: Key)

  type Zone = map<Key, Data>

  /** SOA and NS belong to PowerDNS; an import leaves them alone. */
  predicate IsManaged(key: Key) {
    key.rtype == "SOA" || key.rtype == "NS"
  }

  function ToZone(rrsets: seq<RRset>): Zone {
    if rrsets == [] then map[]
    else ToZone(rrsets[..|rrsets| - 1])[rrsets[|rrsets| - 1].key := rrsets[|rrsets| - 1].data]
  }

  function Target(change: Change): Key {
    match change
    case Replace(rrset) => rrset.key
    case Delete(key) => key
  }

  function ApplyChange(zone: Zone, change: Change): Zone {
    match change
    case Replace(rrset) => zone[rrset.key := rrset.data]
    case Delete(key) => zone - {key}
  }

  /** PATCH as the server understands it: the changes one after the other. */
  function Apply(zone: Zone, patch: seq<Change>): Zone {
    if patch == [] then zone
    else ApplyChange(Apply(zone, patch[..|patch| - 1]), patch[|patch| - 1])
  }

  /** The imported RRsets an import may touch. */
  function Importable(imported: seq<RRset>): (safe: seq<RRset>)
    ensures forall r | r in safe :: !IsManaged(r.key)
  {
    if imported == [] then []
    else
      var last := imported[|imported| - 1];
      var front := Importable(imported[..|imported| - 1]);
      if IsManaged(last.key) then front else front + [last]
  }

  function KeysOf(rrsets: seq<RRset>): set<Key> {
    set i | 0 <= i < |rrsets| :: rrsets[i].key
  }

  /** The keys of the current RRsets that an import drops, in order. */
  function Dropped(current: seq<RRset>, kept: set<Key>): (dropped: seq<Key>)
    ensures forall k :: k in dropped <==> k in KeysOf(current) && !IsManaged(k) && k !in kept
  {
    if current == [] then []
    else
      var n := |current| - 1;
      var key := current[n].key;
      var front := Dropped(current[..n], kept);
      assert KeysOf(current) == KeysOf(current[..n]) + {key} by {
        forall i | 0 <= i < |current| ensures current[i].key in KeysOf(current[..n]) + {key} {
          assert i < n ==> current[..n][i] == current[i];
        }
        assert forall i | 0 <= i < n :: current[..n][i] == current[i];
      }
      if IsManaged(key) || key in kept then front else front + [key]
  }

  function Replaces(rrsets: seq<RRset>): (changes: seq<Change>)
    ensures |changes| == |rrsets| && forall i | 0 <= i < |rrsets| :: changes[i] == Replace(rrsets[i])
  {
    seq(|rrsets|, i requires 0 <= i < |rrsets| => Replace(rrsets[i]))
  }

  function Deletes(keys: seq<Key>): (changes: seq<Change>)
    ensures |changes| == |keys| && forall i | 0 <= i < |keys| :: changes[i] == Delete(keys[i])
  {
    seq(|keys|, i requires 0 <= i < |keys| => Delete(keys[i]))
  }

  function PatchOf(imported: seq<RRset>, current: seq<RRset>): seq<Change> {
    var safe := Importable(imported);
    Replaces(safe) + Deletes(Dropped(current, KeysOf(safe)))
  }

  method BuildPatch(imported: seq<RRset>, current: seq<RRset>) returns (patch: seq<Change>)
    ensures patch == PatchOf(imported, current)
  {
    patch := [];
    var keys := {};
    for i := 0 to |imported|
      invariant patch == Replaces(Importable(imported[..i]))
      invariant keys == KeysOf(Importable(imported[..i]))
    {
      ghost var safe := Importable(imported[..i]);
      assert imported[..i + 1][..i] == imported[..i];
      if !IsManaged(imported[i].key) {
        patch := patch + [Replace(imported[i])];
        keys := keys + {imported[i].key};
        KeysAppend(safe, imported[i]);
      }
    }
    assert imported[..|imported|] == imported;
    ghost var replacements := patch;
    for j := 0 to |current|
      invariant patch == replacements + Deletes(Dropped(current[..j], keys))
    {
      assert current[..j + 1][..j] == current[..j];
      if IsManaged(current[j].key) {
        continue;
      }
      if current[j].key !in keys {
        patch := patch + [Delete(current[j].key)];
        assert Deletes(Dropped(current[..j], keys) + [current[j].key])
            == Deletes(Dropped(current[..j], keys)) + [Delete(current[j].key)];
      }
    }
    assert current[..|current|] == current;
  }

  lemma {:induction false} KeysAppend(rrsets: seq<RRset>, r: RRset)
    ensures KeysOf(rrsets + [r]) == KeysOf(rrsets) + {r.key}
  {
    var more := rrsets + [r];
    forall i | 0 <= i < |more| ensures more[i].key in KeysOf(rrsets) + {r.key} {
      assert i < |rrsets| ==> more[i] == rrsets[i];
    }
    assert forall i | 0 <= i < |rrsets| :: more[i] == rrsets[i];
    assert more[|rrsets|] == r;
  }

  // ---- The patched zone ----

  /** What an import must leave: the current SOA and NS RRsets, and the imported ones of any other type. */
  function Imported(zone: Zone, imported: seq<RRset>): Zone {
    (map key | key in zone && IsManaged(key) :: zone[key]) + ToZone(Importable(imported))
  }

  lemma {:induction false} ToZoneKeys(rrsets: seq<RRset>)
    ensures ToZone(rrsets).Keys == KeysOf(rrsets)
  {
    if rrsets != [] {
      var n := |rrsets| - 1;
      assert rrsets == rrsets[..n] + [rrsets[n]];
      ToZoneKeys(rrsets[..n]);
      KeysAppend(rrsets[..n], rrsets[n]);
    }
  }

  lemma {:induction false} ApplyReplaces(zone: Zone, rrsets: seq<RRset>)
    ensures Apply(zone, Replaces(rrsets)) == zone + ToZone(rrsets)
  {
    if rrsets != [] {
      var n := |rrsets| - 1;
      ApplyReplaces(zone, rrsets[..n]);
      assert Replaces(rrsets)[..n] == Replaces(rrsets[..n]);
    }
  }

  lemma {:induction false} KeysWithLast(keys: seq<Key>)
    requires keys != []
    ensures var front, last := keys[..|keys| - 1], keys[|keys| - 1];
            (set k | k in keys) == (set k | k in front) + {last}
  {
    assert keys == keys[..|keys| - 1] + [keys[|keys| - 1]];
  }

  lemma {:induction false} ApplyDeletes(zone: Zone, patch: seq<Change>, keys: seq<Key>)
    ensures Apply(zone, patch + Deletes(keys)) == Apply(zone, patch) - (set k | k in keys)
  {
    if keys == [] {
      assert patch + Deletes(keys) == patch;
    } else {
      var n := |keys| - 1;
      assert (patch + Deletes(keys))[..|patch| + n] == patch + Deletes(keys[..n]);
      ApplyDeletes(zone, patch, keys[..n]);
      KeysWithLast(keys);
    }
  }

  /** The patch turns the current zone into exactly the imported one. */
  lemma {:induction false} ImportIsCorrect(imported: seq<RRset>, current: seq<RRset>)
    ensures Apply(ToZone(current), PatchOf(imported, current)) == Imported(ToZone(current), imported)
  {
    var safe := Importable(imported);
    ApplyReplaces(ToZone(current), safe);
    ApplyDeletes(ToZone(current), Replaces(safe), Dropped(current, KeysOf(safe)));
    ToZoneKeys(current);
    ToZoneKeys(safe);
  }

  // ---- Key by key ----

  /** The last RRset of a key in a list. */
  ghost predicate IsLastOf(rrsets: seq<RRset>, i: int, key: Key) {
    0 <= i < |rrsets| && rrsets[i].key == key && forall j | i < j < |rrsets| :: rrsets[j].key != key
  }

  ghost predicate HasKey(rrsets: seq<RRset>, key: Key) {
    exists i :: 0 <= i < |rrsets| && rrsets[i].key == key
  }

  /** A zone has of each key what the last RRset of that key says. */
  ghost predicate SaysOf(zone: Zone, rrsets: seq<RRset>, key: Key) {
    && (key in zone <==> HasKey(rrsets, key))
    && forall i | IsLastOf(rrsets, i, key) :: key in zone && zone[key] == rrsets[i].data
  }

  lemma {:induction false} ToZoneSays(rrsets: seq<RRset>, key: Key)
    ensures SaysOf(ToZone(rrsets), rrsets, key)
  {
    if rrsets != [] {
      var n := |rrsets| - 1;
      ToZoneSays(rrsets[..n], key);
      assert forall i | 0 <= i < n :: rrsets[..n][i] == rrsets[i];
      assert HasKey(rrsets, key) <==> HasKey(rrsets[..n], key) || rrsets[n].key == key;
      forall i | IsLastOf(rrsets, i, key)
        ensures key in ToZone(rrsets) && ToZone(rrsets)[key] == rrsets[i].data
      {
        if i < n {
          assert IsLastOf(rrsets[..n], i, key);
        }
      }
    }
  }

  /** What may be imported says of every key but those of type SOA and NS what the file says. */
  lemma {:induction false} ImportableSays(imported: seq<RRset>, key: Key)
    ensures key.rtype != "SOA" && key.rtype != "NS" ==> SaysOf(ToZone(Importable(imported)), imported, key)
    ensures key.rtype == "SOA" || key.rtype == "NS" ==> key !in ToZone(Importable(imported))
  {
    if imported != [] {
      var n := |imported| - 1;
      ImportableSays(imported[..n], key);
      ImportableLast(imported);
      assert forall i | 0 <= i < n :: imported[..n][i] == imported[i];
      assert HasKey(imported, key) <==> HasKey(imported[..n], key) || imported[n].key == key;
      forall i | IsLastOf(imported, i, key) && key.rtype != "SOA" && key.rtype != "NS"
        ensures key in ToZone(Importable(imported)) && ToZone(Importable(imported))[key] == imported[i].data
      {
        if i < n {
          assert IsLastOf(imported[..n], i, key);
        }
      }
    }
  }

  lemma {:induction false} ImportableLast(imported: seq<RRset>)
    requires imported != []
    ensures var front, last := imported[..|imported| - 1], imported[|imported| - 1];
            ToZone(Importable(imported))
            == if last.key.rtype == "SOA" || last.key.rtype == "NS" then ToZone(Importable(front))
               else ToZone(Importable(front))[last.key := last.data]
  {
    var front, last := imported[..|imported| - 1], imported[|imported| - 1];
    assert (Importable(front) + [last])[..|Importable(front)|] == Importable(front);
  }

  /**
   * After an import every key of type SOA or NS is as in the current zone, and any other one is there exactly when
   * the file has it, with the data of the last RRset of that key.
   */
  lemma {:induction false} ImportKeyByKey(imported: seq<RRset>, current: seq<RRset>, key: Key)
    ensures var after := Apply(ToZone(current), PatchOf(imported, current));
            SaysOf(after, if key.rtype == "SOA" || key.rtype == "NS" then current else imported, key)
  {
    ImportIsCorrect(imported, current);
    ToZoneSays(current, key);
    ImportableSays(imported, key);
  }

  /** Importing the same file again, from whatever listing of the patched zone, changes nothing. */
  lemma {:induction false} ImportTwiceIsOnce(imported: seq<RRset>, current: seq<RRset>, later: seq<RRset>)
    requires ToZone(later) == Apply(ToZone(current), PatchOf(imported, current))
    ensures Apply(ToZone(later), PatchOf(imported, later)) == ToZone(later)
  {
    ImportIsCorrect(imported, current);
    ImportIsCorrect(imported, later);
    ToZoneKeys(Importable(imported));
  }

  /** SOA and NS are never named by the patch. */
  lemma {:induction false} ManagedNeverTouched(imported: seq<RRset>, current: seq<RRset>)
    ensures forall change | change in PatchOf(imported, current) :: !IsManaged(Target(change))
  {
    var safe := Importable(imported);
    assert forall i | 0 <= i < |safe| :: safe[i] in safe;
    var dropped := Dropped(current, KeysOf(safe));
    assert forall i | 0 <= i < |dropped| :: dropped[i] in dropped;
  }

  // ---- Repetitions and order ----

  ghost predicate Distinct<T>(s: seq<T>) {
    forall i, j | 0 <= i < j < |s| :: s[i] != s[j]
  }

  function Targets(patch: seq<Change>): (keys: seq<Key>)
    ensures |keys| == |patch| && forall i | 0 <= i < |patch| :: keys[i] == Target(patch[i])
  {
    seq(|patch|, i requires 0 <= i < |patch| => Target(patch[i]))
  }

  function KeyList(rrsets: seq<RRset>): (keys: seq<Key>)
    ensures |keys| == |rrsets| && forall i | 0 <= i < |rrsets| :: keys[i] == rrsets[i].key
  {
    seq(|rrsets|, i requires 0 <= i < |rrsets| => rrsets[i].key)
  }

  lemma {:induction false} DistinctConcat<T>(a: seq<T>, b: seq<T>)
    requires forall x | x in a :: x !in b
    ensures Distinct(a + b) <==> Distinct(a) && Distinct(b)
  {
    forall i, j | 0 <= i < |a| && 0 <= j < |b| ensures a[i] != b[j] {
      assert a[i] in a && b[j] in b;
    }
    if Distinct(a + b) {
      forall i, j | 0 <= i < j < |a| ensures a[i] != a[j] {
        assert (a + b)[i] != (a + b)[j];
      }
      forall i, j | 0 <= i < j < |b| ensures b[i] != b[j] {
        assert (a + b)[|a| + i] != (a + b)[|a| + j];
      }
    }
  }

  /**
   * The patch names a (name, type) twice exactly when the importable RRsets or the dropped ones do.
   */
  lemma {:induction false} PatchRepeatsOnlyInput(imported: seq<RRset>, current: seq<RRset>)
    ensures var safe := Importable(imported);
            Distinct(Targets(PatchOf(imported, current)))
            <==> Distinct(KeyList(safe)) && Distinct(Dropped(current, KeysOf(safe)))
  {
    var safe := Importable(imported);
    var dropped := Dropped(current, KeysOf(safe));
    assert Targets(PatchOf(imported, current)) == KeyList(safe) + dropped;
    forall key | key in KeyList(safe)
      ensures key !in dropped
    {
      var i :| 0 <= i < |safe| && KeyList(safe)[i] == key;
      assert safe[i].key in KeysOf(safe);
    }
    DistinctConcat(KeyList(safe), dropped);
  }

  /** A signed zone has RRSIG sets for several types under one (name, type): the patch names that key twice. */
  lemma {:induction false} RrsigSetsRepeat(name: string, a: Data, b: Data, current: seq<RRset>)
    ensures var key := Key(name, "RRSIG");
            !Distinct(Targets(PatchOf([RRset(key, a), RRset(key, b)], current)))
  {
    var key := Key(name, "RRSIG");
    var first, second := RRset(key, a), RRset(key, b);
    assert [first, second][..1] == [first] && [first][..0] == [];
    assert Importable([first]) == [first];
    assert Importable([first, second]) == [first, second];
    PatchRepeatsOnlyInput([first, second], current);
    assert KeyList([first, second])[0] == KeyList([first, second])[1];
  }

  /** Whether `zone` is at `key` as one change leaves it. */
  ghost predicate Settled(zone: Zone, change: Change) {
    match change
    case Replace(rrset) => rrset.key in zone && zone[rrset.key] == rrset.data
    case Delete(key) => key !in zone
  }

  lemma {:induction false} ApplyElsewhere(zone: Zone, patch: seq<Change>, key: Key)
    requires key !in Targets(patch)
    ensures key in Apply(zone, patch) <==> key in zone
    ensures key in zone ==> Apply(zone, patch)[key] == zone[key]
  {
    if patch != [] {
      var n := |patch| - 1;
      assert Targets(patch) == Targets(patch[..n]) + [Target(patch[n])];
      ApplyElsewhere(zone, patch[..n], key);
    }
  }

  /** Each change of a patch without repetitions has its effect in the end. */
  lemma {:induction false} ApplySettles(zone: Zone, patch: seq<Change>, i: nat)
    requires i < |patch| && Distinct(Targets(patch))
    ensures Settled(Apply(zone, patch), patch[i])
  {
    var n := |patch| - 1;
    assert Targets(patch) == Targets(patch[..n]) + [Target(patch[n])];
    if i < n {
      assert Targets(patch)[i] != Targets(patch)[n];
      ApplySettles(zone, patch[..n], i);
    }
  }

  lemma {:induction false} DistinctShuffled<T>(a: seq<T>, b: seq<T>)
    requires multiset(a) == multiset(b) && Distinct(a)
    ensures Distinct(b)
  {
    forall i, j | 0 <= i < j < |b|
      ensures b[i] != b[j]
    {
      if b[i] == b[j] {
        var x := b[i];
        assert b == b[..j] + b[j..];
        assert x in multiset(b[..j]) by { assert b[..j][i] == x; }
        assert x in multiset(b[j..]) by { assert b[j..][0] == x; }
        assert multiset(b)[x] >= 2;
        OccursOnce(a, x);
      }
    }
  }

  lemma {:induction false} OccursOnce<T>(a: seq<T>, x: T)
    requires Distinct(a)
    ensures multiset(a)[x] <= 1
  {
    if a != [] {
      var n := |a| - 1;
      assert a == a[..n] + [a[n]];
      OccursOnce(a[..n], x);
      assert a[n] !in a[..n];
    }
  }

  lemma {:induction false} TargetsShuffled(a: seq<Change>, b: seq<Change>)
    requires multiset(a) == multiset(b) && Distinct(Targets(a))
    ensures Distinct(Targets(b))
  {
    forall i, j | 0 <= i < j < |b|
      ensures Targets(b)[i] != Targets(b)[j]
    {
      assert Distinct(a) by {
        assert forall k | 0 <= k < |a| :: Targets(a)[k] == Target(a[k]);
      }
      DistinctShuffled(a, b);
      assert b[i] in multiset(a) && b[j] in multiset(a);
      var k :| 0 <= k < |a| && a[k] == b[i];
      var m :| 0 <= m < |a| && a[m] == b[j];
      assert Targets(a)[k] != Targets(a)[m];
    }
  }

  lemma {:induction false} SameChanges(a: seq<Change>, b: seq<Change>, i: nat) returns (j: nat)
    requires multiset(a) == multiset(b) && i < |a|
    ensures j < |b| && b[j] == a[i]
  {
    assert a[i] in multiset(b);
    j :| j < |b| && b[j] == a[i];
  }

  lemma {:induction false} SameAt(zone: Zone, patch: seq<Change>, shuffled: seq<Change>, key: Key)
    requires multiset(patch) == multiset(shuffled) && Distinct(Targets(patch)) && Distinct(Targets(shuffled))
    ensures key in Apply(zone, patch) <==> key in Apply(zone, shuffled)
    ensures key in Apply(zone, patch) ==> Apply(zone, patch)[key] == Apply(zone, shuffled)[key]
  {
    if i: nat :| i < |patch| && Target(patch[i]) == key {
      var j := SameChanges(patch, shuffled, i);
      ApplySettles(zone, patch, i);
      ApplySettles(zone, shuffled, j);
    } else {
      if key in Targets(shuffled) {
        var j: nat :| j < |shuffled| && Targets(shuffled)[j] == key;
        var i := SameChanges(shuffled, patch, j);
        assert false;
      }
      ApplyElsewhere(zone, patch, key);
      ApplyElsewhere(zone, shuffled, key);
    }
  }

  /** A patch without repetitions gives the same zone in any order. */
  lemma {:induction false} OrderIsIrrelevant(zone: Zone, patch: seq<Change>, shuffled: seq<Change>)
    requires multiset(patch) == multiset(shuffled) && Distinct(Targets(patch))
    ensures Apply(zone, patch) == Apply(zone, shuffled)
  {
    TargetsShuffled(patch, shuffled);
    var a, b := Apply(zone, patch), Apply(zone, shuffled);
    forall key
      ensures key in a <==> key in b
      ensures key in a ==> a[key] == b[key]
    {
      SameAt(zone, patch, shuffled, key);
    }
  }
}
