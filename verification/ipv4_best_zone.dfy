/** Which of the listed zones is chosen for an IPv4 address. */
module Ipv4BestZone {
  import opened Options
  import opened Strings
  import opened Powers
  import opened ReverseDns
  import opened ReverseZones
  import opened ReverseLookup
  import opened ReverseIpv4
  import opened Ipv4Networks

  /** A zone made from an IPv4 network, or any zone outside `in-addr.arpa.` */
  datatype Ipv4Origin = Ipv4Network(parts: seq<string>, octets: seq<string>, prefix: string) | NotIpv4

  ghost predicate HasOrigin(z: Zone, origin: Ipv4Origin, number: string -> Option<string>) {
    match origin
    case Ipv4Network(parts, n, d) =>
      && AreOctets(n) && Prints(parts, n, number) && IsDecimal(d)
      && CidrToReverseZoneName(Join(parts, ".") + "/" + d, number) == Some(z.name)
    case NotIpv4 => !EndsWith(z.name, IN_ADDR_ARPA)
  }

  ghost predicate HaveOrigins(zones: seq<Zone>, origins: seq<Ipv4Origin>, number: string -> Option<string>) {
    if zones == [] then origins == []
    else
      var n := |zones| - 1;
      |origins| == n + 1 && HasOrigin(zones[n], origins[n], number) && HaveOrigins(zones[..n], origins[..n], number)
  }

  /** How many octets name a zone, 0 for one that can hold no IPv4 address. */
  function Octets(origin: Ipv4Origin): nat {
    if origin.Ipv4Network? && IsDecimal(origin.prefix) then OctetCount(DecimalValue(origin.prefix)) else 0
  }

  lemma {:induction false} NameLengths(octets: seq<string>, k: nat)
    requires AreOctets(octets) && 2 <= k <= 3
    ensures |OwnName(octets, k)| == |OwnName(octets, k - 1)| + |octets[k - 1]| + 1
  {
    ZoneOfParts(octets, k);
    ZoneOfParts(octets, k - 1);
  }

  lemma {:induction false} LongerOwnName(a: seq<string>, j: nat, k: nat)
    requires AreOctets(a) && 1 <= j <= k <= 3
    ensures |OwnName(a, j)| <= |OwnName(a, k)| && (j < k ==> |OwnName(a, j)| < |OwnName(a, k)|)
  {
    if j < k {
      NameLengths(a, k);
      LongerOwnName(a, j, k - 1);
    }
  }

  lemma {:induction false} OwnNameLike(a: seq<string>, n: seq<string>, k: nat)
    requires AreOctets(a) && AreOctets(n) && 1 <= k <= 3 && a[..k - 1] == n[..k - 1]
    ensures |OwnName(n, k)| - |n[k - 1]| == |OwnName(a, k)| - |a[k - 1]|
  {
    if k == 1 {
      ZoneOfParts(a, 1);
      ZoneOfParts(n, 1);
    } else {
      NameLengths(a, k);
      NameLengths(n, k);
    }
  }

  /** The lengths of the own names of one to three octets; that of none counts as 0. */
  function OwnLength(a: seq<string>, k: nat): nat
    requires |a| == 4 && k <= 3
  {
    if k == 0 then 0 else |OwnName(a, k)|
  }

  /** How long the name of a zone of `k` octets is, given that of the own ones of `k` and of one less. */
  predicate FitsBetween(length: nat, shorter: nat, own: nat, lies: bool) {
    shorter < length <= own && (lies <==> length == own)
  }

  /**
   * A name of `k` octets that matches as the suffix test does is longer than the own one of fewer octets, and no
   * longer than the own one of as many, to which it is equal exactly when the last octets are.
   */
  lemma {:induction false} MatchLength(a: seq<string>, n: seq<string>, k: nat)
    requires AreOctets(a) && AreOctets(n) && 1 <= k <= 3
    requires a[..k - 1] == n[..k - 1] && EndsWith(a[k - 1], n[k - 1])
    ensures FitsBetween(|OwnName(n, k)|, OwnLength(a, k - 1), OwnLength(a, k), a[k - 1] == n[k - 1])
    ensures a[k - 1] == n[k - 1] ==> OwnName(n, k) == OwnName(a, k)
  {
    OwnNameLike(a, n, k);
    SameUpTo(a, n, k);
    if k > 1 {
      NameLengths(n, k);
      assert OwnName(n, k - 1) == OwnName(a, k - 1);
    }
    assert |OwnName(n, k)| > 0;
  }

  /** Whether zone `i` of the list serves the address. */
  ghost predicate Reached(a: seq<string>, zones: seq<Zone>, i: int) {
    0 <= i < |zones| && Serves(zones[i], ReversedName(a, IN_ADDR_ARPA))
  }

  ghost predicate Fits(a: seq<string>, name: string, k: nat)
    requires |a| == 4
  {
    && 1 <= k <= 3 && FitsBetween(|name|, OwnLength(a, k - 1), OwnLength(a, k), InZone(a, name))
    && (InZone(a, name) ==> name == OwnName(a, k))
  }

  /** Every zone of the list that serves the address has a name of a length that tells its octets. */
  ghost predicate ServedFit(a: seq<string>, zones: seq<Zone>, octets: seq<nat>)
    requires |a| == 4
  {
    |octets| == |zones| && forall i | Reached(a, zones, i) :: Fits(a, zones[i].name, octets[i])
  }

  /** How many octets name each zone. */
  function OctetsOf(origins: seq<Ipv4Origin>): (octets: seq<nat>)
    ensures |octets| == |origins| && forall i | 0 <= i < |origins| :: octets[i] == Octets(origins[i])
  {
    seq(|origins|, i requires 0 <= i < |origins| => Octets(origins[i]))
  }

  /** A zone with the name of some octets, or one that can serve no IPv4 address. */
  ghost predicate IsNamed(z: Zone, origin: Ipv4Origin) {
    if Octets(origin) == 0 then !EndsWith(z.name, IN_ADDR_ARPA)
    else AreOctets(origin.octets) && z.name == OwnName(origin.octets, Octets(origin))
  }

  lemma {:induction false} EachIsNamed(zones: seq<Zone>, origins: seq<Ipv4Origin>, number: string -> Option<string>,
                                       i: nat)
    requires HaveOrigins(zones, origins, number) && i < |zones|
    ensures |origins| == |zones| && IsNamed(zones[i], origins[i])
  {
    if i < |zones| - 1 {
      EachIsNamed(zones[..|zones| - 1], origins[..|zones| - 1], number, i);
    } else if origins[i].Ipv4Network? {
      ZoneOfIpv4Network(origins[i].parts, origins[i].octets, origins[i].prefix, number);
    }
  }

  /** A zone that serves an IPv4 address is one made from an IPv4 network. */
  lemma {:induction false} OneFits(a: seq<string>, z: Zone, origin: Ipv4Origin)
    requires AreOctets(a) && IsNamed(z, origin) && Serves(z, ReversedName(a, IN_ADDR_ARPA))
    ensures Fits(a, z.name, Octets(origin))
  {
    var name := ReversedName(a, IN_ADDR_ARPA);
    PtrOfOctets(a);
    EndsWithSuffix(Join(Reverse(a), "."), IN_ADDR_ARPA);
    if EndsWith(z.name, IP6_ARPA) {
      EndsTransitive(name, z.name, IP6_ARPA);
      NotInAddrArpa(name);
    }
    FoundByEnding(a, origin.octets, Octets(origin));
    LiesWithOctets(a, origin.octets, Octets(origin));
    MatchLength(a, origin.octets, Octets(origin));
  }

  lemma {:induction false} AllFit(a: seq<string>, zones: seq<Zone>, origins: seq<Ipv4Origin>,
                                  number: string -> Option<string>)
    requires AreOctets(a) && HaveOrigins(zones, origins, number)
    ensures ServedFit(a, zones, OctetsOf(origins))
  {
    AsManyIpv4Origins(zones, origins, number);
    forall i | Reached(a, zones, i) ensures Fits(a, zones[i].name, OctetsOf(origins)[i]) {
      EachIsNamed(zones, origins, number, i);
      OneFits(a, zones[i], origins[i]);
    }
  }

  lemma {:induction false} OwnNameServes(a: seq<string>, own: Zone)
    requires AreOctets(a) && own.name == OwnName(a, 3)
    ensures Serves(own, ReversedName(a, IN_ADDR_ARPA))
  {
    EndsWithSuffix(Join(Reverse(a[..3]), "."), IN_ADDR_ARPA);
    NameInLeadingOctets(a, a, 3);
    EndsWithSuffix("", a[2]);
    assert "" + a[2] == a[2];
  }

  /** When the own three-octet zone of an address is listed, the best zone is of that name. */
  lemma {:induction false} OwnZoneIsBest(a: seq<string>, zones: seq<Zone>, origins: seq<Ipv4Origin>,
                                         number: string -> Option<string>, best: Option<Zone>)
    requires AreOctets(a) && HaveOrigins(zones, origins, number)
    requires BuildPtrName(Join(a, ".")).Some? && IsBest(BuildPtrName(Join(a, ".")).value, zones, best)
    ensures (exists own :: own in zones && own.name == OwnName(a, 3)) ==>
              best.Some? && best.value.name == OwnName(a, 3)
  {
    if own :| own in zones && own.name == OwnName(a, 3) {
      PtrOfOctets(a);
      OwnNameServes(a, own);
      AllFit(a, zones, origins, number);
      var b: nat :| b < |zones| && zones[b] == best.value;
      assert Reached(a, zones, b) && |zones[b].name| >= |own.name|;
      NoLongerThanOwn(a, zones[b].name, OctetsOf(origins)[b]);
    }
  }

  lemma {:induction false} NoLongerThanOwn(a: seq<string>, name: string, k: nat)
    requires AreOctets(a) && Fits(a, name, k) && |name| >= |OwnName(a, 3)|
    ensures name == OwnName(a, 3)
  {
    LongerOwnName(a, k, 3);
  }

  /** Every zone that serves the address has no more octets than some zone in which the address lies. */
  ghost predicate NoFalseZoneAhead(a: seq<string>, zones: seq<Zone>, octets: seq<nat>)
    requires |octets| == |zones|
  {
    forall i | Reached(a, zones, i) ::
      exists j | Reached(a, zones, j) :: InZone(a, zones[j].name) && octets[j] >= octets[i]
  }

  /** Comparing a zone of `k` octets with one of `m` octets in which the address lies. */
  lemma {:induction false} CompareNames(a: seq<string>, name: string, k: nat, right: string, m: nat)
    requires AreOctets(a) && Fits(a, name, k) && Fits(a, right, m) && InZone(a, right)
    ensures k > m ==> |name| > |right|
    ensures k <= m ==> |name| <= |right| && (|name| == |right| ==> InZone(a, name))
  {
    if k > m {
      LongerOwnName(a, m, k - 1);
    } else {
      LongerOwnName(a, k, m);
    }
  }

  lemma {:induction false} BestIsRightIff(a: seq<string>, zones: seq<Zone>, octets: seq<nat>, b: nat)
    requires AreOctets(a) && ServedFit(a, zones, octets) && Reached(a, zones, b)
    requires forall i | Reached(a, zones, i) :: |zones[i].name| <= |zones[b].name|
    ensures InZone(a, zones[b].name) <==> NoFalseZoneAhead(a, zones, octets)
  {
    if InZone(a, zones[b].name) {
      forall i | Reached(a, zones, i)
        ensures octets[b] >= octets[i]
      {
        CompareNames(a, zones[i].name, octets[i], zones[b].name, octets[b]);
      }
    } else if NoFalseZoneAhead(a, zones, octets) {
      var j :| Reached(a, zones, j) && InZone(a, zones[j].name) && octets[j] >= octets[b];
      CompareNames(a, zones[b].name, octets[b], zones[j].name, octets[j]);
    }
  }

  /**
   * Among zones made from IPv4 networks the address lies in the best one exactly when every zone that the suffix test
   * finds has no more octets than some zone in which the address lies; that one is then of the longest such name.
   */
  lemma {:induction false} Ipv4BestZoneIsRightIff(a: seq<string>, zones: seq<Zone>, origins: seq<Ipv4Origin>,
                                                  number: string -> Option<string>, best: Option<Zone>)
    requires AreOctets(a) && HaveOrigins(zones, origins, number)
    requires BuildPtrName(Join(a, ".")).Some? && IsBest(BuildPtrName(Join(a, ".")).value, zones, best)
    ensures |origins| == |zones|
    ensures (best.Some? ==> InZone(a, best.value.name)) <==> NoFalseZoneAhead(a, zones, OctetsOf(origins))
  {
    PtrOfOctets(a);
    AllFit(a, zones, origins, number);
    if best.Some? {
      var b: nat :| b < |zones| && zones[b] == best.value;
      assert Reached(a, zones, b);
      BestIsRightIff(a, zones, OctetsOf(origins), b);
    }
  }

  lemma {:induction false} AsManyIpv4Origins(zones: seq<Zone>, origins: seq<Ipv4Origin>,
                                             number: string -> Option<string>)
    requires HaveOrigins(zones, origins, number)
    ensures |origins| == |zones|
  {
  }
}
