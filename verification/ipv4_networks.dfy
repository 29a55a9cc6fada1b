/** What the zone named for an IPv4 network holds, and when the suffix test finds exactly that. */
module Ipv4Networks {
  import opened Options
  import opened Strings
  import opened Powers
  import opened ReverseDns
  import opened ReverseZones
  import opened ReverseLookup
  import opened ReverseIpv4

  // ---- Octets as numbers print them ----

  /** Without a leading zero. */
  predicate IsPlain(octet: string) {
    IsDecimal(octet) && DecimalValue(octet) <= 255 && (|octet| > 1 ==> octet[0] != '0')
  }

  predicate ArePlain(octets: seq<string>) {
    |octets| == 4 && forall i | 0 <= i < 4 :: IsPlain(octets[i])
  }

  lemma {:induction false} FrontIsDecimal(d: string)
    requires IsDecimal(d) && |d| > 1
    ensures IsDecimal(d[..|d| - 1]) && IsDigit(d[|d| - 1])
    ensures DecimalValue(d) == 10 * DecimalValue(d[..|d| - 1]) + DigitValue(d[|d| - 1])
  {
    assert d[|d| - 1] in d;
    assert forall c | c in d[..|d| - 1] :: c in d;
  }

  lemma {:induction false} OneDigit(d: string)
    requires IsDecimal(d) && |d| == 1
    ensures IsDigit(d[0]) && DecimalValue(d) == DigitValue(d[0])
  {
    assert d[0] in d;
    assert d[..0] == "" && DecimalValue("") == 0;
  }

  lemma {:induction false} NotZero(d: string)
    requires IsDecimal(d) && d[0] != '0'
    ensures DecimalValue(d) >= 1
  {
    if |d| == 1 {
      OneDigit(d);
    } else {
      FrontIsDecimal(d);
      NotZero(d[..|d| - 1]);
    }
  }

  lemma {:induction false} AtLeastTen(d: string)
    requires IsDecimal(d) && |d| > 1 && d[0] != '0'
    ensures DecimalValue(d) >= 10
  {
    FrontIsDecimal(d);
    NotZero(d[..|d| - 1]);
  }

  /** Plain numerals of the same number are the same text. */
  lemma {:induction false} PlainInjective(s: string, t: string)
    requires IsDecimal(s) && (|s| > 1 ==> s[0] != '0') && IsDecimal(t) && (|t| > 1 ==> t[0] != '0')
    requires DecimalValue(s) == DecimalValue(t)
    ensures s == t
  {
    if |s| == 1 && |t| == 1 {
      OneDigit(s);
      OneDigit(t);
    } else if |s| == 1 {
      OneDigit(s);
      AtLeastTen(t);
    } else if |t| == 1 {
      OneDigit(t);
      AtLeastTen(s);
    } else {
      FrontIsDecimal(s);
      FrontIsDecimal(t);
      PlainInjective(s[..|s| - 1], t[..|t| - 1]);
      LastDiffers(s, t);
    }
  }

  lemma {:induction false} AtMostThree(o: string)
    requires IsPlain(o)
    ensures 1 <= |o| <= 3
  {
    if |o| > 3 {
      FrontIsDecimal(o);
      var front := o[..|o| - 1];
      FrontIsDecimal(front);
      AtLeastTen(front[..|front| - 1]);
    }
  }

  function DigitOf(v: nat): (c: char)
    requires v < 10
    ensures IsDigit(c) && DigitValue(c) == v
  {
    (v + '0' as int) as char
  }

  /** The plain numeral of a number. */
  function Numeral(v: nat): (d: string)
    ensures IsDecimal(d) && DecimalValue(d) == v && (d[0] == '0' ==> v == 0) && (|d| > 1 ==> v >= 10)
  {
    if v < 10 then
      assert DecimalValue("") == 0;
      [DigitOf(v)]
    else
      var front := Numeral(v / 10);
      var d := front + [DigitOf(v % 10)];
      assert d[..|d| - 1] == front;
      d
  }

  // ---- Networks ----

  predicate InIpv4Network(address: nat, network: nat, prefix: nat)
    requires prefix <= 32
  {
    address / Pow(2, 32 - prefix) == network / Pow(2, 32 - prefix)
  }

  lemma {:induction false} Coarser(x: nat, y: nat, fine: nat, coarse: nat)
    requires coarse <= fine <= 32 && InIpv4Network(x, y, fine)
    ensures InIpv4Network(x, y, coarse)
  {
    PowAdd(2, 32 - fine, fine - coarse);
    DivideTwice(x, Pow(2, 32 - fine), Pow(2, fine - coarse));
    DivideTwice(y, Pow(2, 32 - fine), Pow(2, fine - coarse));
  }

  lemma {:induction false} OctetPowers()
    ensures Pow(2, 7) == 128 && Pow(2, 8) == 256 && Pow(2, 16) == 65536 && Pow(2, 24) == 16777216
  {
    assert Pow(2, 3) == 8 && Pow(2, 4) == 16;
    PowAdd(2, 3, 4);
    PowAdd(2, 4, 4);
    PowAdd(2, 8, 8);
    PowAdd(2, 8, 16);
  }

  /** Cutting off whole octets leaves the number of the others. */
  lemma {:induction false} CutOctets(octets: seq<string>, k: nat)
    requires AreOctets(octets) && k <= 4
    ensures Ipv4Number(octets) / Pow(2, 32 - 8 * k) == Leading(octets, k)
    decreases 4 - k
  {
    if k < 4 {
      CutOctets(octets, k + 1);
      OctetPowers();
      PowAdd(2, 24 - 8 * k, 8);
      DivideTwice(Ipv4Number(octets), Pow(2, 24 - 8 * k), 256);
      CutOne(Leading(octets, k), DecimalValue(octets[k]));
    }
  }

  lemma {:induction false} CutOne(high: nat, octet: nat)
    requires octet <= 255
    ensures (256 * high + octet) / 256 == high
  {
  }

  lemma {:induction false} LeadingInjective(a: seq<string>, n: seq<string>, k: nat)
    requires ArePlain(a) && ArePlain(n) && k <= 4
    ensures a[..k] == n[..k] <==> Leading(a, k) == Leading(n, k)
  {
    if k > 0 {
      LeadingInjective(a, n, k - 1);
      assert a[..k] == a[..k - 1] + [a[k - 1]] && n[..k] == n[..k - 1] + [n[k - 1]];
      if DecimalValue(a[k - 1]) == DecimalValue(n[k - 1]) {
        PlainInjective(a[k - 1], n[k - 1]);
      }
    }
  }

  /** Equal leading octets are equal leading bits. */
  lemma {:induction false} SameOctets(a: seq<string>, n: seq<string>, k: nat)
    requires ArePlain(a) && ArePlain(n) && 1 <= k <= 3
    ensures a[..k] == n[..k] <==> InIpv4Network(Ipv4Number(a), Ipv4Number(n), 8 * k)
  {
    LeadingInjective(a, n, k);
    CutOctets(a, k);
    CutOctets(n, k);
  }

  // ---- What lies in the zone ----

  /** Whether a name lies below a zone: label by label, as the DNS has it. */
  predicate LiesBelow(name: string, zone: string) {
    EndsWith(name, "." + zone)
  }

  lemma {:induction false} DottedZone(labels: seq<string>, suffix: string)
    requires labels != []
    ensures "." + ReversedName(labels, suffix) == ReversedName(labels + [""], suffix)
  {
    ReverseSnoc(labels, "");
    ReverseLength(labels);
    assert ([""] + Reverse(labels))[1..] == Reverse(labels);
  }

  /** An address lies in the zone of `k` octets exactly when it has these octets. */
  lemma {:induction false} BelowIsSameOctets(a: seq<string>, n: seq<string>, k: nat)
    requires AreOctets(a) && AreOctets(n) && 1 <= k <= 3
    ensures LiesBelow(ReversedName(a, IN_ADDR_ARPA), ReversedName(n[..k], IN_ADDR_ARPA)) <==> a[..k] == n[..k]
  {
    PtrOfOctets(a);
    PtrOfOctets(n);
    var labels := n[..k] + [""];
    assert AreLabels(labels);
    DottedZone(n[..k], IN_ADDR_ARPA);
    NamesMatch(a, labels, IN_ADDR_ARPA);
    MatchAt(a, labels);
    assert labels[..k] == n[..k] && EndsWith(a[k], "");
  }

  lemma {:induction false} BelowIsSuffix(name: string, zone: string)
    requires LiesBelow(name, zone)
    ensures EndsWith(name, zone)
  {
    assert ("." + zone)[1..] == zone;
    assert name[|name| - |zone|..] == name[|name| - |zone| - 1..][1..];
  }

  ghost predicate IsZoneOf(parts: seq<string>, n: seq<string>, d: string, number: string -> Option<string>,
                           zone: string)
  {
    && ArePlain(n) && Prints(parts, n, number) && IsDecimal(d) && DecimalValue(d) <= 32
    && CidrToReverseZoneName(Join(parts, ".") + "/" + d, number) == Some(zone)
  }

  /** Whether the zone named for a network holds the address, and whether the network does. */
  ghost predicate InZone(a: seq<string>, zone: string) {
    BuildPtrName(Join(a, ".")).Some? && LiesBelow(BuildPtrName(Join(a, ".")).value, zone)
  }

  ghost predicate InTheNetwork(a: seq<string>, n: seq<string>, d: string)
    requires AreOctets(a) && AreOctets(n) && IsDecimal(d) && DecimalValue(d) <= 32
  {
    InIpv4Network(Ipv4Number(a), Ipv4Number(n), DecimalValue(d))
  }

  /** Whether the code finds the zone for the address. */
  ghost predicate IsFound(a: seq<string>, zone: string) {
    BuildPtrName(Join(a, ".")).Some? && EndsWith(BuildPtrName(Join(a, ".")).value, zone)
  }

  lemma {:induction false} ZoneHolds(a: seq<string>, parts: seq<string>, n: seq<string>, d: string,
                                     number: string -> Option<string>, zone: string)
    requires IsZoneOf(parts, n, d, number, zone) && ArePlain(a)
    ensures InZone(a, zone) <==> InIpv4Network(Ipv4Number(a), Ipv4Number(n), 8 * OctetCount(DecimalValue(d)))
    ensures InZone(a, zone) ==> IsFound(a, zone)
  {
    var k := OctetCount(DecimalValue(d));
    ZoneOfIpv4Network(parts, n, d, number);
    PtrOfOctets(a);
    BelowIsSameOctets(a, n, k);
    SameOctets(a, n, k);
    if InZone(a, zone) {
      BelowIsSuffix(ReversedName(a, IN_ADDR_ARPA), zone);
    }
  }

  // ---- Narrower and wider ----

  lemma {:induction false} LeadingBefore(octets: seq<string>, j: nat, o: string, k: nat)
    requires AreOctets(octets) && j < 4 && AreOctets(octets[j := o]) && k <= j
    ensures Leading(octets[j := o], k) == Leading(octets, k)
  {
    if k > 0 {
      LeadingBefore(octets, j, o, k - 1);
    }
  }

  /** The octet that differs in the lowest bit only. */
  function OtherParity(v: nat): (w: nat)
    requires v <= 255
    ensures w <= 255 && w / 2 == v / 2 && w % 2 != v % 2
  {
    if v % 2 == 0 then v + 1 else v - 1
  }

  lemma {:induction false} ParityOfLastDigit(d: string)
    requires IsDecimal(d)
    ensures IsDigit(d[|d| - 1]) && DecimalValue(d) % 2 == DigitValue(d[|d| - 1]) % 2
  {
    assert d[|d| - 1] in d;
  }

  lemma {:induction false} ParityEnding(s: string, t: string)
    requires IsDecimal(s) && IsDecimal(t) && DecimalValue(s) % 2 != DecimalValue(t) % 2
    ensures !EndsWith(s, t)
  {
    ParityOfLastDigit(s);
    ParityOfLastDigit(t);
  }

  /** An address that differs from the network in the lowest bit of octet `k` alone. */
  function BesideZone(n: seq<string>, k: nat): (a: seq<string>)
    requires ArePlain(n) && 1 <= k <= 3
    ensures ArePlain(a)
  {
    n[k - 1 := Numeral(OtherParity(DecimalValue(n[k - 1])))]
  }

  lemma {:induction false} HalvesAgree(x: nat, y: nat, m: nat)
    requires x / Pow(2, m) / 2 == y / Pow(2, m) / 2
    ensures x / Pow(2, m + 1) == y / Pow(2, m + 1)
  {
    assert Pow(2, m + 1) == Pow(2, m) * 2;
    DivideTwice(x, Pow(2, m), 2);
    DivideTwice(y, Pow(2, m), 2);
  }

  lemma {:induction false} HalfOfOctet(high: nat, v: nat, w: nat)
    requires v / 2 == w / 2
    ensures (256 * high + v) / 2 == (256 * high + w) / 2
  {
    assert (256 * high + v) / 2 == 128 * high + v / 2;
    assert (256 * high + w) / 2 == 128 * high + w / 2;
  }

  lemma {:induction false} BesideIsInNetwork(n: seq<string>, k: nat)
    requires ArePlain(n) && 1 <= k <= 3
    ensures InIpv4Network(Ipv4Number(BesideZone(n, k)), Ipv4Number(n), 8 * k - 1)
  {
    var a := BesideZone(n, k);
    CutOctets(a, k);
    CutOctets(n, k);
    LeadingBefore(n, k - 1, a[k - 1], k - 1);
    HalfOfOctet(Leading(n, k - 1), DecimalValue(a[k - 1]), DecimalValue(n[k - 1]));
    HalvesAgree(Ipv4Number(a), Ipv4Number(n), 32 - 8 * k);
  }

  /** The zone of a network that does not end on an octet, up to /23, holds only addresses of it, and not all. */
  lemma {:induction false} ShortPrefixIsNarrower(parts: seq<string>, n: seq<string>, d: string,
                                                 number: string -> Option<string>, zone: string)
    requires IsZoneOf(parts, n, d, number, zone) && DecimalValue(d) < 8 * OctetCount(DecimalValue(d))
    ensures forall a | ArePlain(a) && InZone(a, zone) :: InTheNetwork(a, n, d)
    ensures exists a :: ArePlain(a) && InTheNetwork(a, n, d) && !IsFound(a, zone)
  {
    var p, k := DecimalValue(d), OctetCount(DecimalValue(d));
    forall a | ArePlain(a) && InZone(a, zone) ensures InTheNetwork(a, n, d) {
      ZoneHolds(a, parts, n, d, number, zone);
      Coarser(Ipv4Number(a), Ipv4Number(n), 8 * k, p);
    }
    var a := BesideZone(n, k);
    BesideIsInNetwork(n, k);
    Coarser(Ipv4Number(a), Ipv4Number(n), 8 * k - 1, p);
    ParityEnding(a[k - 1], n[k - 1]);
    Ipv4SuffixMatch(a, parts, n, d, number);
    assert ArePlain(a) && InTheNetwork(a, n, d) && !IsFound(a, zone);
  }

  /** The address in the other half of the same /24. */
  function OtherHalf(n: seq<string>): (a: seq<string>)
    requires ArePlain(n)
    ensures ArePlain(a)
  {
    var v := DecimalValue(n[3]);
    n[3 := Numeral(if v < 128 then v + 128 else v - 128)]
  }

  lemma {:induction false} HalvesDiffer(high: nat, v: nat, w: nat)
    requires v < 128 && w == v + 128
    ensures (256 * high + v) / 256 == (256 * high + w) / 256
    ensures (256 * high + v) / 128 != (256 * high + w) / 128
  {
    assert (256 * high + v) / 128 == 2 * high && (256 * high + w) / 128 == 2 * high + 1;
  }

  lemma {:induction false} OtherHalfIsOutside(n: seq<string>)
    requires ArePlain(n)
    ensures InIpv4Network(Ipv4Number(OtherHalf(n)), Ipv4Number(n), 24)
    ensures !InIpv4Network(Ipv4Number(OtherHalf(n)), Ipv4Number(n), 25)
  {
    var a := OtherHalf(n);
    var v, w := DecimalValue(n[3]), DecimalValue(a[3]);
    OctetPowers();
    LeadingBefore(n, 3, a[3], 3);
    HalvesDiffer(Leading(n, 3), if v < w then v else w, if v < w then w else v);
  }

  /** The zone of a network longer than /24 is that of the /24 around it: it holds the network, and more. */
  lemma {:induction false} LongPrefixIsWider(parts: seq<string>, n: seq<string>, d: string,
                                             number: string -> Option<string>, zone: string)
    requires IsZoneOf(parts, n, d, number, zone) && DecimalValue(d) > 24
    ensures forall a | ArePlain(a) && InTheNetwork(a, n, d) :: InZone(a, zone) && IsFound(a, zone)
    ensures exists a :: ArePlain(a) && InZone(a, zone) && IsFound(a, zone) && !InTheNetwork(a, n, d)
  {
    var p := DecimalValue(d);
    forall a | ArePlain(a) && InTheNetwork(a, n, d) ensures InZone(a, zone) && IsFound(a, zone) {
      Coarser(Ipv4Number(a), Ipv4Number(n), p, 24);
      ZoneHolds(a, parts, n, d, number, zone);
    }
    var a := OtherHalf(n);
    OtherHalfIsOutside(n);
    ZoneHolds(a, parts, n, d, number, zone);
    if InTheNetwork(a, n, d) {
      Coarser(Ipv4Number(a), Ipv4Number(n), p, 25);
    }
    assert ArePlain(a) && InZone(a, zone) && IsFound(a, zone) && !InTheNetwork(a, n, d);
  }

  /** The zone holds exactly the addresses of the network for prefixes 8, 16 and 24, and for no other. */
  lemma {:induction false} ZoneIsNetworkIff(parts: seq<string>, n: seq<string>, d: string,
                                            number: string -> Option<string>, zone: string)
    requires IsZoneOf(parts, n, d, number, zone)
    ensures (forall a | ArePlain(a) :: InZone(a, zone) <==> InTheNetwork(a, n, d)) <==> DecimalValue(d) in {8, 16, 24}
  {
    var p, k := DecimalValue(d), OctetCount(DecimalValue(d));
    if p < 8 * k {
      ShortPrefixIsNarrower(parts, n, d, number, zone);
      var a :| ArePlain(a) && InTheNetwork(a, n, d) && !IsFound(a, zone);
      ZoneHolds(a, parts, n, d, number, zone);
    } else if p > 8 * k {
      LongPrefixIsWider(parts, n, d, number, zone);
      var a :| ArePlain(a) && InZone(a, zone) && IsFound(a, zone) && !InTheNetwork(a, n, d);
    } else {
      forall a | ArePlain(a) ensures InZone(a, zone) <==> InTheNetwork(a, n, d) {
        ZoneHolds(a, parts, n, d, number, zone);
      }
    }
  }

  // ---- When the suffix test is right ----

  /** An octet that ends with the digits of another one. */
  lemma {:induction false} LongerOctet(o: string)
    requires IsPlain(o) && |o| < 3
    ensures IsPlain("1" + o) && EndsWith("1" + o, o) && "1" + o != o
  {
    var longer := "1" + o;
    FrontIsDecimal(longer);
    var front := longer[..|longer| - 1];
    if |o| == 1 {
      assert front == "1";
      OneDigit("1");
    } else {
      FrontIsDecimal(front);
      assert front[..1] == "1";
      OneDigit("1");
    }
    assert longer[1..] == o;
  }

  lemma {:induction false} ThreeDigitsDecide(a: string, n: string)
    requires IsPlain(a) && |n| == 3
    ensures EndsWith(a, n) <==> a == n
  {
    AtMostThree(a);
  }

  /** Whether the code finds a zone for exactly the addresses that lie in it. */
  ghost predicate FindsExactly(zone: string) {
    forall a | ArePlain(a) :: IsFound(a, zone) <==> InZone(a, zone)
  }

  /** The suffix test is right for all addresses exactly when the first label of the zone has three digits. */
  lemma {:induction false} SuffixTestIsRightIff(parts: seq<string>, n: seq<string>, d: string,
                                                number: string -> Option<string>, zone: string)
    requires IsZoneOf(parts, n, d, number, zone)
    ensures FindsExactly(zone) <==> |n[OctetCount(DecimalValue(d)) - 1]| == 3
  {
    var k := OctetCount(DecimalValue(d));
    ZoneOfIpv4Network(parts, n, d, number);
    AtMostThree(n[k - 1]);
    if |n[k - 1]| == 3 {
      forall a | ArePlain(a) ensures IsFound(a, zone) <==> InZone(a, zone) {
        FoundByEnding(a, n, k);
        LiesWithOctets(a, n, k);
        ThreeDigitsDecide(a[k - 1], n[k - 1]);
      }
    } else {
      LongerOctet(n[k - 1]);
      var a := n[k - 1 := "1" + n[k - 1]];
      assert a[..k - 1] == n[..k - 1];
      FoundByEnding(a, n, k);
      LiesWithOctets(a, n, k);
      assert IsFound(a, zone) && !InZone(a, zone);
    }
  }

  /** The name of the first `k` octets of an address. */
  function OwnName(a: seq<string>, k: nat): string
    requires k <= |a|
  {
    ReversedName(a[..k], IN_ADDR_ARPA)
  }

  lemma {:induction false} FoundByEnding(a: seq<string>, n: seq<string>, k: nat)
    requires AreOctets(a) && AreOctets(n) && 1 <= k <= 3
    ensures IsFound(a, OwnName(n, k)) <==> a[..k - 1] == n[..k - 1] && EndsWith(a[k - 1], n[k - 1])
  {
    PtrOfOctets(a);
    NameInLeadingOctets(a, n, k);
  }

  lemma {:induction false} LiesWithOctets(a: seq<string>, n: seq<string>, k: nat)
    requires AreOctets(a) && AreOctets(n) && 1 <= k <= 3
    ensures InZone(a, OwnName(n, k)) <==> a[..k - 1] == n[..k - 1] && a[k - 1] == n[k - 1]
  {
    PtrOfOctets(a);
    BelowIsSameOctets(a, n, k);
    SameUpTo(a, n, k);
  }

  lemma {:induction false} SameUpTo(a: seq<string>, n: seq<string>, k: nat)
    requires 1 <= k <= |a| && k <= |n|
    ensures a[..k] == n[..k] <==> a[..k - 1] == n[..k - 1] && a[k - 1] == n[k - 1]
  {
    assert a[..k] == a[..k - 1] + [a[k - 1]] && n[..k] == n[..k - 1] + [n[k - 1]];
  }

  /** So the code finds the zone for exactly the addresses of the network under both conditions, and only then. */
  lemma {:induction false} FoundIsNetworkIff(parts: seq<string>, n: seq<string>, d: string,
                                             number: string -> Option<string>, zone: string)
    requires IsZoneOf(parts, n, d, number, zone)
    ensures (forall a | ArePlain(a) :: IsFound(a, zone) <==> InTheNetwork(a, n, d))
            <==> DecimalValue(d) in {8, 16, 24} && |n[OctetCount(DecimalValue(d)) - 1]| == 3
  {
    var p, k := DecimalValue(d), OctetCount(DecimalValue(d));
    if p < 8 * k {
      ShortPrefixIsNarrower(parts, n, d, number, zone);
    } else if p > 8 * k {
      LongPrefixIsWider(parts, n, d, number, zone);
    } else {
      ZoneIsNetworkIff(parts, n, d, number, zone);
      SuffixTestIsRightIff(parts, n, d, number, zone);
      assert forall a | ArePlain(a) :: InZone(a, zone) <==> InTheNetwork(a, n, d);
    }
  }
}
