/** Reverse names of IPv4 addresses, the zones named for IPv4 networks, and the suffix test. */
module ReverseIpv4 {
  import opened Options
  import opened Strings
  import opened Powers
  import opened ReverseDns
  import opened ReverseZones
  import opened ReverseLookup

  // ---- Addresses ----

  predicate AreOctets(octets: seq<string>) {
    |octets| == 4 && forall i | 0 <= i < 4 :: IsDecimal(octets[i]) && DecimalValue(octets[i]) <= 255
  }

  /** The number of the first `k` octets. */
  function Leading(octets: seq<string>, k: nat): nat
    requires AreOctets(octets) && k <= 4
  {
    if k == 0 then 0 else 256 * Leading(octets, k - 1) + DecimalValue(octets[k - 1])
  }

  function Ipv4Number(octets: seq<string>): nat
    requires AreOctets(octets)
  {
    Leading(octets, 4)
  }

  /** The address an `in-addr.arpa.` name stands for (section 3.5 of RFC 1035): low-order octet first. */
  function ReadInAddrName(name: string): Option<nat> {
    if !EndsWith(name, IN_ADDR_ARPA) then None
    else
      var labels := Split(name[..|name| - |IN_ADDR_ARPA|], '.');
      if AreOctets(labels)
      then Some(DecimalValue(labels[0]) + 256 * (DecimalValue(labels[1])
                + 256 * (DecimalValue(labels[2]) + 256 * DecimalValue(labels[3]))))
      else None
  }

  lemma {:induction false} ReverseFew(a: string, b: string, c: string, d: string)
    ensures Reverse([a]) == [a] && Reverse([a, b]) == [b, a]
    ensures Reverse([a, b, c]) == [c, b, a] && Reverse([a, b, c, d]) == [d, c, b, a]
  {
    var none: seq<string> := [];
    ReverseSnoc(none, a);
    ReverseSnoc([a], b);
    ReverseSnoc([a, b], c);
    ReverseSnoc([a, b, c], d);
    assert none + [a] == [a] && [a] + [b] == [a, b] && [a, b] + [c] == [a, b, c] && [a, b, c] + [d] == [a, b, c, d];
  }

  lemma {:induction false} JoinFew(a: string, b: string, c: string, d: string)
    ensures Join([c, d], ".") == c + "." + d
    ensures Join([b, c, d], ".") == b + "." + c + "." + d
    ensures Join([a, b, c, d], ".") == a + "." + b + "." + c + "." + d
  {
    assert [c, d][1..] == [d] && [b, c, d][1..] == [c, d] && [a, b, c, d][1..] == [b, c, d];
    assert b + "." + (c + "." + d) == b + "." + c + "." + d;
    assert a + "." + (b + "." + c + "." + d) == a + "." + b + "." + c + "." + d;
  }

  /** Text between the dots of an address, free of the characters that mean something else. */
  predicate IsPart(part: string) {
    '.' !in part && ':' !in part && '/' !in part
  }

  /** Four parts that trimming leaves alone. */
  predicate AreParts(parts: seq<string>) {
    && |parts| == 4 && (forall i | 0 <= i < 4 :: IsPart(parts[i]))
    && (parts[0] != "" ==> !IsJsSpace(parts[0][0]))
  }

  lemma {:induction false} DottedText(a: string, b: string, c: string, d: string)
    requires IsPart(a) && IsPart(b) && IsPart(c) && IsPart(d) && (a != "" ==> !IsJsSpace(a[0]))
    ensures var text := Join([a, b, c, d], ".");
            ':' !in text && '/' !in text && text != "" && !IsJsSpace(text[0])
  {
    JoinFew(a, b, c, d);
  }

  lemma {:induction false} PartsOfText(parts: seq<string>)
    requires AreParts(parts)
    ensures AreLabels(parts) && Split(Join(parts, "."), '.') == parts
    ensures var text := Join(parts, ".");
            ':' !in text && '/' !in text && text != "" && !IsJsSpace(text[0])
  {
    forall l | l in parts ensures '.' !in l {
      var i :| 0 <= i < 4 && parts[i] == l;
    }
    SplitJoin(parts, '.');
    assert parts == [parts[0], parts[1], parts[2], parts[3]];
    DottedText(parts[0], parts[1], parts[2], parts[3]);
  }

  lemma {:induction false} OctetIsPart(d: string)
    requires IsDecimal(d)
    ensures IsPart(d) && !IsJsSpace(d[0])
  {
    assert d[0] in d;
  }

  lemma {:induction false} OctetsAreParts(octets: seq<string>)
    requires AreOctets(octets)
    ensures AreParts(octets) && Reverse(octets) == [octets[3], octets[2], octets[1], octets[0]]
  {
    forall i | 0 <= i < 4 ensures IsPart(octets[i]) {
      OctetIsPart(octets[i]);
    }
    OctetIsPart(octets[0]);
    assert octets == [octets[0], octets[1], octets[2], octets[3]];
    ReverseFew(octets[0], octets[1], octets[2], octets[3]);
  }

  /** The PTR name of a dotted address is its octets reversed. */
  lemma {:induction false} PtrOfOctets(octets: seq<string>)
    requires AreOctets(octets)
    ensures AreLabels(octets)
    ensures BuildPtrName(Join(octets, ".")) == Some(ReversedName(octets, IN_ADDR_ARPA))
  {
    OctetsAreParts(octets);
    PartsOfText(octets);
  }

  /** The PTR name of a dotted address reads back as the address. */
  lemma {:induction false} Ipv4NameRoundTrip(octets: seq<string>)
    requires AreOctets(octets)
    ensures BuildPtrName(Join(octets, ".")).Some?
    ensures ReadInAddrName(BuildPtrName(Join(octets, ".")).value) == Some(Ipv4Number(octets))
  {
    PtrOfOctets(octets);
    OctetsAreParts(octets);
    SplitReversedName(octets, IN_ADDR_ARPA);
    FourOctets(octets);
  }

  lemma {:induction false} FourOctets(octets: seq<string>)
    requires AreOctets(octets)
    ensures Ipv4Number(octets)
         == DecimalValue(octets[3]) + 256 * (DecimalValue(octets[2])
            + 256 * (DecimalValue(octets[1]) + 256 * DecimalValue(octets[0])))
    ensures Ipv4Number(octets) == 256 * Leading(octets, 3) + DecimalValue(octets[3])
  {
    assert Leading(octets, 1) == DecimalValue(octets[0]);
    assert Leading(octets, 2) == 256 * Leading(octets, 1) + DecimalValue(octets[1]);
    assert Leading(octets, 3) == 256 * Leading(octets, 2) + DecimalValue(octets[2]);
  }

  // ---- The zone of a network ----

  /** How many octets name the zone of a prefix. */
  function OctetCount(prefix: int): (k: nat)
    ensures 1 <= k <= 3
  {
    if prefix <= 8 then 1 else if prefix <= 16 then 2 else 3
  }

  /** `octets` is what the parts of the network's text print as, once read as numbers. */
  ghost predicate Prints(parts: seq<string>, octets: seq<string>, number: string -> Option<string>) {
    AreParts(parts) && |octets| == 4 && forall i | 0 <= i < 4 :: number(parts[i]) == Some(octets[i])
  }

  lemma {:induction false} ZoneOfParts(octets: seq<string>, k: nat)
    requires |octets| == 4 && 1 <= k <= 3
    ensures ReversedName(octets[..k], IN_ADDR_ARPA)
         == if k == 1 then octets[0] + IN_ADDR_ARPA
            else if k == 2 then octets[1] + "." + octets[0] + IN_ADDR_ARPA
            else octets[2] + "." + octets[1] + "." + octets[0] + IN_ADDR_ARPA
  {
    ReverseFew(octets[0], octets[1], octets[2], octets[3]);
    JoinFew(octets[3], octets[2], octets[1], octets[0]);
    assert octets[..1] == [octets[0]] && octets[..2] == [octets[0], octets[1]];
    assert octets[..3] == [octets[0], octets[1], octets[2]];
    assert Join([octets[0]], ".") == octets[0];
  }

  /** Any four parts that read as numbers yield the zone of the first one up to /8, of two up to /16, else of three. */
  lemma {:induction false} ZoneOfIpv4Network(parts: seq<string>, octets: seq<string>, d: string,
                                             number: string -> Option<string>)
    requires Prints(parts, octets, number) && IsDecimal(d)
    ensures CidrToReverseZoneName(Join(parts, ".") + "/" + d, number)
         == Some(ReversedName(octets[..OctetCount(DecimalValue(d))], IN_ADDR_ARPA))
  {
    PartsOfText(parts);
    SplitCidr(Join(parts, "."), d);
    ParseDecimal(d);
    ZoneOfParts(octets, OctetCount(DecimalValue(d)));
  }

  // ---- The suffix test ----

  lemma {:induction false} MatchAt(o: seq<string>, n: seq<string>)
    requires n != [] && |n| <= |o|
    ensures LabelsMatch(o, n) <==> o[..|n| - 1] == n[..|n| - 1] && EndsWith(o[|n| - 1], n[|n| - 1])
  {
    if |n| > 1 {
      MatchAt(o[1..], n[1..]);
      assert o[..|n| - 1] == [o[0]] + o[1..][..|n| - 2] && n[..|n| - 1] == [n[0]] + n[1..][..|n| - 2];
    }
  }

  lemma {:induction false} NameInLeadingOctets(a: seq<string>, n: seq<string>, k: nat)
    requires AreOctets(a) && AreOctets(n) && 1 <= k <= 3
    ensures EndsWith(ReversedName(a, IN_ADDR_ARPA), ReversedName(n[..k], IN_ADDR_ARPA))
       <==> a[..k - 1] == n[..k - 1] && EndsWith(a[k - 1], n[k - 1])
  {
    LeadingLabels(a, 4);
    LeadingLabels(n, k);
    assert a[..4] == a;
    NamesMatch(a, n[..k], IN_ADDR_ARPA);
    MatchLeading(a, n, k);
  }

  lemma {:induction false} LeadingLabels(octets: seq<string>, k: nat)
    requires AreOctets(octets) && 1 <= k <= 4
    ensures AreLabels(octets[..k])
  {
    forall l | l in octets[..k] ensures '.' !in l {
      var i :| 0 <= i < k && octets[i] == l;
      OctetIsPart(octets[i]);
    }
  }

  lemma {:induction false} MatchLeading(a: seq<string>, n: seq<string>, k: nat)
    requires 1 <= k <= |a| && k <= |n|
    ensures LabelsMatch(a, n[..k]) <==> a[..k - 1] == n[..k - 1] && EndsWith(a[k - 1], n[k - 1])
  {
    MatchAt(a, n[..k]);
    assert n[..k][..k - 1] == n[..k - 1];
  }

  /**
   * For IPv4 the suffix test is exact on all octets of the zone but the last, where it only compares endings:
   * a name matches exactly when the other octets are equal and its octet ends with the digits of the zone's.
   */
  lemma {:induction false} Ipv4SuffixMatch(a: seq<string>, parts: seq<string>, n: seq<string>, d: string,
                                           number: string -> Option<string>)
    requires AreOctets(a) && AreOctets(n) && Prints(parts, n, number) && IsDecimal(d)
    ensures var k := OctetCount(DecimalValue(d));
            var zone := CidrToReverseZoneName(Join(parts, ".") + "/" + d, number);
            && BuildPtrName(Join(a, ".")).Some? && zone.Some?
            && (EndsWith(BuildPtrName(Join(a, ".")).value, zone.value)
                <==> a[..k - 1] == n[..k - 1] && EndsWith(a[k - 1], n[k - 1]))
  {
    PtrOfOctets(a);
    ZoneOfIpv4Network(parts, n, d, number);
    NameInLeadingOctets(a, n, OctetCount(DecimalValue(d)));
  }

  /** So 192.168.11.5 is taken to lie in the zone of 192.168.1.0/24. */
  lemma {:induction false} Ipv4MatchesANeighbour(a: seq<string>, n: seq<string>, d: string,
                                                 number: string -> Option<string>)
    requires a == ["192", "168", "11", "5"] && n == ["192", "168", "1", "0"] && d == "24"
    requires forall i | 0 <= i < 4 :: number(n[i]) == Some(n[i])
    ensures var zone := CidrToReverseZoneName(Join(n, ".") + "/" + d, number);
            var name := BuildPtrName(Join(a, "."));
            name.Some? && zone.Some? && EndsWith(name.value, zone.value)
  {
    SmallNumbers();
    SameEnding(a, n);
    OctetsAreParts(n);
    Ipv4SuffixMatch(a, n, n, d, number);
  }

  lemma {:induction false} SameEnding(a: seq<string>, n: seq<string>)
    requires a == ["192", "168", "11", "5"] && n == ["192", "168", "1", "0"]
    ensures a[..2] == n[..2] && EndsWith(a[2], n[2])
  {
    assert a[..2] == ["192", "168"] && n[..2] == ["192", "168"];
    assert "11"[1..] == "1";
  }

  lemma {:induction false} SmallNumbers()
    ensures IsDecimal("192") && IsDecimal("168") && IsDecimal("11") && IsDecimal("5") && IsDecimal("1")
    ensures IsDecimal("0") && IsDecimal("24")
    ensures DecimalValue("192") == 192 && DecimalValue("168") == 168 && DecimalValue("11") == 11
    ensures DecimalValue("5") == 5 && DecimalValue("1") == 1 && DecimalValue("0") == 0 && DecimalValue("24") == 24
  {
    assert "192"[..2] == "19" && "19"[..1] == "1" && "168"[..2] == "16" && "16"[..1] == "1";
    assert "11"[..1] == "1" && "24"[..1] == "2";
    assert DecimalValue("1") == 1 && DecimalValue("2") == 2;
    assert DecimalValue("19") == 19 && DecimalValue("16") == 16;
  }
}
