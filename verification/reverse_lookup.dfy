/** What finding a reverse zone and reading a reverse name back give for IPv6. */
module ReverseLookup {
  import opened Options
  import opened Strings
  import opened Powers
  import opened ReverseDns
  import opened Ipv6Text
  import opened ReverseZones

  // ---- Longest-prefix match ----

  /**
   * The PTR name built from one text ends with the zone name built from another and a prefix exactly when the two
   * numbers agree on the prefix, rounded up to a nibble, and the texts on the case of its letters.
   */
  lemma {:induction false} SuffixIsPrefixMatch(a: Address, n: Address, d: string, number: string -> Option<string>)
    requires a.Valid() && n.Valid() && IsDecimal(d) && 1 <= DecimalValue(d) <= 128
    ensures var name, zone := BuildPtrName(a.Text()), CidrToReverseZoneName(n.Text() + "/" + d, number);
            name.Some? && zone.Some? && (EndsWith(name.value, zone.value) <==> Matches(a, n, d))
  {
    PtrOfText(a);
    ZoneOfNetwork(n, d, number);
    PtrInZone(a, n, d);
  }

  /**
   * Among zones made from IPv6 networks, and any zones outside `ip6.arpa.`, the best zone of an address is that of
   * the longest prefix covering it, and there is none exactly when no network covers it.
   */
  lemma {:induction false} LongestPrefixMatch(a: Address, zones: seq<Zone>, origins: seq<Origin>, best: Option<Zone>)
    requires a.Valid() && AllComeFrom(zones, origins)
    requires BuildPtrName(a.Text()).Some? && IsBest(BuildPtrName(a.Text()).value, zones, best)
    ensures |origins| == |zones|
    ensures best.None? <==> forall i | 0 <= i < |zones| :: !Covers(origins[i], a)
    ensures best.Some? ==>
              exists i | 0 <= i < |zones| ::
                && zones[i] == best.value && Covers(origins[i], a)
                && forall j | 0 <= j < |zones| && Covers(origins[j], a) ::
                     Rounded(origins[j].prefix) <= Rounded(origins[i].prefix)
  {
    PtrOfText(a);
    AsManyOrigins(zones, origins);
    forall i | 0 <= i < |zones|
      ensures zones[i] in zones
      ensures Serves(zones[i], PtrName(a)) <==> Covers(origins[i], a)
      ensures Covers(origins[i], a) ==> 2 * |zones[i].name| == Rounded(origins[i].prefix) - 2 + 2 * |IP6_ARPA|
    {
      EachComesFrom(zones, origins, i);
      ServesIsCovers(a, zones[i], origins[i]);
      if Covers(origins[i], a) {
        NameLength(zones[i], origins[i]);
      }
    }
    if best.Some? {
      var i :| 0 <= i < |zones| && zones[i] == best.value;
      assert Covers(origins[i], a);
    }
  }

  // ---- Prefixes inside a nibble ----

  /** The other hexadecimal digit that differs in the lowest bit only. */
  function Flip(c: char): (f: char)
    requires IsHex(c)
    ensures IsHex(f) && HexValue(f) / 2 == HexValue(c) / 2 && f != c
  {
    if HexValue(c) % 2 == 0 then (c as int + 1) as char else (c as int - 1) as char
  }

  /** The address written as eight groups of four given nibbles. */
  function OfNibbles(x: string): (a: Address)
    requires |x| == 32 && AllHex(x)
    ensures a.Valid()
  {
    Full(seq(8, i requires 0 <= i < 8 => x[4 * i..4 * i + 4]))
  }

  lemma {:induction false} ConcatChunks(gs: seq<string>, x: string, k: nat)
    requires k <= |gs| && 4 * |gs| == |x| && forall i | 0 <= i < |gs| :: gs[i] == x[4 * i..4 * i + 4]
    ensures Concat(gs[..k]) == x[..4 * k]
  {
    if k > 0 {
      ConcatChunks(gs, x, k - 1);
      assert gs[..k][..k - 1] == gs[..k - 1];
      assert x[..4 * k] == x[..4 * (k - 1)] + x[4 * (k - 1)..4 * k];
    }
  }

  lemma {:induction false} NibblesOfNibbles(x: string)
    requires |x| == 32 && AllHex(x)
    ensures Nibbles(OfNibbles(x)) == x
  {
    var gs := OfNibbles(x).groups;
    PadTwice(gs);
    ConcatChunks(gs, x, 8);
    assert gs[..8] == gs && x[..32] == x;
  }

  /** Cutting below a nibble boundary looks at the nibble without its low bits. */
  lemma {:induction false} LeadingBits(x: string, k: nat, r: nat)
    requires |x| == 32 && AllHex(x) && k < 32 && 1 <= r <= 3
    ensures HexNumber(x) / Pow(2, 128 - (4 * k + r)) == HexNumber(x[..k + 1]) / Pow(2, 4 - r)
  {
    LeadingNibbles(x, k + 1);
    PowAdd(2, 128 - 4 * (k + 1), 4 - r);
    DivideTwice(HexNumber(x), Pow(2, 128 - 4 * (k + 1)), Pow(2, 4 - r));
  }

  lemma {:induction false} LowBitLost(high: nat, v: nat, w: nat, r: nat)
    requires 1 <= r <= 3 && v / 2 == w / 2
    ensures (16 * high + v) / Pow(2, 4 - r) == (16 * high + w) / Pow(2, 4 - r)
  {
    assert (16 * high + v) / 2 == (16 * high + w) / 2;
    DivideTwice(16 * high + v, 2, Pow(2, 3 - r));
    DivideTwice(16 * high + w, 2, Pow(2, 3 - r));
  }

  /** The number of an address whose nibble `k` is flipped agrees on the bits above the lowest of that nibble. */
  lemma {:induction false} FlippedStaysInNetwork(x: string, k: nat, r: nat)
    requires |x| == 32 && AllHex(x) && k < 32 && 1 <= r <= 3
    ensures AllHex(x[k := Flip(x[k])])
    ensures InNetwork(HexNumber(x[k := Flip(x[k])]), HexNumber(x), 4 * k + r)
  {
    var y := x[k := Flip(x[k])];
    LeadingBits(x, k, r);
    LeadingBits(y, k, r);
    assert x[..k + 1][..k] == x[..k] && y[..k + 1][..k] == x[..k];
    LowBitLost(HexNumber(x[..k]), HexValue(x[k]), HexValue(y[k]), r);
  }

  /** The address of a network with the nibble flipped that the prefix cuts through. */
  function Neighbour(n: Address, k: nat): (a: Address)
    requires n.Valid() && k < 32
    ensures a.Valid()
  {
    NibblesOfText(n);
    var x := Nibbles(n);
    OfNibbles(x[k := Flip(x[k])])
  }

  /** A flipped nibble changes the number made of the nibbles up to it. */
  lemma {:induction false} FlippedLeavesPrefix(x: string, k: nat)
    requires |x| == 32 && AllHex(x) && k < 32
    ensures AllHex(x[k := Flip(x[k])])
    ensures !InNetwork(HexNumber(x[k := Flip(x[k])]), HexNumber(x), 4 * (k + 1))
  {
    var y := x[k := Flip(x[k])];
    LeadingNibbles(x, k + 1);
    LeadingNibbles(y, k + 1);
    assert x[..k + 1][..k] == x[..k] && y[..k + 1][..k] == x[..k];
  }

  lemma {:induction false} NeighbourInNetwork(n: Address, k: nat, r: nat)
    requires n.Valid() && k < 32 && 1 <= r <= 3
    ensures var a := Neighbour(n, k);
            InNetwork(a.Number(), n.Number(), 4 * k + r) && !InNetwork(a.Number(), n.Number(), 4 * (k + 1))
  {
    NibblesOfText(n);
    var x := Nibbles(n);
    FlippedStaysInNetwork(x, k, r);
    FlippedLeavesPrefix(x, k);
    NibblesOfNibbles(x[k := Flip(x[k])]);
    NibblesOfText(Neighbour(n, k));
  }

  /** An address of the network whose PTR name lies outside the zone. */
  ghost predicate IsLeftOut(a: Address, n: Address, d: string, zone: string)
    requires n.Valid() && IsDecimal(d) && 1 <= DecimalValue(d) <= 128
  {
    && a.Valid() && InNetwork(a.Number(), n.Number(), DecimalValue(d))
    && BuildPtrName(a.Text()).Some? && !EndsWith(BuildPtrName(a.Text()).value, zone)
  }

  lemma {:induction false} OutsideIsLeftOut(a: Address, n: Address, d: string)
    requires a.Valid() && n.Valid() && IsDecimal(d) && 1 <= DecimalValue(d) <= 128
    requires InNetwork(a.Number(), n.Number(), DecimalValue(d)) && !InNetwork(a.Number(), n.Number(), Rounded(d))
    ensures IsLeftOut(a, n, d, ZoneName(n, d))
  {
    PtrOfText(a);
    PtrInZone(a, n, d);
  }

  /** The nibble that a prefix cuts through, and how many of its bits belong to the prefix. */
  lemma {:induction false} CutNibble(d: string, k: nat, r: nat)
    requires IsDecimal(d) && 1 <= DecimalValue(d) <= 128
    requires k == DecimalValue(d) / 4 && r == DecimalValue(d) % 4 && r != 0
    ensures k < 32 && 1 <= r <= 3 && DecimalValue(d) == 4 * k + r && Rounded(d) == 4 * (k + 1)
  {
  }

  /**
   * The documentation promises several zones for a network that is not aligned on a nibble. The code names one,
   * which leaves out addresses of the network.
   */
  lemma {:induction false} UnalignedZoneIsNarrower(n: Address, d: string,
                                                   number: string -> Option<string>, zone: string)
    requires n.Valid() && IsDecimal(d) && 1 <= DecimalValue(d) <= 128
    requires CidrToReverseZoneName(n.Text() + "/" + d, number) == Some(zone)
    requires DecimalValue(d) % 4 != 0
    ensures exists a: Address :: IsLeftOut(a, n, d, zone)
  {
    var k, r := DecimalValue(d) / 4, DecimalValue(d) % 4;
    CutNibble(d, k, r);
    NeighbourInNetwork(n, k, r);
    OutsideIsLeftOut(Neighbour(n, k), n, d);
    ZoneOfNetwork(n, d, number);
  }

  // ---- Reading names back ----

  lemma {:induction false} ReverseSnoc<T>(s: seq<T>, x: T)
    ensures Reverse(s + [x]) == [x] + Reverse(s)
  {
    if s != [] {
      assert (s + [x])[1..] == s[1..] + [x];
      ReverseSnoc(s[1..], x);
    }
  }

  lemma {:induction false} ReverseMembers<T>(s: seq<T>, x: T)
    ensures x in Reverse(s) <==> x in s
  {
    if s != [] {
      ReverseMembers(s[1..], x);
      assert s == [s[0]] + s[1..];
    }
  }

  lemma {:induction false} SplitReversedName(labels: seq<string>, suffix: string)
    requires AreLabels(labels)
    ensures var name := ReversedName(labels, suffix);
            EndsWith(name, suffix) && Split(name[..|name| - |suffix|], '.') == Reverse(labels)
  {
    var name := ReversedName(labels, suffix);
    EndsWithSuffix(Join(Reverse(labels), "."), suffix);
    assert name[..|name| - |suffix|] == Join(Reverse(labels), ".");
    ReverseLength(labels);
    forall l | l in Reverse(labels) ensures '.' !in l {
      ReverseMembers(labels, l);
    }
    SplitJoin(Reverse(labels), '.');
  }

  predicate AreNibbleLabels(labels: seq<string>) {
    forall i | 0 <= i < |labels| :: |labels[i]| == 1 && IsHex(labels[i][0])
  }

  /** Nibbles with the low-order one first. */
  function LowNibblesFirst(labels: seq<string>): nat
    requires AreNibbleLabels(labels)
  {
    if labels == [] then 0 else HexValue(labels[0][0]) + 16 * LowNibblesFirst(labels[1..])
  }

  /** The address an `ip6.arpa.` name stands for (section 2.5 of RFC 3596). */
  function ReadIp6Name(name: string): Option<nat> {
    if !EndsWith(name, IP6_ARPA) then None
    else
      var labels := Split(name[..|name| - |IP6_ARPA|], '.');
      if |labels| == 32 && AreNibbleLabels(labels) then Some(LowNibblesFirst(labels)) else None
  }

  lemma {:induction false} ReversedChars(x: string)
    requires AllHex(x)
    ensures |Reverse(Chars(x))| == |x| && AreNibbleLabels(Reverse(Chars(x)))
    ensures LowNibblesFirst(Reverse(Chars(x))) == HexNumber(x)
  {
    if x != "" {
      var n := |x| - 1;
      ReversedChars(x[..n]);
      assert Chars(x) == Chars(x[..n]) + [[x[n]]];
      ReverseSnoc(Chars(x[..n]), [x[n]]);
      assert Reverse(Chars(x))[1..] == Reverse(Chars(x[..n]));
    }
  }

  /** The PTR name built from either text form reads back as the address. */
  lemma {:induction false} Ipv6NameRoundTrip(a: Address)
    requires a.Valid()
    ensures BuildPtrName(a.Text()).Some? && ReadIp6Name(BuildPtrName(a.Text()).value) == Some(a.Number())
  {
    PtrOfText(a);
    NibblesOfText(a);
    CharsAreLabels(Nibbles(a));
    SplitReversedName(Chars(Nibbles(a)), IP6_ARPA);
    ReversedChars(Nibbles(a));
  }
}
