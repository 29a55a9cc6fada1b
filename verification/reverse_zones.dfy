/** Matching names by suffix is longest-prefix matching on 128-bit addresses. */
module ReverseZones {
  import opened Options
  import opened Strings
  import opened Powers
  import opened ReverseDns
  import opened Ipv6Text

  // ---- Suffixes of dotted names ----

  lemma {:induction false} EndsSame(x: string, y: string, t: string)
    ensures EndsWith(x + t, y + t) <==> EndsWith(x, y)
  {
    if |y| <= |x| {
      var tail := x[|x| - |y|..];
      assert (x + t)[|x + t| - |y + t|..] == tail + t;
      assert tail + t == y + t <==> tail == y by {
        assert (tail + t)[..|y|] == tail && (y + t)[..|y|] == y;
      }
    }
  }

  /** A suffix agrees with the text counted from the end. */
  lemma {:induction false} EndsAt(s: string, suffix: string, i: nat)
    requires EndsWith(s, suffix) && i < |suffix|
    ensures s[|s| - 1 - i] == suffix[|suffix| - 1 - i]
  {
    assert s[|s| - |suffix|..][|suffix| - 1 - i] == s[|s| - 1 - i];
  }

  lemma {:induction false} EndsInLabel(p: string, a: string, b: string)
    requires '.' !in b
    ensures EndsWith(p + "." + a, b) <==> EndsWith(a, b)
  {
    var s := p + "." + a;
    if |b| <= |a| {
      assert s[|s| - |b|..] == a[|a| - |b|..];
    } else if EndsWith(s, b) {
      EndsAt(s, b, |a|);
    }
  }

  lemma {:induction false} EndsAtDot(p: string, a: string, q: string, b: string)
    requires '.' !in a && '.' !in b
    ensures EndsWith(p + "." + a, q + "." + b) <==> a == b && EndsWith(p, q)
  {
    var s, t := p + "." + a, q + "." + b;
    if EndsWith(s, t) {
      EndsAt(s, t, |b|);
      if |a| < |b| {
        EndsAt(s, t, |a|);
      } else if |a| == |b| {
        assert s[|s| - |a|..] == s[|s| - |t|..][|t| - |a|..];
        assert s[|s| - |a|..] == a && t[|t| - |b|..] == b;
      }
    }
    if a == b {
      EndsSame(p, q, "." + a);
      assert s == p + ("." + a) && t == q + ("." + b);
    }
  }

  ghost predicate AreLabels(labels: seq<string>) {
    labels != [] && forall l | l in labels :: '.' !in l
  }

  lemma {:induction false} ReverseLength<T>(s: seq<T>)
    ensures |Reverse(s)| == |s|
  {
    if s != [] {
      ReverseLength(s[1..]);
    }
  }

  lemma {:induction false} JoinReverse(labels: seq<string>)
    requires |labels| > 1
    ensures Join(Reverse(labels), ".") == Join(Reverse(labels[1..]), ".") + "." + labels[0]
  {
    ReverseLength(labels[1..]);
    JoinConcat(Reverse(labels[1..]), [labels[0]], ".");
  }

  /** The labels `n`, most significant first, are those `o` begins with, the last one only as an ending. */
  predicate LabelsMatch(o: seq<string>, n: seq<string>) {
    n != [] && |n| <= |o|
    && if |n| == 1 then EndsWith(o[0], n[0]) else o[0] == n[0] && LabelsMatch(o[1..], n[1..])
  }

  lemma {:induction false} SuffixMatch(o: seq<string>, n: seq<string>)
    requires AreLabels(o) && AreLabels(n) && |n| <= |o|
    ensures EndsWith(Join(Reverse(o), "."), Join(Reverse(n), ".")) <==> LabelsMatch(o, n)
  {
    assert Reverse([o[0]]) == [o[0]] && Reverse([n[0]]) == [n[0]];
    if |o| == 1 {
      assert o == [o[0]] && n == [n[0]];
    } else {
      JoinReverse(o);
      if |n| == 1 {
        assert n == [n[0]];
        EndsInLabel(Join(Reverse(o[1..]), "."), o[0], n[0]);
      } else {
        JoinReverse(n);
        SuffixMatch(o[1..], n[1..]);
        EndsAtDot(Join(Reverse(o[1..]), "."), o[0], Join(Reverse(n[1..]), "."), n[0]);
      }
    }
  }

  /** A name ends with another one under the same suffix exactly when the labels match. */
  lemma {:induction false} NamesMatch(o: seq<string>, n: seq<string>, suffix: string)
    requires AreLabels(o) && AreLabels(n) && |n| <= |o|
    ensures EndsWith(ReversedName(o, suffix), ReversedName(n, suffix)) <==> LabelsMatch(o, n)
  {
    SuffixMatch(o, n);
    EndsSame(Join(Reverse(o), "."), Join(Reverse(n), "."), suffix);
  }

  lemma {:induction false} CharsMatch(o: string, n: string)
    requires 1 <= |n| <= |o|
    ensures LabelsMatch(Chars(o), Chars(n)) <==> o[..|n|] == n
  {
    assert Chars(o)[0] == [o[0]] && Chars(n)[0] == [n[0]];
    if |n| == 1 {
      assert EndsWith([o[0]], [n[0]]) <==> o[0] == n[0];
      assert o[..1] == [o[0]] && n == [n[0]];
    } else {
      assert Chars(o)[1..] == Chars(o[1..]) && Chars(n)[1..] == Chars(n[1..]);
      CharsMatch(o[1..], n[1..]);
      assert o[..|n|] == [o[0]] + o[1..][..|n| - 1] && n == [n[0]] + n[1..];
    }
  }

  lemma {:induction false} CharsAreLabels(s: string)
    requires s != "" && AllHex(s)
    ensures AreLabels(Chars(s))
  {
    forall l | l in Chars(s) ensures '.' !in l {
      var i :| 0 <= i < |s| && Chars(s)[i] == l;
    }
  }

  // ---- Addresses in networks ----

  /** The two numbers agree on their `prefix` leading bits. */
  predicate InNetwork(address: nat, network: nat, prefix: nat)
    requires prefix <= 128
  {
    address / Pow(2, 128 - prefix) == network / Pow(2, 128 - prefix)
  }

  /** A capital and a small letter. */
  predicate CasesDiffer(c: char, d: char) {
    ('A' <= c <= 'F' && 'a' <= d <= 'f') || ('a' <= c <= 'f' && 'A' <= d <= 'F')
  }

  /** No place holds a capital letter in one text and a small one in the other. */
  predicate SameCase(s: string, t: string)
    requires |s| == |t|
  {
    forall i | 0 <= i < |s| :: !CasesDiffer(s[i], t[i])
  }

  lemma {:induction false} HexDigitInjective(c: char, d: char)
    requires IsHex(c) && IsHex(d)
    ensures c == d <==> HexValue(c) == HexValue(d) && !CasesDiffer(c, d)
  {
  }

  lemma {:induction false} DigitsInjective(p: nat, u: nat, q: nat, v: nat)
    requires u < 16 && v < 16
    ensures 16 * p + u == 16 * q + v <==> p == q && u == v
  {
  }

  lemma {:induction false} SameCaseLast(s: string, t: string)
    requires |s| == |t| > 0
    ensures SameCase(s, t) <==>
              SameCase(s[..|s| - 1], t[..|s| - 1]) && !CasesDiffer(s[|s| - 1], t[|s| - 1])
  {
    var n := |s| - 1;
    assert forall i | 0 <= i < n :: s[..n][i] == s[i] && t[..n][i] == t[i];
  }

  /** Hexadecimal digits are the same text exactly when they spell the same number in the same case. */
  lemma {:induction false} HexInjective(s: string, t: string)
    requires |s| == |t| && AllHex(s) && AllHex(t)
    ensures s == t <==> HexNumber(s) == HexNumber(t) && SameCase(s, t)
  {
    if s != "" {
      var n := |s| - 1;
      HexInjective(s[..n], t[..n]);
      HexDigitInjective(s[n], t[n]);
      DigitsInjective(HexNumber(s[..n]), HexValue(s[n]), HexNumber(t[..n]), HexValue(t[n]));
      SameCaseLast(s, t);
      LastDiffers(s, t);
    }
  }

  lemma {:induction false} LastDiffers(s: string, t: string)
    requires |s| == |t| > 0
    ensures s == t <==> s[..|s| - 1] == t[..|t| - 1] && s[|s| - 1] == t[|t| - 1]
  {
    assert s == s[..|s| - 1] + [s[|s| - 1]] && t == t[..|t| - 1] + [t[|t| - 1]];
  }

  /** The leading nibbles of an address are its leading bits. */
  lemma {:induction false} LeadingNibbles(x: string, k: nat)
    requires |x| == 32 && AllHex(x) && k <= 32
    ensures HexNumber(x) / Pow(2, 128 - 4 * k) == HexNumber(x[..k])
  {
    assert x == x[..k] + x[k..];
    HexConcat(x[..k], x[k..]);
    SixteenIsTwoToTheFourth(32 - k);
    assert 4 * (32 - k) == 128 - 4 * k;
    DivideOff(HexNumber(x[..k]), HexNumber(x[k..]), Pow(16, 32 - k));
  }

  lemma {:induction false} SameLeading(x: string, y: string, k: nat)
    requires |x| == 32 && AllHex(x) && |y| == 32 && AllHex(y) && k <= 32
    ensures x[..k] == y[..k] <==> InNetwork(HexNumber(x), HexNumber(y), 4 * k) && SameCase(x[..k], y[..k])
  {
    LeadingNibbles(x, k);
    LeadingNibbles(y, k);
    HexInjective(x[..k], y[..k]);
  }

  /** The first `k` nibbles of the two texts are written with letters of the same case. */
  ghost predicate SpelledAlike(a: Address, n: Address, k: nat)
    requires a.Valid() && n.Valid() && k <= 32
  {
    NibblesOfText(a);
    NibblesOfText(n);
    SameCase(Nibbles(a)[..k], Nibbles(n)[..k])
  }

  lemma {:induction false} SameLeadingNibbles(a: Address, n: Address, k: nat)
    requires a.Valid() && n.Valid() && k <= 32
    ensures |Nibbles(a)| == 32 && |Nibbles(n)| == 32
    ensures Nibbles(a)[..k] == Nibbles(n)[..k] <==> InNetwork(a.Number(), n.Number(), 4 * k) && SpelledAlike(a, n, k)
  {
    NibblesOfText(a);
    NibblesOfText(n);
    SameLeading(Nibbles(a), Nibbles(n), k);
  }

  // ---- The zone of a network ----

  predicate IsDecimal(d: string) {
    d != "" && forall c | c in d :: IsDigit(c)
  }

  lemma {:induction false} ParseDecimal(d: string)
    requires IsDecimal(d)
    ensures ParseInt(d) == Some(DecimalValue(d))
  {
    assert d[0] in d;
    AllLeadingDigits(d);
  }

  lemma {:induction false} AllLeadingDigits(d: string)
    requires forall c | c in d :: IsDigit(c)
    ensures LeadingDigits(d) == d
  {
    if d != "" {
      assert d[0] in d;
      AllLeadingDigits(d[1..]);
      assert d == [d[0]] + d[1..];
    }
  }

  predicate IsAddressText(s: string) {
    forall i | 0 <= i < |s| :: IsHex(s[i]) || s[i] == ':'
  }

  lemma {:induction false} JoinIsAddressText(gs: seq<string>)
    requires AreGroups(gs)
    ensures IsAddressText(Join(gs, ":"))
    ensures |gs| > 1 ==> ':' in Join(gs, ":")
  {
    if |gs| > 1 {
      JoinIsAddressText(gs[1..]);
      assert Join(gs, ":")[|gs[0]|] == ':';
    }
  }

  lemma {:induction false} TextHasColon(a: Address)
    requires a.Valid()
    ensures IsAddressText(a.Text()) && ':' in a.Text() && '/' !in a.Text()
  {
    match a
    case Full(groups) =>
      JoinIsAddressText(groups);
    case Compressed(left, right) =>
      JoinIsAddressText(left);
      JoinIsAddressText(right);
      assert a.Text()[|Join(left, ":")|] == ':';
  }

  lemma {:induction false} NothingToTrim(s: string)
    requires s != "" && !IsJsSpace(s[0]) && !IsJsSpace(s[|s| - 1])
    ensures Trim(s) == s
  {
  }

  lemma {:induction false} SplitCidr(text: string, d: string)
    requires text != "" && !IsJsSpace(text[0]) && '/' !in text && IsDecimal(d)
    ensures var cidr := text + "/" + d; '/' in cidr && Split(Trim(cidr), '/') == [text, d]
  {
    var cidr := text + "/" + d;
    assert cidr[|text|] == '/' && cidr[0] == text[0];
    assert d[|d| - 1] in d && cidr[|cidr| - 1] == d[|d| - 1];
    NothingToTrim(cidr);
    SplitConcat(text, '/', d);
    SplitWithoutSeparator(text, '/');
    SplitWithoutSeparator(d, '/');
  }

  lemma {:induction false} LeadingNibblesName(ip: string, nibbles: string, prefix: int)
    requires ExpandIPv6(ip).Some? && RemoveColons(ExpandIPv6(ip).value) == nibbles
    requires |nibbles| == 32 && 1 <= prefix <= 128
    ensures Ipv6CidrToReverseZone(ip, prefix) == Some(ReversedName(Chars(nibbles[..NibbleCount(prefix)]), IP6_ARPA))
  {
  }

  lemma {:induction false} ZoneOfAddress(n: Address, prefix: int)
    requires n.Valid() && 1 <= prefix <= 128
    ensures |Nibbles(n)| == 32
    ensures Ipv6CidrToReverseZone(n.Text(), prefix)
         == Some(ReversedName(Chars(Nibbles(n)[..NibbleCount(prefix)]), IP6_ARPA))
  {
    NibblesOfText(n);
    LeadingNibblesName(n.Text(), Nibbles(n), prefix);
  }

  /** A network yields the zone of its leading nibbles, the last one possibly cut by the prefix. */
  lemma {:induction false} ZoneOfNetwork(n: Address, d: string, number: string -> Option<string>)
    requires n.Valid() && IsDecimal(d) && 1 <= DecimalValue(d) <= 128
    ensures |Nibbles(n)| == 32
    ensures CidrToReverseZoneName(n.Text() + "/" + d, number)
         == Some(ReversedName(Chars(Nibbles(n)[..NibbleCount(DecimalValue(d))]), IP6_ARPA))
  {
    TextHasColon(n);
    SplitCidr(n.Text(), d);
    ParseDecimal(d);
    ZoneOfAddress(n, DecimalValue(d));
  }

  function ZoneName(n: Address, d: string): string
    requires n.Valid() && IsDecimal(d) && 1 <= DecimalValue(d) <= 128
  {
    NibblesOfText(n);
    ReversedName(Chars(Nibbles(n)[..NibbleCount(DecimalValue(d))]), IP6_ARPA)
  }

  function PtrName(a: Address): string
    requires a.Valid()
  {
    ReversedName(Chars(Nibbles(a)), IP6_ARPA)
  }

  lemma {:induction false} PtrOfText(a: Address)
    requires a.Valid()
    ensures BuildPtrName(a.Text()) == Some(PtrName(a))
  {
    TextHasColon(a);
    NibblesOfText(a);
  }

  /** The bits a zone pins: the prefix rounded up to whole nibbles. */
  function Rounded(d: string): (bits: nat)
    requires IsDecimal(d) && 1 <= DecimalValue(d) <= 128
    ensures DecimalValue(d) <= bits < DecimalValue(d) + 4 && bits <= 128
    ensures DecimalValue(d) % 4 == 0 ==> bits == DecimalValue(d)
  {
    4 * NibbleCount(DecimalValue(d))
  }

  /**
   * The PTR name of an address ends with the zone of a network exactly when the address lies in the network and is
   * spelled like it: the code compares characters.
   */
  lemma {:induction false} PtrInZone(a: Address, n: Address, d: string)
    requires a.Valid() && n.Valid() && IsDecimal(d) && 1 <= DecimalValue(d) <= 128
    ensures EndsWith(PtrName(a), ZoneName(n, d)) <==> Matches(a, n, d)
  {
    var k: nat := NibbleCount(DecimalValue(d));
    SameLeadingNibbles(a, n, k);
    NibblesOfText(a);
    NibblesOfText(n);
    CharsAreLabels(Nibbles(a));
    CharsAreLabels(Nibbles(n)[..k]);
    NamesMatch(Chars(Nibbles(a)), Chars(Nibbles(n)[..k]), IP6_ARPA);
    CharsMatch(Nibbles(a), Nibbles(n)[..k]);
  }

  /** The address lies in the network rounded up to a nibble, and is spelled like it as far as that goes. */
  ghost predicate Matches(a: Address, n: Address, d: string)
    requires a.Valid() && n.Valid() && IsDecimal(d) && 1 <= DecimalValue(d) <= 128
  {
    InNetwork(a.Number(), n.Number(), Rounded(d)) && SpelledAlike(a, n, NibbleCount(DecimalValue(d)))
  }

  // ---- Longest prefix ----

  /** A zone made from an IPv6 network, or any zone outside `ip6.arpa.` */
  datatype Origin = Network(network: Address, prefix: string) | Elsewhere

  ghost predicate ComesFrom(z: Zone, origin: Origin) {
    match origin
    case Network(n, d) =>
      && n.Valid() && IsDecimal(d) && 1 <= DecimalValue(d) <= 128
      && CidrToReverseZoneName(n.Text() + "/" + d, _ => None) == Some(z.name)
    case Elsewhere => !EndsWith(z.name, IP6_ARPA)
  }

  /** The zones of a list, each with its origin. */
  ghost predicate AllComeFrom(zones: seq<Zone>, origins: seq<Origin>) {
    if zones == [] then origins == []
    else
      var n := |zones| - 1;
      |origins| == n + 1 && ComesFrom(zones[n], origins[n]) && AllComeFrom(zones[..n], origins[..n])
  }

  lemma {:induction false} AsManyOrigins(zones: seq<Zone>, origins: seq<Origin>)
    requires AllComeFrom(zones, origins)
    ensures |origins| == |zones|
  {
  }

  lemma {:induction false} EachComesFrom(zones: seq<Zone>, origins: seq<Origin>, i: nat)
    requires AllComeFrom(zones, origins) && i < |zones|
    ensures |origins| == |zones| && ComesFrom(zones[i], origins[i])
  {
    if i < |zones| - 1 {
      EachComesFrom(zones[..|zones| - 1], origins[..|zones| - 1], i);
    }
  }

  ghost predicate Covers(origin: Origin, a: Address)
    requires a.Valid()
  {
    && origin.Network? && origin.network.Valid()
    && IsDecimal(origin.prefix) && 1 <= DecimalValue(origin.prefix) <= 128
    && Matches(a, origin.network, origin.prefix)
  }

  lemma {:induction false} EndsTransitive(s: string, t: string, u: string)
    requires EndsWith(s, t) && EndsWith(t, u)
    ensures EndsWith(s, u)
  {
    assert s[|s| - |u|..] == s[|s| - |t|..][|t| - |u|..];
  }

  lemma {:induction false} NotInAddrArpa(s: string)
    requires EndsWith(s, IP6_ARPA)
    ensures !EndsWith(s, IN_ADDR_ARPA)
  {
    EndsAt(s, IP6_ARPA, 6);
    if EndsWith(s, IN_ADDR_ARPA) {
      EndsAt(s, IN_ADDR_ARPA, 6);
    }
  }

  lemma {:induction false} EndsWithSuffix(x: string, suffix: string)
    ensures EndsWith(x + suffix, suffix)
  {
    assert (x + suffix)[|x|..] == suffix;
  }

  /** A zone of the list serves the address exactly when it comes from a network that covers it. */
  lemma {:induction false} ServesIsCovers(a: Address, z: Zone, origin: Origin)
    requires a.Valid() && ComesFrom(z, origin)
    ensures Serves(z, PtrName(a)) <==> Covers(origin, a)
  {
    EndsWithSuffix(Join(Reverse(Chars(Nibbles(a))), "."), IP6_ARPA);
    match origin
    case Network(n, d) =>
      ZoneOfNetwork(n, d, _ => None);
      PtrInZone(a, n, d);
      EndsWithSuffix(Join(Reverse(Chars(Nibbles(n)[..NibbleCount(DecimalValue(d))])), "."), IP6_ARPA);
    case Elsewhere =>
      if Serves(z, PtrName(a)) {
        NotInAddrArpa(PtrName(a));
        EndsTransitive(PtrName(a), z.name, IN_ADDR_ARPA);
      }
  }

  lemma {:induction false} CharsJoinLength(s: string)
    requires s != ""
    ensures |Join(Reverse(Chars(s)), ".")| == 2 * |s| - 1
  {
    if |s| == 1 {
      assert Reverse(Chars(s)[1..]) == [];
      assert Reverse(Chars(s)) == Chars(s);
    } else {
      assert Chars(s)[1..] == Chars(s[1..]);
      JoinReverse(Chars(s));
      CharsJoinLength(s[1..]);
    }
  }

  /** Longer names are longer prefixes. */
  lemma {:induction false} NameLength(z: Zone, origin: Origin)
    requires ComesFrom(z, origin) && origin.Network?
    ensures 2 * |z.name| == Rounded(origin.prefix) - 2 + 2 * |IP6_ARPA|
  {
    ZoneOfNetwork(origin.network, origin.prefix, _ => None);
    CharsJoinLength(Nibbles(origin.network)[..NibbleCount(DecimalValue(origin.prefix))]);
  }

  // ---- Addresses spelled in one case ----

  /** Hexadecimal text with letters of one case only. */
  predicate OneCase(s: string, upper: bool) {
    forall i | 0 <= i < |s| :: '0' <= s[i] <= '9' || if upper then 'A' <= s[i] <= 'F' else 'a' <= s[i] <= 'f'
  }

  predicate SpelledIn(a: Address, upper: bool)
    requires a.Valid()
  {
    forall i | 0 <= i < 8 :: OneCase(a.Groups()[i], upper)
  }

  lemma {:induction false} PadOneCase(g: string, upper: bool)
    requires OneCase(g, upper)
    ensures OneCase(PadStart(g), upper)
    decreases 4 - |g|
  {
    if |g| < 4 {
      PadOneCase("0" + g, upper);
    }
  }

  lemma {:induction false} ConcatOneCase(gs: seq<string>, upper: bool)
    requires forall i | 0 <= i < |gs| :: OneCase(gs[i], upper)
    ensures OneCase(Concat(gs), upper)
  {
    if gs != [] {
      ConcatOneCase(gs[..|gs| - 1], upper);
    }
  }

  lemma {:induction false} NibblesOneCase(a: Address, upper: bool)
    requires a.Valid() && SpelledIn(a, upper)
    ensures OneCase(Nibbles(a), upper)
  {
    forall i | 0 <= i < 8 ensures OneCase(PadAll(a.Groups())[i], upper) {
      PadOneCase(a.Groups()[i], upper);
    }
    ConcatOneCase(PadAll(a.Groups()), upper);
  }

  lemma {:induction false} OneCaseIsSame(s: string, t: string, k: nat, upper: bool)
    requires |s| == |t| && k <= |s| && OneCase(s, upper) && OneCase(t, upper)
    ensures SameCase(s[..k], t[..k])
  {
  }

  lemma {:induction false} OneCaseAlike(a: Address, n: Address, k: nat, upper: bool)
    requires a.Valid() && n.Valid() && SpelledIn(a, upper) && SpelledIn(n, upper) && k <= 32
    ensures SpelledAlike(a, n, k)
  {
    NibblesOfText(a);
    NibblesOfText(n);
    NibblesOneCase(a, upper);
    NibblesOneCase(n, upper);
    OneCaseIsSame(Nibbles(a), Nibbles(n), k, upper);
  }

  /** With hexadecimal letters of one case throughout the test is prefix matching. */
  lemma {:induction false} OneCaseMatches(a: Address, n: Address, d: string, upper: bool)
    requires a.Valid() && n.Valid() && SpelledIn(a, upper) && SpelledIn(n, upper)
    requires IsDecimal(d) && 1 <= DecimalValue(d) <= 128
    ensures Matches(a, n, d) <==> InNetwork(a.Number(), n.Number(), Rounded(d))
  {
    OneCaseAlike(a, n, NibbleCount(DecimalValue(d)), upper);
  }
}
