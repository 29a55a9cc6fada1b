/** The text forms of IPv6 addresses (section 2.2 of RFC 4291) and what expanding them gives. */
module Ipv6Text {
  import opened Options
  import opened Strings
  import opened Powers
  import opened ReverseDns

  predicate IsHex(c: char) {
    '0' <= c <= '9' || 'a' <= c <= 'f' || 'A' <= c <= 'F'
  }

  function HexValue(c: char): (v: nat)
    requires IsHex(c)
    ensures v < 16
  {
    if c <= '9' then c as int - '0' as int
    else if c <= 'F' then c as int - 'A' as int + 10
    else c as int - 'a' as int + 10
  }

  predicate AllHex(s: string) {
    forall i | 0 <= i < |s| :: IsHex(s[i])
  }

  /** The number a run of hexadecimal digits stands for, most significant digit first. */
  function HexNumber(s: string): nat
    requires AllHex(s)
  {
    if s == "" then 0 else 16 * HexNumber(s[..|s| - 1]) + HexValue(s[|s| - 1])
  }

  predicate IsGroup(g: string) {
    1 <= |g| <= 4 && AllHex(g)
  }

  predicate AreGroups(gs: seq<string>) {
    forall i | 0 <= i < |gs| :: IsGroup(gs[i])
  }

  /** The number that groups of 16 bits stand for, most significant group first. */
  function GroupsNumber(gs: seq<string>): nat
    requires AreGroups(gs)
  {
    if gs == [] then 0 else 65536 * GroupsNumber(gs[..|gs| - 1]) + HexNumber(gs[|gs| - 1])
  }

  /** Form 1, eight groups; form 2, with `::` for the groups of zeros between two runs. */
  datatype Address = Full(groups: seq<string>) | Compressed(left: seq<string>, right: seq<string>) {
    predicate Valid() {
      match this
      case Full(groups) => |groups| == 8 && AreGroups(groups)
      case Compressed(left, right) => |left| + |right| <= 8 && AreGroups(left) && AreGroups(right)
    }

    function Text(): string {
      match this
      case Full(groups) => Join(groups, ":")
      case Compressed(left, right) => Join(left, ":") + "::" + Join(right, ":")
    }

    /** All eight groups, those that `::` stands for written out. */
    function Groups(): (gs: seq<string>)
      requires Valid()
      ensures |gs| == 8 && AreGroups(gs)
    {
      match this
      case Full(groups) => groups
      case Compressed(left, right) => left + ZeroGroups(8 - |left| - |right|) + right
    }

    /** The 128-bit number. */
    function Number(): nat
      requires Valid()
    {
      GroupsNumber(Groups())
    }
  }

  // ---- Splitting the text ----

  predicate NoDouble(s: string) {
    |s| >= 2 ==> !(s[0] == ':' && s[1] == ':') && NoDouble(s[1..])
  }

  /** Text without `::` that neither begins nor ends with a colon. */
  predicate IsClean(s: string) {
    NoDouble(s) && (s != "" ==> s[0] != ':' && s[|s| - 1] != ':')
  }

  lemma {:induction false} NoColonIsClean(s: string)
    requires ':' !in s
    ensures IsClean(s)
  {
    if |s| >= 2 {
      NoColonIsClean(s[1..]);
    }
  }

  lemma {:induction false} GroupHasNoColon(g: string)
    requires IsGroup(g)
    ensures ':' !in g && IsClean(g)
  {
    NoColonIsClean(g);
  }

  lemma {:induction false} NoDoubleConcat(a: string, b: string)
    requires a != "" && NoDouble(a) && a[|a| - 1] != ':' && b != "" && IsClean(b)
    ensures NoDouble(a + ":" + b)
  {
    var s := a + ":" + b;
    assert s[1..] == a[1..] + ":" + b;
    if |a| == 1 {
      assert s[1..][1..] == b;
    } else {
      NoDoubleConcat(a[1..], b);
    }
  }

  lemma {:induction false} GroupsAreClean(gs: seq<string>)
    requires AreGroups(gs)
    ensures IsClean(Join(gs, ":")) && (Join(gs, ":") == "" <==> gs == [])
    ensures SplitGroups(Join(gs, ":")) == gs
  {
    if gs != [] {
      GroupHasNoColon(gs[0]);
      if |gs| > 1 {
        GroupsAreClean(gs[1..]);
        NoDoubleConcat(gs[0], Join(gs[1..], ":"));
      }
      forall g | g in gs ensures ':' !in g {
        GroupHasNoColon(g);
      }
      SplitJoin(gs, ':');
    }
  }

  lemma {:induction false} CleanIsWhole(s: string)
    requires NoDouble(s)
    ensures SplitDouble(s) == [s]
  {
    if |s| >= 2 {
      CleanIsWhole(s[1..]);
      assert s == [s[0]] + s[1..];
    }
  }

  lemma {:induction false} SplitAtDouble(a: string, b: string)
    requires NoDouble(a) && (a != "" ==> a[|a| - 1] != ':') && NoDouble(b)
    ensures SplitDouble(a + "::" + b) == [a, b]
  {
    var s := a + "::" + b;
    if a == "" {
      CleanIsWhole(b);
      assert s[2..] == b;
    } else {
      SplitAtDouble(a[1..], b);
      assert s[1..] == a[1..] + "::" + b && s[0] == a[0];
      assert s[1] == if |a| == 1 then ':' else a[1];
      var rest := SplitDouble(s[1..]);
      assert rest == [a[1..], b] && SplitDouble(s) == [[s[0]] + rest[0]] + rest[1..];
      assert a == [a[0]] + a[1..];
    }
  }

  // ---- Expansion ----

  lemma {:induction false} PadKeepsNumber(g: string)
    requires IsGroup(g)
    ensures |PadStart(g)| == 4 && IsGroup(PadStart(g)) && HexNumber(PadStart(g)) == HexNumber(g)
    decreases 4 - |g|
  {
    if |g| < 4 {
      ZeroInFront(g);
      PadKeepsNumber("0" + g);
    }
  }

  lemma {:induction false} ZeroInFront(g: string)
    requires AllHex(g)
    ensures AllHex("0" + g) && HexNumber("0" + g) == HexNumber(g)
  {
    var s := "0" + g;
    assert s[|s| - 1] == if g == "" then '0' else g[|g| - 1];
    if g == "" {
      assert s[..0] == "";
    } else {
      assert s[..|s| - 1] == "0" + g[..|g| - 1];
      ZeroInFront(g[..|g| - 1]);
    }
  }

  lemma {:induction false} PadAllKeepsNumber(gs: seq<string>)
    requires AreGroups(gs)
    ensures AreGroups(PadAll(gs)) && GroupsNumber(PadAll(gs)) == GroupsNumber(gs)
    ensures forall i | 0 <= i < |gs| :: |PadAll(gs)[i]| == 4
  {
    forall i | 0 <= i < |gs|
      ensures IsGroup(PadAll(gs)[i]) && |PadAll(gs)[i]| == 4
    {
      PadKeepsNumber(gs[i]);
    }
    if gs != [] {
      var n := |gs| - 1;
      assert PadAll(gs)[..n] == PadAll(gs[..n]);
      PadAllKeepsNumber(gs[..n]);
      PadKeepsNumber(gs[n]);
    }
  }

  /** Both text forms expand to the eight padded groups of the address. */
  lemma {:induction false} ExpandGroups(a: Address)
    requires a.Valid()
    ensures ExpandIPv6(a.Text()) == Some(Join(PadAll(a.Groups()), ":"))
  {
    match a
    case Full(groups) =>
      ExpandFull(groups);
    case Compressed(left, right) =>
      ExpandCompressed(left, right);
  }

  lemma {:induction false} ExpandHalves(ip: string, left: string, right: string)
    requires SplitDouble(ip) == [left, right] && |SplitGroups(left)| + |SplitGroups(right)| <= 8
    ensures var missing := 8 - |SplitGroups(left)| - |SplitGroups(right)|;
            ExpandIPv6(ip) == Some(Join(PadAll(SplitGroups(left) + ZeroGroups(missing) + SplitGroups(right)), ":"))
  {
  }

  lemma {:induction false} ExpandCompressed(left: seq<string>, right: seq<string>)
    requires AreGroups(left) && AreGroups(right) && |left| + |right| <= 8
    ensures ExpandIPv6(Join(left, ":") + "::" + Join(right, ":"))
         == Some(Join(PadAll(left + ZeroGroups(8 - |left| - |right|) + right), ":"))
  {
    GroupsAreClean(left);
    GroupsAreClean(right);
    SplitAtDouble(Join(left, ":"), Join(right, ":"));
    ExpandHalves(Join(left, ":") + "::" + Join(right, ":"), Join(left, ":"), Join(right, ":"));
  }

  lemma {:induction false} ExpandFull(groups: seq<string>)
    requires groups != [] && AreGroups(groups)
    ensures ExpandIPv6(Join(groups, ":")) == Some(Join(PadAll(groups), ":"))
  {
    GroupsAreClean(groups);
    CleanIsWhole(Join(groups, ":"));
  }

  lemma {:induction false} PadTwice(gs: seq<string>)
    requires forall i | 0 <= i < |gs| :: |gs[i]| == 4
    ensures PadAll(gs) == gs
  {
  }

  /** Expansion gives eight four-digit groups of the same 128-bit number, and expanding again changes nothing. */
  lemma {:induction false} ExpandKeepsAddress(a: Address)
    requires a.Valid()
    ensures var full := Full(PadAll(a.Groups()));
            && full.Valid() && (forall i | 0 <= i < 8 :: |full.groups[i]| == 4)
            && ExpandIPv6(a.Text()) == Some(full.Text())
            && full.Number() == a.Number()
            && ExpandIPv6(full.Text()) == Some(full.Text())
  {
    PadAllKeepsNumber(a.Groups());
    ExpandGroups(a);
    var full := Full(PadAll(a.Groups()));
    ExpandGroups(full);
    PadTwice(full.groups);
  }

  // ---- Nibbles ----

  function Concat(gs: seq<string>): string {
    if gs == [] then "" else Concat(gs[..|gs| - 1]) + gs[|gs| - 1]
  }

  lemma {:induction false} RemoveColonsConcat(a: string, b: string)
    ensures RemoveColons(a + b) == RemoveColons(a) + RemoveColons(b)
  {
    if a == "" {
      assert a + b == b;
    } else {
      assert (a + b)[1..] == a[1..] + b;
      RemoveColonsConcat(a[1..], b);
    }
  }

  lemma {:induction false} RemoveNoColons(s: string)
    requires ':' !in s
    ensures RemoveColons(s) == s
  {
    if s != "" {
      RemoveNoColons(s[1..]);
      assert s == [s[0]] + s[1..];
    }
  }

  lemma {:induction false} RemoveColonsLast(front: string, g: string)
    requires ':' !in g
    ensures RemoveColons(front + ":" + g) == RemoveColons(front) + g
  {
    RemoveColonsConcat(front + ":", g);
    RemoveColonsConcat(front, ":");
    assert RemoveColons(":") == "";
    RemoveNoColons(g);
  }

  lemma {:induction false} RemoveColonsJoin(gs: seq<string>)
    requires AreGroups(gs)
    ensures RemoveColons(Join(gs, ":")) == Concat(gs)
  {
    if gs != [] {
      var front, last := gs[..|gs| - 1], gs[|gs| - 1];
      GroupHasNoColon(last);
      if front == [] {
        RemoveNoColons(last);
      } else {
        RemoveColonsJoin(front);
        assert gs == front + [last];
        JoinConcat(front, [last], ":");
        RemoveColonsLast(Join(front, ":"), last);
      }
    }
  }

  lemma {:induction false} ShiftDigit(high: nat, power: nat, low: nat, digit: nat)
    ensures 16 * (high * power + low) + digit == high * (16 * power) + (16 * low + digit)
  {
  }

  lemma {:induction false} HexConcat(a: string, b: string)
    requires AllHex(a) && AllHex(b)
    ensures AllHex(a + b) && HexNumber(a + b) == HexNumber(a) * Pow(16, |b|) + HexNumber(b)
    ensures HexNumber(b) < Pow(16, |b|)
  {
    if b == "" {
      assert a + b == a;
    } else {
      var front := b[..|b| - 1];
      assert (a + b)[..|a + b| - 1] == a + front && (a + b)[|a + b| - 1] == b[|b| - 1];
      HexConcat(a, front);
      ShiftDigit(HexNumber(a), Pow(16, |front|), HexNumber(front), HexValue(b[|b| - 1]));
    }
  }

  lemma {:induction false} ConcatNumber(gs: seq<string>)
    requires AreGroups(gs) && forall i | 0 <= i < |gs| :: |gs[i]| == 4
    ensures |Concat(gs)| == 4 * |gs| && AllHex(Concat(gs)) && HexNumber(Concat(gs)) == GroupsNumber(gs)
  {
    if gs != [] {
      var n := |gs| - 1;
      ConcatNumber(gs[..n]);
      HexConcat(Concat(gs[..n]), gs[n]);
      assert Pow(16, 4) == 65536;
    }
  }

  /** The 32 nibbles of an address. */
  function Nibbles(a: Address): (nibbles: string)
    requires a.Valid()
  {
    Concat(PadAll(a.Groups()))
  }

  /** Dropping the colons of the expansion leaves the 32 nibbles, which spell the 128-bit number. */
  lemma {:induction false} NibblesOfText(a: Address)
    requires a.Valid()
    ensures ExpandIPv6(a.Text()).Some? && RemoveColons(ExpandIPv6(a.Text()).value) == Nibbles(a)
    ensures |Nibbles(a)| == 32 && AllHex(Nibbles(a)) && HexNumber(Nibbles(a)) == a.Number()
  {
    ExpandKeepsAddress(a);
    var groups := PadAll(a.Groups());
    RemoveColonsJoin(groups);
    ConcatNumber(groups);
  }
}
