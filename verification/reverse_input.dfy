/** Which inputs name no zone or no address, and what is read of prefixes and surrounding white space. */
module ReverseInput {
  import opened Options
  import opened Strings
  import opened ReverseDns
  import opened Ipv6Text
  import opened ReverseZones

  // ---- White space ----

  predicate AreSpaces(s: string) {
    forall i | 0 <= i < |s| :: IsJsSpace(s[i])
  }

  lemma {:induction false} SkipBefore(blank: string, s: string)
    requires AreSpaces(blank)
    ensures SkipSpace(blank + s) == SkipSpace(s)
  {
    if blank == "" {
      assert blank + s == s;
    } else {
      assert (blank + s)[1..] == blank[1..] + s;
      SkipBefore(blank[1..], s);
    }
  }

  lemma {:induction false} EndAfter(s: string, blank: string)
    requires AreSpaces(blank)
    ensures TrimEnd(s + blank) == TrimEnd(s)
  {
    if blank == "" {
      assert s + blank == s;
    } else {
      var n := |blank| - 1;
      assert (s + blank)[..|s + blank| - 1] == s + blank[..n];
      EndAfter(s, blank[..n]);
    }
  }

  lemma {:induction false} SkipThrough(s: string, blank: string)
    requires AreSpaces(blank)
    ensures SkipSpace(s + blank) == if SkipSpace(s) == "" then "" else SkipSpace(s) + blank
  {
    if s == "" {
      SkipBefore(blank, "");
      assert s + blank == blank && blank + "" == blank;
    } else if IsJsSpace(s[0]) {
      assert (s + blank)[1..] == s[1..] + blank;
      SkipThrough(s[1..], blank);
    }
  }

  /** White space around a network does not matter. */
  lemma {:induction false} SpacesAreTrimmed(before: string, cidr: string, after: string,
                                            number: string -> Option<string>)
    requires AreSpaces(before) && AreSpaces(after)
    ensures CidrToReverseZoneName(before + (cidr + after), number) == CidrToReverseZoneName(cidr, number)
  {
    SkipBefore(before, cidr + after);
    SkipThrough(cidr, after);
    EndAfter(SkipSpace(cidr), after);
    assert '/' in before + (cidr + after) <==> '/' in cidr;
  }

  // ---- Prefixes ----

  lemma {:induction false} LeadingDigitsOf(digits: string, rest: string)
    requires forall c | c in digits :: IsDigit(c)
    requires rest != "" ==> !IsDigit(rest[0])
    ensures LeadingDigits(digits + rest) == digits
  {
    if digits == "" {
      assert digits + rest == rest;
    } else {
      assert digits[0] in digits && (digits + rest)[1..] == digits[1..] + rest;
      LeadingDigitsOf(digits[1..], rest);
      assert digits == [digits[0]] + digits[1..];
    }
  }

  /** A number is read after white space and a sign, up to the first character that is no digit, if it has any. */
  lemma {:induction false} PrefixIsRead(blank: string, sign: string, digits: string, rest: string)
    requires AreSpaces(blank) && sign in {"", "-", "+"} && forall c | c in digits :: IsDigit(c)
    requires rest != "" ==> !IsDigit(rest[0])
    requires digits == "" ==> rest == "" || (!IsJsSpace(rest[0]) && rest[0] != '-' && rest[0] != '+') || sign != ""
    ensures var value: int := DecimalValue(digits);
            ParseInt(blank + (sign + (digits + rest)))
            == if digits == "" then None else Some(if sign == "-" then -value else value)
  {
    var tail := digits + rest;
    SkipBefore(blank, sign + tail);
    LeadingDigitsOf(digits, rest);
    if sign == "" {
      assert sign + tail == tail;
      if digits != "" {
        assert digits[0] in digits && tail[0] == digits[0];
      }
    } else {
      assert (sign + tail)[0] == sign[0] && (sign + tail)[1..] == tail;
    }
  }

  // ---- What names a zone ----

  /** A network as text, slash and prefix, without white space at the ends. */
  predicate IsSlashed(text: string, d: string) {
    && text != "" && !IsJsSpace(text[0]) && '/' !in text && '/' !in d
    && (d != "" ==> !IsJsSpace(d[|d| - 1]))
  }

  lemma {:induction false} SplitSlashed(text: string, d: string)
    requires IsSlashed(text, d)
    ensures var cidr := text + "/" + d; '/' in cidr && Split(Trim(cidr), '/') == [text, d]
  {
    var cidr := text + "/" + d;
    assert cidr[|text|] == '/' && cidr[0] == text[0];
    assert cidr[|cidr| - 1] == if d == "" then '/' else d[|d| - 1];
    NothingToTrim(cidr);
    SplitConcat(text, '/', d);
    SplitWithoutSeparator(text, '/');
    SplitWithoutSeparator(d, '/');
  }

  /** Four parts that all read as numbers. */
  predicate AreNumbers(text: string, number: string -> Option<string>) {
    |Split(text, '.')| == 4 && forall part | part in Split(text, '.') :: number(part) != None
  }

  lemma {:induction false} Ipv4ZoneIff(text: string, prefix: int, number: string -> Option<string>)
    ensures Ipv4CidrToReverseZone(text, prefix, number) != None <==> AreNumbers(text, number)
  {
    var parts := Split(text, '.');
    if |parts| == 4 {
      assert forall i | 0 <= i < 4 :: parts[i] in parts;
    }
  }

  lemma {:induction false} Ipv6ZoneIff(text: string, prefix: int)
    ensures Ipv6CidrToReverseZone(text, prefix) != None <==> ExpandIPv6(text) != None && 1 <= prefix <= 128
  {
  }

  /**
   * Text without a slash names no zone. With one, the prefix must be a number; an IPv6 text must expand and have a
   * prefix from 1 to 128, any other text must be four numbers.
   */
  lemma {:induction false} NamesAZoneIff(text: string, d: string, number: string -> Option<string>)
    requires IsSlashed(text, d)
    ensures CidrToReverseZoneName(text + d, number) == None
    ensures CidrToReverseZoneName(text + "/" + d, number) != None
            <==> && ParseInt(d) != None
                 && (if ':' in text then ExpandIPv6(text) != None && 1 <= ParseInt(d).value <= 128
                     else AreNumbers(text, number))
  {
    SplitSlashed(text, d);
    if prefix: int :| ParseInt(d) == Some(prefix) {
      Ipv4ZoneIff(text, prefix, number);
      Ipv6ZoneIff(text, prefix);
    }
  }

  /** An address with more groups than there is room for cannot be expanded and has no PTR name. */
  lemma {:induction false} TooManyGroups(left: seq<string>, right: seq<string>)
    requires AreGroups(left) && AreGroups(right) && |left| + |right| > 8
    ensures var ip := Join(left, ":") + "::" + Join(right, ":");
            ExpandIPv6(ip) == None && BuildPtrName(ip) == None
  {
    var ip := Join(left, ":") + "::" + Join(right, ":");
    GroupsAreClean(left);
    GroupsAreClean(right);
    SplitAtDouble(Join(left, ":"), Join(right, ":"));
    assert ip[|Join(left, ":")|] == ':';
  }
}
