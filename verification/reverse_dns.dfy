/** `dns-reverse.utils.ts`: reverse names and zones as text. */
module ReverseDns {
  import opened Options
  import opened Strings

  const IP6_ARPA := ".ip6.arpa."
  const IN_ADDR_ARPA := ".in-addr.arpa."

  /** `ip.split("::")` */
  function SplitDouble(s: string): (parts: seq<string>)
    ensures parts != []
  {
    if |s| < 2 then [s]
    else if s[0] == ':' && s[1] == ':' then [""] + SplitDouble(s[2..])
    else
      var rest := SplitDouble(s[1..]);
      [[s[0]] + rest[0]] + rest[1..]
  }

  /** `p.padStart(4, "0")` */
  function PadStart(p: string): string
    decreases 4 - |p|
  {
    if |p| >= 4 then p else PadStart("0" + p)
  }

  function PadAll(parts: seq<string>): (padded: seq<string>)
    ensures |padded| == |parts| && forall i | 0 <= i < |parts| :: padded[i] == PadStart(parts[i])
  {
    seq(|parts|, i requires 0 <= i < |parts| => PadStart(parts[i]))
  }

  function SplitGroups(half: string): seq<string> {
    if half == "" then [] else Split(half, ':')
  }

  function ZeroGroups(count: nat): (groups: seq<string>)
    ensures |groups| == count && forall i | 0 <= i < count :: groups[i] == "0000"
  {
    seq(count, _ => "0000")
  }

  /** `None` is the RangeError of an array of negative length. */
  function ExpandIPv6(ip: string): Option<string> {
    var halves := SplitDouble(ip);
    if |halves| == 2 then
      var left, right := SplitGroups(halves[0]), SplitGroups(halves[1]);
      var missing := 8 - |left| - |right|;
      if missing < 0 then None
      else Some(Join(PadAll(left + ZeroGroups(missing) + right), ":"))
    else Some(Join(PadAll(Split(ip, ':')), ":"))
  }

  function Reverse<T>(s: seq<T>): seq<T> {
    if s == [] then [] else Reverse(s[1..]) + [s[0]]
  }

  /** `s.replace(/:/g, "")` */
  function RemoveColons(s: string): string {
    if s == "" then "" else if s[0] == ':' then RemoveColons(s[1..]) else [s[0]] + RemoveColons(s[1..])
  }

  /** `s.split("")` */
  function Chars(s: string): (parts: seq<string>)
    ensures |parts| == |s| && forall i | 0 <= i < |s| :: parts[i] == [s[i]]
  {
    seq(|s|, i requires 0 <= i < |s| => [s[i]])
  }

  function ReversedName(labels: seq<string>, suffix: string): string {
    Join(Reverse(labels), ".") + suffix
  }

  function Ipv4ToArpaName(ip: string): string {
    ReversedName(Split(ip, '.'), IN_ADDR_ARPA)
  }

  function Ipv6ToArpaName(ip: string): Option<string> {
    match ExpandIPv6(ip)
    case None => None
    case Some(expanded) => Some(ReversedName(Chars(RemoveColons(expanded)), IP6_ARPA))
  }

  /** The PTR name of an address, `None` when building it throws. */
  function BuildPtrName(ip: string): Option<string> {
    if ':' in ip then Ipv6ToArpaName(ip) else Some(Ipv4ToArpaName(ip))
  }

  /** The characters that `trim` removes and `parseInt` skips. */
  predicate IsJsSpace(c: char) {
    '\t' <= c <= '\r' || c == ' ' || c == '\U{a0}' || c == '\U{1680}' || '\U{2000}' <= c <= '\U{200a}'
    || c in {'\U{2028}', '\U{2029}', '\U{202f}', '\U{205f}', '\U{3000}', '\U{feff}'}
  }

  function SkipSpace(s: string): string {
    if s != "" && IsJsSpace(s[0]) then SkipSpace(s[1..]) else s
  }

  function Trim(s: string): string {
    TrimEnd(SkipSpace(s))
  }

  function TrimEnd(s: string): string {
    if s != "" && IsJsSpace(s[|s| - 1]) then TrimEnd(s[..|s| - 1]) else s
  }

  predicate IsDigit(c: char) {
    '0' <= c <= '9'
  }

  function DigitValue(c: char): nat
    requires IsDigit(c)
  {
    c as int - '0' as int
  }

  function LeadingDigits(s: string): (digits: string)
    ensures forall c | c in digits :: IsDigit(c)
  {
    if s != "" && IsDigit(s[0]) then [s[0]] + LeadingDigits(s[1..]) else ""
  }

  function DecimalValue(digits: string): nat
    requires forall c | c in digits :: IsDigit(c)
  {
    if digits == "" then 0
    else
      assert digits[|digits| - 1] in digits;
      10 * DecimalValue(digits[..|digits| - 1]) + DigitValue(digits[|digits| - 1])
  }

  /** `parseInt(s, 10)`, `None` for NaN. */
  function ParseInt(s: string): Option<int> {
    var t := SkipSpace(s);
    var negative := t != "" && t[0] == '-';
    var digits := LeadingDigits(if t != "" && t[0] in {'-', '+'} then t[1..] else t);
    if digits == "" then None
    else
      var value: int := DecimalValue(digits);
      Some(if negative then -value else value)
  }

  /** `number(part)` is the text that `Number(part)` prints as, `None` for NaN. */
  function Ipv4CidrToReverseZone(ip: string, prefix: int, number: string -> Option<string>): Option<string> {
    var parts := Split(ip, '.');
    if |parts| != 4 || exists i | 0 <= i < 4 :: number(parts[i]).None? then None
    else if prefix <= 8 then Some(number(parts[0]).value + IN_ADDR_ARPA)
    else if prefix <= 16 then Some(number(parts[1]).value + "." + number(parts[0]).value + IN_ADDR_ARPA)
    else Some(number(parts[2]).value + "." + number(parts[1]).value + "." + number(parts[0]).value + IN_ADDR_ARPA)
  }

  function NibbleCount(prefix: int): int {
    (prefix + 3) / 4
  }

  function Ipv6CidrToReverseZone(ip: string, prefix: int): Option<string> {
    match ExpandIPv6(ip)
    case None => None
    case Some(expanded) =>
      var nibbles := RemoveColons(expanded);
      var count := NibbleCount(prefix);
      if count < 1 || count > 32 then None
      else Some(ReversedName(Chars(nibbles[..if count < |nibbles| then count else |nibbles|]), IP6_ARPA))
  }

  function CidrToReverseZoneName(cidr: string, number: string -> Option<string>): Option<string> {
    var parts := Split(Trim(cidr), '/');
    if '/' !in cidr || |parts| < 2 then None
    else
      match ParseInt(parts[1])
      case None => None
      case Some(prefix) =>
        if ':' in parts[0] then Ipv6CidrToReverseZone(parts[0], prefix)
        else Ipv4CidrToReverseZone(parts[0], prefix, number)
  }

  // ---- Choosing a zone ----

  datatype Zone = Zone(id: string, name: string)

  predicate EndsWith(s: string, suffix: string) {
    |suffix| <= |s| && s[|s| - |suffix|..] == suffix
  }

  predicate IsReverseZone(z: Zone) {
    EndsWith(z.name, IN_ADDR_ARPA) || EndsWith(z.name, IP6_ARPA)
  }

  predicate Serves(z: Zone, arpaName: string) {
    IsReverseZone(z) && EndsWith(arpaName, z.name)
  }

  /** `best` is a zone of the list that serves the name, and none that does has a longer name. */
  ghost predicate IsBest(arpaName: string, zones: seq<Zone>, best: Option<Zone>) {
    match best
    case None => forall z | z in zones :: !Serves(z, arpaName)
    case Some(b) =>
      b in zones && Serves(b, arpaName) && forall z | z in zones && Serves(z, arpaName) :: |z.name| <= |b.name|
  }

  function Better(arpaName: string, best: Option<Zone>, z: Zone): Option<Zone> {
    if Serves(z, arpaName) && (best.None? || |z.name| > |best.value.name|) then Some(z) else best
  }

  lemma {:induction false} BestStep(arpaName: string, zones: seq<Zone>, i: nat, best: Option<Zone>)
    requires i < |zones| && IsBest(arpaName, zones[..i], best)
    ensures IsBest(arpaName, zones[..i + 1], Better(arpaName, best, zones[i]))
  {
    assert zones[..i + 1] == zones[..i] + [zones[i]];
  }

  method FindBestReverseZone(ip: string, zones: seq<Zone>) returns (best: Option<Zone>)
    ensures BuildPtrName(ip).None? ==> best == None
    ensures BuildPtrName(ip).Some? ==> IsBest(BuildPtrName(ip).value, zones, best)
  {
    best := None;
    var arpaName := BuildPtrName(ip);
    if arpaName.None? {
      return;
    }
    for i := 0 to |zones|
      invariant IsBest(arpaName.value, zones[..i], best)
    {
      var z := zones[i];
      BestStep(arpaName.value, zones, i, best);
      if IsReverseZone(z) && EndsWith(arpaName.value, z.name) && (best.None? || |z.name| > |best.value.name|) {
        best := Some(z);
      }
    }
    assert zones[..|zones|] == zones;
  }

  /** The name of the best zone does not depend on the order of the list, nor on repeated entries. */
  lemma {:induction false} BestNameIsUnique(arpaName: string, zones: seq<Zone>, best: Option<Zone>,
                                            others: seq<Zone>, best': Option<Zone>)
    requires forall z :: z in zones <==> z in others
    requires IsBest(arpaName, zones, best) && IsBest(arpaName, others, best')
    ensures best.Some? <==> best'.Some?
    ensures best.Some? ==> best.value.name == best'.value.name
  {
  }
}
