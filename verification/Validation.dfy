/** Hostnames and handles, and the address rules that keep address literals out. */
module Validation {
  import opened Common
  import opened Strings
  import Radix
  import Decimal

  const MAX_HOSTNAME_LENGTH := 253
  const MAX_LABEL_LENGTH := 63
  const RESERVED_TLDS := [".localhost", ".internal", ".arpa", ".local"]

  predicate EndsWith(s: string, suffix: string) {
    |suffix| <= |s| && s[|s| - |suffix|..] == suffix
  }

  function Last(parts: seq<string>): string
    requires parts != []
  {
    parts[|parts| - 1]
  }

  predicate IsAllDigits(part: string) {
    part != "" && forall c | c in part :: IsDigit(c)
  }

  predicate IsHexLiteral(part: string) {
    && ("0x" <= part || "0X" <= part)
    && forall c | c in part[2..] :: IsHexDigit(c)
  }

  predicate IsNumeric(part: string) { IsAllDigits(part) || IsHexLiteral(part) }

  /** What parses as an 8-bit unsigned integer: digits, perhaps after a plus sign. */
  predicate ParsesAsU8(part: string) {
    var digits := if |part| > 1 && part[0] == '+' then part[1..] else part;
    && digits != ""
    && (forall i | 0 <= i < |digits| :: IsDigit(digits[i]))
    && Radix.Value(10, Decimal.DigitsOf(digits)) <= 255
  }

  predicate IsIpv4(s: string) {
    var parts := Split(s, '.');
    |parts| == 4 && forall p | p in parts :: ParsesAsU8(p)
  }

  function DoubleColons(s: string): nat {
    if |s| < 2 then 0
    else if s[0] == ':' && s[1] == ':' then 1 + DoubleColons(s[2..])
    else DoubleColons(s[1..])
  }

  function NonEmptyParts(parts: seq<string>): seq<string> {
    if parts == [] then [] else (if parts[0] == "" then [] else [parts[0]]) + NonEmptyParts(parts[1..])
  }

  predicate IsIpv6(s: string) {
    && ':' in s
    && var t := if |s| >= 2 && s[0] == '[' && s[|s| - 1] == ']' then s[1..|s| - 1] else s;
       var segments := NonEmptyParts(Split(t, ':'));
       && DoubleColons(t) <= 1
       && |segments| <= 8
       && forall p | p in segments :: |p| <= 4 && forall c | c in p :: IsHexDigit(c)
  }

  predicate IsIpLiteral(host: string) {
    host != "" && (IsIpv4(host) || IsIpv6(host) || forall p | p in Split(host, '.') :: IsNumeric(p))
  }

  predicate IsHostnameChar(c: char) {
    'a' <= c <= 'z' || 'A' <= c <= 'Z' || IsDigit(c) || c == '-' || c == '.'
  }

  predicate IsDnsLabel(part: string) {
    part != "" && |part| <= MAX_LABEL_LENGTH && part[0] != '-' && part[|part| - 1] != '-'
  }

  /** Every rule of hostname validation but the last, which asks the URL parser. */
  predicate RulesAccept(hostname: string) {
    && hostname != "" && |hostname| <= MAX_HOSTNAME_LENGTH
    && var h := Lower(hostname);
       && (forall tld | tld in RESERVED_TLDS :: !EndsWith(h, tld))
       && !IsIpLiteral(h)
       && (forall c | c in h :: IsHostnameChar(c))
       && (forall part | part in Split(h, '.') :: IsDnsLabel(part))
       && !IsAllDigits(Last(Split(h, '.')))
  }

  // ---- what a hostname is, label by label ----

  /** Digits, or a hexadecimal literal, which may be a bare prefix. */
  predicate IsNumber(l: string) {
    || (l != "" && forall c | c in l :: '0' <= c <= '9')
    || (&& |l| >= 2 && (l[..2] == "0x" || l[..2] == "0X")
        && forall c | c in l[2..] :: '0' <= c <= '9' || 'a' <= c <= 'f' || 'A' <= c <= 'F')
  }

  predicate IsLabel(l: string) {
    && 1 <= |l| <= 63
    && l[0] != '-' && l[|l| - 1] != '-'
    && forall i | 0 <= i < |l| ::
      'a' <= l[i] <= 'z' || 'A' <= l[i] <= 'Z' || '0' <= l[i] <= '9' || l[i] == '-'
  }

  /**
   * Labels of letters, digits and inner hyphens, of 1 to 63 characters and 253 with their dots; not
   * under a reserved name, the last not made of digits, and not all of them numbers.
   */
  predicate IsHostname(name: string) {
    var labels := Split(Lower(name), '.');
    && |name| <= 253
    && (forall l | l in labels :: IsLabel(l))
    && !(|labels| >= 2 && Last(labels) in ["localhost", "internal", "arpa", "local"])
    && (exists i :: 0 <= i < |Last(labels)| && !('0' <= Last(labels)[i] <= '9'))
    && (exists l | l in labels :: !IsNumber(l))
  }

  lemma NumberIs(l: string)
    ensures IsNumber(l) <==> IsNumeric(l)
  {
    assert ("0x" <= l || "0X" <= l) <==> |l| >= 2 && (l[..2] == "0x" || l[..2] == "0X");
  }

  lemma {:induction false} InOneLabel(s: string, k: nat) returns (l: string)
    requires k < |s| && s[k] != '.'
    ensures l in Split(s, '.') && s[k] in l
  {
    var rest := Split(s[1..], '.');
    if k == 0 {
      l := [s[0]] + rest[0];
    } else {
      var inner := InOneLabel(s[1..], k - 1);
      l := if s[0] != '.' && inner == rest[0] then [s[0]] + rest[0] else inner;
    }
  }

  predicate InsideLabel(l: string) { forall c | c in l :: IsHostnameChar(c) && c != '.' }

  /** A name is made of hostname characters when its labels are made of them. */
  lemma CharactersOfLabels(h: string)
    ensures (forall c | c in h :: IsHostnameChar(c))
      <==> forall l | l in Split(h, '.') :: InsideLabel(l)
  {
    if forall c | c in h :: IsHostnameChar(c) {
      LabelsOfCharacters(h);
    }
    if forall l | l in Split(h, '.') :: InsideLabel(l) {
      forall c | c in h ensures IsHostnameChar(c) {
        var k :| 0 <= k < |h| && h[k] == c;
        if c != '.' {
          var l := InOneLabel(h, k);
        }
      }
    }
  }

  lemma LabelsOfCharacters(h: string)
    requires forall c | c in h :: IsHostnameChar(c)
    ensures forall l | l in Split(h, '.') :: InsideLabel(l)
  {
    SplitParts(h, '.');
    forall l | l in Split(h, '.') ensures InsideLabel(l) {
      assert '.' !in l && forall c | c in l :: c in h;
    }
  }

  lemma LabelIs(l: string)
    ensures IsLabel(l) <==> IsDnsLabel(l) && InsideLabel(l)
  {
    if InsideLabel(l) {
      assert forall i | 0 <= i < |l| :: l[i] in l;
    }
  }

  lemma SuffixIsLabel(h: string, suffix: string, tld: string)
    requires '.' !in tld && suffix == "." + tld
    ensures EndsWith(h, suffix) <==> |Split(h, '.')| >= 2 && Last(Split(h, '.')) == tld
  {
    var parts := Split(h, '.');
    if EndsWith(h, suffix) {
      var p := h[..|h| - |tld| - 1];
      assert h == p + "." + tld;
      SplitOfLast(p, tld, '.');
    }
    if |parts| >= 2 && Last(parts) == tld {
      JoinOfSplit(h, '.');
      JoinOfLast(parts, '.');
      assert h == Join(parts[..|parts| - 1], '.') + suffix;
    }
  }

  lemma {:induction false} JoinOfLast(parts: seq<string>, sep: char)
    requires |parts| >= 2
    ensures Join(parts, sep) == Join(parts[..|parts| - 1], sep) + ([sep] + Last(parts))
  {
    var front := parts[..|parts| - 1];
    if |parts| == 2 {
      assert parts[1..] == [Last(parts)] && front == [parts[0]];
      Associative(parts[0], [sep], Last(parts));
    } else {
      JoinOfLast(parts[1..], sep);
      assert parts[1..][..|parts| - 2] == front[1..];
      Associative(parts[0] + [sep], Join(front[1..], sep), [sep] + Last(parts));
    }
  }

  lemma ReservedIs(h: string)
    ensures (exists tld | tld in RESERVED_TLDS :: EndsWith(h, tld))
      <==> |Split(h, '.')| >= 2 && Last(Split(h, '.')) in ["localhost", "internal", "arpa", "local"]
  {
    SuffixIsLabel(h, ".localhost", "localhost");
    SuffixIsLabel(h, ".internal", "internal");
    SuffixIsLabel(h, ".arpa", "arpa");
    SuffixIsLabel(h, ".local", "local");
  }

  /** Of a name made of hostname characters, the three address tests together ask if all labels are numbers. */
  lemma AddressTests(h: string)
    requires h != "" && forall c | c in h :: IsHostnameChar(c)
    ensures IsIpLiteral(h) <==> forall l | l in Split(h, '.') :: IsNumber(l)
  {
    LabelsOfCharacters(h);
    SplitParts(h, '.');
    forall l | l in Split(h, '.') ensures IsNumber(l) <==> IsNumeric(l) {
      NumberIs(l);
    }
    forall l | l in Split(h, '.') && ParsesAsU8(l) ensures IsNumeric(l) {
      ByteIsNumeric(l);
    }
  }

  lemma ByteIsNumeric(l: string)
    requires ParsesAsU8(l) && forall c | c in l :: IsHostnameChar(c)
    ensures IsNumeric(l)
  {
    assert l[0] in l;
    assert forall i | 0 <= i < |l| :: IsDigit(l[i]);
  }

  /** The rules accept exactly such names. */
  lemma RulesExactly(name: string)
    ensures RulesAccept(name) <==> IsHostname(name)
  {
    var h := Lower(name);
    var labels := Split(h, '.');
    CharactersOfLabels(h);
    forall l | l in labels
      ensures IsLabel(l) <==> IsDnsLabel(l) && InsideLabel(l)
    {
      LabelIs(l);
    }
    ReservedIs(h);
    assert Last(labels) in labels;
    if h != "" && forall c | c in h :: IsHostnameChar(c) {
      AddressTests(h);
    }
    DigitsIs(Last(labels));
  }

  lemma DigitsIs(l: string)
    ensures l != "" ==>
      (IsAllDigits(l) <==> !exists i :: 0 <= i < |l| && !('0' <= l[i] <= '9'))
  {
    if IsAllDigits(l) {
      assert forall i | 0 <= i < |l| :: l[i] in l;
    }
  }

  // ---- the URL parser's host, section 3.5 of the URL Standard ----

  datatype ParsedHost = Failure | Ipv4(address: nat) | Ipv6 | Domain(name: string)

  function HexValue(c: char): nat {
    if IsDigit(c) then c as int - '0' as int
    else if 'a' <= c <= 'f' then c as int - 'a' as int + 10
    else if 'A' <= c <= 'F' then c as int - 'A' as int + 10
    else 99
  }

  function HexValues(s: string): seq<nat> { seq(|s|, i requires 0 <= i < |s| => HexValue(s[i])) }

  function NumberRadix(s: string): nat {
    if "0x" <= s || "0X" <= s then 16 else if |s| >= 2 && s[0] == '0' then 8 else 10
  }

  function NumberDigits(s: string): string {
    if "0x" <= s || "0X" <= s then s[2..] else if |s| >= 2 && s[0] == '0' then s[1..] else s
  }

  predicate DigitsBelow(digits: string, radix: nat) {
    forall c | c in digits :: HexValue(c) < radix
  }

  /** The IPv4 number parser: decimal, octal after `0`, hexadecimal after `0x`, and a bare prefix is zero. */
  function Ipv4Number(s: string): Option<nat> {
    if s != "" && DigitsBelow(NumberDigits(s), NumberRadix(s))
    then Some(Radix.Value(NumberRadix(s), HexValues(NumberDigits(s))))
    else None
  }

  function WithoutTrailingEmpty(parts: seq<string>): seq<string>
    requires parts != []
  {
    if |parts| > 1 && Last(parts) == "" then parts[..|parts| - 1] else parts
  }

  predicate EndsInNumber(parts: seq<string>)
    requires parts != []
  {
    var last := Last(WithoutTrailingEmpty(parts));
    IsAllDigits(last) || Ipv4Number(last).Some?
  }

  /** The value of the leading parts, one byte each from the top. */
  function LeadingBytes(numbers: seq<nat>, place: nat): nat {
    if numbers == [] then 0
    else numbers[0] * Radix.Power(256, place) + LeadingBytes(numbers[1..], if place == 0 then 0 else place - 1)
  }

  function ParseIpv4(parts: seq<string>): ParsedHost
    requires parts != []
  {
    var ps := WithoutTrailingEmpty(parts);
    if |ps| > 4 || exists i | 0 <= i < |ps| :: Ipv4Number(ps[i]).None? then Failure
    else
      var numbers := seq(|ps|, i requires 0 <= i < |ps| && Ipv4Number(ps[i]).Some? => Ipv4Number(ps[i]).value);
      var n := |numbers| - 1;
      if (exists i | 0 <= i < n :: numbers[i] > 255) || numbers[n] >= Radix.Power(256, 4 - n) then Failure
      else Ipv4(LeadingBytes(numbers[..n], 3) + numbers[n])
  }

  predicate NoPunycode(h: string) {
    forall part | part in Split(Lower(h), '.') :: !("xn--" <= part)
  }

  /**
   * The host of `https://{h}/`. Names outside letters, digits, dots and hyphens,
   * and names with an `xn--` label, are left to `other`.
   */
  function UrlHost(other: string -> ParsedHost, h: string): ParsedHost {
    if h == "" || (exists c | c in h :: !IsHostnameChar(c)) || !NoPunycode(h) then other(h)
    else
      var parts := Split(Lower(h), '.');
      if EndsInNumber(parts) then ParseIpv4(parts) else Domain(Lower(h))
  }

  predicate ParsesAsAddress(other: string -> ParsedHost, h: string) {
    UrlHost(other, h).Ipv4? || UrlHost(other, h).Ipv6?
  }

  predicate IsValidHostname(other: string -> ParsedHost, hostname: string) {
    RulesAccept(hostname) && !ParsesAsAddress(other, Lower(hostname))
  }

  // ---- the rules anticipate the parser ----

  /** What the number parser reads is digits or a hexadecimal literal. */
  lemma NumberIsNumeric(s: string)
    requires Ipv4Number(s).Some?
    ensures IsNumeric(s)
  {
    var digits := NumberDigits(s);
    if NumberRadix(s) == 16 {
      assert forall c | c in digits :: IsHexDigit(c);
    } else {
      assert forall c | c in digits :: IsDigit(c);
      assert s == digits || s == "0" + digits;
    }
  }

  lemma HexLiteralIsNumber(s: string)
    requires IsHexLiteral(s)
    ensures Ipv4Number(s).Some?
  {
  }

  /** An address is made of numbers only. */
  lemma AddressIsNumeric(parts: seq<string>)
    requires parts != [] && "" !in parts && ParseIpv4(parts) != Failure
    ensures forall p | p in parts :: IsNumeric(p)
  {
    assert Last(parts) in parts;
    forall p | p in parts ensures IsNumeric(p) {
      var i :| 0 <= i < |parts| && parts[i] == p;
      assert Ipv4Number(parts[i]).Some?;
      NumberIsNumeric(p);
    }
  }

  /**
   * A name the rules accept is never read as an address: the parser sees a domain,
   * or refuses the name because its last label is a hexadecimal literal.
   */
  lemma RulesAnticipateParser(other: string -> ParsedHost, h: string)
    requires NoPunycode(h) && RulesAccept(h)
    ensures UrlHost(other, Lower(h)) == if IsHexLiteral(Last(Split(Lower(h), '.'))) then Failure else Domain(Lower(h))
  {
    LowerIsFixed(h);
    var parts := Split(Lower(h), '.');
    var last := Last(parts);
    assert last in parts && forall p | p in parts :: IsDnsLabel(p);
    assert WithoutTrailingEmpty(parts) == parts;
    if Ipv4Number(last).Some? { NumberIsNumeric(last); }
    if IsHexLiteral(last) { HexLiteralIsNumber(last); }
    if ParseIpv4(parts) != Failure { AddressIsNumeric(parts); }
    assert forall p | p in parts :: IsNumeric(p) ==> !(forall q | q in parts :: IsNumeric(q));
  }

  /** So asking the parser as well rejects nothing the rules let through. */
  lemma BackstopNeverFires(other: string -> ParsedHost, h: string)
    requires NoPunycode(h)
    ensures IsValidHostname(other, h) <==> RulesAccept(h)
    ensures UrlHost(other, Lower(h)).Ipv4? ==> !RulesAccept(h)
  {
    if RulesAccept(h) { RulesAnticipateParser(other, h); }
  }

  lemma CaseDoesNotMatter(other: string -> ParsedHost, a: string, b: string)
    requires Lower(a) == Lower(b)
    ensures IsValidHostname(other, a) <==> IsValidHostname(other, b)
  {
    assert |a| == |Lower(a)| && |b| == |Lower(b)|;
  }

  // ---- handles ----

  function StripHandlePrefixes(handle: string): string {
    if "at://" <= handle then handle[5..]
    else if "@" <= handle then handle[1..]
    else handle
  }

  function IsValidHandle(other: string -> ParsedHost, handle: string): Option<string> {
    var trimmed := StripHandlePrefixes(handle);
    if IsValidHostname(other, trimmed) && '.' in trimmed then Some(Lower(trimmed)) else None
  }

  /** A validated handle is its own normal form. */
  lemma HandleIsNormal(other: string -> ParsedHost, handle: string)
    requires IsValidHandle(other, handle).Some?
    ensures IsValidHandle(other, IsValidHandle(other, handle).value) == IsValidHandle(other, handle)
  {
    var trimmed := StripHandlePrefixes(handle);
    var h := Lower(trimmed);
    LowerIsFixed(trimmed);
    CaseDoesNotMatter(other, h, trimmed);
    var i :| 0 <= i < |trimmed| && trimmed[i] == '.';
    assert h[i] == '.';
    NoPrefixToStrip(h);
  }

  lemma NoPrefixToStrip(h: string)
    requires forall c | c in h :: IsHostnameChar(c)
    ensures StripHandlePrefixes(h) == h
  {
    if |h| >= 3 { assert h[2] in h; }
    if |h| >= 1 { assert h[0] in h; }
  }

  predicate IsHandle(other: string -> ParsedHost, handle: string, name: string, prefix: string, host: string) {
    && prefix in ["", "@", "at://"] && handle == prefix + host
    && IsValidHostname(other, host) && '.' in host && name == Lower(host)
  }

  /** A handle is a hostname with a dot in it, perhaps after one of two prefixes. */
  lemma HandleExactly(other: string -> ParsedHost, handle: string, name: string)
    ensures IsValidHandle(other, handle) == Some(name) <==>
      exists prefix, host :: IsHandle(other, handle, name, prefix, host)
  {
    if IsValidHandle(other, handle) == Some(name) {
      var prefix := Stripped(handle);
      assert IsHandle(other, handle, name, prefix, StripHandlePrefixes(handle));
    }
    forall prefix, host | IsHandle(other, handle, name, prefix, host)
      ensures IsValidHandle(other, handle) == Some(name)
    {
      StripTakes(handle, prefix, host);
    }
  }

  lemma Stripped(handle: string) returns (prefix: string)
    ensures prefix in ["", "@", "at://"] && handle == prefix + StripHandlePrefixes(handle)
  {
    prefix := if "at://" <= handle then "at://" else if "@" <= handle then "@" else "";
  }

  lemma StripTakes(handle: string, prefix: string, host: string)
    requires prefix in ["", "@", "at://"] && handle == prefix + host && RulesAccept(host)
    ensures StripHandlePrefixes(handle) == host
  {
    HostnameCharacters(host);
    NoPrefixToStrip(host);
    assert handle[|prefix|..] == host;
    if prefix == "" {
      assert handle == host;
    } else if prefix == "@" {
      assert handle[0] == '@';
    }
  }

  lemma HostnameCharacters(host: string)
    requires RulesAccept(host)
    ensures forall c | c in host :: IsHostnameChar(c)
  {
    var h := Lower(host);
    forall c | c in host ensures IsHostnameChar(c) {
      var i :| 0 <= i < |host| && host[i] == c;
      assert h[i] in h;
    }
  }
}
