/** The HTTPS target a `did:web` or `did:webvh` identifier encodes. */
module Host {
  import opened Common
  import opened Strings
  import Decimal
  import Radix
  import Validation

  datatype DidHostMethod = Web | WebVH

  datatype DidHost = DidHost(
    didMethod: DidHostMethod, scid: Option<string>, host: string, port: Option<nat>, segments: seq<string>)

  datatype DidHostError =
    | UnsupportedMethod
    | MissingScid
    | MissingHostname
    | InvalidHostname
    | InvalidPort
    | IdnaFailed
    | IpLiteralHost
    | InvalidPathSegment

  /** Domain-to-ASCII and the part of URL parsing the model leaves open. */
  datatype Names = Names(toAscii: string -> Option<string>, urlHost: string -> Validation.ParsedHost) {
    /** What domain-to-ASCII makes, in lower case, it leaves alone. */
    ghost predicate Lawful() {
      forall s :: toAscii(s).Some? ==> toAscii(Lower(toAscii(s).value)) == Some(Lower(toAscii(s).value))
    }
  }

  // ---- ports ----

  function ParsePort(raw: string): (port: Option<nat>)
    ensures port.Some? ==> 1 <= port.value <= 65535
  {
    if raw == "" || |raw| > 5 || exists i | 0 <= i < |raw| :: !IsDigit(raw[i]) then None
    else if |raw| > 1 && raw[0] == '0' then None
    else
      var n := Radix.Value(10, Decimal.DigitsOf(raw));
      if 1 <= n <= 65535 then Some(n) else None
  }

  lemma {:induction false} DigitCount(n: nat, k: nat)
    requires n < Radix.Power(10, k)
    ensures |Radix.Digits(10, n)| <= k
  {
    if n != 0 {
      DigitCount(n / 10, k - 1);
    }
  }

  lemma NatIsDigits(n: nat)
    requires n > 0
    ensures var raw := Decimal.Nat(n);
      && |raw| == |Radix.Digits(10, n)| > 0 && raw[0] != '0'
      && (forall i | 0 <= i < |raw| :: IsDigit(raw[i]))
      && Decimal.DigitsOf(raw) == Radix.Digits(10, n)
  {
    var d := Radix.Digits(10, n);
    Decimal.DigitsOfDigits(d);
    assert Decimal.Text(d)[0] == ('0' as int + d[0]) as char;
  }

  lemma PortOfText(port: nat)
    requires 1 <= port <= 65535
    ensures ParsePort(Decimal.Nat(port)) == Some(port)
  {
    assert 65535 < Radix.Power(10, 5) by { assert Radix.Power(10, 3) == 1000; }
    DigitCount(port, 5);
    Radix.ValueOfDigits(10, port);
    NatIsDigits(port);
  }

  lemma TextOfPort(raw: string)
    requires ParsePort(raw).Some?
    ensures raw == Decimal.Nat(ParsePort(raw).value)
  {
    var e := Decimal.DigitsOf(raw);
    assert Decimal.Text(e) == raw;
    assert |e| == 1 ==> Radix.Value(10, e[..0]) == 0 && Radix.Value(10, e) == e[0];
    Radix.DigitsOfValue(10, e);
  }

  /** Accepted port texts and the numbers 1 to 65535 are in bijection. */
  lemma PortTexts(raw: string, port: nat)
    requires 1 <= port <= 65535
    ensures ParsePort(raw) == Some(port) <==> raw == Decimal.Nat(port)
  {
    PortOfText(port);
    if ParsePort(raw) == Some(port) { TextOfPort(raw); }
  }

  // ---- the authority ----

  /** `s` with every occurrence of the three-character `escape` replaced by a colon. */
  function Unescape(s: string, escape: string): string
    requires |escape| == 3
  {
    if |s| < 3 then s
    else if s[..3] == escape then ":" + Unescape(s[3..], escape)
    else [s[0]] + Unescape(s[1..], escape)
  }

  function ParseAuthority(names: Names, token: string): Result<(string, Option<nat>), DidHostError> {
    var decoded := Unescape(Unescape(token, "%3A"), "%3a");
    if '%' in decoded then Err(InvalidHostname)
    else
      var pieces := Split(decoded, ':');
      if |pieces| > 2 then Err(InvalidHostname)
      else if |pieces| == 2 && ParsePort(pieces[1]).None? then Err(InvalidPort)
      else if pieces[0] == "" then Err(InvalidHostname)
      else
        match HostName(names, pieces[0])
        case Err(e) => Err(e)
        case Ok(host) => Ok((host, if |pieces| == 2 then ParsePort(pieces[1]) else None))
  }

  function HostName(names: Names, text: string): Result<string, DidHostError> {
    match names.toAscii(text)
    case None => Err(IdnaFailed)
    case Some(mapped) =>
      var ascii := Lower(mapped);
      if Validation.IsIpLiteral(ascii) then Err(IpLiteralHost)
      else if !Validation.IsValidHostname(names.urlHost, ascii) then Err(InvalidHostname)
      else
        match Validation.UrlHost(names.urlHost, ascii)
        case Domain(name) => if name == ascii then Ok(ascii) else Err(InvalidHostname)
        case Failure => Err(InvalidHostname)
        case _ => Err(IpLiteralHost)
  }

  // ---- path segments ----

  predicate IsSegmentChar(c: char) {
    'a' <= c <= 'z' || 'A' <= c <= 'Z' || IsDigit(c) || c == '.' || c == '_' || c == '-'
  }

  predicate IsSafeSegment(s: string) {
    s != "" && s != "." && s != ".." && forall c | c in s :: IsSegmentChar(c)
  }

  function ValidatePathSegments(segments: seq<string>): Result<seq<string>, DidHostError> {
    if forall s | s in segments :: IsSafeSegment(s) then Ok(segments) else Err(InvalidPathSegment)
  }

  // ---- the identifier ----

  const WEBVH_PREFIX := "did:webvh:"
  const WEB_PREFIX := "did:web:"

  function ParseDid(names: Names, did: string): Result<DidHost, DidHostError> {
    if WEBVH_PREFIX <= did then
      var parts := Split(did[|WEBVH_PREFIX|..], ':');
      if |parts| < 2 || parts[0] == "" then Err(MissingScid)
      else ParseTarget(names, WebVH, Some(parts[0]), parts[1], parts[2..])
    else if WEB_PREFIX <= did then
      var parts := Split(did[|WEB_PREFIX|..], ':');
      ParseTarget(names, Web, None, parts[0], parts[1..])
    else Err(UnsupportedMethod)
  }

  function ParseTarget(names: Names, didMethod: DidHostMethod, scid: Option<string>, token: string, path: seq<string>)
    : Result<DidHost, DidHostError>
  {
    if token == "" then Err(MissingHostname)
    else
      match ParseAuthority(names, token)
      case Err(e) => Err(e)
      case Ok((host, port)) =>
        match ValidatePathSegments(path)
        case Err(e) => Err(e)
        case Ok(segments) => Ok(DidHost(didMethod, scid, host, port, segments))
  }

  // ---- printing a target ----

  function HostToken(t: DidHost): string {
    if t.port.Some? then t.host + "%3A" + Decimal.Nat(t.port.value) else t.host
  }

  /** The identifier a target prints as. */
  function Printed(t: DidHost): string {
    if t.didMethod == WebVH && t.scid.Some?
    then WEBVH_PREFIX + Join([t.scid.value] + ([HostToken(t)] + t.segments), ':')
    else WEB_PREFIX + Join([HostToken(t)] + t.segments, ':')
  }

  predicate IsHostText(h: string) {
    h != "" && forall c | c in h :: Validation.IsHostnameChar(c)
  }

  /** What every accepted target looks like. */
  ghost predicate Wellformed(names: Names, t: DidHost) {
    && (t.didMethod == WebVH <==> t.scid.Some?)
    && (t.scid.Some? ==> t.scid.value != "" && ':' !in t.scid.value)
    && IsHostText(t.host) && HostName(names, t.host) == Ok(t.host)
    && (t.port.Some? ==> 1 <= t.port.value <= 65535)
    && forall s | s in t.segments :: IsSafeSegment(s)
  }

  lemma HostNameIsFixed(names: Names, text: string)
    requires names.Lawful() && HostName(names, text).Ok?
    ensures var h := HostName(names, text).value; IsHostText(h) && HostName(names, h) == Ok(h)
  {
    var mapped := names.toAscii(text).value;
    LowerIsFixed(mapped);
    assert names.toAscii(Lower(mapped)) == Some(Lower(mapped));
  }

  lemma TargetIsWellformed(
    names: Names, didMethod: DidHostMethod, scid: Option<string>, token: string, path: seq<string>)
    requires names.Lawful() && ParseTarget(names, didMethod, scid, token, path).Ok?
    requires didMethod == WebVH <==> scid.Some?
    requires scid.Some? ==> scid.value != "" && ':' !in scid.value
    ensures Wellformed(names, ParseTarget(names, didMethod, scid, token, path).value)
  {
    HostNameIsFixed(names, Split(Unescape(Unescape(token, "%3A"), "%3a"), ':')[0]);
  }

  lemma AcceptedIsWellformed(names: Names, did: string)
    requires names.Lawful() && ParseDid(names, did).Ok?
    ensures Wellformed(names, ParseDid(names, did).value)
  {
    if WEBVH_PREFIX <= did {
      var rest := did[|WEBVH_PREFIX|..];
      var parts := Split(rest, ':');
      SplitParts(rest, ':');
      assert parts[0] in parts;
      TargetIsWellformed(names, WebVH, Some(parts[0]), parts[1], parts[2..]);
    } else {
      var parts := Split(did[|WEB_PREFIX|..], ':');
      TargetIsWellformed(names, Web, None, parts[0], parts[1..]);
    }
  }

  // ---- parsing what was printed ----

  lemma {:induction false} UnescapeLeavesAlone(s: string, escape: string)
    requires |escape| == 3 && escape[0] !in s
    ensures Unescape(s, escape) == s
  {
    if |s| >= 3 {
      assert s[..3][0] == s[0];
      UnescapeLeavesAlone(s[1..], escape);
      assert s == [s[0]] + s[1..];
    }
  }

  lemma {:induction false} UnescapeOne(h: string, escape: string, rest: string)
    requires |escape| == 3 && escape[0] !in h && escape[0] !in rest
    ensures Unescape(h + escape + rest, escape) == h + ":" + rest
  {
    var s := h + escape + rest;
    if h == "" {
      assert s[..3] == escape && s[3..] == rest;
      UnescapeLeavesAlone(rest, escape);
    } else {
      assert s[..3][0] == h[0] && s[1..] == h[1..] + escape + rest;
      UnescapeOne(h[1..], escape, rest);
      assert h == [h[0]] + h[1..];
    }
  }

  predicate IsPlain(s: string) { ':' !in s && '/' !in s && '%' !in s }

  lemma HostIsPlain(h: string)
    requires IsHostText(h)
    ensures IsPlain(h)
  {
  }

  lemma PortIsPlain(port: nat)
    ensures IsPlain(Decimal.Nat(port))
  {
    assert forall c | c in Decimal.Nat(port) :: IsDigit(c);
  }

  /** A host and a port text, joined by an escaped colon, come apart at it. */
  lemma HostAndPort(host: string, port: string)
    requires IsPlain(host) && IsPlain(port)
    ensures Unescape(Unescape(host + "%3A" + port, "%3A"), "%3a") == host + ":" + port
    ensures Split(host + ":" + port, ':') == [host, port]
    ensures '%' !in host + ":" + port && '/' !in host + ":" + port
  {
    UnescapeOne(host, "%3A", port);
    UnescapeLeavesAlone(host + ":" + port, "%3a");
    SplitOfOne(port, ':');
    SplitOfConcat(host, port, ':');
  }

  lemma HostAlone(host: string)
    requires IsPlain(host)
    ensures Unescape(Unescape(host, "%3A"), "%3a") == host && Split(host, ':') == [host]
  {
    UnescapeLeavesAlone(host, "%3A");
    UnescapeLeavesAlone(host, "%3a");
    SplitOfOne(host, ':');
  }

  lemma ParsePrintedAuthority(names: Names, t: DidHost)
    requires Wellformed(names, t)
    ensures HostToken(t) != "" && ':' !in HostToken(t)
    ensures ParseAuthority(names, HostToken(t)) == Ok((t.host, t.port))
  {
    HostIsPlain(t.host);
    if t.port.None? {
      HostAlone(t.host);
    } else {
      PortIsPlain(t.port.value);
      PortOfText(t.port.value);
      HostAndPort(t.host, Decimal.Nat(t.port.value));
    }
  }

  lemma TargetIsParsed(names: Names, t: DidHost)
    requires Wellformed(names, t)
    ensures ParseTarget(names, t.didMethod, t.scid, HostToken(t), t.segments) == Ok(t)
    ensures ':' !in HostToken(t)
  {
    ParsePrintedAuthority(names, t);
  }

  lemma ParsePrintedWeb(names: Names, t: DidHost)
    requires Wellformed(names, t) && t.didMethod == Web
    ensures ParseDid(names, Printed(t)) == Ok(t)
  {
    TargetIsParsed(names, t);
    SafeSegmentsHaveNoColon(t.segments);
    var parts := [HostToken(t)] + t.segments;
    SplitOfJoin(parts, ':');
    assert Printed(t) == WEB_PREFIX + Join(parts, ':');
    assert Printed(t)[|WEB_PREFIX|..] == Join(parts, ':');
    assert parts[1..] == t.segments;
    assert Printed(t)[|WEB_PREFIX| - 1] == ':';
  }

  lemma ParsePrintedWebVH(names: Names, t: DidHost)
    requires Wellformed(names, t) && t.didMethod == WebVH
    ensures ParseDid(names, Printed(t)) == Ok(t)
  {
    TargetIsParsed(names, t);
    SafeSegmentsHaveNoColon(t.segments);
    var tail := [HostToken(t)] + t.segments;
    var parts := [t.scid.value] + tail;
    SplitOfJoin(parts, ':');
    assert Printed(t)[|WEBVH_PREFIX|..] == Join(parts, ':');
    assert parts[2..] == t.segments;
  }

  /** Printing an accepted target and parsing the result gives the same target. */
  lemma ParsePrinted(names: Names, t: DidHost)
    requires Wellformed(names, t)
    ensures ParseDid(names, Printed(t)) == Ok(t)
  {
    match t.didMethod
    case Web => ParsePrintedWeb(names, t);
    case WebVH => ParsePrintedWebVH(names, t);
  }

  lemma SafeSegmentsHaveNoColon(segments: seq<string>)
    requires forall s | s in segments :: IsSafeSegment(s)
    ensures forall s | s in segments :: ':' !in s
  {
  }

  lemma RoundTrip(names: Names, did: string)
    requires names.Lawful() && ParseDid(names, did).Ok?
    ensures ParseDid(names, Printed(ParseDid(names, did).value)) == ParseDid(names, did)
  {
    AcceptedIsWellformed(names, did);
    ParsePrinted(names, ParseDid(names, did).value);
  }

  // ---- which identifiers are accepted, and as what ----

  lemma {:induction false} UnescapedHasColon(s: string, escape: string)
    requires |escape| == 3 && ':' !in Unescape(s, escape)
    ensures Unescape(s, escape) == s
  {
    if |s| >= 3 {
      if s[..3] == escape {
        assert false;
      } else {
        var rest := Unescape(s[1..], escape);
        assert forall c | c in rest :: c in [s[0]] + rest;
        UnescapedHasColon(s[1..], escape);
        assert s == [s[0]] + s[1..];
      }
    }
  }

  lemma HeadTail(c: char, x: string, p: string, q: string)
    requires [c] + x == p + (":" + q) && ':' !in p
    ensures if c == ':' then p == "" && x == q else p != "" && c == p[0] && x == p[1..] + (":" + q)
  {
    var r := [c] + x;
    assert r[1..] == x && r[0] == c;
    if p == "" {
      assert p + (":" + q) == ":" + q;
    } else {
      assert r[0] == p[0] && p[0] in p;
      DropOfConcat(p, ":" + q, 1);
    }
  }

  /** A text is its unescaped form, but for one colon perhaps, if that has only one. */
  lemma {:induction false} EscapedOnce(s: string, escape: string, p: string, q: string)
    requires |escape| == 3 && ':' !in p && ':' !in q && Unescape(s, escape) == p + (":" + q)
    ensures s == p + (":" + q) || s == p + (escape + q)
  {
    if |s| >= 3 && s[..3] == escape {
      HeadTail(':', Unescape(s[3..], escape), p, q);
      UnescapedHasColon(s[3..], escape);
      assert s == s[..3] + s[3..];
      assert p + (escape + q) == escape + q;
    } else if |s| >= 3 {
      EscapedLater(s, escape, p, q);
      if s[0] == ':' {
        assert p + (":" + q) == ":" + q;
      } else {
        EscapedOnce(s[1..], escape, p[1..], q);
        Associative([s[0]], p[1..], ":" + q);
        Associative([s[0]], p[1..], escape + q);
      }
    }
  }

  lemma EscapedLater(s: string, escape: string, p: string, q: string)
    requires |escape| == 3 && ':' !in p && ':' !in q && Unescape(s, escape) == p + (":" + q)
    requires |s| >= 3 && s[..3] != escape
    ensures s == [s[0]] + s[1..]
    ensures if s[0] == ':' then p == "" && s[1..] == q
            else p != "" && p == [s[0]] + p[1..] && Unescape(s[1..], escape) == p[1..] + (":" + q)
  {
    HeadTail(s[0], Unescape(s[1..], escape), p, q);
    if s[0] == ':' {
      UnescapedHasColon(s[1..], escape);
    }
  }

  /** One escape leaves the other alone. */
  lemma {:induction false} UnescapeOther(h: string, rest: string)
    requires '%' !in h && '%' !in rest
    ensures Unescape(h + "%3a" + rest, "%3A") == h + "%3a" + rest
  {
    var s := h + "%3a" + rest;
    if h == "" {
      assert s[..3] == "%3a" && s[1..] == "3a" + rest;
      UnescapeLeavesAlone("3a" + rest, "%3A");
      assert s == [s[0]] + s[1..];
    } else {
      assert s[..3][0] == h[0] && s[1..] == h[1..] + "%3a" + rest;
      UnescapeOther(h[1..], rest);
      assert s == [s[0]] + s[1..];
    }
  }

  function Decoded(token: string): string { Unescape(Unescape(token, "%3A"), "%3a") }

  /** A colon comes from an escape, in either case. */
  lemma DecodedOnce(token: string, p: string, q: string)
    requires ':' !in token && ':' !in p && ':' !in q && '%' !in p && '%' !in q
    ensures Decoded(token) == p + ":" + q <==> token == p + "%3A" + q || token == p + "%3a" + q
  {
    if Decoded(token) == p + ":" + q {
      var half := Unescape(token, "%3A");
      Associative(p, ":", q);
      Associative(p, "%3A", q);
      Associative(p, "%3a", q);
      EscapedOnce(half, "%3a", p, q);
      if half == p + ":" + q {
        EscapedOnce(token, "%3A", p, q);
        assert (p + ":" + q)[|p|] == ':';
      } else {
        assert ':' !in half;
        UnescapedHasColon(token, "%3A");
      }
    }
    if token == p + "%3A" + q {
      UnescapeOne(p, "%3A", q);
      UnescapeLeavesAlone(p + ":" + q, "%3a");
    }
    if token == p + "%3a" + q {
      UnescapeOther(p, q);
      UnescapeOne(p, "%3a", q);
    }
  }

  lemma DecodedPlain(token: string, p: string)
    requires ':' !in token && ':' !in p && '%' !in p
    ensures Decoded(token) == p <==> token == p
  {
    if Decoded(token) == p {
      UnescapedHasColon(Unescape(token, "%3A"), "%3a");
      UnescapedHasColon(token, "%3A");
    }
    if token == p {
      UnescapeLeavesAlone(p, "%3A");
      UnescapeLeavesAlone(p, "%3a");
    }
  }

  /** The token spells a host, and a port after an escaped colon if there is one. */
  ghost predicate SpellsAuthority(names: Names, token: string, raw: string, host: string, port: Option<nat>) {
    && raw != "" && ':' !in raw && '%' !in raw && HostName(names, raw) == Ok(host)
    && match port
       case None => token == raw
       case Some(n) =>
         1 <= n <= 65535 && (token == raw + "%3A" + Decimal.Nat(n) || token == raw + "%3a" + Decimal.Nat(n))
  }

  lemma PiecesOf(decoded: string, raw: string, text: string)
    requires ':' !in raw && ':' !in text
    ensures Split(decoded, ':') == [raw, text] <==> decoded == raw + ":" + text
    ensures Split(decoded, ':') == [raw] <==> decoded == raw
  {
    JoinOfSplit(decoded, ':');
    SplitOfOne(text, ':');
    SplitOfOne(raw, ':');
    SplitOfConcat(raw, text, ':');
    assert Join([raw, text], ':') == raw + [':'] + Join([raw, text][1..], ':');
  }

  lemma SpelledAuthorityIsParsed(
    names: Names, token: string, raw: string, host: string, port: Option<nat>)
    requires ':' !in token && SpellsAuthority(names, token, raw, host, port)
    ensures ParseAuthority(names, token) == Ok((host, port))
  {
    if port.None? {
      DecodedPlain(token, raw);
      PiecesOf(raw, raw, "");
    } else {
      var text := Decimal.Nat(port.value);
      PortIsPlain(port.value);
      PortOfText(port.value);
      DecodedOnce(token, raw, text);
      SpelledPortIsParsed(names, token, raw, text);
    }
  }

  lemma SpelledPortIsParsed(names: Names, token: string, raw: string, text: string)
    requires Decoded(token) == raw + ":" + text && ParsePort(text).Some?
    requires raw != "" && ':' !in raw && ':' !in text && '%' !in raw && '%' !in text && HostName(names, raw).Ok?
    ensures ParseAuthority(names, token) == Ok((HostName(names, raw).value, ParsePort(text)))
  {
    var decoded := Decoded(token);
    PiecesOf(decoded, raw, text);
    assert '%' !in decoded;
  }

  lemma ParsedAuthorityIsSpelled(names: Names, token: string, host: string, port: Option<nat>) returns (raw: string)
    requires ':' !in token && ParseAuthority(names, token) == Ok((host, port))
    ensures SpellsAuthority(names, token, raw, host, port)
  {
    var decoded := Decoded(token);
    var pieces := Split(decoded, ':');
    SplitParts(decoded, ':');
    raw := pieces[0];
    assert raw in pieces && ':' !in raw && '%' !in raw;
    if |pieces| == 1 {
      assert pieces == [raw];
      PiecesOf(decoded, raw, "");
      DecodedPlain(token, raw);
    } else {
      var text := pieces[1];
      assert pieces == [raw, text] && text in pieces && ':' !in text && '%' !in text;
      PiecesOf(decoded, raw, text);
      DecodedOnce(token, raw, text);
      PortTexts(text, port.value);
    }
  }

  /** Letters, digits and three marks, and not a step within or out of the directory. */
  predicate IsPathSegment(s: string) {
    && s !in ["", ".", ".."]
    && forall i | 0 <= i < |s| ::
      || 'a' <= s[i] <= 'z' || 'A' <= s[i] <= 'Z' || '0' <= s[i] <= '9' || s[i] in "._-"
  }

  lemma SegmentIs(s: string)
    ensures IsPathSegment(s) <==> IsSafeSegment(s)
  {
    if IsSafeSegment(s) {
      assert forall i | 0 <= i < |s| :: s[i] in s;
    }
  }

  /** The identifier is the method, the SCID of a `did:webvh`, the authority and the segments, colons between. */
  ghost predicate Spells(names: Names, did: string, t: DidHost, token: string, raw: string) {
    && ':' !in token && SpellsAuthority(names, token, raw, t.host, t.port)
    && (forall s | s in t.segments :: IsPathSegment(s))
    && match t.didMethod
       case Web => t.scid == None && did == "did:web:" + Join([token] + t.segments, ':')
       case WebVH =>
         && t.scid.Some? && t.scid.value != "" && ':' !in t.scid.value
         && did == "did:webvh:" + Join([t.scid.value] + ([token] + t.segments), ':')
  }

  lemma SegmentsAre(segments: seq<string>)
    ensures (forall s | s in segments :: IsPathSegment(s)) <==> forall s | s in segments :: IsSafeSegment(s)
  {
    forall s | s in segments ensures IsPathSegment(s) <==> IsSafeSegment(s) {
      SegmentIs(s);
    }
  }

  lemma SpelledIsParsed(names: Names, did: string, t: DidHost, token: string, raw: string)
    requires Spells(names, did, t, token, raw)
    ensures ParseDid(names, did) == Ok(t)
  {
    SpelledAuthorityIsParsed(names, token, raw, t.host, t.port);
    SegmentsAre(t.segments);
    SafeSegmentsHaveNoColon(t.segments);
    SplitOfTarget(t, token);
    assert ParseTarget(names, t.didMethod, t.scid, token, t.segments) == Ok(t);
    match t.didMethod
    case Web => WebPrefix(did, Join([token] + t.segments, ':'));
    case WebVH =>
      assert did[|WEBVH_PREFIX|..] == Join([t.scid.value] + ([token] + t.segments), ':');
      SplitOfJoin([t.scid.value] + ([token] + t.segments), ':');
      assert ([t.scid.value] + ([token] + t.segments))[2..] == t.segments;
  }

  lemma WebPrefix(did: string, rest: string)
    requires did == WEB_PREFIX + rest
    ensures did[|WEB_PREFIX|..] == rest && WEB_PREFIX <= did && !(WEBVH_PREFIX <= did)
  {
    assert did[|WEB_PREFIX| - 1] == ':';
  }

  lemma SplitOfTarget(t: DidHost, token: string)
    requires ':' !in token && forall s | s in t.segments :: ':' !in s
    ensures Split(Join([token] + t.segments, ':'), ':') == [token] + t.segments
    ensures ([token] + t.segments)[1..] == t.segments
  {
    SplitOfJoin([token] + t.segments, ':');
  }

  lemma ParsedTargetIsSpelled(
    names: Names, didMethod: DidHostMethod, scid: Option<string>, token: string, path: seq<string>, t: DidHost)
    returns (raw: string)
    requires ':' !in token && ParseTarget(names, didMethod, scid, token, path) == Ok(t)
    ensures t.didMethod == didMethod && t.scid == scid && t.segments == path
    ensures SpellsAuthority(names, token, raw, t.host, t.port) && forall s | s in t.segments :: IsPathSegment(s)
  {
    SegmentsAre(path);
    raw := ParsedAuthorityIsSpelled(names, token, t.host, t.port);
  }

  lemma ParsedIsSpelled(names: Names, did: string, t: DidHost) returns (token: string, raw: string)
    requires ParseDid(names, did) == Ok(t)
    ensures Spells(names, did, t, token, raw)
  {
    if WEBVH_PREFIX <= did {
      var rest := did[|WEBVH_PREFIX|..];
      var parts := Split(rest, ':');
      SplitParts(rest, ':');
      JoinOfSplit(rest, ':');
      token := parts[1];
      assert parts[0] in parts && token in parts;
      raw := ParsedTargetIsSpelled(names, WebVH, Some(parts[0]), token, parts[2..], t);
      assert parts == [parts[0]] + ([token] + parts[2..]) && did == WEBVH_PREFIX + rest;
    } else {
      var rest := did[|WEB_PREFIX|..];
      var parts := Split(rest, ':');
      SplitParts(rest, ':');
      JoinOfSplit(rest, ':');
      token := parts[0];
      assert token in parts;
      raw := ParsedTargetIsSpelled(names, Web, None, token, parts[1..], t);
      assert parts == [token] + parts[1..] && did == WEB_PREFIX + rest;
    }
  }

  /** An identifier is accepted exactly when it spells a target, and as that target. */
  lemma ParsesExactly(names: Names, did: string, t: DidHost)
    ensures ParseDid(names, did) == Ok(t) <==> exists token, raw :: Spells(names, did, t, token, raw)
  {
    if ParseDid(names, did) == Ok(t) {
      var token, raw := ParsedIsSpelled(names, did, t);
    }
    forall token, raw | Spells(names, did, t, token, raw) ensures ParseDid(names, did) == Ok(t) {
      SpelledIsParsed(names, did, t, token, raw);
    }
  }

  /** What is wrong with a host, told from the text and what its ASCII form parses as. */
  predicate HostFails(names: Names, text: string, error: DidHostError) {
    match names.toAscii(text)
    case None => error == IdnaFailed
    case Some(mapped) =>
      var host := Lower(mapped);
      match error
      case IpLiteralHost =>
        Validation.IsIpLiteral(host) || Validation.ParsesAsAddress(names.urlHost, host)
      case InvalidHostname =>
        || !Validation.IsValidHostname(names.urlHost, host)
        || Validation.UrlHost(names.urlHost, host) != Validation.Domain(host)
      case _ => false
  }

  /** What is wrong with a token, told from its unescaped form. */
  ghost predicate AuthorityFails(names: Names, token: string, error: DidHostError) {
    var decoded := Decoded(token);
    var pieces := Split(decoded, ':');
    || (error == InvalidHostname && ('%' in decoded || |pieces| > 2 || pieces[0] == ""))
    || (error == InvalidPort && |pieces| == 2 && forall n: nat | 1 <= n <= 65535 :: pieces[1] != Decimal.Nat(n))
    || HostFails(names, pieces[0], error)
  }

  lemma HostRefusalIsReal(names: Names, text: string)
    requires HostName(names, text).Err?
    ensures HostFails(names, text, HostName(names, text).error)
  {
  }

  lemma AuthorityRefusalIsReal(names: Names, token: string)
    requires ParseAuthority(names, token).Err?
    ensures AuthorityFails(names, token, ParseAuthority(names, token).error)
  {
    var pieces := Split(Decoded(token), ':');
    if HostName(names, pieces[0]).Err? { HostRefusalIsReal(names, pieces[0]); }
    if |pieces| == 2 {
      forall n: nat | 1 <= n <= 65535 && pieces[1] == Decimal.Nat(n) ensures ParsePort(pieces[1]).Some? {
        PortOfText(n);
      }
    }
  }

  /** What is wrong with an identifier. */
  ghost predicate DidFails(names: Names, did: string, error: DidHostError) {
    var webvh := "did:webvh:" <= did;
    if !webvh && !("did:web:" <= did) then error == UnsupportedMethod
    else
      var parts := if webvh then Split(did[10..], ':') else Split(did[8..], ':');
      if webvh && (|parts| < 2 || parts[0] == "") then error == MissingScid
      else
        var token, path := if webvh then parts[1] else parts[0], if webvh then parts[2..] else parts[1..];
        || (error == MissingHostname && token == "")
        || (token != "" && AuthorityFails(names, token, error))
        || (error == InvalidPathSegment && exists s | s in path :: !IsPathSegment(s))
  }

  /** The error reported is one the identifier has. */
  lemma RefusalIsReal(names: Names, did: string)
    requires ParseDid(names, did).Err?
    ensures DidFails(names, did, ParseDid(names, did).error)
  {
    if "did:webvh:" <= did {
      var parts := Split(did[10..], ':');
      if |parts| >= 2 && parts[0] != "" {
        TargetRefusalIsReal(names, WebVH, Some(parts[0]), parts[1], parts[2..]);
      }
    } else if "did:web:" <= did {
      var parts := Split(did[8..], ':');
      TargetRefusalIsReal(names, Web, None, parts[0], parts[1..]);
    }
  }

  lemma TargetRefusalIsReal(
    names: Names, didMethod: DidHostMethod, scid: Option<string>, token: string, path: seq<string>)
    ensures var r := ParseTarget(names, didMethod, scid, token, path);
      r.Err? ==>
        || (r.error == MissingHostname && token == "")
        || (token != "" && AuthorityFails(names, token, r.error))
        || (r.error == InvalidPathSegment && exists s | s in path :: !IsPathSegment(s))
  {
    if ParseAuthority(names, token).Err? { AuthorityRefusalIsReal(names, token); }
    SegmentsAre(path);
  }

  /** A name without punycode is a host exactly when its lower-case ASCII form is a hostname that is no number. */
  lemma HostNameExactly(names: Names, text: string, host: string)
    requires Validation.NoPunycode(host)
    ensures HostName(names, text) == Ok(host) <==> exists mapped ::
      && names.toAscii(text) == Some(mapped) && host == Lower(mapped)
      && Validation.IsHostname(host) && !Validation.IsNumber(Validation.Last(Split(host, '.')))
  {
    if names.toAscii(text).Some? && host == Lower(names.toAscii(text).value) {
      LowerIsFixed(names.toAscii(text).value);
      Validation.RulesExactly(host);
      Validation.BackstopNeverFires(names.urlHost, host);
      Validation.NumberIs(Validation.Last(Split(host, '.')));
      if Validation.RulesAccept(host) {
        Validation.RulesAnticipateParser(names.urlHost, host);
      }
    }
  }

  // ---- the document URL ----

  function Authority(t: DidHost): string {
    if t.port.Some? then t.host + ":" + Decimal.Nat(t.port.value) else t.host
  }

  function DocumentUrl(t: DidHost, file: string): string {
    if t.segments == [] then "https://" + Authority(t) + "/.well-known/" + file
    else "https://" + Authority(t) + "/" + Join(t.segments, '/') + "/" + file
  }

  /** Where the document lives: no segments mean the well-known directory. */
  function Directory(t: DidHost): seq<string> {
    if t.segments == [] then [".well-known"] else t.segments
  }

  lemma UrlShape(t: DidHost, file: string)
    ensures DocumentUrl(t, file) == "https://" + (Authority(t) + "/" + Join(Directory(t), '/')) + ("/" + file)
  {
    var front, dir := "https://" + Authority(t) + "/", Join(Directory(t), '/');
    if t.segments == [] {
      assert "/.well-known/" == "/" + dir + "/";
      assert DocumentUrl(t, file) == front + dir + "/" + file;
    }
    Associative(front + dir, "/", file);
    Associative("https://" + Authority(t), "/", dir);
    Associative("https://", Authority(t), "/" + dir);
    Associative(Authority(t), "/", dir);
  }

  /** The parts of the URL can be told from it: scheme, authority, directory and file. */
  lemma UrlParts(names: Names, t: DidHost, file: string)
    requires Wellformed(names, t) && '/' !in file
    ensures Split(DocumentUrl(t, file), '/') == ["https:", "", Authority(t)] + Directory(t) + [file]
  {
    UrlShape(t, file);
    DirectoryHasNoSlash(names, t);
    SplitAuthority(names, t);
    SplitWhole(Authority(t), Directory(t), file);
  }

  lemma SplitWhole(authority: string, directory: seq<string>, file: string)
    requires '/' !in authority && '/' !in file && directory != [] && forall s | s in directory :: '/' !in s
    ensures Split("https://" + (authority + "/" + Join(directory, '/')) + ("/" + file), '/')
         == ["https:", "", authority] + directory + [file]
  {
    SplitMiddle(authority, directory);
    SplitUrl(authority + "/" + Join(directory, '/'), file);
    Associative(["https:", ""], [authority], directory);
  }

  lemma SplitUrl(middle: string, file: string)
    requires '/' !in file
    ensures Split("https://" + middle + ("/" + file), '/') == ["https:", ""] + Split(middle, '/') + [file]
  {
    var tail := middle + "/" + file;
    SplitOfLast(middle, file, '/');
    SplitScheme(tail);
    Associative("https://", middle, "/" + file);
    Associative(middle, "/", file);
    Associative(["https:", ""], Split(middle, '/'), [file]);
  }

  lemma SplitScheme(tail: string)
    ensures Split("https://" + tail, '/') == ["https:", ""] + Split(tail, '/')
  {
    SplitOfConcat("https:", "/" + tail, '/');
    SplitOfConcat("", tail, '/');
    assert "" + "/" + tail == "/" + tail;
    assert "https:" + "/" + ("/" + tail) == "https://" + tail;
  }

  lemma DirectoryHasNoSlash(names: Names, t: DidHost)
    requires Wellformed(names, t)
    ensures Directory(t) != [] && forall s | s in Directory(t) :: '/' !in s
  {
  }

  lemma SplitAuthority(names: Names, t: DidHost)
    requires Wellformed(names, t)
    ensures '/' !in Authority(t)
    ensures Split(Authority(t), ':') == if t.port.Some? then [t.host, Decimal.Nat(t.port.value)] else [t.host]
  {
    HostIsPlain(t.host);
    if t.port.Some? {
      PortIsPlain(t.port.value);
      HostAndPort(t.host, Decimal.Nat(t.port.value));
    } else {
      HostAlone(t.host);
    }
  }

  lemma SplitMiddle(authority: string, directory: seq<string>)
    requires '/' !in authority && directory != [] && forall s | s in directory :: '/' !in s
    ensures Split(authority + "/" + Join(directory, '/'), '/') == [authority] + directory
  {
    SplitOfConcat(authority, Join(directory, '/'), '/');
    SplitOfJoin(directory, '/');
  }

  /**
   * For one file name the URL determines host, port and directory: two accepted
   * targets share a URL only if they differ at most in spelling `.well-known` out.
   */
  lemma UrlIsInjective(names: Names, a: DidHost, b: DidHost, file: string)
    requires Wellformed(names, a) && Wellformed(names, b)
    ensures DocumentUrl(a, file) == DocumentUrl(b, file) <==>
            a.host == b.host && a.port == b.port && Directory(a) == Directory(b)
  {
    UrlShape(a, file);
    UrlShape(b, file);
    if DocumentUrl(a, file) == DocumentUrl(b, file) {
      Cancel(
        "https://", Authority(a) + "/" + Join(Directory(a), '/'), Authority(b) + "/" + Join(Directory(b), '/'),
        "/" + file);
      SplitAuthority(names, a);
      SplitAuthority(names, b);
      DirectoryHasNoSlash(names, a);
      DirectoryHasNoSlash(names, b);
      SplitMiddle(Authority(a), Directory(a));
      SplitMiddle(Authority(b), Directory(b));
      SplitHead(Authority(a), Directory(a), Authority(b), Directory(b));
      if a.port.Some? && b.port.Some? {
        PortOfText(a.port.value);
        PortOfText(b.port.value);
      }
    }
  }

  lemma Cancel(front: string, x: string, y: string, back: string)
    requires front + x + back == front + y + back
    ensures x == y
  {
    var s := front + x + back;
    assert |x| == |y|;
    assert s[|front|..|front| + |x|] == x;
    assert (front + y + back)[|front|..|front| + |y|] == y;
  }

  lemma SplitHead(x: string, xs: seq<string>, y: string, ys: seq<string>)
    requires [x] + xs == [y] + ys
    ensures x == y && xs == ys
  {
    assert ([x] + xs)[0] == x && ([y] + ys)[0] == y;
    assert ([x] + xs)[1..] == xs && ([y] + ys)[1..] == ys;
  }
}
