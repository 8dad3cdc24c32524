/**
 * Base64 (sections 3.2, 3.5, 4 and 5 of RFC 4648), parameterised the way the
 * repository's three engines differ: alphabet, padding and trailing bits.
 */
module Base64 {
  import opened Common

  type sextet = v: int | 0 <= v < 64

  datatype Alphabet = Standard | UrlSafe

  /** `Indifferent` takes canonical padding or less of it; `RequireNone` takes none. */
  datatype DecodePadding = Indifferent | RequireNone

  datatype Engine = Engine(
    alphabet: Alphabet, encodePadding: bool, decodePadding: DecodePadding, allowTrailingBits: bool)

  // crates/atproto-dasl/src/atproto_json.rs:204-209
  const BYTES_ENGINE := Engine(Standard, true, Indifferent, true)
  // what `json_from_ipld` prints with, crates/atproto-dasl/src/atproto_json.rs:101
  const STANDARD_NO_PAD := Engine(Standard, false, RequireNone, false)
  // crates/atproto-attestation/src/utils.rs:17-22
  const ATTESTATION_ENGINE := Engine(Standard, true, Indifferent, false)
  // crates/atproto-identity/src/jwk.rs:28
  const URL_SAFE_NO_PAD := Engine(UrlSafe, false, RequireNone, false)

  function Symbol(a: Alphabet, v: sextet): (c: char)
    ensures c != '='
  {
    if v < 26 then ('A' as int + v) as char
    else if v < 52 then ('a' as int + v - 26) as char
    else if v < 62 then ('0' as int + v - 52) as char
    else if a == Standard then (if v == 62 then '+' else '/')
    else (if v == 62 then '-' else '_')
  }

  function Value(a: Alphabet, c: char): (r: Option<sextet>)
    ensures r.Some? <==> exists v: sextet :: Symbol(a, v) == c
    ensures r.Some? ==> Symbol(a, r.value) == c
    ensures forall v: sextet :: Symbol(a, v) == c ==> r == Some(v)
  {
    var n := c as int;
    var r :=
      if 'A' <= c <= 'Z' then Some(n - 'A' as int)
      else if 'a' <= c <= 'z' then Some(n - 'a' as int + 26)
      else if '0' <= c <= '9' then Some(n - '0' as int + 52)
      else if c == (if a == Standard then '+' else '-') then Some(62)
      else if c == (if a == Standard then '/' else '_') then Some(63)
      else None;
    assert r.Some? ==> Symbol(a, r.value) == c;
    r
  }

  // ---- groups of bits ----

  function ToSextets(b: seq<byte>): (v: seq<sextet>)
    ensures |v| % 4 != 1
    ensures |v| == |b| / 3 * 4 + (if |b| % 3 == 0 then 0 else |b| % 3 + 1)
  {
    if |b| == 0 then []
    else if |b| == 1 then [b[0] / 4, b[0] % 4 * 16]
    else if |b| == 2 then [b[0] / 4, b[0] % 4 * 16 + b[1] / 16, b[1] % 16 * 4]
    else [b[0] / 4, b[0] % 4 * 16 + b[1] / 16, b[1] % 16 * 4 + b[2] / 64, b[2] % 64] + ToSextets(b[3..])
  }

  /** The low bits of `high` below the top bits of `low`; `unit` weighs the bits of `low` left over. */
  function Join(high: int, low: int, unit: int): byte
    requires 0 <= high < 64 && 0 <= low < 64
    requires unit == 1 || unit == 4 || unit == 16
  {
    if unit == 16 then high * 4 + low / 16
    else if unit == 4 then high % 16 * 16 + low / 4
    else high % 4 * 64 + low
  }

  function FromSextets(v: seq<sextet>, allowTrailingBits: bool): (r: Option<seq<byte>>)
    ensures r.Some? ==> |v| % 4 != 1
  {
    if |v| == 0 then Some([])
    else if |v| == 1 then None
    else if |v| == 2 then
      if allowTrailingBits || v[1] % 16 == 0 then Some([Join(v[0], v[1], 16)]) else None
    else if |v| == 3 then
      if allowTrailingBits || v[2] % 4 == 0 then Some([Join(v[0], v[1], 16), Join(v[1], v[2], 4)]) else None
    else
      var rest := FromSextets(v[4..], allowTrailingBits);
      if rest.None? then None
      else Some([Join(v[0], v[1], 16), Join(v[1], v[2], 4), Join(v[2], v[3], 1)] + rest.value)
  }

  /** Splitting two bytes or sextets at a bit boundary and joining them again loses nothing. */
  lemma JoinSplits(x: byte, y: byte, z: byte)
    ensures Join(x / 4, x % 4 * 16 + y / 16, 16) == x
    ensures Join(x % 4 * 16 + y / 16, y % 16 * 4 + z / 64, 4) == y
    ensures Join(y % 16 * 4 + z / 64, z % 64, 1) == z
  {
  }

  lemma SplitJoins(p: sextet, q: sextet, r: sextet, s: sextet)
    ensures
      var x, y, z := Join(p, q, 16), Join(q, r, 4), Join(r, s, 1);
      && x / 4 == p
      && x % 4 * 16 + y / 16 == q
      && y % 16 * 4 + z / 64 == r
      && z % 64 == s
  {
  }

  lemma PackGroup(x: byte, y: byte, z: byte, rest: seq<byte>)
    ensures ToSextets([x, y, z] + rest)
      == [x / 4, x % 4 * 16 + y / 16, y % 16 * 4 + z / 64, z % 64] + ToSextets(rest)
  {
    assert ([x, y, z] + rest)[3..] == rest;
  }

  lemma UnpackGroup(p: sextet, q: sextet, r: sextet, s: sextet, rest: seq<sextet>, allowTrailingBits: bool)
    ensures
      var tail := FromSextets(rest, allowTrailingBits);
      FromSextets([p, q, r, s] + rest, allowTrailingBits)
      == if tail.None? then None else Some([Join(p, q, 16), Join(q, r, 4), Join(r, s, 1)] + tail.value)
  {
    assert ([p, q, r, s] + rest)[4..] == rest;
  }

  lemma LastRoundTrips(b: seq<byte>, allowTrailingBits: bool)
    requires |b| < 3
    ensures FromSextets(ToSextets(b), allowTrailingBits) == Some(b)
  {
    if |b| == 1 {
      JoinSplits(b[0], 0, 0);
      assert b[0] % 4 * 16 % 16 == 0;
      assert b == [b[0]];
    } else if |b| == 2 {
      JoinSplits(b[0], b[1], 0);
      assert b[1] % 16 * 4 % 4 == 0;
      assert b == [b[0], b[1]];
    }
  }

  /** Unpacking what was packed gives the bytes back, with or without tolerance. */
  lemma {:induction false} SextetsRoundTrip(b: seq<byte>, allowTrailingBits: bool)
    ensures FromSextets(ToSextets(b), allowTrailingBits) == Some(b)
  {
    if |b| < 3 {
      LastRoundTrips(b, allowTrailingBits);
    } else {
      var x, y, z, rest := b[0], b[1], b[2], b[3..];
      SextetsRoundTrip(rest, allowTrailingBits);
      JoinSplits(x, y, z);
      PackGroup(x, y, z, rest);
      UnpackGroup(
        x / 4, x % 4 * 16 + y / 16, y % 16 * 4 + z / 64, z % 64, ToSextets(rest), allowTrailingBits);
      assert b == [x, y, z] + rest;
    }
  }

  lemma LastIsCanonical(v: seq<sextet>)
    requires |v| < 4 && FromSextets(v, false).Some?
    ensures ToSextets(FromSextets(v, false).value) == v
  {
    if |v| == 2 {
      SplitJoins(v[0], v[1], 0, 0);
    } else if |v| == 3 {
      SplitJoins(v[0], v[1], v[2], 0);
    }
  }

  /** Strict unpacking is injective: only the canonical sextets of `b` unpack to `b`. */
  lemma {:induction false} SextetsCanonical(v: seq<sextet>)
    requires FromSextets(v, false).Some?
    ensures ToSextets(FromSextets(v, false).value) == v
  {
    if |v| < 4 {
      LastIsCanonical(v);
    } else {
      var rest := v[4..];
      assert v == [v[0], v[1], v[2], v[3]] + rest;
      UnpackGroup(v[0], v[1], v[2], v[3], rest, false);
      SextetsCanonical(rest);
      SplitJoins(v[0], v[1], v[2], v[3]);
      PackGroup(
        Join(v[0], v[1], 16), Join(v[1], v[2], 4), Join(v[2], v[3], 1), FromSextets(rest, false).value);
    }
  }

  // ---- text ----

  function Text(a: Alphabet, v: seq<sextet>): (s: string)
    ensures |s| == |v|
    ensures forall i :: 0 <= i < |s| ==> s[i] == Symbol(a, v[i])
  {
    seq(|v|, i requires 0 <= i < |v| => Symbol(a, v[i]))
  }

  function Values(a: Alphabet, s: string): (r: Option<seq<sextet>>)
    ensures r.Some? ==> Text(a, r.value) == s
  {
    if s == [] then Some([])
    else
      var head, tail := Value(a, s[0]), Values(a, s[1..]);
      if head.None? || tail.None? then None
      else
        assert s == [s[0]] + s[1..];
        Some([head.value] + tail.value)
  }

  lemma {:induction false} ValuesOfText(a: Alphabet, v: seq<sextet>)
    ensures Values(a, Text(a, v)) == Some(v)
  {
    if v != [] {
      ValuesOfText(a, v[1..]);
      assert Text(a, v)[1..] == Text(a, v[1..]);
      assert v == [v[0]] + v[1..];
    }
  }

  function Unpadded(s: string): (r: string)
    ensures |r| <= |s| && r == s[..|r|]
    ensures r == [] || r[|r| - 1] != '='
    ensures forall i :: |r| <= i < |s| ==> s[i] == '='
  {
    if s != [] && s[|s| - 1] == '=' then Unpadded(s[..|s| - 1]) else s
  }

  lemma {:induction false} UnpaddedOfPadded(body: string, n: nat)
    requires body == [] || body[|body| - 1] != '='
    ensures Unpadded(body + seq(n, _ => '=')) == body
  {
    var s := body + seq(n, _ => '=');
    if n == 0 {
      assert s == body;
    } else {
      assert s[..|s| - 1] == body + seq(n - 1, _ => '=');
      UnpaddedOfPadded(body, n - 1);
    }
  }

  /** Padding that completes `n` symbols to a multiple of four. */
  function CanonicalPadding(n: nat): nat {
    if n % 4 == 2 then 2 else if n % 4 == 3 then 1 else 0
  }

  function Encode(e: Engine, b: seq<byte>): string {
    var body := Text(e.alphabet, ToSextets(b));
    if e.encodePadding then body + seq(CanonicalPadding(|body|), _ => '=') else body
  }

  function Decode(e: Engine, s: string): Option<seq<byte>> {
    var body := Unpadded(s);
    var padding := |s| - |body|;
    if padding > (if e.decodePadding == RequireNone then 0 else CanonicalPadding(|body|)) then None
    else
      var v := Values(e.alphabet, body);
      if v.None? then None else FromSextets(v.value, e.allowTrailingBits)
  }

  /** Whatever one engine prints, every engine over the same alphabet that takes its padding reads back. */
  lemma RoundTrip(printer: Engine, reader: Engine, b: seq<byte>)
    requires printer.alphabet == reader.alphabet
    requires printer.encodePadding ==> reader.decodePadding == Indifferent
    ensures Decode(reader, Encode(printer, b)) == Some(b)
  {
    var body := Text(printer.alphabet, ToSextets(b));
    UnpaddedOfPadded(body, if printer.encodePadding then CanonicalPadding(|body|) else 0);
    assert body + seq(0, _ => '=') == body;
    ValuesOfText(printer.alphabet, ToSextets(b));
    SextetsRoundTrip(b, reader.allowTrailingBits);
  }

  /** An engine that refuses trailing bits reads `b` from no text but the canonical one, padding aside. */
  lemma OneTextPerByteString(reader: Engine, s: string)
    requires !reader.allowTrailingBits
    requires Decode(reader, s).Some?
    ensures Unpadded(s) == Encode(reader.(encodePadding := false), Decode(reader, s).value)
    ensures reader.decodePadding == RequireNone ==> s == Unpadded(s)
  {
    SextetsCanonical(Values(reader.alphabet, Unpadded(s)).value);
  }

  // ---- exactly which texts are read ----

  /** The same sextets, but for bits of the last one beyond the last whole byte. */
  predicate SameBytes(v: seq<sextet>, w: seq<sextet>)
    decreases |v|
  {
    |v| == |w| &&
    match |v|
    case 0 => true
    case 1 => v == w
    case 2 => v[0] == w[0] && v[1] / 16 == w[1] / 16
    case 3 => v[0] == w[0] && v[1] == w[1] && v[2] / 4 == w[2] / 4
    case _ => v[..4] == w[..4] && SameBytes(v[4..], w[4..])
  }

  lemma SplitLast(x: byte, y: byte, p: sextet, q: sextet, r: sextet)
    ensures Join(p, q, 16) == x <==> p == x / 4 && q / 16 == x % 4
    ensures Join(p, q, 16) == x && Join(q, r, 4) == y <==> p == x / 4 && q == x % 4 * 16 + y / 16 && r / 4 == y % 16
  {
  }

  lemma LastReadExactly(v: seq<sextet>, allowTrailingBits: bool, b: seq<byte>)
    requires |v| < 4
    ensures FromSextets(v, allowTrailingBits) == Some(b) <==> IsReadAs(v, allowTrailingBits, b)
  {
    if |v| == 2 && |b| == 1 {
      SplitLast(b[0], 0, v[0], v[1], 0);
      assert b == [b[0]] && v == [v[0], v[1]];
    } else if |v| == 3 && |b| == 2 {
      SplitLast(b[0], b[1], v[0], v[1], v[2]);
      assert b == [b[0], b[1]] && v == [v[0], v[1], v[2]];
    }
  }

  lemma GroupExactly(p: sextet, q: sextet, r: sextet, s: sextet, x: byte, y: byte, z: byte)
    ensures Join(p, q, 16) == x && Join(q, r, 4) == y && Join(r, s, 1) == z <==>
      p == x / 4 && q == x % 4 * 16 + y / 16 && r == y % 16 * 4 + z / 64 && s == z % 64
  {
    SplitJoins(p, q, r, s);
    JoinSplits(x, y, z);
  }

  /** The sextets that are read as `b`. */
  predicate IsReadAs(v: seq<sextet>, allowTrailingBits: bool, b: seq<byte>) {
    if allowTrailingBits then SameBytes(v, ToSextets(b)) else v == ToSextets(b)
  }

  lemma SameAfterGroup(g: seq<sextet>, h: seq<sextet>, v: seq<sextet>, w: seq<sextet>)
    requires |g| == |h| == 4
    ensures SameBytes(g + v, h + w) <==> g == h && SameBytes(v, w)
    ensures g + v == h + w <==> g == h && v == w
  {
    DropOfConcat(g, v, 4);
    DropOfConcat(h, w, 4);
    assert g[..4] == g && g[4..] == [] && h[..4] == h && h[4..] == [] && [] + v == v && [] + w == w;
  }

  lemma GroupReadExactly(
    p: sextet, q: sextet, r: sextet, s: sextet, rest: seq<sextet>, allowTrailingBits: bool,
    x: byte, y: byte, z: byte, tail: seq<byte>)
    requires FromSextets(rest, allowTrailingBits) == Some(tail) <==> IsReadAs(rest, allowTrailingBits, tail)
    ensures FromSextets([p, q, r, s] + rest, allowTrailingBits) == Some([x, y, z] + tail)
      <==> IsReadAs([p, q, r, s] + rest, allowTrailingBits, [x, y, z] + tail)
  {
    UnpackGroup(p, q, r, s, rest, allowTrailingBits);
    PackGroup(x, y, z, tail);
    GroupExactly(p, q, r, s, x, y, z);
    SameAfterGroup(
      [p, q, r, s], [x / 4, x % 4 * 16 + y / 16, y % 16 * 4 + z / 64, z % 64], rest, ToSextets(tail));
    var read := FromSextets(rest, allowTrailingBits);
    if read.Some? {
      ThreeMore([Join(p, q, 16), Join(q, r, 4), Join(r, s, 1)], read.value, [x, y, z], tail);
    }
  }

  lemma ThreeMore(a: seq<byte>, v: seq<byte>, b: seq<byte>, w: seq<byte>)
    requires |a| == |b| == 3
    ensures a + v == b + w <==> a[0] == b[0] && a[1] == b[1] && a[2] == b[2] && v == w
  {
    if a + v == b + w {
      assert a == (a + v)[..3] && b == (b + w)[..3] && v == (a + v)[3..] && w == (b + w)[3..];
    }
    if a[0] == b[0] && a[1] == b[1] && a[2] == b[2] {
      assert a == b;
    }
  }

  lemma LongRead(v: seq<sextet>, allowTrailingBits: bool)
    requires |v| >= 4 && FromSextets(v, allowTrailingBits).Some?
    ensures |FromSextets(v, allowTrailingBits).value| >= 3
  {
  }

  /** Sextets are read as `b` exactly when they are those of `b`, but for trailing bits if those are tolerated. */
  lemma {:induction false} ReadExactly(v: seq<sextet>, allowTrailingBits: bool, b: seq<byte>)
    ensures FromSextets(v, allowTrailingBits) == Some(b) <==> IsReadAs(v, allowTrailingBits, b)
  {
    if |v| < 4 {
      LastReadExactly(v, allowTrailingBits, b);
    } else if |b| < 3 {
      assert |ToSextets(b)| < 4;
      if FromSextets(v, allowTrailingBits).Some? { LongRead(v, allowTrailingBits); }
    } else {
      assert v == [v[0], v[1], v[2], v[3]] + v[4..] && b == [b[0], b[1], b[2]] + b[3..];
      ReadExactly(v[4..], allowTrailingBits, b[3..]);
      GroupReadExactly(v[0], v[1], v[2], v[3], v[4..], allowTrailingBits, b[0], b[1], b[2], b[3..]);
    }
  }

  /**
   * A text is read as `b` exactly when it is the symbols of the sextets of `b`, but for trailing bits
   * if those are tolerated, followed by padding: none, or, if padding is indifferent, at most what
   * completes a group of four.
   */
  lemma DecodesExactly(e: Engine, s: string, b: seq<byte>)
    ensures Decode(e, s) == Some(b) <==> exists v, padding: nat :: SpellsBytes(e, s, b, v, padding)
  {
    if Decode(e, s) == Some(b) {
      var v, padding := DecodedSpells(e, s, b);
    }
    forall v, padding: nat | SpellsBytes(e, s, b, v, padding) ensures Decode(e, s) == Some(b) {
      SpelledDecodes(e, s, b, v, padding);
    }
  }

  predicate SpellsBytes(e: Engine, s: string, b: seq<byte>, v: seq<sextet>, padding: nat) {
    && s == Text(e.alphabet, v) + seq(padding, _ => '=')
    && IsReadAs(v, e.allowTrailingBits, b)
    && padding <= (if e.decodePadding == RequireNone then 0 else CanonicalPadding(|v|))
  }

  lemma DecodedSpells(e: Engine, s: string, b: seq<byte>) returns (v: seq<sextet>, padding: nat)
    requires Decode(e, s) == Some(b)
    ensures SpellsBytes(e, s, b, v, padding)
  {
    var body := Unpadded(s);
    v, padding := Values(e.alphabet, body).value, |s| - |body|;
    ReadExactly(v, e.allowTrailingBits, b);
    assert s == body + seq(padding, _ => '=');
  }

  lemma SpelledDecodes(e: Engine, s: string, b: seq<byte>, v: seq<sextet>, padding: nat)
    requires SpellsBytes(e, s, b, v, padding)
    ensures Decode(e, s) == Some(b)
  {
    UnpaddedOfPadded(Text(e.alphabet, v), padding);
    ValuesOfText(e.alphabet, v);
    ReadExactly(v, e.allowTrailingBits, b);
  }

  // ---- the examples of section 10 of RFC 4648 ----

  /** The symbols are those of the four sextets that three bytes make. */
  lemma ThreeBytes(a: Alphabet, x: byte, y: byte, z: byte)
    ensures Text(a, ToSextets([x, y, z]))
      == [Symbol(a, x / 4), Symbol(a, x % 4 * 16 + y / 16), Symbol(a, y % 16 * 4 + z / 64), Symbol(a, z % 64)]
  {
    assert [x, y, z] + [] == [x, y, z];
    PackGroup(x, y, z, []);
    assert ToSextets([x, y, z]) == [x / 4, x % 4 * 16 + y / 16, y % 16 * 4 + z / 64, z % 64];
  }

  /** The test vectors of the standard, and the two symbols in which the alphabets differ. */
  lemma StandardExamples()
    ensures Encode(ATTESTATION_ENGINE, [0x66]) == "Zg=="
    ensures Encode(ATTESTATION_ENGINE, [0x66, 0x6f]) == "Zm8="
    ensures Encode(ATTESTATION_ENGINE, [0x66, 0x6f, 0x6f]) == "Zm9v"
    ensures Encode(STANDARD_NO_PAD, [0xfb, 0xef, 0xff]) == "++//"
    ensures Encode(URL_SAFE_NO_PAD, [0xfb, 0xef, 0xff]) == "--__"
  {
    ThreeBytes(Standard, 0x66, 0x6f, 0x6f);
    ThreeBytes(Standard, 0xfb, 0xef, 0xff);
    ThreeBytes(UrlSafe, 0xfb, 0xef, 0xff);
    assert ToSextets([0x66]) == [25, 32] && ToSextets([0x66, 0x6f]) == [25, 38, 60];
  }

  /** What each of the three engines makes of padding and of a trailing bit. */
  lemma EngineExamples()
    ensures Decode(BYTES_ENGINE, "Zg==") == Decode(BYTES_ENGINE, "Zg") == Decode(BYTES_ENGINE, "Zh") == Some([0x66])
    ensures Decode(ATTESTATION_ENGINE, "Zg==") == Decode(ATTESTATION_ENGINE, "Zg") == Some([0x66])
    ensures Decode(ATTESTATION_ENGINE, "Zh") == None
    ensures Decode(URL_SAFE_NO_PAD, "Zg") == Some([0x66])
    ensures Decode(URL_SAFE_NO_PAD, "Zg==") == None && Decode(URL_SAFE_NO_PAD, "Zh") == None
  {
    TwoSymbols(Standard, 'Z', 'g', 25, 32);
    TwoSymbols(Standard, 'Z', 'h', 25, 33);
    TwoSymbols(UrlSafe, 'Z', 'g', 25, 32);
    TwoSymbols(UrlSafe, 'Z', 'h', 25, 33);
    UnpaddedOfPadded("Zg", 2);
    assert "Zg" + seq(2, _ => '=') == "Zg==";
    assert Unpadded("Zg") == "Zg" && Unpadded("Zh") == "Zh";
    assert Join(25, 32, 16) == 0x66 && Join(25, 33, 16) == 0x66;
  }

  lemma TwoSymbols(a: Alphabet, c: char, d: char, p: sextet, q: sextet)
    requires Symbol(a, p) == c && Symbol(a, q) == d
    ensures Values(a, [c, d]) == Some([p, q])
  {
    assert Text(a, [p, q]) == [c, d];
    ValuesOfText(a, [p, q]);
  }
}
