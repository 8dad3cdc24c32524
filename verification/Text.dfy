/** Strings as UTF-8 and back. */
module Text {
  import opened Common
  import opened Utf8

  predicate IsScalar(n: int) { 0 <= n < 0xD800 || 0xE000 <= n < 0x11_0000 }

  function Low(n: int): int { 0x80 + n % 64 }

  /** One character (section 3 of RFC 3629). */
  function EncodeScalar(n: int): (s: seq<byte>)
    requires IsScalar(n)
    ensures 1 <= |s| <= 4
  {
    if n < 0x80 then [n]
    else if n < 0x800 then [0xC0 + n / 64, Low(n)]
    else if n < 0x1_0000 then [0xE0 + n / 64 / 64, Low(n / 64), Low(n)]
    else [0xF0 + n / 64 / 64 / 64, Low(n / 64 / 64), Low(n / 64), Low(n)]
  }

  lemma ScalarIsScalar(s: seq<byte>)
    requires CharLen(s) > 0
    ensures IsScalar(Scalar(s))
  {
  }

  lemma EncodedScalar(n: int, t: seq<byte>)
    requires IsScalar(n)
    ensures var s := EncodeScalar(n) + t;
      CharLen(s) == |EncodeScalar(n)| && Scalar(s) == n && s[CharLen(s)..] == t
  {
    var e := EncodeScalar(n);
    var s := e + t;
    assert forall i | 0 <= i < |e| :: s[i] == e[i];
    assert s[|e|..] == t;
  }

  lemma Unextend(high: int, b: byte)
    requires IsContinuation(b)
    ensures Extend(high, b) / 64 == high && Low(Extend(high, b)) == b
  {
  }

  lemma ScalarEncodes(s: seq<byte>)
    requires CharLen(s) > 0
    ensures IsScalar(Scalar(s)) && EncodeScalar(Scalar(s)) == s[..CharLen(s)]
  {
    ScalarIsScalar(s);
    match CharLen(s)
    case 1 =>
    case 2 => Unextend(s[0] - 0xC0, s[1]);
    case 3 => ThreeBytesEncode(s);
    case _ => FourBytesEncode(s);
  }

  lemma ThreeBytesEncode(s: seq<byte>)
    requires CharLen(s) == 3 && IsScalar(Scalar(s))
    ensures EncodeScalar(Scalar(s)) == s[..3]
  {
    var h: int := s[0] - 0xE0;
    var m := Extend(h, s[1]);
    Unextend(h, s[1]);
    Unextend(m, s[2]);
    assert 0x800 <= Extend(m, s[2]) < 0x1_0000;
  }

  lemma FourBytesEncode(s: seq<byte>)
    requires CharLen(s) == 4 && IsScalar(Scalar(s))
    ensures EncodeScalar(Scalar(s)) == s[..4]
  {
    var h: int := s[0] - 0xF0;
    var m := Extend(h, s[1]);
    var l := Extend(m, s[2]);
    Unextend(h, s[1]);
    Unextend(m, s[2]);
    Unextend(l, s[3]);
    assert 0x1_0000 <= Extend(l, s[3]);
  }

  function Encode(s: string): seq<byte> {
    if s == "" then [] else EncodeScalar(s[0] as int) + Encode(s[1..])
  }

  function Decode(b: seq<byte>): string
    requires Valid(b)
  {
    if b == [] then ""
    else
      ScalarIsScalar(b);
      [Scalar(b) as char] + Decode(b[CharLen(b)..])
  }

  lemma {:induction false} DecodeOfEncode(s: string)
    ensures Valid(Encode(s)) && Decode(Encode(s)) == s
  {
    if s != "" {
      DecodeOfEncode(s[1..]);
      EncodedScalar(s[0] as int, Encode(s[1..]));
      assert s == [s[0]] + s[1..];
    }
  }

  lemma EncodeOfCons(c: char, s: string)
    ensures Encode([c] + s) == EncodeScalar(c as int) + Encode(s)
  {
    assert ([c] + s)[1..] == s;
  }

  lemma {:induction false} EncodeOfDecode(b: seq<byte>)
    requires Valid(b)
    ensures Encode(Decode(b)) == b
  {
    if b != [] {
      var rest := b[CharLen(b)..];
      ScalarEncodes(b);
      EncodeOfDecode(rest);
      EncodeOfCons(Scalar(b) as char, Decode(rest));
      assert b == b[..CharLen(b)] + rest;
    }
  }
}
