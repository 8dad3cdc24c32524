/** Base58btc: a byte string as a base-58 numeral, one `1` for each leading zero byte. */
module Base58 {
  import opened Common
  import Radix

  type digit = d: int | 0 <= d < 58

  // 123456789ABCDEFGHJKLMNPQRSTUVWXYZabcdefghijkmnopqrstuvwxyz
  function Symbol(d: digit): char {
    if d < 9 then ('1' as int + d) as char
    else if d < 17 then ('A' as int + d - 9) as char
    else if d < 22 then ('J' as int + d - 17) as char
    else if d < 33 then ('P' as int + d - 22) as char
    else if d < 44 then ('a' as int + d - 33) as char
    else ('m' as int + d - 44) as char
  }

  function DigitOf(c: char): (r: Option<digit>)
    ensures r.Some? ==> Symbol(r.value) == c
    ensures forall d: digit :: Symbol(d) == c ==> r == Some(d)
  {
    var n := c as int;
    if '1' <= c <= '9' then Some(n - '1' as int)
    else if 'A' <= c <= 'H' then Some(n - 'A' as int + 9)
    else if 'J' <= c <= 'N' then Some(n - 'J' as int + 17)
    else if 'P' <= c <= 'Z' then Some(n - 'P' as int + 22)
    else if 'a' <= c <= 'k' then Some(n - 'a' as int + 33)
    else if 'm' <= c <= 'z' then Some(n - 'm' as int + 44)
    else None
  }

  function Text(d: seq<nat>): (s: string)
    requires Radix.InBase(58, d)
    ensures |s| == |d|
    ensures forall i :: 0 <= i < |s| ==> s[i] == Symbol(d[i])
  {
    seq(|d|, i requires 0 <= i < |d| => Symbol(d[i]))
  }

  function DigitsOf(s: string): (r: Option<seq<nat>>)
    ensures r.Some? ==> Radix.InBase(58, r.value) && Text(r.value) == s
  {
    if s == [] then Some([])
    else
      var head, tail := DigitOf(s[0]), DigitsOf(s[1..]);
      if head.None? || tail.None? then None
      else
        assert s == [s[0]] + s[1..];
        Some([head.value] + tail.value)
  }

  lemma {:induction false} DigitsOfText(d: seq<nat>)
    requires Radix.InBase(58, d)
    ensures DigitsOf(Text(d)) == Some(d)
  {
    if d != [] {
      DigitsOfText(d[1..]);
      assert Text(d)[1..] == Text(d[1..]);
      assert d == [d[0]] + d[1..];
    }
  }

  function Encode(b: seq<byte>): string {
    Text(Radix.Convert(256, 58, b))
  }

  function Decode(s: string): (r: Option<seq<byte>>) {
    var d := DigitsOf(s);
    if d.None? then None else Some(AsBytes(Radix.Convert(58, 256, d.value)))
  }

  function AsBytes(d: seq<nat>): (b: seq<byte>)
    requires Radix.InBase(256, d)
    ensures b == d
  {
    seq(|d|, i requires 0 <= i < |d| => d[i])
  }

  lemma RoundTrip(b: seq<byte>)
    ensures Decode(Encode(b)) == Some(b)
  {
    DigitsOfText(Radix.Convert(256, 58, b));
    Radix.ConvertInverts(256, 58, b);
  }

  lemma OneTextPerByteString(s: string)
    requires Decode(s).Some?
    ensures Encode(Decode(s).value) == s
  {
    Radix.ConvertInverts(58, 256, DigitsOf(s).value);
  }

  // ---- which symbols a byte string begins with ----

  const BYTES_32 := 0x1_0000_0000_0000_0000_0000_0000_0000_0000_0000_0000_0000_0000_0000_0000_0000_0000

  lemma PowersOf256()
    ensures Radix.Power(256, 32) == BYTES_32
  {
    assert Radix.Power(256, 4) == 0x1_0000_0000;
    Radix.PowerAdds(256, 4, 4);
    Radix.PowerAdds(256, 8, 8);
    Radix.PowerAdds(256, 16, 16);
  }

  const POWER_44 := 389790918707373377135528568990913592653094657612049369038476873218241589149696

  lemma PowersOf58()
    ensures Radix.Power(58, 44) == POWER_44
  {
    assert Radix.Power(58, 4) == 11316496;
    Radix.PowerAdds(58, 4, 4);
    Radix.PowerAdds(58, 8, 8);
    Radix.PowerAdds(58, 16, 16);
    Radix.PowerAdds(58, 32, 8);
    Radix.PowerAdds(58, 40, 4);
  }

  /** Bytes whose number is `top` but for its last `k` digits print as those of `top` first. */
  lemma EncodedBegins(b: seq<byte>, top: nat, k: nat)
    requires b != [] && b[0] != 0 && top > 0
    requires top * Radix.Power(58, k) <= Radix.Value(256, b) < (top + 1) * Radix.Power(58, k)
    ensures Text(Radix.Digits(58, top)) <= Encode(b)
  {
    Radix.TopDigits(58, Radix.Value(256, b), top, k);
    assert Radix.LeadingZeros(b) == 0;
    assert Radix.Convert(256, 58, b) == Radix.Digits(58, Radix.Value(256, b));
  }

  /** A head followed by 32 bytes prints with the symbols of `top` first, if those decide 44 before the end. */
  lemma HeadBegins(b: seq<byte>, head: seq<byte>, h: nat, top: nat)
    requires |b| == |head| + 32 && head <= b && head != [] && head[0] != 0 && h == Radix.Value(256, head)
    requires top > 0 && top * POWER_44 <= h * BYTES_32 && (h + 1) * BYTES_32 <= (top + 1) * POWER_44
    ensures Text(Radix.Digits(58, top)) <= Encode(b)
  {
    HeadValue(b, head, h);
    PowersOf58();
    assert b[0] == head[0];
    EncodedBegins(b, top, 44);
  }

  lemma HeadValue(b: seq<byte>, head: seq<byte>, h: nat)
    requires |b| == |head| + 32 && head <= b && h == Radix.Value(256, head)
    ensures h * BYTES_32 <= Radix.Value(256, b) < (h + 1) * BYTES_32
  {
    var rest := b[|head|..];
    assert b == head + rest;
    Radix.ValueOfConcat(256, head, rest);
    Radix.ValueBelow(256, rest);
    PowersOf256();
    Distributes(h, BYTES_32);
  }

  lemma Distributes(h: int, p: int)
    ensures (h + 1) * p == h * p + p
  {
  }
}
