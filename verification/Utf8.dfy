/** UTF-8 byte strings (sections 3 and 4 of RFC 3629). */
module Utf8 {
  import opened Common

  predicate IsContinuation(b: byte) { 0x80 <= b < 0xC0 }

  /** Length of the character `s` starts with; zero when it starts with none. */
  function CharLen(s: seq<byte>): (n: nat)
    ensures n <= |s| && n <= 4
    ensures forall i :: 0 < i < n ==> IsContinuation(s[i])
    ensures n > 1 ==> s[0] >= 0xC2
  {
    if s == [] then 0
    else if s[0] < 0x80 then 1
    else if 0xC2 <= s[0] <= 0xDF && |s| >= 2 && IsContinuation(s[1]) then 2
    else if 0xE0 <= s[0] <= 0xEF && |s| >= 3 && IsContinuation(s[1]) && IsContinuation(s[2])
      && (s[0] == 0xE0 ==> s[1] >= 0xA0) && (s[0] == 0xED ==> s[1] <= 0x9F) then 3
    else if 0xF0 <= s[0] <= 0xF4 && |s| >= 4
      && IsContinuation(s[1]) && IsContinuation(s[2]) && IsContinuation(s[3])
      && (s[0] == 0xF0 ==> s[1] >= 0x90) && (s[0] == 0xF4 ==> s[1] <= 0x8F) then 4
    else 0
  }

  predicate Valid(s: seq<byte>) {
    s == [] || (CharLen(s) > 0 && Valid(s[CharLen(s)..]))
  }

  function Extend(high: int, b: int): int { high * 64 + (b - 0x80) }

  /** The code point of the character `s` starts with. */
  function Scalar(s: seq<byte>): int
    requires CharLen(s) > 0
  {
    match CharLen(s)
    case 1 => s[0]
    case 2 => Extend(s[0] - 0xC0, s[1])
    case 3 => Extend(Extend(s[0] - 0xE0, s[1]), s[2])
    case _ => Extend(Extend(Extend(s[0] - 0xF0, s[1]), s[2]), s[3])
  }

  /** Where a string may be cut: its ends, and any byte that does not continue a character. */
  predicate IsBoundary(s: seq<byte>, i: nat) {
    i == 0 || i == |s| || (i < |s| && !IsContinuation(s[i]))
  }

  /** A cut after the start of `s` leaves its first character whole. */
  lemma CutLeavesFirst(s: seq<byte>, i: nat)
    requires CharLen(s) > 0 && 0 < i < |s| && IsBoundary(s, i)
    ensures CharLen(s) <= i && CharLen(s[..i]) == CharLen(s) && IsBoundary(s[CharLen(s)..], i - CharLen(s))
  {
    var n, front := CharLen(s), s[..i];
    assert s[n..][i - n] == s[i];
    assert forall k | 0 <= k < i :: front[k] == s[k];
  }

  lemma ValidCons(s: seq<byte>, n: nat, rest: seq<byte>)
    requires 0 < n == CharLen(s) && rest == s[n..]
    ensures Valid(s) <==> Valid(rest)
  {
  }

  lemma {:induction false} ValidParts(s: seq<byte>, i: nat)
    requires Valid(s) && IsBoundary(s, i)
    ensures Valid(s[..i]) && Valid(s[i..])
  {
    if 0 < i < |s| {
      var n := CharLen(s);
      var rest := s[n..];
      CutLeavesFirst(s, i);
      CutsCommute(s, n, i);
      ValidParts(rest, i - n);
      ValidCons(s[..i], n, rest[..i - n]);
    } else {
      assert s[..|s|] == s && s[0..] == s;
    }
  }

  lemma FirstCharacterStays(a: seq<byte>, b: seq<byte>)
    requires CharLen(a) > 0
    ensures CharLen(a + b) == CharLen(a)
  {
    assert forall i :: 0 <= i < |a| ==> (a + b)[i] == a[i];
  }

  lemma {:induction false} ValidConcat(a: seq<byte>, b: seq<byte>)
    requires Valid(a) && Valid(b)
    ensures Valid(a + b)
  {
    if a == [] {
      assert a + b == b;
    } else {
      var n := CharLen(a);
      ValidConcat(a[n..], b);
      FirstCharacterStays(a, b);
      DropOfConcat(a, b, n);
    }
  }

  /** An ASCII byte is a whole character: a string may be cut on either side of it. */
  lemma {:induction false} AsciiStandsAlone(s: seq<byte>, k: nat)
    requires Valid(s) && k < |s| && s[k] < 0x80
    ensures IsBoundary(s, k) && IsBoundary(s, k + 1)
  {
    var n := CharLen(s);
    if k >= n {
      AsciiStandsAlone(s[n..], k - n);
      assert s[k..] == s[n..][k - n..];
    } else {
      assert k == 0 && n == 1;
      assert s[1..] == [] || CharLen(s[1..]) > 0;
    }
  }
}
