/** Decimal text of integers. */
module Decimal {
  import opened Strings
  import Radix

  function Text(d: seq<nat>): (s: string)
    requires Radix.InBase(10, d)
    ensures |s| == |d|
    ensures forall i :: 0 <= i < |s| ==> s[i] == ('0' as int + d[i]) as char
  {
    seq(|d|, i requires 0 <= i < |d| => ('0' as int + d[i]) as char)
  }

  function DigitOf(c: char): (d: nat)
    requires IsDigit(c)
    ensures d < 10
  {
    c as int - '0' as int
  }

  function DigitsOf(s: string): (d: seq<nat>)
    requires forall i :: 0 <= i < |s| ==> IsDigit(s[i])
    ensures Radix.InBase(10, d) && |d| == |s|
    ensures forall i :: 0 <= i < |d| ==> d[i] == DigitOf(s[i])
  {
    seq(|s|, i requires 0 <= i < |s| => DigitOf(s[i]))
  }

  function Nat(n: nat): string {
    if n == 0 then "0" else Text(Radix.Digits(10, n))
  }

  function Int(i: int): string {
    if i < 0 then "-" + Nat(-i) else Nat(i)
  }

  /** `s` is `n` in decimal, without leading zeros. */
  ghost predicate IsNatural(s: string, n: nat) {
    && s != "" && (s[0] == '0' ==> n == 0 && s == "0")
    && (forall k | 0 <= k < |s| :: IsDigit(s[k]))
    && Radix.Value(10, DigitsOf(s)) == n
  }

  /** `s` is `i` in decimal, with a sign if it is negative. */
  ghost predicate IsNumeral(s: string, i: int) {
    if i < 0 then s != "" && s[0] == '-' && IsNatural(s[1..], -i) else IsNatural(s, i)
  }

  lemma DigitsOfDigits(d: seq<nat>)
    requires Radix.InBase(10, d)
    ensures forall k | 0 <= k < |d| :: IsDigit(Text(d)[k])
    ensures DigitsOf(Text(d)) == d
  {
    var s := Text(d);
    forall k | 0 <= k < |d| ensures IsDigit(s[k]) && DigitOf(s[k]) == d[k] {
      assert s[k] == ('0' as int + d[k]) as char;
    }
  }

  lemma NatIsNatural(n: nat)
    ensures IsNatural(Nat(n), n)
  {
    if n == 0 {
      Radix.ValueOfAppend(10, [], 0);
      assert DigitsOf("0") == [0] && [] + [0] == [0];
    } else {
      var d := Radix.Digits(10, n);
      Radix.ValueOfDigits(10, n);
      DigitsOfDigits(d);
    }
  }

  lemma Signed(s: string, n: int)
    requires n > 0 && IsNatural(s, n)
    ensures IsNumeral("-" + s, -n)
  {
    var t := "-" + s;
    assert t[0] == '-' && t[1..] == s;
  }

  /** Integers are printed as their decimal numerals. */
  lemma IntIsNumeral(i: int)
    ensures IsNumeral(Int(i), i)
  {
    if i < 0 {
      NatIsNatural(-i);
      Signed(Nat(-i), -i);
    } else {
      NatIsNatural(i);
    }
  }
}
