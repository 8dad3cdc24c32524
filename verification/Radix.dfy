/** Big-endian positional numerals, and changing their base without losing leading zeros. */
module Radix {
  ghost predicate InBase(base: nat, d: seq<nat>) {
    forall i :: 0 <= i < |d| ==> d[i] < base
  }

  function Value(base: nat, d: seq<nat>): nat {
    if d == [] then 0 else Value(base, d[..|d| - 1]) * base + d[|d| - 1]
  }

  /** The numeral of `n` without leading zeros; zero has no digits. */
  function Digits(base: nat, n: nat): (d: seq<nat>)
    requires base >= 2
    ensures InBase(base, d)
    ensures d == [] || d[0] != 0
  {
    if n == 0 then [] else Digits(base, n / base) + [n % base]
  }

  lemma ValueOfAppend(base: nat, d: seq<nat>, last: nat)
    ensures Value(base, d + [last]) == Value(base, d) * base + last
  {
    assert (d + [last])[..|d|] == d;
  }

  lemma DivMod(base: nat, n: nat) returns (q: nat, r: nat)
    requires base >= 2
    ensures q == n / base && r == n % base
    ensures q * base + r == n && r < base
    ensures n > 0 ==> q < n
    ensures n > 0 ==> Digits(base, n) == Digits(base, q) + [r]
  {
    q, r := n / base, n % base;
  }

  lemma {:induction false} ValueOfDigits(base: nat, n: nat)
    requires base >= 2
    ensures Value(base, Digits(base, n)) == n
  {
    if n != 0 {
      var q, r := DivMod(base, n);
      ValueOfDigits(base, q);
      calc {
        Value(base, Digits(base, n));
        Value(base, Digits(base, q) + [r]);
        { ValueOfAppend(base, Digits(base, q), r); }
        Value(base, Digits(base, q)) * base + r;
        q * base + r;
        n;
      }
    }
  }

  lemma ProductGap(base: nat, p: int, q: int)
    requires p < q
    ensures p * base + base <= q * base
  {
    assert (q - p - 1) * base >= 0;
  }

  /** Quotient and remainder are unique. */
  lemma DivModOfSum(base: nat, q: nat, r: nat)
    requires base >= 2 && r < base
    ensures (q * base + r) / base == q && (q * base + r) % base == r
  {
    var p := (q * base + r) / base;
    var _, _ := DivMod(base, q * base + r);
    if p < q {
      ProductGap(base, p, q);
    } else if q < p {
      ProductGap(base, q, p);
    }
  }

  /** One more digit at the end. */
  lemma DigitsOfSum(base: nat, q: nat, r: nat)
    requires base >= 2 && r < base && (q > 0 || r > 0)
    ensures Digits(base, q * base + r) == Digits(base, q) + [r]
  {
    DivModOfSum(base, q, r);
    Positive(base, q, r);
  }

  lemma Positive(base: nat, q: nat, r: nat)
    requires base >= 2 && (q > 0 || r > 0)
    ensures q * base + r > 0
  {
    if q > 0 { assert q * base >= base; }
  }

  lemma DigitsOfAppend(base: nat, init: seq<nat>, last: nat, q: nat)
    requires base >= 2 && last < base && (init != [] || last > 0)
    requires q == Value(base, init) && Digits(base, q) == init
    ensures Digits(base, Value(base, init + [last])) == init + [last]
  {
    ValueOfAppend(base, init, last);
    DigitsOfSum(base, q, last);
  }

  lemma {:induction false} DigitsOfValue(base: nat, d: seq<nat>)
    requires base >= 2 && InBase(base, d)
    requires d == [] || d[0] != 0
    ensures Digits(base, Value(base, d)) == d
  {
    if d != [] {
      var init, last := d[..|d| - 1], d[|d| - 1];
      assert d == init + [last];
      assert init != [] ==> init[0] == d[0];
      DigitsOfValue(base, init);
      DigitsOfAppend(base, init, last, Value(base, init));
    }
  }

  // ---- how large a numeral can be ----

  function Power(base: nat, k: nat): nat {
    if k == 0 then 1 else base * Power(base, k - 1)
  }

  lemma {:induction false} PowerAdds(base: nat, j: nat, k: nat)
    ensures Power(base, j + k) == Power(base, j) * Power(base, k)
  {
    if j > 0 {
      PowerAdds(base, j - 1, k);
      ThreeFactors(base, Power(base, j - 1), Power(base, k));
    }
  }

  lemma ThreeFactors(a: int, b: int, c: int)
    ensures a * (b * c) == (a * b) * c
  {
  }

  lemma {:induction false} PowerGrows(base: nat, j: nat, k: nat)
    requires base >= 1 && j <= k
    ensures 1 <= Power(base, j) <= Power(base, k)
    decreases k
  {
    if j == k {
      if j > 0 { PowerGrows(base, j - 1, j - 1); AtLeastOnce(base, Power(base, j - 1)); }
    } else {
      PowerGrows(base, j, k - 1);
      AtLeastOnce(base, Power(base, k - 1));
    }
  }

  lemma AtLeastOnce(base: nat, p: nat)
    requires base >= 1
    ensures base * p >= p
  {
  }

  lemma {:induction false} ValueBelow(base: nat, d: seq<nat>)
    requires base >= 2 && InBase(base, d)
    ensures Value(base, d) < Power(base, |d|)
  {
    if d != [] {
      ValueBelow(base, d[..|d| - 1]);
      ProductGap(base, Value(base, d[..|d| - 1]), Power(base, |d| - 1));
    }
  }

  lemma {:induction false} ValueOfConcat(base: nat, a: seq<nat>, b: seq<nat>)
    ensures Value(base, a + b) == Value(base, a) * Power(base, |b|) + Value(base, b)
  {
    if b == [] {
      assert a + b == a;
    } else {
      var init, last := b[..|b| - 1], b[|b| - 1];
      assert a + b == (a + init) + [last];
      ValueOfConcat(base, a, init);
      ValueOfAppend(base, a + init, last);
      ScaledSum(base, Value(base, a), Power(base, |init|), Value(base, init));
    }
  }

  lemma ScaledSum(base: int, a: int, p: int, v: int)
    ensures (a * p + v) * base == a * (base * p) + v * base
  {
  }

  lemma QuotientBetween(base: nat, n: nat, q: nat, r: nat, low: nat, high: nat)
    requires n == q * base + r && r < base && low * base <= n < high * base
    ensures low <= q < high
  {
    if q < low {
      ProductGap(base, q, low);
    } else if high <= q {
      if high < q { ProductGap(base, high, q); }
    }
  }

  /** A number that is `top` but for its last `k` digits has the digits of `top` first. */
  lemma {:induction false} TopDigits(base: nat, n: nat, top: nat, k: nat)
    requires base >= 2 && top > 0
    requires top * Power(base, k) <= n < (top + 1) * Power(base, k)
    ensures Digits(base, top) <= Digits(base, n)
    decreases k
  {
    if k > 0 {
      var p := Power(base, k - 1);
      var q, r := DivMod(base, n);
      ThreeFactors(top, p, base);
      ThreeFactors(top + 1, p, base);
      assert base * p == p * base;
      QuotientBetween(base, n, q, r, top * p, (top + 1) * p);
      TopDigits(base, q, top, k - 1);
      PowerGrows(base, 0, k - 1);
      AtLeastOnce(top, p);
      assert n > 0;
    }
  }

  function Zeros(n: nat): seq<nat> { seq(n, _ => 0) }

  lemma {:induction false} LeadingZerosAddNothing(base: nat, n: nat, d: seq<nat>)
    ensures Value(base, Zeros(n) + d) == Value(base, d)
  {
    var s := Zeros(n) + d;
    if d != [] {
      assert s[..|s| - 1] == Zeros(n) + d[..|d| - 1];
      LeadingZerosAddNothing(base, n, d[..|d| - 1]);
    } else if n > 0 {
      assert s[..|s| - 1] == Zeros(n - 1) + [];
      LeadingZerosAddNothing(base, n - 1, []);
    }
  }

  /** Numerals of one width are equal when their values are. */
  lemma {:induction false} ValueInjective(base: nat, d: seq<nat>, e: seq<nat>)
    requires base >= 2 && InBase(base, d) && InBase(base, e)
    requires |d| == |e| && Value(base, d) == Value(base, e)
    ensures d == e
  {
    if d != [] {
      var k := |d| - 1;
      DivModOfSum(base, Value(base, d[..k]), d[k]);
      DivModOfSum(base, Value(base, e[..k]), e[k]);
      ValueInjective(base, d[..k], e[..k]);
      assert d == d[..k] + [d[k]] && e == e[..k] + [e[k]];
    }
  }

  function LeadingZeros(d: seq<nat>): (n: nat)
    ensures n <= |d| && d[..n] == Zeros(n)
    ensures n == |d| || d[n] != 0
  {
    if d != [] && d[0] == 0 then
      var n := LeadingZeros(d[1..]);
      assert d[..n + 1] == [0] + d[1..][..n];
      n + 1
    else 0
  }

  lemma {:induction false} LeadingZerosOf(n: nat, d: seq<nat>)
    requires d == [] || d[0] != 0
    ensures LeadingZeros(Zeros(n) + d) == n
  {
    if n > 0 {
      assert (Zeros(n) + d)[1..] == Zeros(n - 1) + d;
      LeadingZerosOf(n - 1, d);
    } else {
      assert Zeros(n) + d == d;
    }
  }

  /** Rewrite `d` from one base in another, keeping one leading zero for each leading zero. */
  function Convert(from: nat, to: nat, d: seq<nat>): (e: seq<nat>)
    requires to >= 2
    ensures InBase(to, e)
  {
    Zeros(LeadingZeros(d)) + Digits(to, Value(from, d))
  }

  /** Changing the base and changing it back is the identity, leading zeros included. */
  lemma ConvertInverts(from: nat, to: nat, d: seq<nat>)
    requires from >= 2 && to >= 2 && InBase(from, d)
    ensures Convert(to, from, Convert(from, to, d)) == d
  {
    var z := LeadingZeros(d);
    var rest := d[z..];
    assert d == Zeros(z) + rest;
    LeadingZerosAddNothing(from, z, rest);
    var digits := Digits(to, Value(from, rest));
    LeadingZerosOf(z, digits);
    LeadingZerosAddNothing(to, z, digits);
    ValueOfDigits(to, Value(from, rest));
    DigitsOfValue(from, rest);
  }
}
