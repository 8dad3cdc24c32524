/** Congruence of integers modulo `n`. */
module Modular {
  ghost predicate Cong(n: nat, a: int, b: int)
    requires n > 0
  {
    (a - b) % n == 0
  }

  lemma Multiple(n: nat, t: int)
    requires n > 0
    ensures (t * n) % n == 0
  {
    var q, r := t * n / n, t * n % n;
    assert (t - q) * n == r;
    if t - q >= 1 {
      AtLeast(t - q, n);
    } else if t - q <= -1 {
      AtLeast(q - t, n);
    }
  }

  lemma AtLeast(k: int, n: nat)
    requires k >= 1
    ensures k * n >= n
  {
  }

  lemma CongIf(n: nat, a: int, b: int, t: int)
    requires n > 0 && a - b == t * n
    ensures Cong(n, a, b)
  {
    Multiple(n, t);
  }

  lemma Quotient(n: nat, a: int, b: int) returns (t: int)
    requires n > 0 && Cong(n, a, b)
    ensures a - b == t * n
  {
    t := (a - b) / n;
  }

  lemma Mod(n: nat, a: int)
    requires n > 0
    ensures Cong(n, a % n, a)
  {
    CongIf(n, a % n, a, -(a / n));
  }

  lemma Trans(n: nat, a: int, b: int, c: int)
    requires n > 0 && Cong(n, a, b) && Cong(n, b, c)
    ensures Cong(n, a, c)
  {
    var s := Quotient(n, a, b);
    var t := Quotient(n, b, c);
    assert (s + t) * n == s * n + t * n;
    CongIf(n, a, c, s + t);
  }

  lemma Symm(n: nat, a: int, b: int)
    requires n > 0 && Cong(n, a, b)
    ensures Cong(n, b, a)
  {
    var t := Quotient(n, a, b);
    CongIf(n, b, a, -t);
  }

  lemma Mul(n: nat, a: int, b: int, c: int)
    requires n > 0 && Cong(n, a, b)
    ensures Cong(n, a * c, b * c) && Cong(n, c * a, c * b)
  {
    var t := Quotient(n, a, b);
    assert a * c - b * c == (a - b) * c == (t * c) * n;
    CongIf(n, a * c, b * c, t * c);
  }

  lemma Residue(n: nat, a: int, b: int)
    requires n > 0 && Cong(n, a, b) && 0 <= a < n && 0 <= b < n
    ensures a == b
  {
  }

  /** A number's remainder is the one residue congruent to it. */
  lemma RemainderIs(n: nat, a: int, b: int)
    requires n > 0 && Cong(n, a, b) && 0 <= b < n
    ensures a % n == b
  {
    Mod(n, a);
    Trans(n, a % n, a, b);
    Residue(n, a % n, b);
  }
}
