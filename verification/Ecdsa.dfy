/**
 * ECDSA over an abstract group of odd prime order, enough of it to say what the
 * low-S policy accepts. A point is written as its multiple of the generator, and
 * a public key as the multiple that the private scalar makes.
 */
module Ecdsa {
  import opened Common
  import opened Modular

  /**
   * `n` is the group order, `x(k)` the x coordinate of the k-th multiple of the
   * generator reduced modulo `n`, and `inverse` inverts modulo `n`.
   */
  datatype Curve = Curve(n: nat, x: int -> int, inverse: int -> int) {
    ghost predicate Lawful() {
      && n > 2 && n % 2 == 1
      && (forall k :: 0 < k < n ==> x(k) == x(n - k) && 0 <= x(k) < n)
      && (forall s :: 0 < s < n ==> 0 < inverse(s) < n && (s * inverse(s)) % n == 1)
    }
  }

  datatype Signature = Signature(r: int, s: int)

  datatype Policy = LowSOnly | AnyS

  datatype KeyError = SignatureError | SignatureMalleable | ECDSAError

  /** Both components of a parsed signature are non-zero residues. */
  predicate Parsed(c: Curve, sig: Signature) { 0 < sig.r < c.n && 0 < sig.s < c.n }

  predicate IsHigh(c: Curve, s: int) { s > c.n / 2 }

  /** The point a verifier computes, `u1*G + u2*Q` for the public key `Q`. */
  function VerifierPoint(c: Curve, key: int, digest: int, sig: Signature): int
    requires c.n > 0
  {
    (c.inverse(sig.s) * (digest + sig.r * key)) % c.n
  }

  predicate Verifies(c: Curve, key: int, digest: int, sig: Signature)
    requires c.n > 0
  {
    var point := VerifierPoint(c, key, digest, sig);
    point != 0 && c.x(point) == sig.r
  }

  function RejectHighS(c: Curve, sig: Signature): Result<(), KeyError> {
    if IsHigh(c, sig.s) then Err(SignatureMalleable) else Ok(())
  }

  function ValidateWithPolicy(c: Curve, key: int, digest: int, sig: Signature, policy: Policy): Result<(), KeyError>
    requires c.n > 0
  {
    if !Parsed(c, sig) then Err(SignatureError)
    else if policy == LowSOnly && RejectHighS(c, sig).Err? then RejectHighS(c, sig)
    else if Verifies(c, key, digest, sig) then Ok(())
    else Err(ECDSAError)
  }

  function NormalizeS(c: Curve, sig: Signature): Signature {
    if IsHigh(c, sig.s) then Signature(sig.r, c.n - sig.s) else sig
  }

  /** Signing with nonce `k`; a zero component means another nonce is needed. */
  function TrySign(c: Curve, key: int, digest: int, k: int): Option<Signature>
    requires c.n > 0
  {
    var r := c.x(k);
    var s := (c.inverse(k) * (digest + r * key)) % c.n;
    if r == 0 || s == 0 then None else Some(Signature(r, s))
  }

  function Sign(c: Curve, key: int, digest: int, k: int): Option<Signature>
    requires c.n > 0
  {
    match TrySign(c, key, digest, k)
    case None => None
    case Some(sig) => Some(NormalizeS(c, sig))
  }

  // ---- inverses ----

  lemma InverseCong(c: Curve, s: int)
    requires c.Lawful() && 0 < s < c.n
    ensures Cong(c.n, s * c.inverse(s), 1)
  {
    Mod(c.n, s * c.inverse(s));
    Symm(c.n, 1, s * c.inverse(s));
  }

  /** An inverse modulo `n` is unique. */
  lemma InverseUnique(n: nat, s: int, v: int, w: int)
    requires n > 1 && Cong(n, s * v, 1) && Cong(n, s * w, 1) && 0 <= v < n && 0 <= w < n
    ensures v == w
  {
    // v = v*1 = v*(s*w) = (s*v)*w = 1*w = w
    Mul(n, s * w, 1, v);
    Symm(n, (s * w) * v, 1 * v);
    Mul(n, s * v, 1, w);
    assert (s * w) * v == (s * v) * w by { Reorder(s, v, w); }
    Trans(n, v, (s * v) * w, w);
    Residue(n, v, w);
  }

  lemma Reorder(a: int, b: int, c: int)
    ensures (a * c) * b == (a * b) * c
  {
  }

  lemma OppositeProduct(n: int, s: int, w: int)
    ensures (n - s) * (n - w) - s * w == (n - s - w) * n
  {
  }

  lemma OppositeInverse(c: Curve, s: int)
    requires c.Lawful() && 0 < s < c.n
    ensures c.inverse(c.n - s) == c.n - c.inverse(s)
  {
    var w := c.inverse(s);
    InverseCong(c, s);
    InverseCong(c, c.n - s);
    OppositeProduct(c.n, s, w);
    CongIf(c.n, (c.n - s) * (c.n - w), s * w, c.n - s - w);
    Trans(c.n, (c.n - s) * (c.n - w), s * w, 1);
    InverseUnique(c.n, c.n - s, c.inverse(c.n - s), c.n - w);
  }

  // ---- malleability ----

  lemma Minus(m: int, n: int)
    ensures m * n - n == (m - 1) * n
  {
  }

  lemma NegatedResidue(n: nat, m: int, k: int)
    requires n > 0 && 0 <= k < n
    ensures (m * n - k) % n == if k == 0 then 0 else n - k
  {
    if k == 0 {
      Multiple(n, m);
    } else {
      var a := m * n - k;
      Minus(m, n);
      CongIf(n, a, n - k, m - 1);
      RemainderIs(n, a, n - k);
    }
  }

  lemma OppositePoint(n: nat, w: int, u: int)
    requires n > 0
    ensures ((n - w) * u) % n == if (w * u) % n == 0 then 0 else n - (w * u) % n
  {
    var k, t := (w * u) % n, w * u / n;
    assert w * u == t * n + k;
    Distribute(n, w, u, t, k);
    NegatedResidue(n, u - t, k);
  }

  lemma Distribute(n: int, w: int, u: int, t: int, k: int)
    requires w * u == t * n + k
    ensures (n - w) * u == (u - t) * n - k
  {
    assert (n - w) * u == n * u - w * u;
    assert (u - t) * n == u * n - t * n;
  }

  /** Negating `s` negates the verifier's point, so the twin verifies just as well. */
  lemma TwinVerifies(c: Curve, key: int, digest: int, sig: Signature)
    requires c.Lawful() && Parsed(c, sig)
    ensures Verifies(c, key, digest, Signature(sig.r, c.n - sig.s)) <==> Verifies(c, key, digest, sig)
  {
    OppositeInverse(c, sig.s);
    OppositePoint(c.n, c.inverse(sig.s), digest + sig.r * key);
  }

  /** `s` is in the lower half of the range. */
  predicate IsLow(c: Curve, s: int) { 2 * s < c.n }

  /** Normalising gives whichever of the two has the smaller `s`. */
  lemma NormalizesToLow(c: Curve, sig: Signature)
    requires c.Lawful() && Parsed(c, sig)
    ensures Parsed(c, NormalizeS(c, sig)) && IsLow(c, NormalizeS(c, sig).s)
    ensures NormalizeS(c, sig) == if IsLow(c, sig.s) then sig else Signature(sig.r, c.n - sig.s)
  {
  }

  /**
   * Of a valid signature and its twin both pass `AnyS`, and exactly one passes `LowSOnly`: the one
   * whose `s` is in the lower half, which normalising gives, whichever of the two it is given.
   */
  lemma ExactlyOneIsLow(c: Curve, key: int, digest: int, sig: Signature)
    requires c.Lawful() && ValidateWithPolicy(c, key, digest, sig, AnyS).Ok?
    ensures
      var twin := Signature(sig.r, c.n - sig.s);
      && ValidateWithPolicy(c, key, digest, twin, AnyS).Ok?
      && (ValidateWithPolicy(c, key, digest, sig, LowSOnly).Ok?
          <==> ValidateWithPolicy(c, key, digest, twin, LowSOnly).Err?)
      && (ValidateWithPolicy(c, key, digest, sig, LowSOnly).Ok? <==> IsLow(c, sig.s))
      && (ValidateWithPolicy(c, key, digest, twin, LowSOnly).Ok? <==> IsLow(c, twin.s))
      && NormalizeS(c, sig) == NormalizeS(c, twin)
      && ValidateWithPolicy(c, key, digest, NormalizeS(c, sig), LowSOnly).Ok?
  {
    TwinVerifies(c, key, digest, sig);
  }

  /** The low-S policy is the other policy and the canonical form, nothing else. */
  lemma PolicyIsCanonicalForm(c: Curve, key: int, digest: int, sig: Signature)
    requires c.Lawful()
    ensures ValidateWithPolicy(c, key, digest, sig, LowSOnly).Ok? <==>
            ValidateWithPolicy(c, key, digest, sig, AnyS).Ok? && IsLow(c, sig.s)
    ensures ValidateWithPolicy(c, key, digest, sig, LowSOnly) == Err(SignatureMalleable) <==>
            Parsed(c, sig) && !IsLow(c, sig.s)
    ensures ValidateWithPolicy(c, key, digest, sig, LowSOnly).Ok? <==>
            ValidateWithPolicy(c, key, digest, sig, AnyS).Ok? && NormalizeS(c, sig) == sig
  {
  }

  /** Why a signature is refused: it does not parse, it is malleable under the strict policy, or it does not verify. */
  lemma RefusalIsReal(c: Curve, key: int, digest: int, sig: Signature, policy: Policy)
    requires c.Lawful() && ValidateWithPolicy(c, key, digest, sig, policy).Err?
    ensures match ValidateWithPolicy(c, key, digest, sig, policy).error
      case SignatureError => !Parsed(c, sig)
      case SignatureMalleable => Parsed(c, sig) && policy == LowSOnly && !IsLow(c, sig.s)
      case ECDSAError => Parsed(c, sig) && (policy == AnyS || IsLow(c, sig.s)) && !Verifies(c, key, digest, sig)
  {
  }

  // ---- signing ----

  lemma NonceTimesS(n: nat, k: int, i: int, u: int, s: int)
    requires n > 0 && Cong(n, k * i, 1) && Cong(n, s, i * u)
    ensures Cong(n, k * s, u)
  {
    Mul(n, s, i * u, k);
    Mul(n, k * i, 1, u);
    Regroup(k, i, u);
    Trans(n, k * s, (k * i) * u, u);
  }

  lemma RecoversNonce(n: nat, k: int, u: int, s: int, w: int)
    requires n > 0 && Cong(n, k * s, u) && Cong(n, s * w, 1)
    ensures Cong(n, w * u, k)
  {
    Mul(n, k * s, u, w);
    Symm(n, w * (k * s), w * u);
    Mul(n, s * w, 1, k);
    Rotate(w, k, s);
    Trans(n, w * u, k * (s * w), k);
  }

  lemma Regroup(a: int, b: int, c: int)
    ensures a * (b * c) == (a * b) * c
  {
  }

  lemma Rotate(a: int, b: int, c: int)
    ensures a * (b * c) == b * (c * a)
  {
  }

  lemma RawSignatureVerifies(c: Curve, key: int, digest: int, k: int)
    requires c.Lawful() && 0 < k < c.n && TrySign(c, key, digest, k).Some?
    ensures Parsed(c, TrySign(c, key, digest, k).value)
    ensures Verifies(c, key, digest, TrySign(c, key, digest, k).value)
  {
    var u := digest + c.x(k) * key;
    SignedPoint(c, k, u, (c.inverse(k) * u) % c.n);
  }

  lemma SignedPoint(c: Curve, k: int, u: int, s: int)
    requires c.Lawful() && 0 < k < c.n && s == (c.inverse(k) * u) % c.n && s != 0
    ensures 0 < s < c.n && (c.inverse(s) * u) % c.n == k
  {
    Mod(c.n, c.inverse(k) * u);
    InverseCong(c, k);
    NonceTimesS(c.n, k, c.inverse(k), u, s);
    InverseCong(c, s);
    RecoversNonce(c.n, k, u, s, c.inverse(s));
    RemainderIs(c.n, c.inverse(s) * u, k);
  }

  /** What signing returns is low-S, validates under the strict policy, and is fixed by normalising. */
  lemma SignedValidates(c: Curve, key: int, digest: int, k: int)
    requires c.Lawful() && 0 < k < c.n && Sign(c, key, digest, k).Some?
    ensures
      var sig := Sign(c, key, digest, k).value;
      && ValidateWithPolicy(c, key, digest, sig, LowSOnly).Ok?
      && NormalizeS(c, sig) == sig
      && IsLow(c, sig.s)
  {
    RawSignatureVerifies(c, key, digest, k);
    ExactlyOneIsLow(c, key, digest, TrySign(c, key, digest, k).value);
  }

  // ---- what verifying means ----

  /** The nonce `k` relates the signature to the digest under the key. */
  ghost predicate MadeWith(c: Curve, key: int, digest: int, sig: Signature, k: int)
    requires c.n > 0
  {
    0 < k < c.n && c.x(k) == sig.r && Cong(c.n, sig.s * k, digest + sig.r * key)
  }

  /** A parsed signature verifies exactly when some nonce relates it to the digest under the key. */
  lemma VerifiesExactly(c: Curve, key: int, digest: int, sig: Signature)
    requires c.Lawful() && Parsed(c, sig)
    ensures Verifies(c, key, digest, sig) <==> exists k :: MadeWith(c, key, digest, sig, k)
  {
    var u := digest + sig.r * key;
    if Verifies(c, key, digest, sig) {
      var k := NonceOf(c, sig.s, u);
      assert MadeWith(c, key, digest, sig, k);
    }
    forall k | MadeWith(c, key, digest, sig, k) ensures Verifies(c, key, digest, sig) {
      NonceIs(c, sig.s, u, k);
    }
  }

  lemma NonceOf(c: Curve, s: int, u: int) returns (k: int)
    requires c.Lawful() && 0 < s < c.n
    ensures k == (c.inverse(s) * u) % c.n && 0 <= k < c.n && Cong(c.n, s * k, u)
  {
    k := (c.inverse(s) * u) % c.n;
    InverseCong(c, s);
    Mod(c.n, c.inverse(s) * u);
    NonceTimesS(c.n, s, c.inverse(s), u, k);
  }

  lemma NonceIs(c: Curve, s: int, u: int, k: int)
    requires c.Lawful() && 0 < s < c.n && 0 < k < c.n && Cong(c.n, s * k, u)
    ensures (c.inverse(s) * u) % c.n == k
  {
    InverseCong(c, s);
    Flip(k, s);
    RecoversNonce(c.n, k, u, s, c.inverse(s));
    RemainderIs(c.n, c.inverse(s) * u, k);
  }

  lemma Flip(a: int, b: int)
    ensures a * b == b * a
  {
  }
}
