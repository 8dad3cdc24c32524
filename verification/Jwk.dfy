/** JSON Web Keys for the three EC curves (sections 6.2.1 and 6.2.2 of RFC 7518). */
module Jwk {
  import opened Common
  import Base64
  import Radix

  const CRV_P256 := "P-256"
  const CRV_P384 := "P-384"
  const CRV_K256 := "secp256k1"

  datatype JwkError = UnsupportedCurve | NotUncompressed | ScalarTooWide | WrongKeyType | NotBase64Url | WrongWidth

  datatype Jwk = Jwk(kty: string, crv: string, x: string, y: string, d: Option<string>)

  function CoordinateLen(crv: string): Option<nat> {
    if crv == CRV_P256 || crv == CRV_K256 then Some(32)
    else if crv == CRV_P384 then Some(48)
    else None
  }

  function FromSec1Uncompressed(crv: string, point: seq<byte>): Result<Jwk, JwkError> {
    match CoordinateLen(crv)
    case None => Err(UnsupportedCurve)
    case Some(width) =>
      if point == [] || point[0] != 0x04 || |point| != 1 + 2 * width then Err(NotUncompressed)
      else
        var x, y := point[1..][..width], point[1..][width..];
        Ok(Jwk("EC", crv, Base64.Encode(Base64.URL_SAFE_NO_PAD, x), Base64.Encode(Base64.URL_SAFE_NO_PAD, y), None))
  }

  function DecodeCoordinate(value: string, width: nat): Result<seq<byte>, JwkError> {
    match Base64.Decode(Base64.URL_SAFE_NO_PAD, value)
    case None => Err(NotBase64Url)
    case Some(bytes) => if |bytes| != width then Err(WrongWidth) else Ok(bytes)
  }

  /** The SEC1 uncompressed encoding a JWK stands for. */
  function Sec1(jwk: Jwk): Result<seq<byte>, JwkError> {
    match CoordinateLen(jwk.crv)
    case None => Err(UnsupportedCurve)
    case Some(width) =>
      if jwk.kty != "EC" then Err(WrongKeyType)
      else
        match (DecodeCoordinate(jwk.x, width), DecodeCoordinate(jwk.y, width))
        case (Err(e), _) => Err(e)
        case (Ok(_), Err(e)) => Err(e)
        case (Ok(x), Ok(y)) => Ok([0x04] + x + y)
  }

  method ToSec1Uncompressed(jwk: Jwk) returns (r: Result<seq<byte>, JwkError>)
    ensures r == Sec1(jwk)
  {
    var width := CoordinateLen(jwk.crv);
    if width.None? { return Err(UnsupportedCurve); }
    if jwk.kty != "EC" { return Err(WrongKeyType); }
    var x := DecodeCoordinate(jwk.x, width.value);
    if x.Err? { return Err(x.error); }
    var y := DecodeCoordinate(jwk.y, width.value);
    if y.Err? { return Err(y.error); }
    var out: seq<byte> := [0x04];
    out := out + x.value;
    out := out + y.value;
    return Ok(out);
  }

  lemma PointParts(point: seq<byte>, width: nat)
    requires |point| == 1 + 2 * width
    ensures point == [point[0]] + point[1..][..width] + point[1..][width..]
  {
    SplitAt(point, 0);
    Associative([point[0]], point[1..][..width], point[1..][width..]);
    assert point[1..] == point[1..][..width] + point[1..][width..];
  }

  /** Every well-formed point survives the trip through a JWK. */
  lemma Sec1UndoesFromSec1(crv: string, point: seq<byte>)
    ensures FromSec1Uncompressed(crv, point).Ok? <==>
            CoordinateLen(crv).Some? && |point| == 1 + 2 * CoordinateLen(crv).value && point[0] == 0x04
    ensures FromSec1Uncompressed(crv, point).Ok? ==> Sec1(FromSec1Uncompressed(crv, point).value) == Ok(point)
  {
    if FromSec1Uncompressed(crv, point).Ok? {
      var width := CoordinateLen(crv).value;
      var x, y := point[1..][..width], point[1..][width..];
      Base64.RoundTrip(Base64.URL_SAFE_NO_PAD, Base64.URL_SAFE_NO_PAD, x);
      Base64.RoundTrip(Base64.URL_SAFE_NO_PAD, Base64.URL_SAFE_NO_PAD, y);
      PointParts(point, width);
    }
  }

  lemma CoordinateIsCanonical(value: string, width: nat)
    requires DecodeCoordinate(value, width).Ok?
    ensures Base64.Encode(Base64.URL_SAFE_NO_PAD, DecodeCoordinate(value, width).value) == value
  {
    Base64.OneTextPerByteString(Base64.URL_SAFE_NO_PAD, value);
  }

  lemma FromCoordinates(crv: string, width: nat, x: seq<byte>, y: seq<byte>)
    requires CoordinateLen(crv) == Some(width) && |x| == |y| == width
    ensures FromSec1Uncompressed(crv, [0x04] + x + y)
         == Ok(Jwk("EC", crv, Base64.Encode(Base64.URL_SAFE_NO_PAD, x), Base64.Encode(Base64.URL_SAFE_NO_PAD, y), None))
  {
    var point := [0x04] + x + y;
    assert point[1..] == x + y;
    assert point[1..][..width] == x && point[1..][width..] == y;
  }

  /**
   * The point determines the coordinate texts: rebuilding the JWK from its point
   * gives back the same `x` and `y`, so one key has one thumbprint.
   */
  lemma FromSec1UndoesSec1(jwk: Jwk)
    requires Sec1(jwk).Ok?
    ensures FromSec1Uncompressed(jwk.crv, Sec1(jwk).value) == Ok(jwk.(d := None))
  {
    var width := CoordinateLen(jwk.crv).value;
    CoordinateIsCanonical(jwk.x, width);
    CoordinateIsCanonical(jwk.y, width);
    FromCoordinates(jwk.crv, width, DecodeCoordinate(jwk.x, width).value, DecodeCoordinate(jwk.y, width).value);
  }

  /** The curves and the width of their coordinates. */
  predicate HasWidth(crv: string, width: nat) {
    ((crv == "P-256" || crv == "secp256k1") && width == 32) || (crv == "P-384" && width == 48)
  }

  /** The text is unpadded base64url of the coordinate, which fills the width. */
  predicate SpellsCoordinate(text: string, coordinate: seq<byte>, width: nat) {
    Base64.Decode(Base64.URL_SAFE_NO_PAD, text) == Some(coordinate) && |coordinate| == width
  }

  /** A JWK stands for the point 04, x, y exactly when it is an EC key that spells both coordinates. */
  lemma PointExactly(jwk: Jwk, point: seq<byte>)
    ensures Sec1(jwk) == Ok(point) <==> jwk.kty == "EC" && exists width: nat, x, y ::
      && HasWidth(jwk.crv, width) && SpellsCoordinate(jwk.x, x, width) && SpellsCoordinate(jwk.y, y, width)
      && point == [0x04] + x + y
  {
    assert forall width: nat :: HasWidth(jwk.crv, width) <==> CoordinateLen(jwk.crv) == Some(width);
    assert forall text, coordinate, width: nat ::
      SpellsCoordinate(text, coordinate, width) <==> DecodeCoordinate(text, width) == Ok(coordinate);
    if Sec1(jwk) == Ok(point) {
      var width := CoordinateLen(jwk.crv).value;
      var x, y := DecodeCoordinate(jwk.x, width).value, DecodeCoordinate(jwk.y, width).value;
      assert HasWidth(jwk.crv, width) && SpellsCoordinate(jwk.x, x, width) && SpellsCoordinate(jwk.y, y, width);
    }
  }

  /** Why a JWK stands for no point: the first thing wrong with it. */
  lemma RefusalIsReal(jwk: Jwk)
    requires Sec1(jwk).Err?
    ensures match Sec1(jwk).error
      case UnsupportedCurve => forall width: nat :: !HasWidth(jwk.crv, width)
      case WrongKeyType => CoordinateLen(jwk.crv).Some? && jwk.kty != "EC"
      case NotBase64Url => exists text | text in [jwk.x, jwk.y] :: Base64.Decode(Base64.URL_SAFE_NO_PAD, text).None?
      case WrongWidth => CoordinateLen(jwk.crv).Some? && exists text, bytes | text in [jwk.x, jwk.y] ::
        Base64.Decode(Base64.URL_SAFE_NO_PAD, text) == Some(bytes) && |bytes| != CoordinateLen(jwk.crv).value
      case _ => false
  {
    assert jwk.x in [jwk.x, jwk.y] && jwk.y in [jwk.x, jwk.y];
  }

  // ---- the private scalar ----

  function LeftPad(width: nat, scalar: seq<byte>): seq<byte>
    requires |scalar| <= width
  {
    seq(width - |scalar|, _ => 0) + scalar
  }

  method WithPrivateScalar(jwk: Jwk, scalar: seq<byte>) returns (r: Result<Jwk, JwkError>)
    ensures CoordinateLen(jwk.crv).None? ==> r == Err(UnsupportedCurve)
    ensures CoordinateLen(jwk.crv).Some? && |scalar| > CoordinateLen(jwk.crv).value ==> r == Err(ScalarTooWide)
    ensures CoordinateLen(jwk.crv).Some? && |scalar| <= CoordinateLen(jwk.crv).value ==>
              && r.Ok?
              && r.value.(d := None) == jwk.(d := None)
              && PrivateScalar(r.value) == Ok(Some(LeftPad(CoordinateLen(jwk.crv).value, scalar)))
  {
    var width := CoordinateLen(jwk.crv);
    if width.None? { return Err(UnsupportedCurve); }
    if |scalar| > width.value { return Err(ScalarTooWide); }
    var padded: seq<byte> := seq(width.value - |scalar|, _ => 0);
    padded := padded + scalar;
    Base64.RoundTrip(Base64.URL_SAFE_NO_PAD, Base64.URL_SAFE_NO_PAD, padded);
    return Ok(jwk.(d := Some(Base64.Encode(Base64.URL_SAFE_NO_PAD, padded))));
  }

  function PrivateScalar(jwk: Jwk): Result<Option<seq<byte>>, JwkError> {
    match jwk.d
    case None => Ok(None)
    case Some(d) =>
      match CoordinateLen(jwk.crv)
      case None => Err(UnsupportedCurve)
      case Some(width) =>
        match DecodeCoordinate(d, width)
        case Ok(bytes) => Ok(Some(bytes))
        case Err(e) => Err(e)
  }

  /**
   * Left-padding keeps the big-endian value, and two scalars pad to the same
   * bytes exactly when they are the same number.
   */
  lemma LeftPadKeepsValue(width: nat, scalar: seq<byte>, other: seq<byte>)
    requires |scalar| <= width && |other| <= width
    ensures |LeftPad(width, scalar)| == width
    ensures Radix.Value(256, LeftPad(width, scalar)) == Radix.Value(256, scalar)
    ensures LeftPad(width, scalar) == LeftPad(width, other) <==> Radix.Value(256, scalar) == Radix.Value(256, other)
  {
    Radix.LeadingZerosAddNothing(256, width - |scalar|, scalar);
    Radix.LeadingZerosAddNothing(256, width - |other|, other);
    assert LeftPad(width, scalar) == Radix.Zeros(width - |scalar|) + scalar;
    assert LeftPad(width, other) == Radix.Zeros(width - |other|) + other;
    if Radix.Value(256, scalar) == Radix.Value(256, other) {
      Radix.ValueInjective(256, LeftPad(width, scalar), LeftPad(width, other));
    }
  }
}
