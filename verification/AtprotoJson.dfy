/** The AT Protocol's JSON spelling of the data model, read and written. */
module AtprotoJson {
  import opened Common
  import opened Json
  import opened CidText
  import Base64
  import Decimal

  const LINK_KEY := "$link"
  const BYTES_KEY := "$bytes"

  /** A double: a number, the zero that has a sign, an infinity or not a number. */
  datatype F64 = Finite(r: real) | NegativeZero | NotFinite

  datatype Ipld =
    | Null
    | Bool(b: bool)
    | Integer(i: int)
    | Float(f: F64)
    | String(s: string)
    | Bytes(bytes: seq<byte>)
    | List(items: seq<Ipld>)
    | Map(entries: map<string, Ipld>)
    | Link(cid: Cid)

  /** The only failure the translation reports. */
  datatype EncodeError = InvalidValue

  predicate Reserved(keys: set<string>) { LINK_KEY in keys || BYTES_KEY in keys }

  /** Reading a number: a float is an integer if it is integral and no larger than 2^63. */
  function NumberToIpld(n: Number): Result<Ipld, EncodeError> {
    match n
    case PosInt(i) => Ok(Integer(i))
    case NegInt(i) => Ok(Integer(i))
    case Float(f) =>
      var magnitude := if f < 0.0 then -f else f;
      // `i64::MAX as f64` rounds up to 2^63
      if f.Floor as real == f && magnitude <= (I64_MAX + 1) as real then Ok(Integer(f.Floor)) else Err(InvalidValue)
  }

  function IpldFromJson(lib: Library, j: Json): Result<Ipld, EncodeError>
    decreases j
  {
    match j
    case Null => Ok(Ipld.Null)
    case Bool(b) => Ok(Ipld.Bool(b))
    case Str(s) => Ok(String(s))
    case Num(n) => NumberToIpld(n)
    case Arr(items) =>
      if forall i | 0 <= i < |items| :: IpldFromJson(lib, items[i]).Ok? then
        Ok(List(seq(|items|, i requires 0 <= i < |items| && IpldFromJson(lib, items[i]).Ok? =>
          IpldFromJson(lib, items[i]).value)))
      else Err(InvalidValue)
    case Obj(fields) =>
      if LINK_KEY in fields then
        if |fields| != 1 || !fields[LINK_KEY].Str? then Err(InvalidValue)
        else
          match Parse(lib, fields[LINK_KEY].s)
          case Some(cid) => Ok(Link(cid))
          case None => Err(InvalidValue)
      else if BYTES_KEY in fields then
        if |fields| != 1 || !fields[BYTES_KEY].Str? then Err(InvalidValue)
        else
          match Base64.Decode(Base64.BYTES_ENGINE, fields[BYTES_KEY].s)
          case Some(bytes) => Ok(Bytes(bytes))
          case None => Err(InvalidValue)
      else if forall k | k in fields :: IpldFromJson(lib, fields[k]).Ok? then
        Ok(Map(map k | k in fields :: IpldFromJson(lib, fields[k]).value))
      else Err(InvalidValue)
  }

  function JsonFromIpld(lib: Library, v: Ipld): Json
    decreases v
  {
    match v
    case Null => Json.Null
    case Bool(b) => Json.Bool(b)
    case Integer(i) => if FitsI64(i) then Num(NumberFromI64(i)) else Str(Decimal.Int(i))
    case Float(Finite(r)) => Num(Number.Float(r))
    case Float(NegativeZero) => Num(Number.Float(0.0))
    case Float(NotFinite) => Json.Null
    case String(s) => Str(s)
    case Bytes(b) => Obj(map[BYTES_KEY := Str(Base64.Encode(Base64.STANDARD_NO_PAD, b))])
    case List(items) => Arr(seq(|items|, i requires 0 <= i < |items| => JsonFromIpld(lib, items[i])))
    case Map(entries) => Obj(map k | k in entries :: JsonFromIpld(lib, entries[k]))
    case Link(cid) => Obj(map[LINK_KEY := Str(Print(lib, cid))])
  }

  // ---- what survives ----

  /** No float anywhere, and no map that JSON would read as a link or a byte string. */
  ghost predicate Expressible(v: Ipld) {
    match v
    case Float(_) => false
    case List(items) => forall i | 0 <= i < |items| :: Expressible(items[i])
    case Map(entries) => !Reserved(entries.Keys) && forall k | k in entries :: Expressible(entries[k])
    case _ => true
  }

  /** Links hold CIDs, as the type of links has it. */
  ghost predicate LinksHoldCids(lib: Library, v: Ipld) {
    match v
    case Link(cid) => lib.isCid(cid.bytes)
    case List(items) => forall i | 0 <= i < |items| :: LinksHoldCids(lib, items[i])
    case Map(entries) => forall k | k in entries :: LinksHoldCids(lib, entries[k])
    case _ => true
  }

  /** No link is of version 0, which prints as text the reader refuses. */
  ghost predicate LinksAreV1(v: Ipld) {
    match v
    case Link(cid) => !IsV0(cid)
    case List(items) => forall i | 0 <= i < |items| :: LinksAreV1(items[i])
    case Map(entries) => forall k | k in entries :: LinksAreV1(entries[k])
    case _ => true
  }

  ghost predicate IntegersFit(v: Ipld) {
    match v
    case Integer(i) => FitsI64(i)
    case List(items) => forall i | 0 <= i < |items| :: IntegersFit(items[i])
    case Map(entries) => forall k | k in entries :: IntegersFit(entries[k])
    case _ => true
  }

  /** `v` with every integer JSON cannot hold spelled as a string. */
  function Stringified(v: Ipld): Ipld
    decreases v
  {
    match v
    case Integer(i) => if FitsI64(i) then v else String(Decimal.Int(i))
    case List(items) => List(seq(|items|, i requires 0 <= i < |items| => Stringified(items[i])))
    case Map(entries) => Map(map k | k in entries :: Stringified(entries[k]))
    case _ => v
  }

  lemma {:induction false} StringifiedFixes(v: Ipld)
    ensures Stringified(v) == v <==> IntegersFit(v)
  {
    match v
    case List(items) =>
      forall i | 0 <= i < |items| ensures Stringified(items[i]) == items[i] <==> IntegersFit(items[i]) {
        StringifiedFixes(items[i]);
      }
      var s := Stringified(v).items;
      assert forall i | 0 <= i < |items| :: s[i] == Stringified(items[i]);
      if IntegersFit(v) { assert s == items; }
    case Map(entries) =>
      forall k | k in entries ensures Stringified(entries[k]) == entries[k] <==> IntegersFit(entries[k]) {
        StringifiedFixes(entries[k]);
      }
      var m := Stringified(v).entries;
      assert forall k | k in entries :: m[k] == Stringified(entries[k]);
      if IntegersFit(v) { assert m == entries; }
    case _ =>
  }

  lemma {:induction false} StringifiedPrintsTheSame(lib: Library, v: Ipld)
    ensures JsonFromIpld(lib, Stringified(v)) == JsonFromIpld(lib, v)
  {
    match v
    case List(items) =>
      forall i | 0 <= i < |items| ensures JsonFromIpld(lib, Stringified(items[i])) == JsonFromIpld(lib, items[i]) {
        StringifiedPrintsTheSame(lib, items[i]);
      }
      assert JsonFromIpld(lib, Stringified(v)).items == JsonFromIpld(lib, v).items;
    case Map(entries) =>
      forall k | k in entries ensures JsonFromIpld(lib, Stringified(entries[k])) == JsonFromIpld(lib, entries[k]) {
        StringifiedPrintsTheSame(lib, entries[k]);
      }
      assert JsonFromIpld(lib, Stringified(v)).fields == JsonFromIpld(lib, v).fields;
    case _ =>
  }

  lemma BytesOf(lib: Library, text: string)
    ensures IpldFromJson(lib, Obj(map[BYTES_KEY := Str(text)]))
         == match Base64.Decode(Base64.BYTES_ENGINE, text) case Some(b) => Ok(Bytes(b)) case None => Err(InvalidValue)
  {
    assert LINK_KEY != BYTES_KEY;
  }

  lemma BytesRead(lib: Library, b: seq<byte>)
    ensures IpldFromJson(lib, JsonFromIpld(lib, Bytes(b))) == Ok(Bytes(b))
  {
    var text := Base64.Encode(Base64.STANDARD_NO_PAD, b);
    Base64.RoundTrip(Base64.STANDARD_NO_PAD, Base64.BYTES_ENGINE, b);
    BytesOf(lib, text);
  }

  // ---- what is accepted, and as what ----

  /** The float is the integer `i`, which is no larger than 2^63. */
  predicate IsIntegral(f: real, i: int) {
    i as real == f && -9223372036854775808 <= i <= 9223372036854775808
  }

  /** A float is read exactly when it is an integer within reach of `i64::MAX as f64`, and as that integer. */
  lemma FloatReads(f: real)
    ensures NumberToIpld(Number.Float(f)).Ok? <==> exists i :: IsIntegral(f, i)
    ensures forall i | IsIntegral(f, i) :: NumberToIpld(Number.Float(f)) == Ok(Integer(i))
  {
    if NumberToIpld(Number.Float(f)).Ok? {
      assert IsIntegral(f, f.Floor);
    }
    forall i | IsIntegral(f, i) ensures f.Floor == i {
      assert (i as real).Floor == i;
    }
  }

  /** Every float is integral and within reach, and every `$link` and `$bytes` object is well formed. */
  ghost predicate IsReadable(lib: Library, j: Json) {
    match j
    case Num(Float(f)) => exists i :: IsIntegral(f, i)
    case Arr(items) => forall i | 0 <= i < |items| :: IsReadable(lib, items[i])
    case Obj(fields) =>
      if "$link" in fields then
        fields.Keys == {"$link"} && fields["$link"].Str? && CidText.Parse(lib, fields["$link"].s).Some?
      else if "$bytes" in fields then
        fields.Keys == {"$bytes"} && fields["$bytes"].Str?
        && Base64.Decode(Base64.BYTES_ENGINE, fields["$bytes"].s).Some?
      else forall k | k in fields :: IsReadable(lib, fields[k])
    case _ => true
  }

  lemma OneField(fields: map<string, Json>, k: string)
    requires k in fields
    ensures |fields| == 1 <==> fields.Keys == {k}
  {
    assert |fields| == |fields.Keys|;
    if |fields| == 1 { SoleField(fields, k); }
  }

  /** What is accepted. */
  lemma {:induction false} AcceptedExactly(lib: Library, j: Json)
    ensures IpldFromJson(lib, j).Ok? <==> IsReadable(lib, j)
  {
    match j
    case Num(n) => if n.Float? { FloatReads(n.f); }
    case Arr(items) =>
      forall i | 0 <= i < |items| ensures IpldFromJson(lib, items[i]).Ok? <==> IsReadable(lib, items[i]) {
        AcceptedExactly(lib, items[i]);
      }
    case Obj(fields) =>
      if Reserved(fields.Keys) {
        OneField(fields, if LINK_KEY in fields then LINK_KEY else BYTES_KEY);
      } else {
        forall k | k in fields ensures IpldFromJson(lib, fields[k]).Ok? <==> IsReadable(lib, fields[k]) {
          AcceptedExactly(lib, fields[k]);
        }
      }
    case _ =>
  }

  /** The data-model value that accepted JSON spells. */
  ghost predicate Spells(lib: Library, j: Json, v: Ipld) {
    match j
    case Null => v == Ipld.Null
    case Bool(b) => v == Ipld.Bool(b)
    case Str(s) => v == String(s)
    case Num(PosInt(i)) => v == Integer(i)
    case Num(NegInt(i)) => v == Integer(i)
    case Num(Float(f)) => v.Integer? && IsIntegral(f, v.i)
    case Arr(items) =>
      v.List? && |v.items| == |items| && forall i | 0 <= i < |items| :: Spells(lib, items[i], v.items[i])
    case Obj(fields) =>
      if "$link" in fields then v.Link? && fields["$link"].Str? && CidText.Parse(lib, fields["$link"].s) == Some(v.cid)
      else if "$bytes" in fields then
        v.Bytes? && fields["$bytes"].Str? && Base64.Decode(Base64.BYTES_ENGINE, fields["$bytes"].s) == Some(v.bytes)
      else v.Map? && v.entries.Keys == fields.Keys && forall k | k in fields :: Spells(lib, fields[k], v.entries[k])
  }

  /** Accepted JSON is read as what it spells. */
  lemma {:induction false} ReadExactly(lib: Library, j: Json)
    requires IpldFromJson(lib, j).Ok?
    ensures Spells(lib, j, IpldFromJson(lib, j).value)
  {
    match j
    case Num(n) => if n.Float? { FloatReads(n.f); }
    case Arr(items) =>
      var read := IpldFromJson(lib, j).value.items;
      forall i | 0 <= i < |items| ensures Spells(lib, items[i], read[i]) {
        ReadExactly(lib, items[i]);
      }
    case Obj(fields) =>
      if !Reserved(fields.Keys) {
        var read := IpldFromJson(lib, j).value.entries;
        forall k | k in fields ensures Spells(lib, fields[k], read[k]) {
          ReadExactly(lib, fields[k]);
        }
      }
    case _ =>
  }

  /** A printed float comes back as an integer, as null, or not at all. */
  lemma FloatsDoNotSurvive(lib: Library, f: F64)
    ensures var r := IpldFromJson(lib, JsonFromIpld(lib, Ipld.Float(f)));
      match f
      case NotFinite => r == Ok(Ipld.Null)
      case NegativeZero => r == Ok(Integer(0))
      case Finite(x) => (r.Ok? <==> exists i :: IsIntegral(x, i)) && forall i | IsIntegral(x, i) :: r == Ok(Integer(i))
  {
    if f.Finite? { FloatReads(f.r); }
    FloatReads(0.0);
    assert IsIntegral(0.0, 0);
  }

  /** An integer outside the signed 64-bit range comes back as the string of its decimal digits. */
  lemma WideIntegerIsText(lib: Library, i: int)
    requires !FitsI64(i)
    ensures var r := IpldFromJson(lib, JsonFromIpld(lib, Integer(i)));
      r.Ok? && r.value.String? && Decimal.IsNumeral(r.value.s, i)
  {
    Decimal.IntIsNumeral(i);
  }

  /** A link is read back exactly when it is not of version 0. */
  lemma LinkRead(lib: Library, cid: Cid)
    requires lib.Lawful() && lib.isCid(cid.bytes)
    ensures IpldFromJson(lib, JsonFromIpld(lib, Link(cid))) == if IsV0(cid) then Err(InvalidValue) else Ok(Link(cid))
  {
    PrintedIsRead(lib, cid);
  }

  lemma ListReads(lib: Library, printed: seq<Json>, read: seq<Ipld>)
    requires |printed| == |read| && forall i | 0 <= i < |read| :: IpldFromJson(lib, printed[i]) == Ok(read[i])
    ensures IpldFromJson(lib, Arr(printed)) == Ok(List(read))
  {
    assert IpldFromJson(lib, Arr(printed)).value.items == read;
  }

  lemma MapReads(lib: Library, printed: map<string, Json>, read: map<string, Ipld>)
    requires printed.Keys == read.Keys && !Reserved(printed.Keys)
    requires forall k | k in printed :: IpldFromJson(lib, printed[k]) == Ok(read[k])
    ensures IpldFromJson(lib, Obj(printed)) == Ok(Map(read))
  {
    assert IpldFromJson(lib, Obj(printed)).value.entries == read;
  }

  lemma {:induction false} ReadBack(lib: Library, v: Ipld)
    requires lib.Lawful() && Expressible(v) && LinksHoldCids(lib, v) && LinksAreV1(v)
    ensures IpldFromJson(lib, JsonFromIpld(lib, v)) == Ok(Stringified(v))
  {
    match v
    case Bytes(b) => BytesRead(lib, b);
    case Link(cid) => LinkRead(lib, cid);
    case List(items) =>
      var printed, read := JsonFromIpld(lib, v).items, Stringified(v).items;
      forall i | 0 <= i < |items| ensures IpldFromJson(lib, printed[i]) == Ok(read[i]) {
        ReadBack(lib, items[i]);
      }
      ListReads(lib, printed, read);
    case Map(entries) =>
      var printed, read := JsonFromIpld(lib, v).fields, Stringified(v).entries;
      forall k | k in entries ensures IpldFromJson(lib, printed[k]) == Ok(read[k]) {
        ReadBack(lib, entries[k]);
      }
      MapReads(lib, printed, read);
    case _ =>
  }

  lemma {:induction false} AcceptedIsExpressible(lib: Library, j: Json)
    requires IpldFromJson(lib, j).Ok?
    ensures Expressible(IpldFromJson(lib, j).value)
  {
    match j
    case Arr(items) =>
      forall i | 0 <= i < |items| ensures Expressible(IpldFromJson(lib, items[i]).value) {
        AcceptedIsExpressible(lib, items[i]);
      }
    case Obj(fields) =>
      if !Reserved(fields.Keys) {
        forall k | k in fields ensures Expressible(IpldFromJson(lib, fields[k]).value) {
          AcceptedIsExpressible(lib, fields[k]);
        }
      }
    case _ =>
  }

  /** Reading yields links that hold CIDs. */
  lemma {:induction false} AcceptedHoldsCids(lib: Library, j: Json)
    requires lib.Lawful() && IpldFromJson(lib, j).Ok?
    ensures LinksHoldCids(lib, IpldFromJson(lib, j).value)
  {
    match j
    case Arr(items) =>
      forall i | 0 <= i < |items| ensures LinksHoldCids(lib, IpldFromJson(lib, items[i]).value) {
        AcceptedHoldsCids(lib, items[i]);
      }
    case Obj(fields) =>
      if !Reserved(fields.Keys) {
        forall k | k in fields ensures LinksHoldCids(lib, IpldFromJson(lib, fields[k]).value) {
          AcceptedHoldsCids(lib, fields[k]);
        }
      }
    case _ =>
  }

  /** A tree with a link of version 0 anywhere is not read back at all. */
  lemma {:induction false} V0IsRefused(lib: Library, v: Ipld)
    requires lib.Lawful() && Expressible(v) && LinksHoldCids(lib, v)
    requires IpldFromJson(lib, JsonFromIpld(lib, v)).Ok?
    ensures LinksAreV1(v)
  {
    match v
    case Link(cid) => LinkRead(lib, cid);
    case List(items) =>
      var printed := JsonFromIpld(lib, v).items;
      forall i | 0 <= i < |items| ensures LinksAreV1(items[i]) {
        assert IpldFromJson(lib, printed[i]).Ok?;
        V0IsRefused(lib, items[i]);
      }
    case Map(entries) =>
      var printed := JsonFromIpld(lib, v).fields;
      forall k | k in entries ensures LinksAreV1(entries[k]) {
        assert IpldFromJson(lib, printed[k]).Ok?;
        V0IsRefused(lib, entries[k]);
      }
    case _ =>
  }

  /** The exact set of values that survive printing and reading. */
  lemma RoundTrip(lib: Library, v: Ipld)
    requires lib.Lawful() && LinksHoldCids(lib, v)
    ensures IpldFromJson(lib, JsonFromIpld(lib, v)) == Ok(v) <==> Expressible(v) && IntegersFit(v) && LinksAreV1(v)
  {
    if IpldFromJson(lib, JsonFromIpld(lib, v)).Ok? && IpldFromJson(lib, JsonFromIpld(lib, v)).value == v {
      AcceptedIsExpressible(lib, JsonFromIpld(lib, v));
      V0IsRefused(lib, v);
    }
    if Expressible(v) && LinksAreV1(v) {
      ReadBack(lib, v);
      StringifiedFixes(v);
    }
  }

  /** A link of version 0 is printed, but what is printed is refused. */
  lemma V0LinkDoesNotSurvive(lib: Library)
    ensures var v := Link(Cid([0x12, 0x20] + seq(32, _ => 0)));
      Expressible(v) && IntegersFit(v) && IpldFromJson(lib, JsonFromIpld(lib, v)) == Err(InvalidValue)
  {
    V0PrintsQm(lib, Cid([0x12, 0x20] + seq(32, _ => 0)));
  }

  // ---- reading and printing ----

  /** Every number is an integer that fits, or a float that is not 2^63. */
  ghost predicate NumbersFit(j: Json) {
    match j
    case Num(PosInt(i)) => i <= I64_MAX
    case Num(NegInt(_)) => true
    case Num(Float(f)) => f != (I64_MAX + 1) as real
    case Arr(items) => forall i | 0 <= i < |items| :: NumbersFit(items[i])
    case Obj(fields) => forall k | k in fields :: NumbersFit(fields[k])
    case _ => true
  }

  /** No link text names a CID of version 0. */
  ghost predicate LinkTextsAreV1(lib: Library, j: Json) {
    match j
    case Arr(items) => forall i | 0 <= i < |items| :: LinkTextsAreV1(lib, items[i])
    case Obj(fields) =>
      if LINK_KEY in fields
      then fields[LINK_KEY].Str? && Parse(lib, fields[LINK_KEY].s).Some? ==> !IsV0(Parse(lib, fields[LINK_KEY].s).value)
      else forall k | k in fields :: LinkTextsAreV1(lib, fields[k])
    case _ => true
  }

  lemma SoleField(fields: map<string, Json>, k: string)
    requires k in fields && |fields| == 1
    ensures forall other | other in fields :: other == k
  {
    assert |fields.Keys - {k}| == 0;
    assert fields.Keys - {k} == {};
    forall other | other in fields ensures other == k {
      assert other in fields.Keys - {k} || other == k;
    }
  }

  lemma NumberFits(n: Number)
    requires NumberToIpld(n).Ok?
    ensures NumbersFit(Num(n)) <==> IntegersFit(NumberToIpld(n).value)
  {
  }

  lemma {:induction false} NumbersFitExactly(lib: Library, j: Json)
    requires IpldFromJson(lib, j).Ok?
    ensures NumbersFit(j) <==> IntegersFit(IpldFromJson(lib, j).value)
  {
    match j
    case Num(n) => NumberFits(n);
    case Arr(items) =>
      var read := IpldFromJson(lib, j).value.items;
      forall i | 0 <= i < |items| ensures NumbersFit(items[i]) <==> IntegersFit(read[i]) {
        NumbersFitExactly(lib, items[i]);
      }
    case Obj(fields) =>
      if !Reserved(fields.Keys) {
        var read := IpldFromJson(lib, j).value.entries;
        forall k | k in fields ensures NumbersFit(fields[k]) <==> IntegersFit(read[k]) {
          NumbersFitExactly(lib, fields[k]);
        }
      } else {
        SoleField(fields, if LINK_KEY in fields then LINK_KEY else BYTES_KEY);
      }
    case _ =>
  }

  lemma {:induction false} LinkTextsExactly(lib: Library, j: Json)
    requires IpldFromJson(lib, j).Ok?
    ensures LinkTextsAreV1(lib, j) <==> LinksAreV1(IpldFromJson(lib, j).value)
  {
    match j
    case Arr(items) =>
      var read := IpldFromJson(lib, j).value.items;
      forall i | 0 <= i < |items| ensures LinkTextsAreV1(lib, items[i]) <==> LinksAreV1(read[i]) {
        LinkTextsExactly(lib, items[i]);
      }
    case Obj(fields) =>
      if !Reserved(fields.Keys) {
        var read := IpldFromJson(lib, j).value.entries;
        forall k | k in fields ensures LinkTextsAreV1(lib, fields[k]) <==> LinksAreV1(read[k]) {
          LinkTextsExactly(lib, fields[k]);
        }
      } else {
        SoleField(fields, if LINK_KEY in fields then LINK_KEY else BYTES_KEY);
      }
    case _ =>
  }

  /** Read, then print. */
  function Normalised(lib: Library, j: Json): Json
    requires IpldFromJson(lib, j).Ok?
  {
    JsonFromIpld(lib, IpldFromJson(lib, j).value)
  }

  /**
   * What reading and printing makes of an accepted value is accepted again exactly when no link
   * text in it names a CID of version 0; it then settles at once, and it keeps the data-model value
   * exactly when moreover every number fits in 64 signed bits.
   */
  lemma NormalisedIsNormal(lib: Library, j: Json)
    requires lib.Lawful() && IpldFromJson(lib, j).Ok?
    ensures IpldFromJson(lib, Normalised(lib, j)).Ok? <==> LinkTextsAreV1(lib, j)
    ensures LinkTextsAreV1(lib, j) ==> Normalised(lib, Normalised(lib, j)) == Normalised(lib, j)
    ensures IpldFromJson(lib, Normalised(lib, j)) == IpldFromJson(lib, j) <==> LinkTextsAreV1(lib, j) && NumbersFit(j)
  {
    var v := IpldFromJson(lib, j).value;
    AcceptedIsExpressible(lib, j);
    AcceptedHoldsCids(lib, j);
    LinkTextsExactly(lib, j);
    NumbersFitExactly(lib, j);
    if IpldFromJson(lib, Normalised(lib, j)).Ok? {
      V0IsRefused(lib, v);
    }
    if LinksAreV1(v) {
      ReadBack(lib, v);
      StringifiedPrintsTheSame(lib, v);
      StringifiedFixes(v);
    }
  }

  /**
   * 2^63 written as a float is one more than `i64::MAX`, but is read as an integer all the same;
   * it prints as a string, and reading that gives another value.
   */
  lemma TwoTo63BecomesText(lib: Library)
    ensures IpldFromJson(lib, Num(Number.Float(9223372036854775808.0))) == Ok(Integer(9223372036854775808))
    ensures JsonFromIpld(lib, Integer(9223372036854775808)) == Str(Decimal.Int(9223372036854775808))
    ensures IpldFromJson(lib, Str(Decimal.Int(9223372036854775808))) == Ok(String(Decimal.Int(9223372036854775808)))
    ensures !NumbersFit(Num(Number.Float(9223372036854775808.0)))
  {
  }
}
