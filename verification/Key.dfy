/** Multibase key text: printing a key as `did:key:z…` and identifying it again. */
module Key {
  import opened Common
  import Base58
  import Radix

  datatype KeyType =
    | P256Public | P256Private
    | P384Public | P384Private
    | K256Public | K256Private
    | Ed25519Public | Ed25519Private

  datatype KeyData = KeyData(keyType: KeyType, bytes: seq<byte>)

  datatype KeyError =
    | DecodeError
    | UnidentifiedKeyType
    | InvalidMultibaseKeyType(prefix: seq<byte>)

  const DID_METHOD_KEY_PREFIX := "did:key:"

  /** The two-byte multicodec prefix of a key type. */
  function Prefix(t: KeyType): (p: seq<byte>)
    ensures |p| == 2
  {
    match t
    case P256Private => [0x86, 0x26]
    case P256Public => [0x80, 0x24]
    case P384Private => [0x13, 0x01]
    case P384Public => [0x12, 0x00]
    case K256Private => [0x81, 0x26]
    case K256Public => [0xe7, 0x01]
    case Ed25519Private => [0x80, 0x26]
    case Ed25519Public => [0xed, 0x01]
  }

  function Display(k: KeyData): string {
    DID_METHOD_KEY_PREFIX + "z" + Base58.Encode(Prefix(k.keyType) + k.bytes)
  }

  function DidMethodKeyValue(key: string): string {
    if DID_METHOD_KEY_PREFIX <= key then key[|DID_METHOD_KEY_PREFIX|..] else key
  }

  /**
   * Multibase decoding: the first character names the base. Base58btc is `z`;
   * `otherBases` stands for the rest of the multibase table.
   */
  function MultibaseDecode(otherBases: string -> Option<seq<byte>>, text: string): Option<seq<byte>> {
    if text == "" then None
    else if text[0] == 'z' then Base58.Decode(text[1..])
    else otherBases(text)
  }

  /** The arms of the source's match, which undo `Prefix` and accept nothing else. */
  function KeyTypeOf(prefix: seq<byte>): (r: Option<KeyType>)
    requires |prefix| == 2
    ensures r.Some? ==> Prefix(r.value) == prefix
    ensures forall t :: Prefix(t) == prefix ==> r == Some(t)
  {
    match (prefix[0], prefix[1])
    case (0x86, 0x26) => Some(P256Private)
    case (0x80, 0x24) => Some(P256Public)
    case (0x13, 0x01) => Some(P384Private)
    case (0x12, 0x00) => Some(P384Public)
    case (0x81, 0x26) => Some(K256Private)
    case (0xe7, 0x01) => Some(K256Public)
    case (0xed, 0x01) => Some(Ed25519Public)
    case (0x80, 0x26) => Some(Ed25519Private)
    case _ => None
  }

  function IdentifyBytes(multicodec: seq<byte>): Result<KeyData, KeyError> {
    if |multicodec| < 3 then Err(UnidentifiedKeyType)
    else
      match KeyTypeOf(multicodec[..2])
      case Some(t) => Ok(KeyData(t, multicodec[2..]))
      case None => Err(InvalidMultibaseKeyType(multicodec[..2]))
  }

  function IdentifyKey(otherBases: string -> Option<seq<byte>>, key: string): Result<KeyData, KeyError> {
    match MultibaseDecode(otherBases, DidMethodKeyValue(key))
    case Some(multicodec) => IdentifyBytes(multicodec)
    case None => Err(DecodeError)
  }

  lemma IdentifyBytesUndoesPrefix(k: KeyData)
    ensures IdentifyBytes(Prefix(k.keyType) + k.bytes)
         == if k.bytes == [] then Err(UnidentifiedKeyType) else Ok(k)
  {
    var multicodec := Prefix(k.keyType) + k.bytes;
    assert multicodec[..2] == Prefix(k.keyType) && multicodec[2..] == k.bytes;
  }

  lemma PrefixUndoesIdentifyBytes(multicodec: seq<byte>)
    requires IdentifyBytes(multicodec).Ok?
    ensures var k := IdentifyBytes(multicodec).value; Prefix(k.keyType) + k.bytes == multicodec
  {
    assert multicodec == multicodec[..2] + multicodec[2..];
  }

  lemma IdentifyMultibase(otherBases: string -> Option<seq<byte>>, e: string)
    ensures IdentifyKey(otherBases, DID_METHOD_KEY_PREFIX + "z" + e)
         == match Base58.Decode(e) case Some(multicodec) => IdentifyBytes(multicodec) case None => Err(DecodeError)
  {
    var text := DID_METHOD_KEY_PREFIX + "z" + e;
    assert text[|DID_METHOD_KEY_PREFIX|..] == "z" + e;
    assert ("z" + e)[1..] == e;
  }

  /** Identifying a printed key gives it back; the length guard rejects exactly the empty key. */
  lemma IdentifyUndoesDisplay(otherBases: string -> Option<seq<byte>>, k: KeyData)
    ensures IdentifyKey(otherBases, Display(k)) == if k.bytes == [] then Err(UnidentifiedKeyType) else Ok(k)
  {
    Base58.RoundTrip(Prefix(k.keyType) + k.bytes);
    IdentifyMultibase(otherBases, Base58.Encode(Prefix(k.keyType) + k.bytes));
    IdentifyBytesUndoesPrefix(k);
  }

  /** Base58btc key text is canonical: a text that identifies a key is the one that key prints as. */
  lemma DisplayUndoesIdentify(otherBases: string -> Option<seq<byte>>, e: string)
    requires IdentifyKey(otherBases, DID_METHOD_KEY_PREFIX + "z" + e).Ok?
    ensures Display(IdentifyKey(otherBases, DID_METHOD_KEY_PREFIX + "z" + e).value) == DID_METHOD_KEY_PREFIX + "z" + e
  {
    IdentifyMultibase(otherBases, e);
    Base58.OneTextPerByteString(e);
    PrefixUndoesIdentifyBytes(Base58.Decode(e).value);
  }

  /** The method prefix may be left out. */
  lemma MethodPrefixIsOptional(otherBases: string -> Option<seq<byte>>, e: string)
    ensures IdentifyKey(otherBases, "z" + e) == IdentifyKey(otherBases, "did:key:" + ("z" + e))
  {
    PrefixStrips("z" + e);
  }

  lemma PrefixStrips(text: string)
    requires text != "" && text[0] == 'z'
    ensures DidMethodKeyValue(text) == text && DidMethodKeyValue("did:key:" + text) == text
  {
    var whole := "did:key:" + text;
    assert whole[|DID_METHOD_KEY_PREFIX|..] == text;
  }

  /** A base58btc text identifies a key exactly when the key has bytes and prints as that text. */
  lemma IdentifiesExactly(otherBases: string -> Option<seq<byte>>, e: string, k: KeyData)
    ensures IdentifyKey(otherBases, "did:key:z" + e) == Ok(k)
      <==> k.bytes != [] && "did:key:z" + e == Display(k)
  {
    assert DID_METHOD_KEY_PREFIX + "z" + e == "did:key:z" + e;
    IdentifyUndoesDisplay(otherBases, k);
    if IdentifyKey(otherBases, "did:key:z" + e) == Ok(k) {
      DisplayUndoesIdentify(otherBases, e);
    }
  }

  /** Why a text identifies no key: it is not base58btc, has fewer than three bytes, or an unknown prefix. */
  lemma RefusalIsReal(otherBases: string -> Option<seq<byte>>, e: string)
    requires IdentifyKey(otherBases, "did:key:z" + e).Err?
    ensures var bytes := Base58.Decode(e);
      match IdentifyKey(otherBases, "did:key:z" + e).error
      case DecodeError => bytes.None?
      case UnidentifiedKeyType => bytes.Some? && |bytes.value| < 3
      case InvalidMultibaseKeyType(prefix) =>
        bytes.Some? && |bytes.value| >= 3 && prefix == bytes.value[..2] && forall t :: Prefix(t) != prefix
  {
    assert DID_METHOD_KEY_PREFIX + "z" + e == "did:key:z" + e;
    IdentifyMultibase(otherBases, e);
  }

  // ---- what printed keys look like ----

  lemma DisplayBegins(k: KeyData, text: string, encoded: string)
    requires encoded == Base58.Encode(Prefix(k.keyType) + k.bytes) && text <= encoded
    ensures "did:key:z" + text <= Display(k)
  {
    var rest := encoded[|text|..];
    assert encoded == text + rest;
    assert "did:key:" + "z" == "did:key:z";
    Associative("did:key:z", text, rest);
  }

  lemma DigitsBy(n: nat, q: nat, r: nat)
    requires n == q * 58 + r && r < 58 && n > 0
    ensures Radix.Digits(58, n) == Radix.Digits(58, q) + [r]
  {
    Radix.DigitsOfSum(58, q, r);
  }

  lemma HeadOfThree(a: byte, b: byte, c: byte)
    ensures Radix.Value(256, [a, b, c]) == a * 0x10000 + b * 0x100 + c
  {
    Radix.ValueOfAppend(256, [], a);
    Radix.ValueOfAppend(256, [a], b);
    Radix.ValueOfAppend(256, [a, b], c);
    assert [] + [a] == [a] && [a] + [b] == [a, b] && [a, b] + [c] == [a, b, c];
  }

  /** Compressed keys on the curve of the AT Protocol's own keys print as `did:key:zQ3sh…`. */
  lemma K256KeysBeginQ3sh(k: KeyData)
    requires k.keyType == K256Public && |k.bytes| == 33 && (k.bytes[0] == 2 || k.bytes[0] == 3)
    ensures "did:key:zQ3sh" <= Display(k)
  {
    var tag: int := k.bytes[0];
    var head := [0xe7, 0x01, k.bytes[0]];
    HeadOfThree(0xe7, 0x01, k.bytes[0]);
    DigitsBy(23, 0, 23);
    DigitsBy(1336, 23, 2);
    DigitsBy(77538, 1336, 50);
    DigitsBy(4497244, 77538, 40);
    assert Radix.Digits(58, 4497244) == [23, 2, 50, 40];
    assert Base58.Text([23, 2, 50, 40]) == "Q3sh";
    var b := Prefix(k.keyType) + k.bytes;
    assert b[..3] == head;
    Base58.HeadBegins(b, head, 0xe70100 + tag, 4497244);
    DisplayBegins(k, "Q3sh", Base58.Encode(b));
    assert "did:key:z" + "Q3sh" == "did:key:zQ3sh";
  }

  /** Compressed P-256 keys print as `did:key:zDnae…`. */
  lemma P256KeysBeginDnae(k: KeyData)
    requires k.keyType == P256Public && |k.bytes| == 33 && (k.bytes[0] == 2 || k.bytes[0] == 3)
    ensures "did:key:zDnae" <= Display(k)
  {
    var tag: int := k.bytes[0];
    var head := [0x80, 0x24, k.bytes[0]];
    HeadOfThree(0x80, 0x24, k.bytes[0]);
    DigitsBy(12, 0, 12);
    DigitsBy(741, 12, 45);
    DigitsBy(43011, 741, 33);
    DigitsBy(2494675, 43011, 37);
    assert Radix.Digits(58, 2494675) == [12, 45, 33, 37];
    assert Base58.Text([12, 45, 33, 37]) == "Dnae";
    var b := Prefix(k.keyType) + k.bytes;
    assert b[..3] == head;
    Base58.HeadBegins(b, head, 0x802400 + tag, 2494675);
    DisplayBegins(k, "Dnae", Base58.Encode(b));
    assert "did:key:z" + "Dnae" == "did:key:zDnae";
  }
}
