/** The content identifier an attestation is about: one normalisation shared by signing and verifying. */
module AttestationCid {
  import opened Common
  import opened Json
  import Key

  type Object = map<string, Json>

  datatype AttestationError =
    | RecordMustBeObject
    | RecordMissingType
    | MetadataMustBeObject
    | MetadataMissingSigType
    | MetadataMissingType
    | SignaturesFieldInvalid
    | SigMetadataMissingType
    | SignatureMissingField(field: string)
    | RemoteAttestationFetchFailed(uri: string)
    | RemoteAttestationCidMismatch(expected: string, actual: string)
    | KeyResolutionFailed(key: string)
    | SignatureBytesFormatInvalid
    | SignatureDecodingFailed
    | SignatureValidationFailed
    | SignatureCreationFailed
    | SignatureNormalizationFailed
    | EncodingFailed

  /** Input given as text that is not JSON, or as a JSON value. */
  datatype AnyInput = NotJson | Input(json: Json)

  /** Encoding, hashing and signing, which other crates do. */
  datatype Crypto = Crypto(
    cidOf: Object -> Option<Cid>,
    cidText: Cid -> string,
    sign: (Key.KeyData, seq<byte>) -> Option<seq<byte>>,
    normalize: (seq<byte>, Key.KeyType) -> Option<seq<byte>>,
    validate: (Key.KeyData, seq<byte>, seq<byte>) -> bool)
  {
    /** What a signer makes, once normalised, checks under a key that belongs to the signer. */
    ghost predicate Pair(signer: Key.KeyData, verifier: Key.KeyData) {
      forall content :: SignsFor(signer, verifier, content)
    }

    ghost predicate SignsFor(signer: Key.KeyData, verifier: Key.KeyData, content: seq<byte>) {
      var raw := sign(signer, content);
      raw.Some? ==>
        var normal := normalize(raw.value, signer.keyType);
        normal.Some? ==> validate(verifier, normal.value, content)
    }

    ghost predicate Lawful() { forall c :: cidText(c) != "" }
  }

  function AsObject(input: AnyInput): Option<Object> {
    if input.Input? && input.json.Obj? then Some(input.json.fields) else None
  }

  /** A field that is a non-empty string. */
  function Text(o: Object, field: string): Option<string> {
    if field in o && o[field].Str? && o[field].s != "" then Some(o[field].s) else None
  }

  lemma TextIs(o: Object, field: string, s: string)
    ensures Text(o, field) == Some(s) <==> HasText(o, field, s)
  {
  }

  predicate HasText(o: Object, field: string, s: string) {
    field in o && o[field] == Str(s) && s != ""
  }

  predicate IsTyped(o: Object) { "$type" in o && o["$type"].Str? && o["$type"].s != "" }

  // ---- what is hashed ----

  /** Metadata as it is hashed: without what signing adds, and bound to the repository. */
  function SigMetadata(metadata: Object, repository: string): Object {
    (metadata - {"cid", "signature"})["repository" := Str(repository)]
  }

  function Preimage(record: Object, metadata: Object, repository: string): Object {
    (record - {"signatures"})["$sig" := Obj(SigMetadata(metadata, repository))]
  }

  function ContentCid(
    c: Crypto, record: AnyInput, metadata: AnyInput, repository: string): Result<Cid, AttestationError> {
    match (AsObject(record), AsObject(metadata))
    case (None, _) => Err(RecordMustBeObject)
    case (Some(r), m) =>
      if Text(r, "$type").None? then Err(RecordMissingType)
      else if m.None? then Err(MetadataMustBeObject)
      else if Text(m.value, "$type").None? then Err(MetadataMissingSigType)
      else
        match c.cidOf(Preimage(r, m.value, repository))
        case Some(cid) => Ok(cid)
        case None => Err(EncodingFailed)
  }

  method CreateAttestationCid(c: Crypto, recordInput: AnyInput, metadataInput: AnyInput, repository: string)
    returns (r: Result<Cid, AttestationError>)
    ensures r == ContentCid(c, recordInput, metadataInput, repository)
  {
    var record := AsObject(recordInput);
    if record.None? { return Err(RecordMustBeObject); }
    if Text(record.value, "$type").None? { return Err(RecordMissingType); }
    var metadata := AsObject(metadataInput);
    if metadata.None? { return Err(MetadataMustBeObject); }
    if Text(metadata.value, "$type").None? { return Err(MetadataMissingSigType); }

    var recordObj := record.value;
    recordObj := recordObj - {"signatures"};
    var metadataObj := metadata.value;
    metadataObj := metadataObj - {"cid"};
    metadataObj := metadataObj - {"signature"};
    metadataObj := metadataObj["repository" := Str(repository)];
    assert metadataObj == SigMetadata(metadata.value, repository);
    recordObj := recordObj["$sig" := Obj(metadataObj)];
    match c.cidOf(recordObj) {
      case Some(cid) => return Ok(cid);
      case None => return Err(EncodingFailed);
    }
  }

  /** What is hashed, field by field. */
  lemma PreimageFields(record: Object, metadata: Object, repository: string)
    ensures var p := Preimage(record, metadata, repository);
      && p.Keys == record.Keys - {"signatures"} + {"$sig"}
      && (forall k | k in record && k != "signatures" && k != "$sig" :: p[k] == record[k])
      && p["$sig"].Obj?
      && p["$sig"].fields.Keys == metadata.Keys - {"cid", "signature"} + {"repository"}
      && p["$sig"].fields["repository"] == Str(repository)
      && forall k | k in metadata && k != "cid" && k != "signature" && k != "repository" ::
        p["$sig"].fields[k] == metadata[k]
  {
  }

  /** The content identifier of a typed record and typed metadata, for a repository. */
  predicate IsContentCid(c: Crypto, record: Object, metadata: Object, repository: string, cid: Cid) {
    IsTyped(record) && IsTyped(metadata) && c.cidOf(Preimage(record, metadata, repository)) == Some(cid)
  }

  lemma ContentCidIs(c: Crypto, record: AnyInput, metadata: AnyInput, repository: string, cid: Cid)
    ensures ContentCid(c, record, metadata, repository) == Ok(cid) <==>
      && record.Input? && record.json.Obj? && metadata.Input? && metadata.json.Obj?
      && IsContentCid(c, record.json.fields, metadata.json.fields, repository, cid)
  {
    if record.Input? && record.json.Obj? { TypedIs(record.json.fields); }
    if metadata.Input? && metadata.json.Obj? { TypedIs(metadata.json.fields); }
  }

  /** A refusal names what is wrong with the first input that is wrong. */
  lemma ContentRefusalIsReal(c: Crypto, record: AnyInput, metadata: AnyInput, repository: string)
    requires ContentCid(c, record, metadata, repository).Err?
    ensures var r, m := AsObject(record), AsObject(metadata);
      match ContentCid(c, record, metadata, repository).error
      case RecordMustBeObject => r.None?
      case RecordMissingType => r.Some? && !IsTyped(r.value)
      case MetadataMustBeObject => r.Some? && IsTyped(r.value) && m.None?
      case MetadataMissingSigType => r.Some? && IsTyped(r.value) && m.Some? && !IsTyped(m.value)
      case EncodingFailed =>
        && r.Some? && IsTyped(r.value) && m.Some? && IsTyped(m.value)
        && c.cidOf(Preimage(r.value, m.value, repository)).None?
      case _ => false
  {
    if AsObject(record).Some? { TypedIs(AsObject(record).value); }
    if AsObject(metadata).Some? { TypedIs(AsObject(metadata).value); }
  }

  lemma TypedIs(o: Object)
    ensures IsTyped(o) <==> Text(o, "$type").Some?
  {
    if Text(o, "$type").Some? { TextIs(o, "$type", Text(o, "$type").value); }
  }

  // ---- what the hash does and does not depend on ----

  predicate AgreeOutside(a: Object, b: Object, fields: set<string>) { a - fields == b - fields }

  lemma AgreeOutsideFields(a: Object, b: Object, fields: set<string>)
    ensures AgreeOutside(a, b, fields) <==>
            forall k | k !in fields :: (k in a <==> k in b) && (k in a ==> a[k] == b[k])
  {
    if AgreeOutside(a, b, fields) {
      forall k | k !in fields ensures (k in a <==> k in b) && (k in a ==> a[k] == b[k]) {
        assert k in a - fields <==> k in b - fields;
        if k in a { assert (a - fields)[k] == a[k] && (b - fields)[k] == b[k]; }
      }
    }
  }

  /**
   * The kernel of the attested content: two inputs are hashed from the same
   * object exactly when the repositories are equal, the records agree outside
   * `signatures` and `$sig`, and the metadata agree outside the three fields
   * that are removed or overwritten.
   */
  lemma PreimageKernel(r1: Object, m1: Object, repo1: string, r2: Object, m2: Object, repo2: string)
    ensures Preimage(r1, m1, repo1) == Preimage(r2, m2, repo2) <==>
            && repo1 == repo2
            && AgreeOutside(r1, r2, {"signatures", "$sig"})
            && AgreeOutside(m1, m2, {"cid", "signature", "repository"})
  {
    AgreeOutsideFields(r1, r2, {"signatures", "$sig"});
    AgreeOutsideFields(m1, m2, {"cid", "signature", "repository"});
    SigMetadataKernel(m1, repo1, m2, repo2);
    var p1, p2 := Preimage(r1, m1, repo1), Preimage(r2, m2, repo2);
    if p1 == p2 {
      assert p1["$sig"] == p2["$sig"];
      forall k | k !in {"signatures", "$sig"} ensures (k in r1 <==> k in r2) && (k in r1 ==> r1[k] == r2[k]) {
        assert k in p1 <==> k in p2;
        if k in r1 { assert p1[k] == r1[k] && p2[k] == r2[k]; }
      }
    }
  }

  lemma SigMetadataKernel(m1: Object, repo1: string, m2: Object, repo2: string)
    ensures SigMetadata(m1, repo1) == SigMetadata(m2, repo2) <==>
            repo1 == repo2 && AgreeOutside(m1, m2, {"cid", "signature", "repository"})
  {
    AgreeOutsideFields(m1, m2, {"cid", "signature", "repository"});
    var s1, s2 := SigMetadata(m1, repo1), SigMetadata(m2, repo2);
    if s1 == s2 {
      assert s1["repository"] == s2["repository"];
      forall k | k !in {"cid", "signature", "repository"}
        ensures (k in m1 <==> k in m2) && (k in m1 ==> m1[k] == m2[k])
      {
        assert k in s1 <==> k in s2;
        if k in m1 { assert s1[k] == m1[k] && s2[k] == m2[k]; }
      }
    }
  }
}
