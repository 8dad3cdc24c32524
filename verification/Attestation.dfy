/** Creating attestations and appending them to a record. */
module Attestation {
  import opened Common
  import opened Json
  import opened AttestationCid
  import opened Verification
  import Base64
  import Key
  import Strings

  // ---- appending ----

  function Appended(record: Object, signature: Json): Result<Object, AttestationError> {
    match ExtractSignatures(record)
    case Err(e) => Err(e)
    case Ok(signatures) => Ok(record["signatures" := Arr(signatures + [signature])])
  }

  method AppendSignatureToRecord(record: Object, signature: Json) returns (r: Result<Object, AttestationError>)
    ensures r == Appended(record, signature)
  {
    var recordObj := record;
    var extracted := ExtractSignatures(recordObj);
    if extracted.Err? { return Err(extracted.error); }
    var signatures := extracted.value;
    signatures := signatures + [signature];
    recordObj := recordObj["signatures" := Arr(signatures)];
    return Ok(recordObj);
  }

  /** `after` is the record with the entry last among its signatures. */
  ghost predicate IsAppended(record: Object, entry: Json, after: Object) {
    exists signatures :: Carries(record, signatures) && after == record["signatures" := Arr(signatures + [entry])]
  }

  lemma AppendedIs(record: Object, entry: Json, after: Object)
    ensures Appended(record, entry) == Ok(after) <==> IsAppended(record, entry, after)
  {
    if Appended(record, entry) == Ok(after) {
      assert Carries(record, ExtractSignatures(record).value);
    }
  }

  function StrongRef(uri: string, cid: string): Json {
    Obj(map["$type" := Str(STRONG_REF_NSID), "uri" := Str(uri), "cid" := Str(cid)])
  }

  // ---- inline attestations ----

  function Signature(c: Crypto, signer: Key.KeyData, cid: Cid): Result<seq<byte>, AttestationError> {
    match c.sign(signer, cid.bytes)
    case None => Err(SignatureCreationFailed)
    case Some(raw) =>
      match c.normalize(raw, signer.keyType)
      case None => Err(SignatureNormalizationFailed)
      case Some(bytes) => Ok(bytes)
  }

  function SignatureField(bytes: seq<byte>): Json {
    Obj(map["$bytes" := Str(Base64.Encode(Base64.ATTESTATION_ENGINE, bytes))])
  }

  function InlineEntry(c: Crypto, metadata: Object, cid: Cid, signature: seq<byte>): Object {
    metadata["cid" := Str(c.cidText(cid))]["signature" := SignatureField(signature)]
  }

  function Inline(c: Crypto, record: AnyInput, metadata: AnyInput, repository: string, signer: Key.KeyData)
    : Result<Object, AttestationError>
  {
    match ContentCid(c, record, metadata, repository)
    case Err(e) => Err(e)
    case Ok(cid) =>
      match Signature(c, signer, cid)
      case Err(e) => Err(e)
      case Ok(bytes) => Appended(record.json.fields, Obj(InlineEntry(c, metadata.json.fields, cid, bytes)))
  }

  method CreateInlineAttestation(
    c: Crypto, recordInput: AnyInput, metadataInput: AnyInput, repository: string, signer: Key.KeyData)
    returns (r: Result<Object, AttestationError>)
    ensures r == Inline(c, recordInput, metadataInput, repository, signer)
  {
    var contentCid := CreateAttestationCid(c, recordInput, metadataInput, repository);
    if contentCid.Err? { return Err(contentCid.error); }
    var cid := contentCid.value;

    var metadataObj := metadataInput.json.fields;
    metadataObj := metadataObj["cid" := Str(c.cidText(cid))];
    var raw := c.sign(signer, cid.bytes);
    if raw.None? { return Err(SignatureCreationFailed); }
    var bytes := c.normalize(raw.value, signer.keyType);
    if bytes.None? { return Err(SignatureNormalizationFailed); }
    metadataObj := metadataObj["signature" := SignatureField(bytes.value)];

    r := AppendSignatureToRecord(recordInput.json.fields, Obj(metadataObj));
  }

  // ---- remote attestations ----

  function RemoteUri(attestationRepository: string, kind: string, recordKey: string): string {
    "at://" + attestationRepository + "/" + kind + "/" + recordKey
  }

  function ProofRecord(c: Crypto, metadata: Object, cid: Cid): Object {
    metadata["cid" := Str(c.cidText(cid))]
  }

  /** The attested record and the proof record to store. `recordKey` is the fresh record key. */
  function Remote(
    c: Crypto, record: AnyInput, metadata: AnyInput, repository: string, attestationRepository: string,
    recordKey: string)
    : Result<(Object, Object), AttestationError>
  {
    match ContentCid(c, record, metadata, repository)
    case Err(e) => Err(e)
    case Ok(cid) =>
      var proof := ProofRecord(c, metadata.json.fields, cid);
      match c.cidOf(proof)
      case None => Err(EncodingFailed)
      case Some(proofCid) =>
        var kind := Text(metadata.json.fields, "$type").value;
        var uri := RemoteUri(attestationRepository, kind, recordKey);
        match Appended(record.json.fields, StrongRef(uri, c.cidText(proofCid)))
        case Err(e) => Err(e)
        case Ok(attested) => Ok((attested, proof))
  }

  method CreateRemoteAttestation(
    c: Crypto, recordInput: AnyInput, metadataInput: AnyInput, repository: string,
    attestationRepository: string, recordKey: string)
    returns (r: Result<(Object, Object), AttestationError>)
    ensures r == Remote(c, recordInput, metadataInput, repository, attestationRepository, recordKey)
  {
    var contentCid := CreateAttestationCid(c, recordInput, metadataInput, repository);
    if contentCid.Err? { return Err(contentCid.error); }

    var metadataObj := metadataInput.json.fields;
    var remoteType := metadataObj["$type"].s;
    metadataObj := metadataObj["cid" := Str(c.cidText(contentCid.value))];

    var proofCid := c.cidOf(metadataObj);
    if proofCid.None? { return Err(EncodingFailed); }
    var uri := RemoteUri(attestationRepository, remoteType, recordKey);

    var attested := AppendSignatureToRecord(recordInput.json.fields, StrongRef(uri, c.cidText(proofCid.value)));
    match attested {
      case Err(e) => return Err(e);
      case Ok(record) => return Ok((record, metadataObj));
    }
  }

  /** Appending a reference to a proof record made earlier. */
  function RemoteAppended(c: Crypto, record: AnyInput, proof: AnyInput, repository: string, uri: string)
    : Result<Object, AttestationError>
  {
    match ContentCid(c, record, proof, repository)
    case Err(e) => Err(e)
    case Ok(cid) =>
      match CheckRemote(c, proof.json, cid)
      case Some(e) => Err(e)
      case None =>
        match c.cidOf(proof.json.fields)
        case None => Err(EncodingFailed)
        case Some(proofCid) => Appended(record.json.fields, StrongRef(uri, c.cidText(proofCid)))
  }

  method AppendRemoteAttestation(
    c: Crypto, recordInput: AnyInput, metadataInput: AnyInput, repository: string, attestationUri: string)
    returns (r: Result<Object, AttestationError>)
    ensures r == RemoteAppended(c, recordInput, metadataInput, repository, attestationUri)
  {
    var contentCid := CreateAttestationCid(c, recordInput, metadataInput, repository);
    if contentCid.Err? { return Err(contentCid.error); }

    var metadataObj := metadataInput.json.fields;
    var claimed := Text(metadataObj, "cid");
    if claimed.None? { return Err(SignatureMissingField("cid")); }
    if c.cidText(contentCid.value) != claimed.value {
      return Err(RemoteAttestationCidMismatch(claimed.value, c.cidText(contentCid.value)));
    }

    var proofCid := c.cidOf(metadataObj);
    if proofCid.None? { return Err(EncodingFailed); }
    r := AppendSignatureToRecord(recordInput.json.fields, StrongRef(attestationUri, c.cidText(proofCid.value)));
  }

  /** Checking an inline attestation made earlier and appending it. Its claimed `cid` is not looked at. */
  function InlineAppended(
    c: Crypto, keys: string -> Option<Key.KeyData>, record: AnyInput, attestation: AnyInput, repository: string)
    : Result<Object, AttestationError>
  {
    match ContentCid(c, record, attestation, repository)
    case Err(e) => Err(e)
    case Ok(cid) =>
      match CheckInline(c, keys, attestation.json.fields, cid)
      case Some(e) => Err(e)
      case None => Appended(record.json.fields, attestation.json)
  }

  method AppendInlineAttestation(
    c: Crypto, keys: string -> Option<Key.KeyData>, recordInput: AnyInput, attestationInput: AnyInput,
    repository: string)
    returns (r: Result<Object, AttestationError>)
    ensures r == InlineAppended(c, keys, recordInput, attestationInput, repository)
    ensures r.Ok? ==>
      && AsObject(recordInput).Some? && AsObject(attestationInput).Some?
      && InlineHolds(c, keys, AsObject(recordInput).value, repository, AsObject(attestationInput).value)
      && IsAppended(AsObject(recordInput).value, attestationInput.json, r.value)
  {
    if InlineAppended(c, keys, recordInput, attestationInput, repository).Ok? {
      AppendsInlineExactly(c, keys, recordInput, attestationInput, repository,
        InlineAppended(c, keys, recordInput, attestationInput, repository).value);
    }
    var contentCid := CreateAttestationCid(c, recordInput, attestationInput, repository);
    if contentCid.Err? { return Err(contentCid.error); }

    var attestationObj := attestationInput.json.fields;
    var key := Text(attestationObj, "key");
    if key.None? { return Err(SignatureMissingField("key")); }
    var keyData := keys(key.value);
    if keyData.None? { return Err(KeyResolutionFailed(key.value)); }
    var text := SignatureText(attestationObj);
    if text.None? { return Err(SignatureBytesFormatInvalid); }
    var bytes := Base64.Decode(Base64.ATTESTATION_ENGINE, text.value);
    if bytes.None? { return Err(SignatureDecodingFailed); }
    if !c.validate(keyData.value, bytes.value, contentCid.value.bytes) { return Err(SignatureValidationFailed); }

    r := AppendSignatureToRecord(recordInput.json.fields, Obj(attestationObj));
  }

  // ---- what attesting makes, field by field ----

  /** What the signer signs of the content, made canonical for its kind of key. */
  predicate Signs(c: Crypto, signer: Key.KeyData, cid: Cid, raw: seq<byte>, bytes: seq<byte>) {
    c.sign(signer, cid.bytes) == Some(raw) && c.normalize(raw, signer.keyType) == Some(bytes)
  }

  lemma SignatureIs(c: Crypto, signer: Key.KeyData, cid: Cid, bytes: seq<byte>)
    ensures Signature(c, signer, cid) == Ok(bytes) <==> exists raw :: Signs(c, signer, cid, raw, bytes)
  {
    if Signature(c, signer, cid) == Ok(bytes) {
      assert Signs(c, signer, cid, c.sign(signer, cid.bytes).value, bytes);
    }
  }

  /** The metadata with the content identifier and the signature of it added. */
  ghost predicate IsInlineEntry(
    c: Crypto, record: Object, metadata: Object, repository: string, signer: Key.KeyData, entry: Object)
  {
    exists cid, raw, bytes ::
      && IsContentCid(c, record, metadata, repository, cid) && Signs(c, signer, cid, raw, bytes)
      && entry == metadata[
           "cid" := Str(c.cidText(cid))][
           "signature" := Obj(map["$bytes" := Str(Base64.Encode(Base64.ATTESTATION_ENGINE, bytes))])]
  }

  /** Attesting inline appends such an entry, and succeeds whenever there is one to append. */
  lemma InlineExactly(
    c: Crypto, record: Object, metadata: Object, repository: string, signer: Key.KeyData, after: Object)
    ensures Inline(c, Input(Obj(record)), Input(Obj(metadata)), repository, signer) == Ok(after)
      <==> exists entry ::
        && IsInlineEntry(c, record, metadata, repository, signer, entry)
        && IsAppended(record, Obj(entry), after)
  {
    forall cid ensures ContentCid(c, Input(Obj(record)), Input(Obj(metadata)), repository) == Ok(cid)
      <==> IsContentCid(c, record, metadata, repository, cid)
    {
      ContentCidIs(c, Input(Obj(record)), Input(Obj(metadata)), repository, cid);
    }
    forall cid, bytes
      ensures Signature(c, signer, cid) == Ok(bytes) <==> exists raw :: Signs(c, signer, cid, raw, bytes)
    {
      SignatureIs(c, signer, cid, bytes);
    }
    forall entry: Object ensures Appended(record, Obj(entry)) == Ok(after) <==> IsAppended(record, Obj(entry), after) {
      AppendedIs(record, Obj(entry), after);
    }
    if Inline(c, Input(Obj(record)), Input(Obj(metadata)), repository, signer) == Ok(after) {
      var cid := ContentCid(c, Input(Obj(record)), Input(Obj(metadata)), repository).value;
      var bytes := Signature(c, signer, cid).value;
      assert IsInlineEntry(c, record, metadata, repository, signer, InlineEntry(c, metadata, cid, bytes));
    }
  }

  /** A reference: where the proof record is, and the content identifier of the proof record itself. */
  predicate IsReference(c: Crypto, proof: Object, uri: string, entry: Json) {
    c.cidOf(proof).Some? &&
    entry == Obj(map[
      "$type" := Str("com.atproto.repo.strongRef"), "uri" := Str(uri), "cid" := Str(c.cidText(c.cidOf(proof).value))])
  }

  /** The metadata claiming the content identifier of the record and itself. */
  ghost predicate IsProof(c: Crypto, record: Object, metadata: Object, repository: string, proof: Object) {
    exists cid :: IsContentCid(c, record, metadata, repository, cid) && proof == metadata["cid" := Str(c.cidText(cid))]
  }

  /** Attesting remotely appends a reference to the proof record it makes, where that is to be stored. */
  lemma RemoteExactly(
    c: Crypto, record: Object, metadata: Object, repository: string, attestationRepository: string, recordKey: string,
    attested: Object, proof: Object)
    ensures Remote(c, Input(Obj(record)), Input(Obj(metadata)), repository, attestationRepository, recordKey)
      == Ok((attested, proof))
      <==> IsProof(c, record, metadata, repository, proof) && exists entry ::
        && IsReference(c, proof, RemoteUri(attestationRepository, metadata["$type"].s, recordKey), entry)
        && IsAppended(record, entry, attested)
  {
    forall cid ensures ContentCid(c, Input(Obj(record)), Input(Obj(metadata)), repository) == Ok(cid)
      <==> IsContentCid(c, record, metadata, repository, cid)
    {
      ContentCidIs(c, Input(Obj(record)), Input(Obj(metadata)), repository, cid);
    }
    forall entry ensures Appended(record, entry) == Ok(attested) <==> IsAppended(record, entry, attested) {
      AppendedIs(record, entry, attested);
    }
  }

  /** The parts of a proof record's URI can be told from it. */
  lemma UriParts(repository: string, kind: string, key: string)
    requires '/' !in repository && '/' !in kind && '/' !in key
    ensures Strings.Split(RemoteUri(repository, kind, key), '/') == ["at:", "", repository, kind, key]
  {
    var parts := ["at:", "", repository, kind, key];
    assert Strings.Join(parts[3..], '/') == kind + "/" + key;
    assert Strings.Join(parts[2..], '/') == repository + "/" + (kind + "/" + key);
    assert Strings.Join(parts[1..], '/') == "/" + (repository + "/" + (kind + "/" + key));
    assert Strings.Join(parts, '/') == RemoteUri(repository, kind, key);
    Strings.SplitOfJoin(parts, '/');
  }

  /** A reference is appended exactly to a proof record that claims the content. */
  lemma AppendsRemoteExactly(
    c: Crypto, record: Object, proof: Object, repository: string, uri: string, after: Object)
    ensures RemoteAppended(c, Input(Obj(record)), Input(Obj(proof)), repository, uri) == Ok(after)
      <==> ProofHolds(c, record, repository, proof) && exists entry ::
        IsReference(c, proof, uri, entry) && IsAppended(record, entry, after)
  {
    ProofIs(c, record, repository, Obj(proof));
    forall entry ensures Appended(record, entry) == Ok(after) <==> IsAppended(record, entry, after) {
      AppendedIs(record, entry, after);
    }
  }

  /** An inline attestation is appended exactly when its signature checks against the content. */
  lemma AppendsInlineExactly(
    c: Crypto, keys: string -> Option<Key.KeyData>, record: AnyInput, attestation: AnyInput, repository: string,
    after: Object)
    ensures InlineAppended(c, keys, record, attestation, repository) == Ok(after) <==>
      && record.Input? && record.json.Obj? && attestation.Input? && attestation.json.Obj?
      && InlineHolds(c, keys, record.json.fields, repository, attestation.json.fields)
      && IsAppended(record.json.fields, attestation.json, after)
  {
    forall cid ensures ContentCid(c, record, attestation, repository) == Ok(cid) <==>
      && record.Input? && record.json.Obj? && attestation.Input? && attestation.json.Obj?
      && IsContentCid(c, record.json.fields, attestation.json.fields, repository, cid)
    {
      ContentCidIs(c, record, attestation, repository, cid);
    }
    if record.Input? && record.json.Obj? && attestation.Input? && attestation.json.Obj? {
      forall cid ensures CheckInline(c, keys, attestation.json.fields, cid).None?
        <==> exists name, key, bytes :: SignedBy(c, keys, attestation.json.fields, cid, name, key, bytes)
      {
        CheckInlineIs(c, keys, attestation.json.fields, cid);
      }
      AppendedIs(record.json.fields, attestation.json, after);
    }
  }
}
