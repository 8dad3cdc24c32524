/** Verifying every signature of a record. */
module Verification {
  import opened Common
  import opened Json
  import opened AttestationCid
  import Base64
  import Key

  const STRONG_REF_NSID := "com.atproto.repo.strongRef"

  /** Where keys and proof records come from. */
  datatype Resolvers = Resolvers(key: string -> Option<Key.KeyData>, record: string -> Option<Json>)

  function ExtractSignatures(record: Object): Result<seq<Json>, AttestationError> {
    if "signatures" !in record then Ok([])
    else if record["signatures"].Arr? then Ok(record["signatures"].items)
    else Err(SignaturesFieldInvalid)
  }

  /** The text of `signature.$bytes`. */
  function SignatureText(o: Object): Option<string> {
    if && "signature" in o && o["signature"].Obj?
       && "$bytes" in o["signature"].fields && o["signature"].fields["$bytes"].Str?
    then Some(o["signature"].fields["$bytes"].s)
    else None
  }

  /** An inline signature: its key resolves and its signature checks against the content. */
  function CheckInline(
    c: Crypto, keys: string -> Option<Key.KeyData>, attestation: Object, cid: Cid): Option<AttestationError> {
    match Text(attestation, "key")
    case None => Some(SignatureMissingField("key"))
    case Some(key) =>
      match keys(key)
      case None => Some(KeyResolutionFailed(key))
      case Some(keyData) =>
        match SignatureText(attestation)
        case None => Some(SignatureBytesFormatInvalid)
        case Some(text) =>
          match Base64.Decode(Base64.ATTESTATION_ENGINE, text)
          case None => Some(SignatureDecodingFailed)
          case Some(bytes) => if c.validate(keyData, bytes, cid.bytes) then None else Some(SignatureValidationFailed)
  }

  /** A remote signature: the proof record names the content. */
  function CheckRemote(c: Crypto, proof: Json, cid: Cid): Option<AttestationError> {
    match if proof.Obj? then Text(proof.fields, "cid") else None
    case None => Some(SignatureMissingField("cid"))
    case Some(claimed) =>
      if c.cidText(cid) == claimed then None else Some(RemoteAttestationCidMismatch(claimed, c.cidText(cid)))
  }

  // ---- what a sound entry is, field by field ----

  /** The entry's `signature.$bytes` spells `bytes`. */
  ghost predicate Spells(entry: Object, bytes: seq<byte>) {
    && "signature" in entry && entry["signature"].Obj? && "$bytes" in entry["signature"].fields
    && entry["signature"].fields["$bytes"].Str?
    && Base64.Decode(Base64.ATTESTATION_ENGINE, entry["signature"].fields["$bytes"].s) == Some(bytes)
  }

  /** The entry carries `bytes`, which the key it names accepts as a signature of the content. */
  ghost predicate SignedBy(
    c: Crypto, keys: string -> Option<Key.KeyData>, entry: Object, cid: Cid, name: string, key: Key.KeyData,
    bytes: seq<byte>)
  {
    && HasText(entry, "key", name) && keys(name) == Some(key)
    && Spells(entry, bytes) && c.validate(key, bytes, cid.bytes)
  }

  /** The inline entry's signature checks against what it attests of the record. */
  ghost predicate InlineHolds(
    c: Crypto, keys: string -> Option<Key.KeyData>, record: Object, repository: string, entry: Object)
  {
    exists cid, name, key, bytes ::
      IsContentCid(c, record, entry, repository, cid) && SignedBy(c, keys, entry, cid, name, key, bytes)
  }

  /** The proof record claims the content identifier of the record and itself. */
  ghost predicate ProofHolds(c: Crypto, record: Object, repository: string, proof: Object) {
    exists cid :: IsContentCid(c, record, proof, repository, cid) && HasText(proof, "cid", c.cidText(cid))
  }

  /** The reference leads to such a proof record. */
  ghost predicate ReferenceHolds(c: Crypto, env: Resolvers, record: Object, repository: string, entry: Object) {
    exists uri, proof ::
      HasText(entry, "uri", uri) && env.record(uri) == Some(Obj(proof)) && ProofHolds(c, record, repository, proof)
  }

  ghost predicate EntryHolds(c: Crypto, env: Resolvers, record: Object, repository: string, entry: Json) {
    && entry.Obj? && IsTyped(entry.fields)
    && if HasText(entry.fields, "$type", "com.atproto.repo.strongRef")
       then ReferenceHolds(c, env, record, repository, entry.fields)
       else InlineHolds(c, env.key, record, repository, entry.fields)
  }

  lemma CheckInlineIs(c: Crypto, keys: string -> Option<Key.KeyData>, entry: Object, cid: Cid)
    ensures CheckInline(c, keys, entry, cid).None?
      <==> exists name, key, bytes :: SignedBy(c, keys, entry, cid, name, key, bytes)
  {
    if CheckInline(c, keys, entry, cid).None? {
      var name := Text(entry, "key").value;
      TextIs(entry, "key", name);
      var bytes := Base64.Decode(Base64.ATTESTATION_ENGINE, SignatureText(entry).value).value;
      assert SignedBy(c, keys, entry, cid, name, keys(name).value, bytes);
    }
    forall name, key, bytes | SignedBy(c, keys, entry, cid, name, key, bytes)
      ensures CheckInline(c, keys, entry, cid).None?
    {
      TextIs(entry, "key", name);
    }
  }

  lemma CheckRemoteIs(c: Crypto, proof: Object, cid: Cid)
    ensures CheckRemote(c, Obj(proof), cid).None? <==> HasText(proof, "cid", c.cidText(cid))
  {
    TextIs(proof, "cid", c.cidText(cid));
  }

  /** What is wrong with one signature of `record`, if anything. */
  function Fault(
    c: Crypto, env: Resolvers, record: AnyInput, repository: string, signature: Json): Option<AttestationError> {
    match if signature.Obj? then Text(signature.fields, "$type") else None
    case None => Some(SigMetadataMissingType)
    case Some(kind) =>
      if kind == STRONG_REF_NSID then
        match Text(signature.fields, "uri")
        case None => Some(SignatureMissingField("uri"))
        case Some(uri) =>
          match env.record(uri)
          case None => Some(RemoteAttestationFetchFailed(uri))
          case Some(proof) =>
            match ContentCid(c, record, Input(proof), repository)
            case Err(e) => Some(e)
            case Ok(cid) => CheckRemote(c, proof, cid)
      else
        match ContentCid(c, record, Input(signature), repository)
        case Err(e) => Some(e)
        case Ok(cid) => CheckInline(c, env.key, signature.fields, cid)
  }

  lemma InlineFaultIs(c: Crypto, env: Resolvers, record: Object, repository: string, entry: Object)
    requires IsTyped(entry) && !HasText(entry, "$type", STRONG_REF_NSID)
    ensures Fault(c, env, Input(Obj(record)), repository, Obj(entry)).None?
      <==> InlineHolds(c, env.key, record, repository, entry)
  {
    TypedIs(entry);
    TextIs(entry, "$type", STRONG_REF_NSID);
    forall cid ensures ContentCid(c, Input(Obj(record)), Input(Obj(entry)), repository) == Ok(cid)
      <==> IsContentCid(c, record, entry, repository, cid)
    {
      ContentCidIs(c, Input(Obj(record)), Input(Obj(entry)), repository, cid);
    }
    forall cid ensures CheckInline(c, env.key, entry, cid).None?
      <==> exists name, key, bytes :: SignedBy(c, env.key, entry, cid, name, key, bytes)
    {
      CheckInlineIs(c, env.key, entry, cid);
    }
  }

  lemma ProofIs(c: Crypto, record: Object, repository: string, proof: Json)
    ensures var cid := ContentCid(c, Input(Obj(record)), Input(proof), repository);
      cid.Ok? && CheckRemote(c, proof, cid.value).None?
      <==> proof.Obj? && ProofHolds(c, record, repository, proof.fields)
  {
    forall cid ensures ContentCid(c, Input(Obj(record)), Input(proof), repository) == Ok(cid)
      <==> proof.Obj? && IsContentCid(c, record, proof.fields, repository, cid)
    {
      ContentCidIs(c, Input(Obj(record)), Input(proof), repository, cid);
    }
    if proof.Obj? {
      forall cid ensures CheckRemote(c, proof, cid).None? <==> HasText(proof.fields, "cid", c.cidText(cid)) {
        CheckRemoteIs(c, proof.fields, cid);
      }
    }
  }

  lemma ReferenceFaultIs(c: Crypto, env: Resolvers, record: Object, repository: string, entry: Object)
    requires HasText(entry, "$type", STRONG_REF_NSID)
    ensures Fault(c, env, Input(Obj(record)), repository, Obj(entry)).None?
      <==> ReferenceHolds(c, env, record, repository, entry)
  {
    TextIs(entry, "$type", STRONG_REF_NSID);
    forall uri ensures Text(entry, "uri") == Some(uri) <==> HasText(entry, "uri", uri) {
      TextIs(entry, "uri", uri);
    }
    if Text(entry, "uri").Some? && env.record(Text(entry, "uri").value).Some? {
      ProofIs(c, record, repository, env.record(Text(entry, "uri").value).value);
    }
  }

  /** An entry is without fault exactly when it holds, field by field. */
  lemma FaultExactly(c: Crypto, env: Resolvers, record: Object, repository: string, entry: Json)
    ensures Fault(c, env, Input(Obj(record)), repository, entry).None?
      <==> EntryHolds(c, env, record, repository, entry)
  {
    if entry.Obj? {
      TypedIs(entry.fields);
      if HasText(entry.fields, "$type", STRONG_REF_NSID) {
        ReferenceFaultIs(c, env, record, repository, entry.fields);
      } else if IsTyped(entry.fields) {
        InlineFaultIs(c, env, record, repository, entry.fields);
      }
    }
  }

  /** What a fault of an inline entry says of it: what it lacks, or which check it fails. */
  predicate InlineFails(
    c: Crypto, keys: string -> Option<Key.KeyData>, entry: Object, cid: Cid, fault: AttestationError)
  {
    match fault
    case SignatureMissingField(field) => field == "key" && Text(entry, "key").None?
    case KeyResolutionFailed(name) => HasText(entry, "key", name) && keys(name).None?
    case SignatureBytesFormatInvalid => SignatureText(entry).None?
    case SignatureDecodingFailed =>
      SignatureText(entry).Some? && Base64.Decode(Base64.ATTESTATION_ENGINE, SignatureText(entry).value).None?
    case SignatureValidationFailed =>
      && Text(entry, "key").Some? && keys(Text(entry, "key").value).Some? && SignatureText(entry).Some?
      && var bytes := Base64.Decode(Base64.ATTESTATION_ENGINE, SignatureText(entry).value);
         bytes.Some? && !c.validate(keys(Text(entry, "key").value).value, bytes.value, cid.bytes)
    case _ => false
  }

  /** What a fault of a proof record says of it. */
  predicate ProofFails(c: Crypto, proof: Json, cid: Cid, fault: AttestationError) {
    match fault
    case SignatureMissingField(field) => field == "cid" && (proof.Obj? ==> Text(proof.fields, "cid").None?)
    case RemoteAttestationCidMismatch(claimed, actual) =>
      proof.Obj? && HasText(proof.fields, "cid", claimed) && actual == c.cidText(cid) && claimed != actual
    case _ => false
  }

  /** What a fault says of the entry. */
  predicate Fails(
    c: Crypto, env: Resolvers, record: AnyInput, repository: string, entry: Json, fault: AttestationError)
  {
    if !entry.Obj? || !IsTyped(entry.fields) then fault == SigMetadataMissingType
    else if HasText(entry.fields, "$type", "com.atproto.repo.strongRef") then
      var uri := Text(entry.fields, "uri");
      if uri.None? then fault == SignatureMissingField("uri")
      else if env.record(uri.value).None? then fault == RemoteAttestationFetchFailed(uri.value)
      else
        var proof := env.record(uri.value).value;
        match ContentCid(c, record, Input(proof), repository)
        case Err(e) => fault == e
        case Ok(cid) => ProofFails(c, proof, cid, fault)
    else
      match ContentCid(c, record, Input(entry), repository)
      case Err(e) => fault == e
      case Ok(cid) => InlineFails(c, env.key, entry.fields, cid, fault)
  }

  /** The fault reported is one the entry has. */
  lemma FaultIsReal(c: Crypto, env: Resolvers, record: AnyInput, repository: string, entry: Json)
    requires Fault(c, env, record, repository, entry).Some?
    ensures Fails(c, env, record, repository, entry, Fault(c, env, record, repository, entry).value)
  {
    if entry.Obj? {
      TypedIs(entry.fields);
      TextIs(entry.fields, "$type", STRONG_REF_NSID);
    }
  }

  /** The record's signatures, when there are none or they are a list. */
  predicate Carries(record: Object, signatures: seq<Json>) {
    if "signatures" in record then record["signatures"] == Arr(signatures) else signatures == []
  }

  /** The record is an object whose signatures are a list, or none, and every one of them holds. */
  ghost predicate RecordHolds(c: Crypto, env: Resolvers, input: AnyInput, repository: string) {
    && input.Input? && input.json.Obj?
    && exists signatures ::
      && Carries(input.json.fields, signatures)
      && forall s | s in signatures :: EntryHolds(c, env, input.json.fields, repository, s)
  }

  /** A record verifies exactly when it holds. */
  lemma VerdictExactly(c: Crypto, env: Resolvers, input: AnyInput, repository: string)
    ensures Verdict(c, env, input, repository).Ok? <==> RecordHolds(c, env, input, repository)
  {
    if input.Input? && input.json.Obj? {
      var record := input.json.fields;
      assert forall signatures :: ExtractSignatures(record) == Ok(signatures) <==> Carries(record, signatures);
      forall s ensures Fault(c, env, input, repository, s).None? <==> EntryHolds(c, env, record, repository, s) {
        FaultExactly(c, env, record, repository, s);
      }
    }
  }

  /** The fault of the first faulty signature. */
  function FirstFault(
    c: Crypto, env: Resolvers, record: AnyInput, repository: string, signatures: seq<Json>)
    : (r: Option<AttestationError>)
    ensures r.None? <==> forall s | s in signatures :: Fault(c, env, record, repository, s).None?
  {
    if signatures == [] then None
    else
      match Fault(c, env, record, repository, signatures[0])
      case Some(e) => Some(e)
      case None => FirstFault(c, env, record, repository, signatures[1..])
  }

  function Verdict(c: Crypto, env: Resolvers, record: AnyInput, repository: string): Result<(), AttestationError> {
    match AsObject(record)
    case None => Err(RecordMustBeObject)
    case Some(o) =>
      match ExtractSignatures(o)
      case Err(e) => Err(e)
      case Ok(signatures) =>
        match FirstFault(c, env, record, repository, signatures)
        case Some(e) => Err(e)
        case None => Ok(())
  }

  method VerifyRecord(c: Crypto, env: Resolvers, verifyInput: AnyInput, repository: string)
    returns (r: Result<(), AttestationError>)
    ensures r == Verdict(c, env, verifyInput, repository)
    ensures r.Ok? <==> RecordHolds(c, env, verifyInput, repository)
  {
    VerdictExactly(c, env, verifyInput, repository);
    var record := AsObject(verifyInput);
    if record.None? { return Err(RecordMustBeObject); }
    var extracted := ExtractSignatures(record.value);
    if extracted.Err? { return Err(extracted.error); }
    var signatures := extracted.value;
    if signatures == [] { return Ok(()); }

    assert signatures[0..] == signatures;
    for n := 0 to |signatures|
      invariant FirstFault(c, env, verifyInput, repository, signatures)
             == FirstFault(c, env, verifyInput, repository, signatures[n..])
    {
      assert signatures[n..][1..] == signatures[n + 1..];
      var fault := VerifySignature(c, env, verifyInput, repository, signatures[n]);
      if fault.Some? { return Err(fault.value); }
    }
    return Ok(());
  }

  /** One turn of the loop over signatures. */
  method VerifySignature(c: Crypto, env: Resolvers, verifyInput: AnyInput, repository: string, signature: Json)
    returns (fault: Option<AttestationError>)
    ensures fault == Fault(c, env, verifyInput, repository, signature)
    ensures AsObject(verifyInput).Some? ==>
      (fault.None? <==> EntryHolds(c, env, AsObject(verifyInput).value, repository, signature))
  {
    if AsObject(verifyInput).Some? { FaultExactly(c, env, AsObject(verifyInput).value, repository, signature); }
    var kind := if signature.Obj? then Text(signature.fields, "$type") else None;
    if kind.None? { return Some(SigMetadataMissingType); }

    var metadata := signature;
    if kind.value == STRONG_REF_NSID {
      var uri := Text(signature.fields, "uri");
      if uri.None? { return Some(SignatureMissingField("uri")); }
      var resolved := env.record(uri.value);
      if resolved.None? { return Some(RemoteAttestationFetchFailed(uri.value)); }
      metadata := resolved.value;
    }

    var computed := CreateAttestationCid(c, verifyInput, Input(metadata), repository);
    if computed.Err? { return Some(computed.error); }

    if kind.value == STRONG_REF_NSID {
      var claimed := if metadata.Obj? then Text(metadata.fields, "cid") else None;
      if claimed.None? { return Some(SignatureMissingField("cid")); }
      if c.cidText(computed.value) != claimed.value {
        return Some(RemoteAttestationCidMismatch(claimed.value, c.cidText(computed.value)));
      }
      return None;
    }

    return CheckInline(c, env.key, metadata.fields, computed.value);
  }

  // ---- what acceptance depends on ----

  predicate Accepted(c: Crypto, env: Resolvers, record: Object, repository: string) {
    Verdict(c, env, Input(Obj(record)), repository).Ok?
  }

  predicate Sound(c: Crypto, env: Resolvers, record: Object, repository: string, signature: Json) {
    Fault(c, env, Input(Obj(record)), repository, signature).None?
  }

  /** The `signatures` field takes no part in what its own entries attest. */
  lemma FaultIgnoresSignatures(c: Crypto, env: Resolvers, r1: Object, r2: Object, repository: string, signature: Json)
    requires AgreeOutside(r1, r2, {"signatures"})
    ensures Fault(c, env, Input(Obj(r1)), repository, signature) == Fault(c, env, Input(Obj(r2)), repository, signature)
  {
    AgreeOutsideFields(r1, r2, {"signatures"});
    assert Text(r1, "$type") == Text(r2, "$type");
    forall metadata: Object ensures Preimage(r1, metadata, repository) == Preimage(r2, metadata, repository) {
    }
  }

  /**
   * A record stays accepted when its signatures are permuted, repeated or dropped:
   * only which signatures it carries matters.
   */
  lemma AcceptanceIsPerSignature(c: Crypto, env: Resolvers, r1: Object, r2: Object, repository: string)
    requires AgreeOutside(r1, r2, {"signatures"}) && ExtractSignatures(r2).Ok?
    requires Accepted(c, env, r1, repository)
    requires forall s | s in ExtractSignatures(r2).value :: s in ExtractSignatures(r1).value
    ensures Accepted(c, env, r2, repository)
  {
    forall s | s in ExtractSignatures(r2).value ensures Sound(c, env, r2, repository, s) {
      assert Sound(c, env, r1, repository, s);
      FaultIgnoresSignatures(c, env, r1, r2, repository, s);
    }
  }
}
