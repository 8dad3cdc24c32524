/** Chains of attestations: what is appended verifies, and nothing appended spoils what was there. */
module AttestationChains {
  import opened Common
  import opened Json
  import opened AttestationCid
  import opened Verification
  import opened Attestation
  import Base64
  import Key

  datatype Step =
    | CreateInline(metadata: Object, signer: Key.KeyData)
    | CreateRemote(metadata: Object, attestationRepository: string, recordKey: string)
    | AppendInline(attestation: Object)
    | AppendRemote(proof: Object, uri: string)

  function Apply(
    c: Crypto, env: Resolvers, repository: string, record: Object, step: Step): Result<Object, AttestationError> {
    var input := Input(Obj(record));
    match step
    case CreateInline(metadata, signer) => Inline(c, input, Input(Obj(metadata)), repository, signer)
    case CreateRemote(metadata, repo, key) =>
      (match Remote(c, input, Input(Obj(metadata)), repository, repo, key)
       case Err(e) => Err(e)
       case Ok((attested, _)) => Ok(attested))
    case AppendInline(attestation) => InlineAppended(c, env.key, input, Input(Obj(attestation)), repository)
    case AppendRemote(proof, uri) => RemoteAppended(c, input, Input(Obj(proof)), repository, uri)
  }

  /**
   * What has to hold around a step: an inline attestation is not typed as a
   * reference and names a key that belongs to the signer; a proof record can be
   * fetched where the reference points.
   */
  ghost predicate Supported(c: Crypto, env: Resolvers, repository: string, record: Object, step: Step) {
    match step
    case CreateInline(metadata, signer) =>
      && Text(metadata, "$type") != Some(STRONG_REF_NSID)
      && Text(metadata, "key").Some?
      && env.key(Text(metadata, "key").value).Some?
      && c.Pair(signer, env.key(Text(metadata, "key").value).value)
    case CreateRemote(metadata, repo, key) =>
      var r := Remote(c, Input(Obj(record)), Input(Obj(metadata)), repository, repo, key);
      r.Ok? ==> env.record(RemoteUri(repo, Text(metadata, "$type").value, key)) == Some(Obj(r.value.1))
    case AppendInline(attestation) => Text(attestation, "$type") != Some(STRONG_REF_NSID)
    case AppendRemote(proof, uri) => uri != "" && env.record(uri) == Some(Obj(proof))
  }

  // ---- one step ----

  /** Adding a signature never changes the verdict on the ones already there. */
  lemma AppendedVerdict(c: Crypto, env: Resolvers, repository: string, record: Object, signature: Json)
    requires Appended(record, signature).Ok?
    ensures Accepted(c, env, Appended(record, signature).value, repository)
       <==> Accepted(c, env, record, repository) && Sound(c, env, record, repository, signature)
  {
    var before := ExtractSignatures(record).value;
    var after := Appended(record, signature).value;
    assert AgreeOutside(record, after, {"signatures"});
    assert ExtractSignatures(after).value == before + [signature];
    forall s | s in before + [signature]
      ensures Sound(c, env, after, repository, s) <==> Sound(c, env, record, repository, s)
    {
      FaultIgnoresSignatures(c, env, record, after, repository, s);
    }
    assert signature in before + [signature];
    assert forall s | s in before :: s in before + [signature];
  }

  lemma SigningFieldsDoNotCount(c: Crypto, record: Object, metadata: Object, signed: Object, repository: string)
    requires AgreeOutside(metadata, signed, {"cid", "signature"})
    ensures ContentCid(c, Input(Obj(record)), Input(Obj(signed)), repository)
         == ContentCid(c, Input(Obj(record)), Input(Obj(metadata)), repository)
  {
    AgreeOutsideFields(metadata, signed, {"cid", "signature"});
    assert Text(metadata, "$type") == Text(signed, "$type");
  }

  lemma InlineIsSound(
    c: Crypto, env: Resolvers, repository: string, record: Object, metadata: Object, signer: Key.KeyData)
    requires Supported(c, env, repository, record, CreateInline(metadata, signer))
    requires ContentCid(c, Input(Obj(record)), Input(Obj(metadata)), repository).Ok?
    requires Signature(c, signer, ContentCid(c, Input(Obj(record)), Input(Obj(metadata)), repository).value).Ok?
    ensures
      var cid := ContentCid(c, Input(Obj(record)), Input(Obj(metadata)), repository).value;
      Sound(c, env, record, repository, Obj(InlineEntry(c, metadata, cid, Signature(c, signer, cid).value)))
  {
    var cid := ContentCid(c, Input(Obj(record)), Input(Obj(metadata)), repository).value;
    var bytes := Signature(c, signer, cid).value;
    var entry := InlineEntry(c, metadata, cid, bytes);
    SigningFieldsDoNotCount(c, record, metadata, entry, repository);
    EntryChecks(c, env.key, metadata, entry, signer, cid, bytes);
  }

  lemma EntryChecks(
    c: Crypto, keys: string -> Option<Key.KeyData>, metadata: Object, entry: Object, signer: Key.KeyData,
    cid: Cid, bytes: seq<byte>)
    requires Text(metadata, "key").Some? && keys(Text(metadata, "key").value).Some?
    requires c.Pair(signer, keys(Text(metadata, "key").value).value)
    requires Signature(c, signer, cid) == Ok(bytes) && entry == InlineEntry(c, metadata, cid, bytes)
    ensures CheckInline(c, keys, entry, cid).None?
  {
    assert Text(entry, "key") == Text(metadata, "key");
    assert SignatureText(entry) == Some(Base64.Encode(Base64.ATTESTATION_ENGINE, bytes));
    Base64.RoundTrip(Base64.ATTESTATION_ENGINE, Base64.ATTESTATION_ENGINE, bytes);
    assert c.SignsFor(signer, keys(Text(metadata, "key").value).value, cid.bytes);
  }

  lemma ReferenceIsSound(
    c: Crypto, env: Resolvers, repository: string, record: Object, proof: Object, uri: string, refCid: string)
    requires uri != "" && env.record(uri) == Some(Obj(proof))
    requires ContentCid(c, Input(Obj(record)), Input(Obj(proof)), repository).Ok?
    requires CheckRemote(c, Obj(proof), ContentCid(c, Input(Obj(record)), Input(Obj(proof)), repository).value).None?
    ensures Sound(c, env, record, repository, StrongRef(uri, refCid))
  {
    var ref := StrongRef(uri, refCid).fields;
    assert Text(ref, "$type") == Some(STRONG_REF_NSID) && Text(ref, "uri") == Some(uri);
  }

  lemma StepKeepsAccepted(c: Crypto, env: Resolvers, repository: string, record: Object, step: Step)
    requires c.Lawful()
    requires Accepted(c, env, record, repository)
    requires Supported(c, env, repository, record, step)
    requires Apply(c, env, repository, record, step).Ok?
    ensures Accepted(c, env, Apply(c, env, repository, record, step).value, repository)
  {
    var input := Input(Obj(record));
    match step
    case CreateInline(metadata, signer) =>
      var cid := ContentCid(c, input, Input(Obj(metadata)), repository).value;
      InlineIsSound(c, env, repository, record, metadata, signer);
      AppendedVerdict(c, env, repository, record, Obj(InlineEntry(c, metadata, cid, Signature(c, signer, cid).value)));
    case CreateRemote(metadata, repo, key) =>
      var cid := ContentCid(c, input, Input(Obj(metadata)), repository).value;
      var proof := ProofRecord(c, metadata, cid);
      var uri := RemoteUri(repo, Text(metadata, "$type").value, key);
      assert AgreeOutside(metadata, proof, {"cid", "signature"});
      SigningFieldsDoNotCount(c, record, metadata, proof, repository);
      ReferenceIsSound(c, env, repository, record, proof, uri, c.cidText(c.cidOf(proof).value));
      AppendedVerdict(c, env, repository, record, StrongRef(uri, c.cidText(c.cidOf(proof).value)));
    case AppendInline(attestation) =>
      AppendedVerdict(c, env, repository, record, Obj(attestation));
    case AppendRemote(proof, uri) =>
      ReferenceIsSound(c, env, repository, record, proof, uri, c.cidText(c.cidOf(proof).value));
      AppendedVerdict(c, env, repository, record, StrongRef(uri, c.cidText(c.cidOf(proof).value)));
  }

  /** A step adds one signature at the end and changes nothing else. */
  lemma StepOnlySigns(c: Crypto, env: Resolvers, repository: string, record: Object, step: Step)
    requires Apply(c, env, repository, record, step).Ok?
    ensures Extends(record, Apply(c, env, repository, record, step).value, 1)
  {
    forall signature: Json | Appended(record, signature).Ok?
      ensures Extends(record, Appended(record, signature).value, 1)
    {
    }
  }

  /** `after` is `before` with `n` signatures more, the earlier ones in place. */
  predicate Extends(before: Object, after: Object, n: nat) {
    && AgreeOutside(before, after, {"signatures"})
    && ExtractSignatures(before).Ok? && ExtractSignatures(after).Ok?
    && ExtractSignatures(before).value <= ExtractSignatures(after).value
    && |ExtractSignatures(after).value| == |ExtractSignatures(before).value| + n
  }

  // ---- any number of steps ----

  function Run(
    c: Crypto, env: Resolvers, repository: string, record: Object, steps: seq<Step>): Result<Object, AttestationError>
    decreases |steps|
  {
    if steps == [] then Ok(record)
    else
      match Apply(c, env, repository, record, steps[0])
      case Err(e) => Err(e)
      case Ok(next) => Run(c, env, repository, next, steps[1..])
  }

  ghost predicate AllSupported(c: Crypto, env: Resolvers, repository: string, record: Object, steps: seq<Step>)
    decreases |steps|
  {
    steps == [] ||
    (&& Supported(c, env, repository, record, steps[0])
     && (Apply(c, env, repository, record, steps[0]).Ok? ==>
           AllSupported(c, env, repository, Apply(c, env, repository, record, steps[0]).value, steps[1..])))
  }

  /** A chain of attestations of any length and any mix of kinds gives a record that verifies. */
  lemma {:induction false} ChainVerifies(
    c: Crypto, env: Resolvers, repository: string, record: Object, steps: seq<Step>)
    requires c.Lawful()
    requires Accepted(c, env, record, repository)
    requires AllSupported(c, env, repository, record, steps)
    requires Run(c, env, repository, record, steps).Ok?
    ensures Accepted(c, env, Run(c, env, repository, record, steps).value, repository)
    ensures Extends(record, Run(c, env, repository, record, steps).value, |steps|)
    decreases |steps|
  {
    if steps != [] {
      StepOnlySigns(c, env, repository, record, steps[0]);
      StepKeepsAccepted(c, env, repository, record, steps[0]);
      var next := Apply(c, env, repository, record, steps[0]).value;
      ChainVerifies(c, env, repository, next, steps[1..]);
    }
  }
}
