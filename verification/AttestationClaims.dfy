/** What an inline attestation claims of itself: its `cid` is neither checked on the way in nor later. */
module AttestationClaims {
  import opened Common
  import opened Json
  import opened AttestationCid
  import opened Verification
  import opened Attestation
  import opened AttestationChains
  import Base64
  import Key

  // ---- the claim changes no verdict ----

  lemma ClaimIsNotHashed(c: Crypto, record: AnyInput, a: Object, b: Object, repository: string)
    requires AgreeOutside(a, b, {"cid"})
    ensures ContentCid(c, record, Input(Obj(a)), repository) == ContentCid(c, record, Input(Obj(b)), repository)
    ensures Text(a, "$type") == Text(b, "$type") && Text(a, "key") == Text(b, "key")
    ensures Text(a, "uri") == Text(b, "uri") && SignatureText(a) == SignatureText(b)
  {
    AgreeOutsideFields(a, b, {"cid"});
    AgreeOutsideFields(a, b, {"cid", "signature", "repository"});
    if AsObject(record).Some? {
      PreimageKernel(AsObject(record).value, a, repository, AsObject(record).value, b, repository);
    }
  }

  /** Appending an inline attestation succeeds, or fails in the same way, whatever `cid` it claims. */
  lemma AppendIgnoresClaim(
    c: Crypto, keys: string -> Option<Key.KeyData>, record: AnyInput, a: Object, b: Object, repository: string)
    requires AgreeOutside(a, b, {"cid"})
    ensures var r, s := InlineAppended(c, keys, record, Input(Obj(a)), repository),
                        InlineAppended(c, keys, record, Input(Obj(b)), repository);
      (r.Ok? <==> s.Ok?) && (r.Err? ==> s == r)
  {
    ClaimIsNotHashed(c, record, a, b, repository);
  }

  /** Nor does the claim of an entry change what verification finds wrong with it. */
  lemma FaultIgnoresClaim(c: Crypto, env: Resolvers, record: AnyInput, repository: string, a: Object, b: Object)
    requires AgreeOutside(a, b, {"cid"})
    ensures Fault(c, env, record, repository, Obj(a)) == Fault(c, env, record, repository, Obj(b))
  {
    ClaimIsNotHashed(c, record, a, b, repository);
  }

  // ---- when the claim holds all the same ----

  predicate Claims(attestation: Object, cid: string) {
    "cid" in attestation && attestation["cid"] == Str(cid)
  }

  /** The entry claims the CID of what it attests in this record. */
  predicate ClaimHolds(c: Crypto, record: Object, entry: Json, repository: string) {
    && entry.Obj?
    && ContentCid(c, Input(Obj(record)), Input(entry), repository).Ok?
    && Claims(entry.fields, c.cidText(ContentCid(c, Input(Obj(record)), Input(entry), repository).value))
  }

  /**
   * The appended entry claims the content it attests exactly when the attestation handed in already
   * claimed the CID of the record it was handed in with: the documented check is the caller's to make.
   */
  lemma AppendedClaimHoldsIff(
    c: Crypto, keys: string -> Option<Key.KeyData>, record: Object, attestation: Object, repository: string)
    requires InlineAppended(c, keys, Input(Obj(record)), Input(Obj(attestation)), repository).Ok?
    ensures var after := InlineAppended(c, keys, Input(Obj(record)), Input(Obj(attestation)), repository).value;
      var entries := ExtractSignatures(after);
      var cid := ContentCid(c, Input(Obj(record)), Input(Obj(attestation)), repository).value;
      && entries.Ok? && entries.value != []
      && (ClaimHolds(c, after, entries.value[|entries.value| - 1], repository) <==> Claims(attestation, c.cidText(cid)))
  {
    var after := InlineAppended(c, keys, Input(Obj(record)), Input(Obj(attestation)), repository).value;
    assert after == record["signatures" := Arr(ExtractSignatures(record).value + [Obj(attestation)])];
    assert after - {"signatures"} == record - {"signatures"};
    assert Text(after, "$type") == Text(record, "$type");
  }

  // ---- a wrong claim that goes through ----

  /**
   * Take any attestation a signer could have made and give it any other `cid`: it is appended, and
   * the record still verifies.
   */
  lemma WrongClaimIsAccepted(
    c: Crypto, env: Resolvers, repository: string, record: Object, metadata: Object, signer: Key.KeyData, claim: string)
    requires Accepted(c, env, record, repository)
    requires Supported(c, env, repository, record, CreateInline(metadata, signer))
    requires ContentCid(c, Input(Obj(record)), Input(Obj(metadata)), repository).Ok?
    requires Signature(c, signer, ContentCid(c, Input(Obj(record)), Input(Obj(metadata)), repository).value).Ok?
    ensures var cid := ContentCid(c, Input(Obj(record)), Input(Obj(metadata)), repository).value;
      var honest := InlineEntry(c, metadata, cid, Signature(c, signer, cid).value);
      var r := InlineAppended(c, env.key, Input(Obj(record)), Input(Obj(honest["cid" := Str(claim)])), repository);
      r.Ok? && Accepted(c, env, r.value, repository)
  {
    var cid := ContentCid(c, Input(Obj(record)), Input(Obj(metadata)), repository).value;
    var bytes := Signature(c, signer, cid).value;
    var honest := InlineEntry(c, metadata, cid, bytes);
    var entry := honest["cid" := Str(claim)];
    InlineIsSound(c, env, repository, record, metadata, signer);
    assert honest - {"cid"} == entry - {"cid"};
    FaultIgnoresClaim(c, env, Input(Obj(record)), repository, honest, entry);
    assert Sound(c, env, record, repository, Obj(entry));
    assert Text(entry, "$type") == Text(metadata, "$type");
    AppendedVerdict(c, env, repository, record, Obj(entry));
  }

  // ---- one such input ----

  /** A library whose one CID prints as "bafy" and whose every signature checks. */
  const ANY_CRYPTO :=
    Crypto(_ => Some(Cid([1])), _ => "bafy", (_, _) => Some([0]), (b, _) => Some(b), (_, _, _) => true)

  const ANY_RESOLVERS := Resolvers(_ => Some(Key.KeyData(Key.P256Public, [2])), _ => None)

  const POST: Object := map["$type" := Str("app.bsky.feed.post")]

  const MISCLAIMED: Object := map[
    "$type" := Str("com.example.inlineSignature"), "key" := Str("did:key:z"), "cid" := Str("bafywrong"),
    "signature" := Obj(map["$bytes" := Str("")])]

  /** An attestation that claims "bafywrong" for content whose CID is "bafy" is appended and verifies. */
  lemma MisclaimedVerifies(repository: string)
    ensures ANY_CRYPTO.Lawful()
    ensures ContentCid(ANY_CRYPTO, Input(Obj(POST)), Input(Obj(MISCLAIMED)), repository) == Ok(Cid([1]))
    ensures Text(MISCLAIMED, "cid") == Some("bafywrong") && ANY_CRYPTO.cidText(Cid([1])) == "bafy"
    ensures
      var r := InlineAppended(ANY_CRYPTO, ANY_RESOLVERS.key, Input(Obj(POST)), Input(Obj(MISCLAIMED)), repository);
      r.Ok? && Accepted(ANY_CRYPTO, ANY_RESOLVERS, r.value, repository)
  {
    assert Base64.Decode(Base64.ATTESTATION_ENGINE, "") == Some([]) by {
      Base64.RoundTrip(Base64.ATTESTATION_ENGINE, Base64.ATTESTATION_ENGINE, []);
      assert Base64.Encode(Base64.ATTESTATION_ENGINE, []) == "";
    }
    assert SignatureText(MISCLAIMED) == Some("");
    assert Sound(ANY_CRYPTO, ANY_RESOLVERS, POST, repository, Obj(MISCLAIMED));
    assert ExtractSignatures(POST) == Ok([]);
    AppendedVerdict(ANY_CRYPTO, ANY_RESOLVERS, repository, POST, Obj(MISCLAIMED));
  }
}
