# A verified model of the AT Protocol crates' core logic

This project models, in Dafny, the parts of the AT Protocol Rust workspace whose correctness is
hardest to see by reading: the firehose consumer's cursor and reconnect machine with the frames it
decodes, the DAG-CBOR codec under it, attestations, the stylesheet comment stripper, the JSON and
key codecs, and the DID host and hostname rules. Verify with `dafny verify dfyconfig.toml`.

- **Firehose** (`Wire`, `Frames`, `FrameEvents`, `FrameMeaning`, `Verify`, `Consumer*`). A frame is
  decoded from its bytes, judged, verified and handed to a sink; a cursor follows. Everything outside the consumer is
  a script: what the stream yields, what the sink, the cursor store and the key resolver answer, and
  what the clock reads. A script that ends is a process killed there. The theorems quantify over
  every script, every number of connections, and every number of restarts.
- **DAG-CBOR** (`Cbor`, `CborEncode`, `CborGrammar`, `KeyOrder`, `Text`, `Utf8`, `Value`,
  `ValueCanonical`). The decoder works on positions, strict or lenient; the encoder writes shortest
  heads and sorted keys. A strict decoder accepts exactly what the encoder writes, a lenient one
  exactly the spellings of a grammar, and data-model values go through bytes and back.
- **Attestations** (`AttestationCid`, `Attestation`, `Verification`, `AttestationChains`,
  `AttestationClaims`). One map normalisation makes the signed content; creating, appending and
  verifying agree through it.
- **Stylesheets** (`CssLexer`, `CssLines`, `Css`). The byte loop refines a recursive lexer and only
  cuts between characters; the line pass drops padding and nothing else.
- **Codecs** (`Base64`, `Radix`, `Base58`, `Key`, `Jwk`, `Json`, `CidText`, `AtprotoJson`,
  `Ecdsa`).
- **Hosts** (`Strings`, `Decimal`, `Validation`, `Host`).

Loops that update state are methods proved against a function of their inputs or of the old state
(`Css.Scan`, `Verify.VerifyOpInclusion`, `Consumer.FirehoseConsumer`); what the repository promises
is then proved of those functions, and each of the main ones has a theorem that says when it
succeeds, and with what, in terms of its input alone (`...Exactly`). Cryptography, hashing, the CID library, IDNA, the CAR reader and
the tree walk are function-valued parameters, with their laws stated as predicates (`Lawful`) that a
theorem requires only where it uses them.

## Where the code and its documentation part

- `IngestSink::deliver` says that a refused message leaves the cursor where it is, so that it is
  seen again on the next reconnect (crates/atproto-firehose/src/consumer.rs:89-91). The loop drops
  what was coalesced but keeps reading (crates/atproto-firehose/src/consumer.rs:402-408), so a later
  write passes the refused message. `ConsumerHeld.RefusedThenDeliveredIsLost` is an input that shows
  it, `ConsumerHeld.RefusedIsResentIff` says exactly when the promise is kept.
- `append_inline_attestation` is documented to check the attestation's claimed `cid`; the code never
  looks at it (crates/atproto-attestation/src/attestation.rs:500-557), and neither does
  `verify_record` for inline entries. `AttestationClaims.AppendIgnoresClaim` and
  `AttestationClaims.FaultIgnoresClaim` prove that no verdict depends on it,
  `AttestationClaims.MisclaimedVerifies` is an input whose false claim is appended and verifies, and
  `AttestationClaims.AppendedClaimHoldsIff` says exactly when the claim appended is a true one.
- `i64::MAX as f64` rounds up to 2^63, so `number_to_ipld` accepts 9223372036854775808.0, which is
  then printed as a string (crates/atproto-dasl/src/atproto_json.rs:163-182). That input is
  `AtprotoJson.TwoTo63BecomesText`; the JSON values it spares are those with `NumbersFit`
  (`AtprotoJson.NumbersFitExactly`).
- `json_from_ipld` prints every link (crates/atproto-dasl/src/atproto_json.rs:127-131), but reading
  takes base32 text only (crates/atproto-dasl/src/cid/mod.rs:89-106), and a version 0 CID prints in
  base58btc. `AtprotoJson.V0LinkDoesNotSurvive` is a link that is printed and then refused;
  `AtprotoJson.RoundTrip` has the exact condition.
- `SplitFrame` never meets the `Truncated` error: a decoder's position is within what it reads
  (the result of `Cbor.Parse` is bounded by the input).

## Model

| member | source | states |
|---|---|---|
| Consumer.FirehoseConsumer.Flush | crates/atproto-firehose/src/consumer.rs:428-435 | the coalesced cursor is taken whether or not the write succeeds, and the store changes only if it does; the sink is untouched |
| Consumer.FirehoseConsumer.Deliver | crates/atproto-firehose/src/consumer.rs:537-548 | the message is logged with the sink's answer; the outcome is delivered, held, or skipped by that answer and the sequence |
| Consumer.FirehoseConsumer.HandleFrame | crates/atproto-firehose/src/consumer.rs:441-463 | state and outcome are those of the frame's judgement: undecodable frames are skipped without a sequence |
| Consumer.FirehoseConsumer.HandleEvent | crates/atproto-firehose/src/consumer.rs:455-534 | state and outcome for each event; a refused cursor is loaded, cleared and reported, in that order, whatever the store and sink answer |
| Consumer.FirehoseConsumer.HandleCommit | crates/atproto-firehose/src/consumer.rs:456-492 | a commit that touches a tracked collection, whose blocks can be read and that verifies is handed on with its blocks, delivered or held by the sink's answer; any other is skipped with its sequence and nothing is handed on |
| ConsumerJudgement.JudgedEvent | crates/atproto-firehose/src/consumer.rs:455-534 | what a decoded frame asks for: good commits, syncs, identities and accounts are handed on with their sequence, an outdated-cursor notice is a cursor loss, an error frame is terminal, and the rest is passed over, bad commits with their sequence |
| ConsumerJudgement.JudgesExactly | crates/atproto-firehose/src/consumer.rs:441-534 | a frame is passed over if and only if there is nothing in it to apply, and is handed on as the message it decodes to |
| Consumer.FirehoseConsumer.Settle | crates/atproto-firehose/src/consumer.rs:382-424 | what a frame's outcome does to the coalesced cursor, the store and the flush clock, and whether the connection ends |
| Consumer.FirehoseConsumer.ConnectAndConsume | crates/atproto-firehose/src/consumer.rs:293-425 | the whole state after any script of stream ends, transport errors, shutdowns, flush timings, store failures and frames, and the cursor requested |
| Consumer.FirehoseConsumer.Run | crates/atproto-firehose/src/consumer.rs:256-290 | the state, result and sleeps of a whole run |
| ConsumerSafety.StepKeeps | crates/atproto-firehose/src/consumer.rs:324-424 | each turn of the loop keeps: all frames from the start to the next one are answered, and neither the stored nor the coalesced cursor has reached the next one |
| ConsumerSafety.ConnectionKeeps | crates/atproto-firehose/src/consumer.rs:293-425 | a connection, resumed from the stored cursor or begun at the live edge, keeps the cursor behind answered frames, and without a refusal notice never moves it back |
| ConsumerSafety.ConnectionsKeep | crates/atproto-firehose/src/consumer.rs:3-18 | the same over any sequence of connections |
| ConsumerRuns.RunIsItsConnections | crates/atproto-firehose/src/consumer.rs:256-290 | a run does to the store and the sink what its connections do in turn; delays and sleeps add nothing |
| ConsumerRuns.LifeIsItsConnections | crates/atproto-firehose/src/consumer.rs:256-290 | the same for any number of runs, each started from what the last one left |
| ConsumerRuns.AtLeastOnce | crates/atproto-firehose/src/consumer.rs:3-18 | over whole lives against any history of increasing sequences, for every frame the stored cursor has passed, the sink durably applied the message it decodes to, or refused it, or there was nothing in it to apply in some pass: undecodable, of an unknown kind, informational, untracked, with unreadable blocks, or a commit that failed verification or whose key did not resolve |
| ConsumerRuns.CursorNeverGoesBack | crates/atproto-firehose/src/consumer.rs:3-18 | without a notice that it was refused, the stored cursor never decreases over a whole life |
| ConsumerRuns.StartStays | crates/atproto-firehose/src/consumer.rs:297-307 | while a cursor is held and loads succeed, the point from which frames are answered for does not move |
| ConsumerRuns.ReplaysAreAhead | crates/atproto-firehose/src/consumer.rs:297-314 | a connection resumed from a cursor is only sent frames above it |
| ConsumerRuns.EveryCommitIsChecked | crates/atproto-firehose/src/consumer.rs:456-492 | in every life and whatever the server sends, each commit given to the sink touches a tracked collection and passed verification at the configured level |
| ConsumerRuns.FullCommitsAreProven | crates/atproto-firehose/src/verify.rs:118-214 | at the full level each commit given to the sink has the event's repository as its DID, a valid signature, a tree that walks, and tracked ops that describe that tree |
| ConsumerHeld.RefusedIsResentIff | crates/atproto-firehose/src/consumer.rs:402-408 | a refused frame is sent again on the next reconnect if and only if a cursor was stored before it, that reconnect can load it, and nothing later in the refusing connection writes or clears it |
| ConsumerHeld.CursorAfterRefusal | crates/atproto-firehose/src/consumer.rs:402-408 | after a refusal the connection leaves the store empty if a notice clears it, past the refused frame if it otherwise writes at all, and where it was if neither |
| ConsumerHeld.RefusedThenDeliveredIsLost | crates/atproto-firehose/src/consumer.rs:87-94 | two concrete frames, the first refused and the second taken: the cursor ends past both and the first is never applied nor sent again |
| ConsumerTiming.NoticeForgetsCursor | crates/atproto-firehose/src/consumer.rs:409-418 | a refused cursor ends the connection; when clearing succeeds the store is empty whatever was coalesced, and the sink is told the cursor that was refused |
| ConsumerTiming.RefusedCursorStaysForgotten | crates/atproto-firehose/src/consumer.rs:509-524 | the store then stays empty, through any connections, until a later connection is sent a frame |
| ConsumerTiming.RunSleeps | crates/atproto-firehose/src/consumer.rs:260-289 | the k-th sleep of any run is the jittered delay, initial for k = 0 and min(initial * 2^k, max) after |
| ConsumerTiming.JitterSpreads | crates/atproto-firehose/src/consumer.rs:552-556 | a sleep can be exactly the milliseconds from half the delay, rounded down, to the whole of it, the delay being at least one |
| ConsumerEnds.ConsumeEnds | crates/atproto-firehose/src/consumer.rs:324-425 | a connection ends at the first input that is a stop, a close, a transport error, an error frame or an outdated-cursor notice, and as that input says, whatever the store, the sink and the resolver answer |
| ConsumerEnds.RunEnds | crates/atproto-firehose/src/consumer.rs:256-290 | a run connects again after every stream end and failed connection, with the k-th sleep in between, until it is told to stop, gets an error frame or is killed; it then returns success, that error, or nothing, and leaves what its connections leave |
| ConsumerProgress.CleanEndIsUpToDate | crates/atproto-firehose/src/consumer.rs:319-424 | when the sink takes everything and the store never fails, a connection that is stopped, closed or ended by a terminal error leaves the cursor at the last number seen, whatever the flush timing |
| ConsumerProgress.SkipWritesAreSpaced | crates/atproto-firehose/src/consumer.rs:13-18 | a cursor write behind a skipped frame comes at least a flush interval after the connection's last write behind a delivery or a skip |
| ConsumerProgress.LagIsShort | crates/atproto-firehose/src/consumer.rs:393-401 | while a number is coalesced every frame skipped so far came less than a flush interval after the last write, so the cursor lags behind skips by no more |
| Verify.VerifyOpInclusion | crates/atproto-repo/src/repo/inductive.rs:222-287 | the verdicts in order; all are good exactly when every tracked op describes the tree |
| Verify.InclusionsJudge | crates/atproto-repo/src/repo/inductive.rs:251-287 | creates and updates must resolve to the CID they name and deletes to nothing, for tracked ops and only those |
| Verify.VerdictsAre | crates/atproto-repo/src/repo/inductive.rs:222-287 | there is one verdict for each tracked op, in order, with its path and whether it describes the tree |
| Verify.VerifyCommit | crates/atproto-firehose/src/verify.rs:118-214 | the verdict for each level, with the checks and failures in the code's order |
| Verify.AcceptanceProves | crates/atproto-firehose/src/verify.rs:118-214 | acceptance means that the first block with the CID the event names is a commit of the event's repository, signed by it, and at the full level that its tree and tracked ops are borne out |
| Verify.AcceptsExactly | crates/atproto-firehose/src/verify.rs:118-214 | each level accepts if and only if: always; the blocks hold a commit of the repository that it signed; and besides, the tree walks and every tracked op describes it |
| Verify.FailureIsReal | crates/atproto-firehose/src/verify.rs:118-214 | each failure names something that is so of a commit that passed every earlier check, and the op reported is the first tracked one the tree does not bear out |
| Verify.LevelsNest | crates/atproto-firehose/src/verify.rs:1-17 | given the same answers full acceptance implies signature acceptance implies off, and the tree checks alone part the first two |
| Verify.TrackingMoreAcceptsLess | crates/atproto-firehose/src/verify.rs:183-212 | widening the collection filter, or emptying it, never accepts a commit that was refused |
| Wire.SplitFrame | crates/atproto-firehose/src/wire.rs:314-331 | the header and the rest of the frame from where the decoder stopped, or a header error |
| Wire.SplitUndoesConcat | crates/atproto-firehose/src/wire.rs:296-331 | however leniently a header is spelled, whatever bytes follow it are returned exactly as the body |
| Wire.HeaderRoundTrip | crates/atproto-firehose/src/wire.rs:61-95 | every header, written by the encoder in front of any body, is split off again unchanged |
| FrameEvents.FrameRoundTrip | crates/atproto-firehose/src/wire.rs:343-398 | each of the union's events and the error frame, encoded with its fields in any order among any other keys and with absent options left out or null, is split and decoded to itself, a commit also to its blocks; a tag outside the union is reported as unknown whatever its body |
| FrameEvents.CommitReads | crates/atproto-firehose/src/wire.rs:107-152 | both passes over a commit's body find the envelope, its ops and its blocks, whatever the order of the keys and whatever other keys there are |
| FrameEvents.FrameReads | crates/atproto-firehose/src/wire.rs:296-398 | the same of every frame: whatever lenient spelling its header and body have and whatever bytes follow, it decodes to the event the body spells |
| FrameMeaning.EventsExactly | crates/atproto-firehose/src/wire.rs:343-384 | a frame decodes to an event if and only if its header gives the kind and its body has each field with the value, sequences within 64 signed bits, known keys given once, options absent or null |
| FrameMeaning.CommitBlocksExactly | crates/atproto-firehose/src/wire.rs:386-398 | and to blocks if and only if its body has them |
| FrameMeaning.SplitsExactly | crates/atproto-firehose/src/wire.rs:314-331 | a frame splits if and only if the first item says a header, and the body is then everything after it |
| Wire.KnownProjects | crates/atproto-firehose/src/wire.rs:9-23 | reading a map as a struct with more fields succeeds when both parts do and gives the shared fields the same values |
| Wire.TwoPassesAreOneDecode | crates/atproto-firehose/src/wire.rs:9-23 | the blocks-skipping envelope decode and the blocks-only decode are the two halves of one decode of the body |
| Wire.Collection | crates/atproto-firehose/src/wire.rs:412-420 | the collection is the part of a path before its first slash, the whole path when it has none |
| Wire.CollectionOfPath | crates/atproto-firehose/src/wire.rs:400-420 | a collection without a slash is recovered from any path made with it |
| Cbor.Extends | crates/atproto-dasl/src/drisl/cbor/decode.rs:311-513 | an item says where it ends: whatever follows it, strict or lenient, the decoder finds the same item and stops in the same place |
| CborEncode.WrittenIsRead | crates/atproto-dasl/src/drisl/cbor/encode.rs:39-125 | a well-formed item is read back wherever it stands, by a strict or a lenient decoder |
| CborEncode.StrictReadIsWritten | crates/atproto-dasl/src/drisl/cbor/decode.rs:255-308 | what a strict decoder reads is well-formed and is spelled as the encoder spells it |
| CborEncode.StrictDecodingInvertsEncoding | crates/atproto-dasl/src/drisl/mod.rs:155-190 | strict decoding of a whole byte string gives an item if and only if the item is well-formed and the bytes are its encoding |
| CborEncode.EncodingIsPrefixFree | crates/atproto-dasl/src/drisl/cbor/encode.rs:39-125 | no encoding is the start of another item's encoding |
| CborGrammar.LenientExactly | crates/atproto-dasl/src/drisl/cbor/decode.rs:311-513 | a lenient decoder reads an item between two positions if and only if it is within the limits and spelled there: heads of any width, keys in any order, floats of three widths, links under tag 42 only |
| CborGrammar.FiniteExactly | crates/atproto-dasl/src/drisl/cbor/decode.rs:311-513 | the floats accepted are those of magnitude below infinity, in each width |
| CborGrammar.IntegerExamples | crates/atproto-dasl/src/drisl/cbor/encode.rs:39-125 | integers are written as in appendix A of RFC 8949 |
| CborGrammar.ContainerExamples | crates/atproto-dasl/src/drisl/cbor/encode.rs:39-125 | and so are an array and a map |
| KeyOrder.EncodedOrderIsKeyOrder | crates/atproto-dasl/src/drisl/ser/serializer.rs:304-354 | the serializer's order, encoded keys byte by byte, is the order the strict decoder demands, length first |
| Text.DecodeOfEncode | crates/atproto-dasl/src/drisl/cbor/decode.rs:352-365 | the UTF-8 of a string is valid and decodes to that string |
| Text.EncodeOfDecode | crates/atproto-dasl/src/drisl/cbor/decode.rs:352-365 | valid UTF-8 is the encoding of the string it decodes to |
| Value.VisitedIsSame | crates/atproto-dasl/src/value.rs:532-559 | the untyped visitor leaves a tree alone if and only if no byte string in it, of more than one byte and starting with 0x00, parses as a CID |
| Value.IpldOfItem | crates/atproto-dasl/src/value.rs:347-386 | the item a value is written as is read back as the value with those byte strings, and nothing else, made links |
| Value.ItemIsWellFormed | crates/atproto-dasl/src/drisl/ser/serializer.rs:304-354 | what the serializer writes meets the strict decoder's demands exactly when sizes and depth are within its limits |
| Value.RoundTrip | crates/atproto-dasl/src/value.rs:532-606 | through bytes and back: identity exactly on trees with no byte string that looks like a CID |
| Value.SmallIntegersAreOneByte | crates/atproto-dasl/src/value.rs:347-386 | integers from -24 to 23 are written in the one byte the standard gives them |
| ValueCanonical.AcceptedBytesAreCanonical | crates/atproto-dasl/src/drisl/de/deserializer.rs:529-585 | the value read from bytes a strict decoder accepts is written as those bytes again if and only if nothing in them changes kind when read: no byte string looks like a CID, and each link's bytes are all of its CID |
| AttestationCid.CreateAttestationCid | crates/atproto-attestation/src/cid.rs:91-135 | the CID or the error, from maps edited field by field |
| AttestationCid.PreimageKernel | crates/atproto-attestation/src/cid.rs:122-134 | two attested contents coincide if and only if the repositories are equal, the records agree outside `signatures` and `$sig`, and the metadata agree outside `cid`, `signature` and `repository` |
| AttestationCid.PreimageFields | crates/atproto-attestation/src/cid.rs:122-134 | the attested content field by field: the record's but for `signatures`, and `$sig` with the metadata's but for `cid` and `signature` and with the repository |
| Attestation.AppendSignatureToRecord | crates/atproto-attestation/src/attestation.rs:31-41 | the entry goes last in `signatures`, made if absent; anything but an array is an error |
| Attestation.CreateInlineAttestation | crates/atproto-attestation/src/attestation.rs:265-301 | the attested record or the first error |
| Attestation.CreateRemoteAttestation | crates/atproto-attestation/src/attestation.rs:165-210 | the attested record and the proof record, or the first error |
| Attestation.AppendRemoteAttestation | crates/atproto-attestation/src/attestation.rs:379-430 | the claimed CID is compared with the content before the reference is appended |
| Attestation.AppendInlineAttestation | crates/atproto-attestation/src/attestation.rs:500-557 | the attestation is appended only when the key it names validates its signature of the content |
| Attestation.InlineExactly | crates/atproto-attestation/src/attestation.rs:265-301 | attesting inline succeeds if and only if there is a signature of the content to add, and appends the metadata with the content's `cid` and that signature |
| Attestation.RemoteExactly | crates/atproto-attestation/src/attestation.rs:165-210 | attesting remotely makes the metadata with the content's `cid` the proof record, and appends a reference with the proof record's own `cid` and its URI |
| Attestation.UriParts | crates/atproto-attestation/src/attestation.rs:165-210 | repository, type and record key can be read back from the URI |
| Attestation.AppendsRemoteExactly | crates/atproto-attestation/src/attestation.rs:379-430 | a reference is appended if and only if the proof record claims the content, and it bears the proof record's own `cid` |
| Attestation.AppendsInlineExactly | crates/atproto-attestation/src/attestation.rs:500-557 | an inline attestation is appended if and only if the key it names validates its signature of the content, and unchanged |
| Verification.VerifyRecord | crates/atproto-attestation/src/verification.rs:55-160 | the verdict; success exactly when the record is an object, its signatures are a list or absent, and every entry is typed and either an inline one whose bytes the key it names validates as a signature of the content identifier of the record and the entry, or a reference to a proof record whose `cid` is that identifier of the record and the proof |
| Verification.VerifySignature | crates/atproto-attestation/src/verification.rs:81-157 | the fault of one entry; none exactly when it is such an entry |
| Verification.FaultExactly | crates/atproto-attestation/src/verification.rs:81-157 | an entry is without fault if and only if it holds, field by field, as VerifyRecord's row says |
| Verification.VerdictExactly | crates/atproto-attestation/src/verification.rs:55-160 | a record verifies if and only if all its entries hold |
| Verification.FaultIsReal | crates/atproto-attestation/src/verification.rs:81-157 | the fault reported is one the entry has: what it lacks, or the check it fails with the values that differ |
| Verification.FaultIgnoresSignatures | crates/atproto-attestation/src/cid.rs:122-134 | an entry's fault does not depend on the signatures around it |
| Verification.AcceptanceIsPerSignature | crates/atproto-attestation/src/verification.rs:55-160 | accepted records stay accepted under permuting, repeating or dropping signature entries |
| AttestationChains.AppendedVerdict | crates/atproto-attestation/src/attestation.rs:31-41 | a record with one more entry is accepted if and only if it was accepted before and the entry is sound |
| AttestationChains.StepKeepsAccepted | crates/atproto-attestation/src/attestation.rs:165-557 | each of the four ways to attest keeps an accepted record accepted |
| AttestationChains.StepOnlySigns | crates/atproto-attestation/src/attestation.rs:31-41 | attesting changes nothing but `signatures`, and only adds at its end |
| AttestationChains.ChainVerifies | crates/atproto-attestation/src/verification.rs:55-160 | any finite chain of inline and remote attestations, created or appended, gives a record that verifies for the same repository |
| AttestationClaims.AppendIgnoresClaim | crates/atproto-attestation/src/attestation.rs:500-557 | appending attestations equal outside `cid` succeeds for both or fails for both with one error |
| AttestationClaims.FaultIgnoresClaim | crates/atproto-attestation/src/verification.rs:81-157 | the fault verification finds in an entry does not depend on its `cid` |
| AttestationClaims.AppendedClaimHoldsIff | crates/atproto-attestation/src/attestation.rs:500-557 | an appended entry's `cid` names the content it attests if and only if the attestation submitted claimed the CID computed from it, the record and the repository |
| AttestationClaims.WrongClaimIsAccepted | crates/atproto-attestation/src/attestation.rs:500-557 | an attestation a signer could have made, given any other `cid`, is appended and the record still verifies |
| AttestationClaims.MisclaimedVerifies | crates/atproto-attestation/src/attestation.rs:500-557 | one concrete attestation whose claim is false is appended and verifies |
| Ecdsa.TwinVerifies | crates/atproto-identity/src/key.rs:363-444 | negating `s` does not change whether a signature verifies |
| Ecdsa.ExactlyOneIsLow | crates/atproto-identity/src/key.rs:307-317 | of a valid signature and its twin both pass `AnyS`; `LowSOnly` passes exactly the one with 2s < n, which normalising gives |
| Ecdsa.PolicyIsCanonicalForm | crates/atproto-attestation/src/signature.rs:30-83 | `LowSOnly` is `AnyS` and 2s < n, and that is `AnyS` on signatures that normalising leaves alone; a parsed signature with a larger `s` is refused as malleable |
| Ecdsa.SignedValidates | crates/atproto-identity/src/key.rs:518-578 | what `sign` returns has 2s < n, passes `LowSOnly` and is fixed by normalising |
| Ecdsa.NormalizesToLow | crates/atproto-attestation/src/signature.rs:30-83 | normalising keeps a signature with 2s < n and replaces `s` by n - s in any other |
| Ecdsa.VerifiesExactly | crates/atproto-identity/src/key.rs:363-444 | a parsed signature verifies if and only if there is a nonce k with x(k) = r and s k congruent to the digest plus r times the key |
| Ecdsa.RefusalIsReal | crates/atproto-identity/src/key.rs:307-317 | a signature is refused as unparsable, as malleable when it parses and 2s > n under `LowSOnly`, and otherwise only when it does not verify |
| CssLexer.LexIsWellFormed | crates/atproto-pds/build.rs:66-107 | the lexer's pieces concatenate to the input, and each is a whole string, a whole comment closed at its first `*/` or run to the end, or a byte that starts neither |
| CssLexer.LexExactly | crates/atproto-pds/build.rs:66-107 | it is the only such division of the input |
| CssLexer.KeptExactly | crates/atproto-pds/build.rs:74-107 | of each piece a comment leaves nothing and any other its text, in order |
| CssLexer.QuotedIsKept | crates/atproto-pds/build.rs:74-107 | whatever stands between two quotes of either kind is kept, comments included |
| CssLexer.EscapedQuoteIsKept | crates/atproto-pds/build.rs:74-107 | also behind a quote escaped by a backslash |
| CssLexer.CommentGoes | crates/atproto-pds/build.rs:93-102 | a comment goes with the quotes in it |
| Css.OutIsKept | crates/atproto-pds/build.rs:74-107 | the index loop's output is the lexer's pieces without the comments |
| Css.CommentIsCleanCut | crates/atproto-pds/build.rs:52-65 | every cut the loop makes is on a character boundary, although an escape can leave the index inside a character |
| Css.CutComment | crates/atproto-pds/build.rs:93-102 | flushing a run and skipping a comment slices only valid UTF-8, and moves forward |
| Css.Scan | crates/atproto-pds/build.rs:66-107 | the loop terminates on valid UTF-8 with valid UTF-8, namely the lexer's output |
| Css.StripCssComments | crates/atproto-pds/build.rs:66-121 | exactly the comments and padding are gone: the lines of the result, each ended by a line feed, are in order the non-blank lines of the text outside comments without the spaces at their ends |
| CssLines.LinePass | crates/atproto-pds/build.rs:109-120 | the line pass leaves, in order and each on a line of its own, the middles of the non-blank lines, keeps the sequence of non-space characters, and is idempotent |
| CssLines.TrimExactly | crates/atproto-pds/build.rs:113 | trimming gives the one middle that neither begins nor ends with a space and has only spaces around it |
| CssLines.LinesExactly | crates/atproto-pds/build.rs:112 | the lines are the one division of the text at line feeds, carriage returns before them taken off |
| Utf8.AsciiStandsAlone | crates/atproto-pds/build.rs:63-65 | a string may be cut on either side of an ASCII byte |
| Base64.SextetsRoundTrip | crates/atproto-dasl/src/atproto_json.rs:204-209 | unpacking what was packed gives the bytes back |
| Base64.RoundTrip | crates/atproto-attestation/src/utils.rs:17-22 | what one engine prints every engine of its alphabet reads, given a padding mode that allows it |
| Base64.OneTextPerByteString | crates/atproto-identity/src/jwk.rs:28 | without tolerance for trailing bits each byte string has one unpadded text |
| Base64.DecodesExactly | crates/atproto-dasl/src/atproto_json.rs:204-209 | an engine reads a text as given bytes if and only if it is the symbols of their sextets, trailing bits aside where tolerated, with no more padding than the engine allows |
| Base64.StandardExamples | crates/atproto-attestation/src/utils.rs:17-22 | test vectors of section 10 of RFC 4648, and the symbols in which the alphabets differ |
| Base64.EngineExamples | crates/atproto-dasl/src/atproto_json.rs:204-209 | what each of the three engines makes of padding and of a trailing bit |
| Base58.RoundTrip | crates/atproto-identity/src/key.rs:154-179 | base58btc decodes what it encodes, leading zero bytes included |
| Base58.OneTextPerByteString | crates/atproto-identity/src/key.rs:217-230 | a base58btc text is the only one for its bytes |
| Radix.ConvertInverts | crates/atproto-identity/src/key.rs:154-179 | changing base and back is the identity, keeping leading zeros |
| Key.IdentifyUndoesDisplay | crates/atproto-identity/src/key.rs:217-290 | a printed key of any of the eight types is identified as itself; exactly the empty key is refused |
| Key.DisplayUndoesIdentify | crates/atproto-identity/src/key.rs:154-179 | a `did:key:z` text that identifies a key is the text that key prints as |
| Key.IdentifiesExactly | crates/atproto-identity/src/key.rs:217-290 | a `did:key:z` text identifies a key if and only if the key has bytes and prints as that text |
| Key.RefusalIsReal | crates/atproto-identity/src/key.rs:217-290 | a text identifies no key because it is not base58btc, or has fewer than three bytes, or a prefix no key type has |
| Key.MethodPrefixIsOptional | crates/atproto-identity/src/key.rs:217-230 | the text identifies the same key without `did:key:` |
| Key.K256KeysBeginQ3sh | crates/atproto-identity/src/key.rs:20-45 | every compressed K-256 public key prints as `did:key:zQ3sh` and more |
| Key.P256KeysBeginDnae | crates/atproto-identity/src/key.rs:20-45 | every compressed P-256 public key prints as `did:key:zDnae` and more |
| Jwk.ToSec1Uncompressed | crates/atproto-identity/src/jwk.rs:132-148 | the point built coordinate by coordinate, or the first error |
| Jwk.Sec1UndoesFromSec1 | crates/atproto-identity/src/jwk.rs:76-97 | exactly the well-formed points of the three curves are accepted, and each survives |
| Jwk.FromSec1UndoesSec1 | crates/atproto-identity/src/jwk.rs:132-148 | the point determines the coordinate texts |
| Jwk.PointExactly | crates/atproto-identity/src/jwk.rs:132-159 | a JWK stands for 04, x, y if and only if it is an EC key on one of the three curves whose `x` and `y` are unpadded base64url of them, filling the curve's width |
| Jwk.RefusalIsReal | crates/atproto-identity/src/jwk.rs:132-159 | a JWK is refused for the first of: its curve, its type, a coordinate that is not base64url, one of the wrong width |
| Jwk.WithPrivateScalar | crates/atproto-identity/src/jwk.rs:100-119 | the scalar is left-padded to the curve's width and reads back with the same value |
| Jwk.LeftPadKeepsValue | crates/atproto-identity/src/jwk.rs:100-119 | left padding keeps the big-endian value |
| AtprotoJson.RoundTrip | crates/atproto-dasl/src/atproto_json.rs:45-133 | printing and reading is the identity if and only if the tree has no float, no map with a `$link` or `$bytes` key, no link of CID version 0, and every integer fits in 64 signed bits |
| AtprotoJson.NormalisedIsNormal | crates/atproto-dasl/src/atproto_json.rs:45-133 | what reading and printing makes of an accepted value is accepted again exactly when no link text in it names a version 0 CID; it is then a fixed point, and it keeps the value exactly when moreover every number fits in 64 signed bits |
| AtprotoJson.NumbersFitExactly | crates/atproto-dasl/src/atproto_json.rs:160-182 | of accepted JSON, every integer read fits in 64 signed bits if and only if every integer in the text does and no float in it is 2^63 |
| AtprotoJson.TwoTo63BecomesText | crates/atproto-dasl/src/atproto_json.rs:163-182 | the float 2^63 is read as an integer that prints as a string, which is read as that string |
| AtprotoJson.V0LinkDoesNotSurvive | crates/atproto-dasl/src/atproto_json.rs:127-131 | a concrete link of version 0 that is printed and then refused |
| CidText.V0PrintsQm | crates/atproto-dasl/src/cid/mod.rs:178-182 | the base58btc text of every version 0 CID begins with `Qm` |
| CidText.PrintedIsRead | crates/atproto-dasl/src/cid/mod.rs:89-106 | a CID's text is read back as that CID, or refused exactly when the CID is of version 0 |
| AtprotoJson.AcceptedIsExpressible | crates/atproto-dasl/src/atproto_json.rs:45-88 | reading never yields a float or a map with a reserved key |
| AtprotoJson.FloatReads | crates/atproto-dasl/src/atproto_json.rs:163-182 | a float is read if and only if it is an integer of magnitude at most 2^63, and as that integer |
| AtprotoJson.AcceptedExactly | crates/atproto-dasl/src/atproto_json.rs:45-88 | JSON is accepted if and only if every float in it is such an integer and every `$link` and `$bytes` object has that one key, with text that is read |
| AtprotoJson.ReadExactly | crates/atproto-dasl/src/atproto_json.rs:45-88 | and is read as the value it spells |
| AtprotoJson.FloatsDoNotSurvive | crates/atproto-dasl/src/atproto_json.rs:105-133 | a printed float is read back as an integer, as null, or not at all, and when which |
| AtprotoJson.WideIntegerIsText | crates/atproto-dasl/src/atproto_json.rs:105-109 | an integer outside the signed 64-bit range comes back as the string of its decimal numeral |
| Validation.RulesAnticipateParser | crates/atproto-identity/src/validation.rs:178-227 | for every name without punycode labels that the written rules accept, the URL parser gives back the name or refuses it as a hexadecimal last label, and never an address |
| Validation.BackstopNeverFires | crates/atproto-identity/src/validation.rs:81-86 | on names without punycode labels the rules alone decide, and whatever the parser reads as an address they already reject |
| Validation.CaseDoesNotMatter | crates/atproto-identity/src/validation.rs:178-227 | names equal but for case are accepted together |
| Validation.RulesExactly | crates/atproto-identity/src/validation.rs:178-227 | the rules accept a name if and only if it has at most 253 characters in labels of 1 to 63 letters, digits and inner hyphens, is not under one of the four reserved names, its last label has a non-digit, and not all labels are numbers |
| Validation.HandleIsNormal | crates/atproto-identity/src/validation.rs:391-401 | a valid handle's result is its own result |
| Validation.HandleExactly | crates/atproto-identity/src/validation.rs:391-401 | a handle is valid if and only if it is a hostname with a dot, perhaps after `@` or `at://`, and its result is that hostname in lower case |
| Host.PortTexts | crates/atproto-identity/src/host.rs:221-239 | a port text is accepted if and only if it is the decimal of a port from 1 to 65535 |
| Host.AcceptedIsWellformed | crates/atproto-identity/src/host.rs:119-160 | every accepted target has a normal host, a port in range and safe segments |
| Host.ParsePrinted | crates/atproto-identity/src/host.rs:163-218 | every such target, printed as a DID, parses to itself |
| Host.RoundTrip | crates/atproto-identity/src/host.rs:119-160 | printing an accepted DID's target and parsing again gives the same target |
| Host.ParsesExactly | crates/atproto-identity/src/host.rs:119-218 | a DID is accepted as a target if and only if it is the method, the SCID of a `did:webvh`, the host, the port from 1 to 65535 after `%3A` or `%3a`, and safe segments, with colons between |
| Host.HostNameExactly | crates/atproto-identity/src/host.rs:163-218 | without punycode a text names a host if and only if its ASCII form in lower case is that host, a hostname whose last label is no number |
| Host.RefusalIsReal | crates/atproto-identity/src/host.rs:119-218 | the error reported is one the DID has |
| Host.UrlIsInjective | crates/atproto-identity/src/host.rs:61-72 | for one file two targets share a document URL if and only if host, port and directory agree, no segments standing for `.well-known` |
| Host.UrlParts | crates/atproto-identity/src/host.rs:61-72 | scheme, authority, directory and file can be read back from the document URL |

## Left out

- Sockets, TLS, the WebSocket handshake, URL building and async scheduling: a connection is its script of inputs, and one clock reading stands for all those made while a frame is handled.
- Durations are unbounded nanoseconds: the panic of `delay * 2` on overflow and the truncation of milliseconds to 64 bits are not modelled.
- The CAR reader, the commit codec, `verify_inductive` and the tree lookup are parameters of `Verify.Checks`; block hashes are theirs to check.
- Elliptic curves are a group of prime order written as multiples of its generator; DER, point parsing, Ed25519 and the choice of nonce are not part of this model. `normalize_signature` is shown on its `s` component; its curve dispatch is a parameter of the attestation model.
- Hash functions are parameters: the theorems about attested content are about the preimage, so collisions are outside them.
- The CID library's binary parser, its text of version 1 CIDs and its reading of base32 text, IDNA, the multibase table beyond base58btc, and the URL parser outside letter-digit-hyphen names are parameters with stated laws.
- Finite floats are reals and a negative zero; their bits, and what lenient decoding makes of 16- and 32-bit floats, are parameters of `Value.Doubles`.
- Value.RoundTrip: requires the tree to be within the decoder's own limits on depth and size and its links to hold parseable CIDs, because outside them the decoder refuses what was written.
- ValueCanonical.AcceptedBytesAreCanonical: takes it as a law of the CID library that a CID parsed from bytes is no longer than those bytes.
- ConsumerRuns.AtLeastOnce: says nothing about frames before the last connection made without a cursor; what is missed there is the caller's to backfill.
- Error reasons and log lines: errors keep their kind, not their text.
- The memory behaviour of the decoder (chunked reads, known-length early refusals) is left out; it refuses nothing that would otherwise be accepted.
- JSON text: the model starts from parsed values, and a value that does not serialise to an object is one case.
- `create_signature`, `validate_dagcbor_cid`, `sync_blocks`, accessors, configuration builders and the rest of build.rs would only add easy members.
