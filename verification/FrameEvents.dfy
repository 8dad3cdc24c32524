/** Every event, however its frame is spelled, is the event that frame decodes to. */
module FrameEvents {
  import opened Common
  import opened Wire
  import opened Frames
  import Cbor
  import CborEncode
  import Utf8

  // ---- the payloads as structs ----

  function SyncFields(p: SyncPayload): seq<Field> {
    [IntegerField("seq", p.sequence), TextField("did", p.did), TextField("rev", p.rev), OptionalText("time", p.time)]
  }

  function IdentityFields(p: IdentityPayload): seq<Field> {
    [IntegerField("seq", p.sequence), TextField("did", p.did),
     OptionalText("handle", p.handle), OptionalText("time", p.time)]
  }

  function AccountFields(p: AccountPayload): seq<Field> {
    [IntegerField("seq", p.sequence), TextField("did", p.did), Field("active", Some(Cbor.Bool(p.active))),
     OptionalText("status", p.status), OptionalText("time", p.time)]
  }

  function InfoFields(p: InfoPayload): seq<Field> {
    [TextField("name", p.name), OptionalText("message", p.message)]
  }

  function ErrorFields(p: ErrorPayload): seq<Field> {
    [TextField("error", p.error), OptionalText("message", p.message)]
  }

  function ActionName(a: Action): string {
    match a
    case Create => "create"
    case Update => "update"
    case Delete => "delete"
  }

  function OpFields(op: RepoOp): seq<Field> {
    [TextField("action", Ascii(ActionName(op.action))), TextField("path", op.path),
     OptionalLink("cid", op.cid), OptionalLink("prev", op.prev)]
  }

  /** A commit's fields, its ops spelled as `ops`. */
  function CommitFields(p: CommitEnvelope, ops: seq<Cbor.Item>, blocks: seq<byte>): seq<Field> {
    [IntegerField("seq", p.sequence), TextField("repo", p.repo), TextField("rev", p.rev),
     OptionalText("since", p.since), OptionalText("time", p.time), Field("commit", Some(LinkItem(p.commit))),
     OptionalLink("prevData", p.prevData), Field("ops", Some(Cbor.Array(ops))),
     Field("blocks", Some(Cbor.Bytes(blocks)))]
  }

  const COMMIT_FIELDS: set<Utf8Text> := ENVELOPE_FIELDS + BLOCKS_FIELDS

  ghost predicate SpellsOps(ops: seq<RepoOp>, items: seq<Cbor.Item>) {
    |items| == |ops| && forall i | 0 <= i < |ops| :: SpellsStruct(OP_FIELDS, OpFields(ops[i]), items[i])
  }

  /**
   * The item is the event's body: its fields in any order, among any other keys, absent options left
   * out or null. A commit's ops are spelled as `ops`; an unknown event's body can be anything.
   */
  ghost predicate SpellsBody(event: Event, ops: seq<Cbor.Item>, blocks: seq<byte>, item: Cbor.Item) {
    match event
    case Commit(p) => SpellsOps(p.ops, ops) && SpellsStruct(COMMIT_FIELDS, CommitFields(p, ops, blocks), item)
    case Sync(p) => SpellsStruct(SYNC_FIELDS, SyncFields(p), item)
    case Identity(p) => SpellsStruct(IDENTITY_FIELDS, IdentityFields(p), item)
    case Account(p) => SpellsStruct(ACCOUNT_FIELDS, AccountFields(p), item)
    case Info(p) => SpellsStruct(INFO_FIELDS, InfoFields(p), item)
    case Error(p) => SpellsStruct(ERROR_FIELDS, ErrorFields(p), item)
    case Unknown(_) => true
  }

  // ---- what each payload is read as ----

  lemma SyncFieldsDiffer(p: SyncPayload)
    ensures Distinct(SyncFields(p)) && NamesIn(SYNC_FIELDS, SyncFields(p))
  {
    MarkedDistinct(SyncFields(p), [881, 868, 886, 1125]);
  }

  lemma SyncReads(p: SyncPayload, item: Cbor.Item)
    requires FitsI64(p.sequence) && SpellsStruct(SYNC_FIELDS, SyncFields(p), item)
    ensures SyncOf(item) == Some(p)
  {
    SyncFieldsDiffer(p);
    var fields := SyncFields(p);
    var m := SpellingGives(SYNC_FIELDS, fields, item);
    assert Gives(m, fields[0]);
    IntegerReads(m, "seq", p.sequence);
    assert Gives(m, fields[1]);
    TextReads(m, "did", p.did);
    assert Gives(m, fields[2]);
    TextReads(m, "rev", p.rev);
    assert Gives(m, fields[3]);
    OptionalTextReads(m, "time", p.time);
  }

  lemma IdentityFieldsDiffer(p: IdentityPayload)
    ensures Distinct(IdentityFields(p)) && NamesIn(IDENTITY_FIELDS, IdentityFields(p))
  {
    MarkedDistinct(IdentityFields(p), [881, 868, 1637, 1125]);
  }

  lemma IdentityReads(p: IdentityPayload, item: Cbor.Item)
    requires FitsI64(p.sequence) && SpellsStruct(IDENTITY_FIELDS, IdentityFields(p), item)
    ensures IdentityOf(item) == Some(p)
  {
    IdentityFieldsDiffer(p);
    var fields := IdentityFields(p);
    var m := SpellingGives(IDENTITY_FIELDS, fields, item);
    assert Gives(m, fields[0]);
    IntegerReads(m, "seq", p.sequence);
    assert Gives(m, fields[1]);
    TextReads(m, "did", p.did);
    assert Gives(m, fields[2]);
    OptionalTextReads(m, "handle", p.handle);
    assert Gives(m, fields[3]);
    OptionalTextReads(m, "time", p.time);
  }

  lemma AccountFieldsDiffer(p: AccountPayload)
    ensures Distinct(AccountFields(p)) && NamesIn(ACCOUNT_FIELDS, AccountFields(p))
  {
    MarkedDistinct(AccountFields(p), [881, 868, 1637, 1651, 1125]);
  }

  lemma AccountReads(p: AccountPayload, item: Cbor.Item)
    requires FitsI64(p.sequence) && SpellsStruct(ACCOUNT_FIELDS, AccountFields(p), item)
    ensures AccountOf(item) == Some(p)
  {
    AccountFieldsDiffer(p);
    var fields := AccountFields(p);
    var m := SpellingGives(ACCOUNT_FIELDS, fields, item);
    assert Gives(m, fields[0]);
    IntegerReads(m, "seq", p.sequence);
    assert Gives(m, fields[1]);
    TextReads(m, "did", p.did);
    assert Gives(m, fields[2]);
    assert Required(m, "active", Boolean) == Some(p.active);
    assert Gives(m, fields[3]);
    OptionalTextReads(m, "status", p.status);
    assert Gives(m, fields[4]);
    OptionalTextReads(m, "time", p.time);
  }

  lemma InfoFieldsDiffer(p: InfoPayload)
    ensures Distinct(InfoFields(p)) && NamesIn(INFO_FIELDS, InfoFields(p))
  {
    MarkedDistinct(InfoFields(p), [1125, 1893]);
  }

  lemma InfoReads(p: InfoPayload, item: Cbor.Item)
    requires SpellsStruct(INFO_FIELDS, InfoFields(p), item)
    ensures InfoOf(item) == Some(p)
  {
    InfoFieldsDiffer(p);
    var fields := InfoFields(p);
    var m := SpellingGives(INFO_FIELDS, fields, item);
    assert Gives(m, fields[0]);
    TextReads(m, "name", p.name);
    assert Gives(m, fields[1]);
    OptionalTextReads(m, "message", p.message);
  }

  lemma ErrorFieldsDiffer(p: ErrorPayload)
    ensures Distinct(ErrorFields(p)) && NamesIn(ERROR_FIELDS, ErrorFields(p))
  {
    MarkedDistinct(ErrorFields(p), [1394, 1893]);
  }

  lemma ErrorReads(p: ErrorPayload, item: Cbor.Item)
    requires SpellsStruct(ERROR_FIELDS, ErrorFields(p), item)
    ensures ErrorOf(item) == Some(p)
  {
    ErrorFieldsDiffer(p);
    var fields := ErrorFields(p);
    var m := SpellingGives(ERROR_FIELDS, fields, item);
    assert Gives(m, fields[0]);
    TextReads(m, "error", p.error);
    assert Gives(m, fields[1]);
    OptionalTextReads(m, "message", p.message);
  }

  // ---- commits ----

  /** The parser reads the CID back from its bytes. */
  predicate IsReadable(parseCid: CidParser, cid: Cid) { parseCid(cid.bytes) == Some(cid) }

  predicate IsReadableIfAny(parseCid: CidParser, cid: Option<Cid>) { cid.Some? ==> IsReadable(parseCid, cid.value) }

  predicate OpIsReadable(parseCid: CidParser, op: RepoOp) {
    IsReadableIfAny(parseCid, op.cid) && IsReadableIfAny(parseCid, op.prev)
  }

  predicate EnvelopeIsReadable(parseCid: CidParser, p: CommitEnvelope) {
    && FitsI64(p.sequence) && IsReadable(parseCid, p.commit) && IsReadableIfAny(parseCid, p.prevData)
    && forall i | 0 <= i < |p.ops| :: OpIsReadable(parseCid, p.ops[i])
  }

  lemma LinkReads(parseCid: CidParser, cid: Cid)
    requires IsReadable(parseCid, cid)
    ensures Link(parseCid, LinkItem(cid)) == Some(cid)
  {
    assert ([0x00] + cid.bytes)[1..] == cid.bytes;
  }

  lemma OptionalLinkReads(parseCid: CidParser, m: map<Utf8Text, Cbor.Item>, name: string, cid: Option<Cid>)
    requires IsReadableIfAny(parseCid, cid) && Gives(m, OptionalLink(name, cid))
    ensures Optional(m, name, i => Link(parseCid, i)) == Some(cid)
  {
    if cid.Some? {
      LinkReads(parseCid, cid.value);
    }
  }

  lemma ActionReads(a: Action)
    ensures ActionOf(Cbor.Text(Ascii(ActionName(a)))) == Some(a)
  {
    assert Ascii("create")[0] == 99 && Ascii("update")[0] == 117 && Ascii("delete")[0] == 100;
  }

  lemma OpFieldsDiffer(op: RepoOp)
    ensures Distinct(OpFields(op)) && NamesIn(OP_FIELDS, OpFields(op))
  {
    MarkedDistinct(OpFields(op), [1646, 1128, 868, 1142]);
  }

  lemma OpReads(parseCid: CidParser, op: RepoOp, item: Cbor.Item)
    requires OpIsReadable(parseCid, op) && SpellsStruct(OP_FIELDS, OpFields(op), item)
    ensures OpOf(parseCid, item) == Some(op)
  {
    OpFieldsDiffer(op);
    var fields := OpFields(op);
    var m := SpellingGives(OP_FIELDS, fields, item);
    assert Gives(m, fields[0]);
    ActionReads(op.action);
    assert Required(m, "action", ActionOf) == Some(op.action);
    assert Gives(m, fields[1]);
    TextReads(m, "path", op.path);
    assert Gives(m, fields[2]);
    OptionalLinkReads(parseCid, m, "cid", op.cid);
    assert Gives(m, fields[3]);
    OptionalLinkReads(parseCid, m, "prev", op.prev);
  }

  lemma {:induction false} EachReads<T>(items: seq<Cbor.Item>, values: seq<T>, read: Cbor.Item -> Option<T>)
    requires |items| == |values| && forall i | 0 <= i < |items| :: read(items[i]) == Some(values[i])
    ensures Each(items, read) == Some(values)
  {
    if items != [] {
      EachReads(items[1..], values[1..], read);
      assert values == [values[0]] + values[1..];
    }
  }

  lemma OpsRead(parseCid: CidParser, ops: seq<RepoOp>, items: seq<Cbor.Item>)
    requires SpellsOps(ops, items) && forall i | 0 <= i < |ops| :: OpIsReadable(parseCid, ops[i])
    ensures OpsOf(parseCid, Cbor.Array(items)) == Some(ops)
  {
    forall i | 0 <= i < |ops| ensures OpOf(parseCid, items[i]) == Some(ops[i]) {
      OpReads(parseCid, ops[i], items[i]);
    }
    EachReads(items, ops, i => OpOf(parseCid, i));
  }

  lemma CommitFieldsDiffer(p: CommitEnvelope, ops: seq<Cbor.Item>, blocks: seq<byte>)
    ensures Distinct(CommitFields(p, ops, blocks))
  {
    MarkedDistinct(CommitFields(p, ops, blocks), [881, 1135, 886, 1381, 1125, 1652, 2145, 883, 1651]);
  }

  lemma CommitFieldsKnown(p: CommitEnvelope, ops: seq<Cbor.Item>, blocks: seq<byte>)
    ensures NamesIn(COMMIT_FIELDS, CommitFields(p, ops, blocks))
  {
    var fields := CommitFields(p, ops, blocks);
    forall i | 0 <= i < |fields| ensures Ascii(fields[i].name) in COMMIT_FIELDS {
      if i < 8 {
        assert Ascii(fields[i].name) in ENVELOPE_FIELDS;
      } else {
        assert Ascii(fields[i].name) in BLOCKS_FIELDS;
      }
    }
  }

  lemma EnvelopeTextsRead(
    p: CommitEnvelope, ops: seq<Cbor.Item>, blocks: seq<byte>, m: map<Utf8Text, Cbor.Item>, fields: seq<Field>)
    requires FitsI64(p.sequence) && fields == CommitFields(p, ops, blocks)
    requires forall i | 0 <= i < 5 :: Gives(m, fields[i])
    ensures Required(m, "seq", I64) == Some(p.sequence)
    ensures Required(m, "repo", Text) == Some(p.repo) && Required(m, "rev", Text) == Some(p.rev)
    ensures Optional(m, "since", Text) == Some(p.since) && Optional(m, "time", Text) == Some(p.time)
  {
    assert Gives(m, fields[0]) && Gives(m, fields[1]) && Gives(m, fields[2]);
    assert Gives(m, fields[3]) && Gives(m, fields[4]);
    IntegerReads(m, "seq", p.sequence);
    TextReads(m, "repo", p.repo);
    TextReads(m, "rev", p.rev);
    OptionalTextReads(m, "since", p.since);
    OptionalTextReads(m, "time", p.time);
  }

  /** Both passes over a commit's body find what it spells. */
  lemma CommitReads(parseCid: CidParser, p: CommitEnvelope, ops: seq<Cbor.Item>, blocks: seq<byte>, item: Cbor.Item)
    requires EnvelopeIsReadable(parseCid, p) && SpellsBody(Commit(p), ops, blocks, item)
    ensures EnvelopeOf(parseCid, item) == Some(p)
    ensures BlocksOf(item) == Some(blocks)
  {
    CommitFieldsDiffer(p, ops, blocks);
    CommitFieldsKnown(p, ops, blocks);
    var fields := CommitFields(p, ops, blocks);
    var m := SpellingGives(COMMIT_FIELDS, fields, item);
    EnvelopeTextsRead(p, ops, blocks, m, fields);
    assert Gives(m, fields[5]);
    LinkReads(parseCid, p.commit);
    assert Required(m, "commit", i => Link(parseCid, i)) == Some(p.commit);
    assert Gives(m, fields[6]);
    OptionalLinkReads(parseCid, m, "prevData", p.prevData);
    assert Gives(m, fields[7]);
    OpsRead(parseCid, p.ops, ops);
    assert Required(m, "ops", i => OpsOf(parseCid, i)) == Some(p.ops);
    assert Gives(m, fields[8]);
    assert ReadBlocks(m) == Some(blocks);
    TwoPassesAreOneDecode(parseCid, item);
  }

  // ---- events ----

  function TagOf(event: Event): Utf8Text {
    match event
    case Commit(_) => Ascii("#commit")
    case Sync(_) => Ascii("#sync")
    case Identity(_) => Ascii("#identity")
    case Account(_) => Ascii("#account")
    case Info(_) => Ascii("#info")
    case Error(_) => []
    case Unknown(tag) => tag
  }

  /** A message is headed by its tag, an error by none. */
  function HeaderFor(event: Event): FrameHeader {
    if event.Error? then FrameHeader(-1, None) else FrameHeader(1, Some(TagOf(event)))
  }

  const KNOWN_TAGS := [Ascii("#commit"), Ascii("#sync"), Ascii("#identity"), Ascii("#account"), Ascii("#info")]

  /** Numbers fit in 64 bits, CIDs are read back, and an unknown event's tag is not a known one. */
  predicate EventIsReadable(parseCid: CidParser, event: Event) {
    match event
    case Commit(p) => EnvelopeIsReadable(parseCid, p)
    case Sync(p) => FitsI64(p.sequence)
    case Identity(p) => FitsI64(p.sequence)
    case Account(p) => FitsI64(p.sequence)
    case Info(_) => true
    case Error(_) => true
    case Unknown(tag) => tag !in KNOWN_TAGS
  }

  lemma TagsDiffer()
    ensures |KNOWN_TAGS| == 5 && forall i, j | 0 <= i < j < 5 :: KNOWN_TAGS[i] != KNOWN_TAGS[j]
  {
    assert |Ascii("#commit")| == 7 && |Ascii("#sync")| == 5 && |Ascii("#identity")| == 9;
    assert |Ascii("#account")| == 8 && |Ascii("#info")| == 5 && Ascii("#sync")[1] != Ascii("#info")[1];
  }

  /** The reader a frame's header selects is the one for its event. */
  lemma TagSelects(parseCid: CidParser, event: Event, f: Frame)
    requires EventIsReadable(parseCid, event) && f.header == HeaderFor(event)
    ensures EventOf(parseCid, f) ==
      match event
      case Commit(_) => Decoded(parseCid, f, i => EnvelopeOf(parseCid, i), e => Commit(e))
      case Sync(_) => Decoded(parseCid, f, SyncOf, e => Sync(e))
      case Identity(_) => Decoded(parseCid, f, IdentityOf, e => Identity(e))
      case Account(_) => Decoded(parseCid, f, AccountOf, e => Account(e))
      case Info(_) => Decoded(parseCid, f, InfoOf, e => Info(e))
      case Error(_) => Decoded(parseCid, f, ErrorOf, e => Error(e))
      case Unknown(tag) => Ok(Unknown(tag))
  {
    TagsDiffer();
    assert KNOWN_TAGS[0] == Ascii("#commit") && KNOWN_TAGS[1] == Ascii("#sync") && KNOWN_TAGS[2] == Ascii("#identity");
    assert KNOWN_TAGS[3] == Ascii("#account") && KNOWN_TAGS[4] == Ascii("#info");
  }

  lemma BodyReads(parseCid: CidParser, event: Event, ops: seq<Cbor.Item>, blocks: seq<byte>, f: Frame, item: Cbor.Item)
    requires EventIsReadable(parseCid, event) && f.header == HeaderFor(event)
    requires SpellsBody(event, ops, blocks, item) && (event.Unknown? || Body(parseCid, f) == Some(item))
    ensures EventOf(parseCid, f) == Ok(event)
    ensures event.Commit? ==> CommitBlocks(parseCid, f) == Ok(blocks)
  {
    TagSelects(parseCid, event, f);
    match event
    case Commit(p) => CommitReads(parseCid, p, ops, blocks, item);
    case Sync(p) => SyncReads(p, item);
    case Identity(p) => IdentityReads(p, item);
    case Account(p) => AccountReads(p, item);
    case Info(p) => InfoReads(p, item);
    case Error(p) => ErrorReads(p, item);
    case Unknown(_) =>
  }

  /**
   * Every event is found again in any frame that spells it: a header of any lenient spelling, then a
   * body whose fields stand in any order, among any keys the reader does not know, with any lenient
   * spelling of its items, and anything after it. A commit's blocks are found as well, and a tag
   * outside the union is reported as unknown whatever follows.
   */
  lemma FrameReads(
    parseCid: CidParser, event: Event, ops: seq<Cbor.Item>, blocks: seq<byte>,
    header: seq<byte>, headerItem: Cbor.Item, body: seq<byte>, item: Cbor.Item)
    returns (f: Frame)
    requires EventIsReadable(parseCid, event) && SpellsBody(event, ops, blocks, item)
    requires Cbor.Parse(Lenient(parseCid), 0, header, 0) == Some((headerItem, |header|))
    requires HeaderOf(headerItem) == Some(HeaderFor(event))
    requires event.Unknown? || Body(parseCid, Frame(HeaderFor(event), body)) == Some(item)
    ensures Split(parseCid, header + body) == Ok(f) && f.header == HeaderFor(event) && f.body == body
    ensures EventOf(parseCid, f) == Ok(event)
    ensures event.Commit? ==> CommitBlocks(parseCid, f) == Ok(blocks)
  {
    f := Frame(HeaderFor(event), body);
    SplitUndoesConcat(parseCid, header, headerItem, body);
    BodyReads(parseCid, event, ops, blocks, f, item);
  }

  // ---- writing ----

  predicate TextFits(t: Utf8Text) { |t| <= Cbor.MAX_ALLOC && Utf8.Valid(t) }

  /** What the encoder needs of a header: the tag of an unknown event is text. */
  predicate TagFits(event: Event) { event.Unknown? ==> TextFits(event.typeTag) }

  lemma HeaderFits(event: Event)
    requires TagFits(event)
    ensures Encodable(HeaderFor(event))
  {
    AsciiIsUtf8("#commit");
    AsciiIsUtf8("#sync");
    AsciiIsUtf8("#identity");
    AsciiIsUtf8("#account");
    AsciiIsUtf8("#info");
  }

  /** A frame as the encoder writes it, the body's entries in the order given. */
  function FrameBytes(event: Event, entries: seq<Cbor.Entry>): seq<byte> {
    CborEncode.Encode(HeaderItem(HeaderFor(event))) + CborEncode.Encode(Cbor.Map(entries))
  }

  /**
   * What an encoder writes is read back: whichever order it puts the fields in, and whatever other
   * keys it adds, as long as it writes items a decoder can read.
   */
  lemma FrameRoundTrip(
    parseCid: CidParser, event: Event, ops: seq<Cbor.Item>, blocks: seq<byte>, entries: seq<Cbor.Entry>)
    returns (f: Frame)
    requires EventIsReadable(parseCid, event) && TagFits(event)
    requires SpellsBody(event, ops, blocks, Cbor.Map(entries))
    requires CborEncode.WellFormed(Lenient(parseCid), 0, Cbor.Map(entries))
    ensures Split(parseCid, FrameBytes(event, entries)) == Ok(f) && f.header == HeaderFor(event)
    ensures EventOf(parseCid, f) == Ok(event)
    ensures event.Commit? ==> CommitBlocks(parseCid, f) == Ok(blocks)
  {
    var item := Cbor.Map(entries);
    var body := CborEncode.Encode(item);
    f := Frame(HeaderFor(event), body);
    HeaderFits(event);
    HeaderRoundTrip(parseCid, f.header, body);
    assert body[0..|body|] == body;
    CborEncode.WrittenIsRead(Lenient(parseCid), 0, body, 0, |body|, item);
    BodyReads(parseCid, event, ops, blocks, f, item);
  }

  // ---- one writer ----

  predicate OptionalFits(t: Option<Utf8Text>) { t.Some? ==> TextFits(t.value) }

  lemma IdentityWellFormed(parseCid: CidParser, p: IdentityPayload)
    requires FitsI64(p.sequence) && TextFits(p.did) && OptionalFits(p.handle) && OptionalFits(p.time)
    ensures CborEncode.WellFormed(Lenient(parseCid), 0, Cbor.Map(Present(IdentityFields(p))))
  {
    StructWellFormed(Lenient(parseCid), 0, IdentityFields(p));
  }

  /** An identity event with its fields in the order of declaration. */
  lemma IdentityFrameReads(parseCid: CidParser, p: IdentityPayload) returns (f: Frame)
    requires FitsI64(p.sequence) && TextFits(p.did) && OptionalFits(p.handle) && OptionalFits(p.time)
    ensures Split(parseCid, FrameBytes(Identity(p), Present(IdentityFields(p)))) == Ok(f)
    ensures EventOf(parseCid, f) == Ok(Identity(p))
  {
    IdentityFieldsDiffer(p);
    PresentSpells(IDENTITY_FIELDS, IdentityFields(p));
    IdentityWellFormed(parseCid, p);
    f := FrameRoundTrip(parseCid, Identity(p), [], [], Present(IdentityFields(p)));
  }
}
