/** Frames of `com.atproto.sync.subscribeRepos`: a header and a body, one CBOR item after the other. */
module Wire {
  import opened Common
  import Cbor
  import CborEncode
  import Utf8

  /** Text is held as its UTF-8 bytes. */
  type Utf8Text = seq<byte>

  function Ascii(s: string): Utf8Text {
    seq(|s|, i requires 0 <= i < |s| => s[i] as int % 128)
  }

  datatype FrameHeader = FrameHeader(op: int, t: Option<Utf8Text>) {
    predicate IsError() { op == -1 }
  }

  datatype Action = Create | Update | Delete

  datatype RepoOp = RepoOp(action: Action, path: Utf8Text, cid: Option<Cid>, prev: Option<Cid>)

  datatype CommitEnvelope = CommitEnvelope(
    sequence: int, repo: Utf8Text, rev: Utf8Text, since: Option<Utf8Text>, time: Option<Utf8Text>,
    commit: Cid, prevData: Option<Cid>, ops: seq<RepoOp>)

  datatype SyncPayload = SyncPayload(sequence: int, did: Utf8Text, rev: Utf8Text, time: Option<Utf8Text>)

  datatype IdentityPayload =
    IdentityPayload(sequence: int, did: Utf8Text, handle: Option<Utf8Text>, time: Option<Utf8Text>)

  datatype AccountPayload =
    AccountPayload(sequence: int, did: Utf8Text, active: bool, status: Option<Utf8Text>, time: Option<Utf8Text>)

  datatype InfoPayload = InfoPayload(name: Utf8Text, message: Option<Utf8Text>) {
    predicate IsOutdatedCursor() { name == Ascii("OutdatedCursor") }
  }

  datatype ErrorPayload = ErrorPayload(error: Utf8Text, message: Option<Utf8Text>)

  datatype Event =
    | Commit(envelope: CommitEnvelope)
    | Sync(sync: SyncPayload)
    | Identity(identity: IdentityPayload)
    | Account(account: AccountPayload)
    | Info(info: InfoPayload)
    | Error(error: ErrorPayload)
    | Unknown(typeTag: Utf8Text)

  datatype Frame = Frame(header: FrameHeader, body: seq<byte>)

  datatype FrameError = BadHeader | BadBody

  function Lenient(parseCid: CidParser): Cbor.Config { Cbor.Config(false, parseCid) }

  // ---- reading a map as a struct ----

  /**
   * The values of `fields`: every key must be text, a field may be given once, and keys that are
   * not fields are passed over.
   */
  function Known(fields: set<Utf8Text>, entries: seq<Cbor.Entry>): Option<map<Utf8Text, Cbor.Item>> {
    if entries == [] then Some(map[])
    else
      var rest :- Known(fields, entries[1..]);
      var key := entries[0].key;
      if !key.Text? then None
      else if key.utf8 !in fields then Some(rest)
      else if key.utf8 in rest then None
      else Some(rest[key.utf8 := entries[0].value])
  }

  function Fields(fields: set<Utf8Text>, item: Cbor.Item): Option<map<Utf8Text, Cbor.Item>> {
    if item.Map? then Known(fields, item.entries) else None
  }

  function I64(item: Cbor.Item): Option<int> {
    match item
    case UInt(n) => if n <= I64_MAX then Some(n) else None
    case NInt(n) => if n <= I64_MAX then Some(-1 - n) else None
    case _ => None
  }

  function I8(item: Cbor.Item): Option<int> {
    var n :- I64(item);
    if -128 <= n <= 127 then Some(n) else None
  }

  function Text(item: Cbor.Item): Option<Utf8Text> {
    if item.Text? then Some(item.utf8) else None
  }

  function Boolean(item: Cbor.Item): Option<bool> {
    if item.Bool? then Some(item.b) else None
  }

  function Link(parseCid: CidParser, item: Cbor.Item): Option<Cid> {
    if item.Link? then Cbor.FromDagCborBytes(parseCid, item.prefixed) else None
  }

  /** A byte string; a text's bytes do as well. */
  function ByteString(item: Cbor.Item): Option<seq<byte>> {
    match item
    case Bytes(b) => Some(b)
    case Text(b) => Some(b)
    case _ => None
  }

  function Required<T>(m: map<Utf8Text, Cbor.Item>, field: string, read: Cbor.Item -> Option<T>): Option<T> {
    if Ascii(field) in m then read(m[Ascii(field)]) else None
  }

  /** Absent and null are alike. */
  function Optional<T>(m: map<Utf8Text, Cbor.Item>, field: string, read: Cbor.Item -> Option<T>): Option<Option<T>> {
    if Ascii(field) !in m || m[Ascii(field)].Null? then Some(None)
    else
      var value :- read(m[Ascii(field)]);
      Some(Some(value))
  }

  function Each<T>(items: seq<Cbor.Item>, read: Cbor.Item -> Option<T>): Option<seq<T>> {
    if items == [] then Some([])
    else
      var first :- read(items[0]);
      var rest :- Each(items[1..], read);
      Some([first] + rest)
  }

  // ---- the payloads ----

  const HEADER_FIELDS: set<Utf8Text> := {Ascii("op"), Ascii("t")}

  function HeaderOf(item: Cbor.Item): Option<FrameHeader> {
    var m :- Fields(HEADER_FIELDS, item);
    var op :- Required(m, "op", I8);
    var t :- Optional(m, "t", Text);
    Some(FrameHeader(op, t))
  }

  function ActionOf(item: Cbor.Item): Option<Action> {
    var name :- Text(item);
    if name == Ascii("create") then Some(Create)
    else if name == Ascii("update") then Some(Update)
    else if name == Ascii("delete") then Some(Delete)
    else None
  }

  const OP_FIELDS: set<Utf8Text> := {Ascii("action"), Ascii("path"), Ascii("cid"), Ascii("prev")}

  function OpOf(parseCid: CidParser, item: Cbor.Item): Option<RepoOp> {
    var m :- Fields(OP_FIELDS, item);
    var action :- Required(m, "action", ActionOf);
    var path :- Required(m, "path", Text);
    var cid :- Optional(m, "cid", i => Link(parseCid, i));
    var prev :- Optional(m, "prev", i => Link(parseCid, i));
    Some(RepoOp(action, path, cid, prev))
  }

  function OpsOf(parseCid: CidParser, item: Cbor.Item): Option<seq<RepoOp>> {
    if item.Array? then Each(item.items, i => OpOf(parseCid, i)) else None
  }

  const ENVELOPE_FIELDS: set<Utf8Text> := {
    Ascii("seq"), Ascii("repo"), Ascii("rev"), Ascii("since"), Ascii("time"),
    Ascii("commit"), Ascii("prevData"), Ascii("ops")}

  const BLOCKS_FIELDS: set<Utf8Text> := {Ascii("blocks")}

  function ReadEnvelope(parseCid: CidParser, m: map<Utf8Text, Cbor.Item>): Option<CommitEnvelope> {
    var sequence :- Required(m, "seq", I64);
    var repo :- Required(m, "repo", Text);
    var rev :- Required(m, "rev", Text);
    var since :- Optional(m, "since", Text);
    var time :- Optional(m, "time", Text);
    var commit :- Required(m, "commit", i => Link(parseCid, i));
    var prevData :- Optional(m, "prevData", i => Link(parseCid, i));
    var ops :- Required(m, "ops", i => OpsOf(parseCid, i));
    Some(CommitEnvelope(sequence, repo, rev, since, time, commit, prevData, ops))
  }

  function ReadBlocks(m: map<Utf8Text, Cbor.Item>): Option<seq<byte>> {
    Required(m, "blocks", ByteString)
  }

  function EnvelopeOf(parseCid: CidParser, item: Cbor.Item): Option<CommitEnvelope> {
    var m :- Fields(ENVELOPE_FIELDS, item);
    ReadEnvelope(parseCid, m)
  }

  function BlocksOf(item: Cbor.Item): Option<seq<byte>> {
    var m :- Fields(BLOCKS_FIELDS, item);
    ReadBlocks(m)
  }

  const SYNC_FIELDS: set<Utf8Text> := {Ascii("seq"), Ascii("did"), Ascii("rev"), Ascii("time")}

  function SyncOf(item: Cbor.Item): Option<SyncPayload> {
    var m :- Fields(SYNC_FIELDS, item);
    var sequence :- Required(m, "seq", I64);
    var did :- Required(m, "did", Text);
    var rev :- Required(m, "rev", Text);
    var time :- Optional(m, "time", Text);
    Some(SyncPayload(sequence, did, rev, time))
  }

  const IDENTITY_FIELDS: set<Utf8Text> := {Ascii("seq"), Ascii("did"), Ascii("handle"), Ascii("time")}

  function IdentityOf(item: Cbor.Item): Option<IdentityPayload> {
    var m :- Fields(IDENTITY_FIELDS, item);
    var sequence :- Required(m, "seq", I64);
    var did :- Required(m, "did", Text);
    var handle :- Optional(m, "handle", Text);
    var time :- Optional(m, "time", Text);
    Some(IdentityPayload(sequence, did, handle, time))
  }

  const ACCOUNT_FIELDS: set<Utf8Text> := {Ascii("seq"), Ascii("did"), Ascii("active"), Ascii("status"), Ascii("time")}

  function AccountOf(item: Cbor.Item): Option<AccountPayload> {
    var m :- Fields(ACCOUNT_FIELDS, item);
    var sequence :- Required(m, "seq", I64);
    var did :- Required(m, "did", Text);
    var active :- Required(m, "active", Boolean);
    var status :- Optional(m, "status", Text);
    var time :- Optional(m, "time", Text);
    Some(AccountPayload(sequence, did, active, status, time))
  }

  const INFO_FIELDS: set<Utf8Text> := {Ascii("name"), Ascii("message")}

  function InfoOf(item: Cbor.Item): Option<InfoPayload> {
    var m :- Fields(INFO_FIELDS, item);
    var name :- Required(m, "name", Text);
    var message :- Optional(m, "message", Text);
    Some(InfoPayload(name, message))
  }

  const ERROR_FIELDS: set<Utf8Text> := {Ascii("error"), Ascii("message")}

  function ErrorOf(item: Cbor.Item): Option<ErrorPayload> {
    var m :- Fields(ERROR_FIELDS, item);
    var error :- Required(m, "error", Text);
    var message :- Optional(m, "message", Text);
    Some(ErrorPayload(error, message))
  }

  // ---- frames ----

  /** The header ends where the decoder stops, and the body is the rest. */
  function Split(parseCid: CidParser, frame: seq<byte>): Result<Frame, FrameError> {
    match Cbor.Parse(Lenient(parseCid), 0, frame, 0)
    case None => Err(BadHeader)
    case Some((item, offset)) =>
      match HeaderOf(item)
      case None => Err(BadHeader)
      case Some(header) => Ok(Frame(header, frame[offset..]))
  }

  /** What follows the body's item is not looked at. */
  function Body(parseCid: CidParser, f: Frame): Option<Cbor.Item> {
    var (item, _) :- Cbor.Parse(Lenient(parseCid), 0, f.body, 0);
    Some(item)
  }

  function Decoded<T>(
    parseCid: CidParser, f: Frame, read: Cbor.Item -> Option<T>, event: T -> Event): Result<Event, FrameError> {
    match Body(parseCid, f)
    case None => Err(BadBody)
    case Some(item) =>
      match read(item)
      case None => Err(BadBody)
      case Some(payload) => Ok(event(payload))
  }

  function EventOf(parseCid: CidParser, f: Frame): Result<Event, FrameError> {
    var tag := if f.header.t.Some? then f.header.t.value else [];
    if f.header.IsError() then Decoded(parseCid, f, ErrorOf, e => Error(e))
    else if tag == Ascii("#commit") then Decoded(parseCid, f, i => EnvelopeOf(parseCid, i), e => Commit(e))
    else if tag == Ascii("#sync") then Decoded(parseCid, f, SyncOf, e => Sync(e))
    else if tag == Ascii("#identity") then Decoded(parseCid, f, IdentityOf, e => Identity(e))
    else if tag == Ascii("#account") then Decoded(parseCid, f, AccountOf, e => Account(e))
    else if tag == Ascii("#info") then Decoded(parseCid, f, InfoOf, e => Info(e))
    else Ok(Unknown(tag))
  }

  function CommitBlocks(parseCid: CidParser, f: Frame): Result<seq<byte>, FrameError> {
    match Body(parseCid, f)
    case None => Err(BadBody)
    case Some(item) =>
      match BlocksOf(item)
      case None => Err(BadBody)
      case Some(blocks) => Ok(blocks)
  }

  // ---- the frame is cut where it was joined ----

  /** Splitting reads a position off the decoder; the body is what the frame holds from there. */
  method SplitFrame(parseCid: CidParser, frame: seq<byte>) returns (r: Result<Frame, FrameError>)
    ensures r == Split(parseCid, frame)
  {
    var position := 0;
    var read := Cbor.Parse(Lenient(parseCid), 0, frame, position);
    if read.None? { return Err(BadHeader); }
    var header := HeaderOf(read.value.0);
    if header.None? { return Err(BadHeader); }
    position := read.value.1;
    return Ok(Frame(header.value, frame[position..]));
  }

  /** However a header is spelled, whatever bytes follow it are the body, exactly. */
  lemma SplitUndoesConcat(parseCid: CidParser, e: seq<byte>, item: Cbor.Item, body: seq<byte>)
    requires Cbor.Parse(Lenient(parseCid), 0, e, 0) == Some((item, |e|))
    ensures Split(parseCid, e + body)
         == match HeaderOf(item) case None => Err(BadHeader) case Some(header) => Ok(Frame(header, body))
  {
    Cbor.Extends(Lenient(parseCid), 0, e, body, 0);
    assert (e + body)[|e|..] == body;
  }

  predicate Encodable(h: FrameHeader) {
    && -128 <= h.op <= 127
    && (h.t.Some? ==> Utf8.Valid(h.t.value) && |h.t.value| <= Cbor.MAX_ALLOC)
  }

  function IntegerItem(n: int): Cbor.Item {
    if n >= 0 then Cbor.UInt(n) else Cbor.NInt(-1 - n)
  }

  /** The item a header is written as: keys in order, no `t` when there is no tag. */
  function HeaderItem(h: FrameHeader): Cbor.Item {
    var op := Cbor.Entry(Cbor.Text(Ascii("op")), IntegerItem(h.op));
    Cbor.Map(if h.t.None? then [op] else [Cbor.Entry(Cbor.Text(Ascii("t")), Cbor.Text(h.t.value)), op])
  }

  lemma {:induction false} AsciiIsUtf8(s: string)
    ensures Utf8.Valid(Ascii(s))
  {
    if s != [] {
      AsciiIsUtf8(s[1..]);
      assert Ascii(s)[1..] == Ascii(s[1..]);
    }
  }

  lemma HeaderOfItem(h: FrameHeader)
    requires Encodable(h)
    ensures HeaderOf(HeaderItem(h)) == Some(h)
  {
    assert Ascii("t")[0] == 0x74 && Ascii("op")[0] == 0x6f;
    var entries := HeaderItem(h).entries;
    assert Known(HEADER_FIELDS, []) == Some(map[]);
    var last := entries[|entries| - 1..];
    assert last[1..] == [] && Known(HEADER_FIELDS, last) == Some(map[Ascii("op") := IntegerItem(h.op)]);
    assert entries == last || entries[1..] == last;
  }

  lemma HeaderItemIsWellFormed(g: Cbor.Config, h: FrameHeader)
    requires Encodable(h)
    ensures CborEncode.WellFormed(g, 0, HeaderItem(h))
  {
    AsciiIsUtf8("t");
    AsciiIsUtf8("op");
    var entries := HeaderItem(h).entries;
    forall i | 0 <= i < |entries|
      ensures CborEncode.WellFormed(g, 1, entries[i].key) && CborEncode.WellFormed(g, 1, entries[i].value)
    {
      assert entries[i].value == IntegerItem(h.op) || (h.t.Some? && entries[i].value == Cbor.Text(h.t.value));
    }
  }

  /** Every header survives being written in front of any body. */
  lemma HeaderRoundTrip(parseCid: CidParser, h: FrameHeader, body: seq<byte>)
    requires Encodable(h)
    ensures Split(parseCid, CborEncode.Encode(HeaderItem(h)) + body) == Ok(Frame(h, body))
  {
    var item, g := HeaderItem(h), Lenient(parseCid);
    var e := CborEncode.Encode(item);
    HeaderItemIsWellFormed(g, h);
    assert e[0..|e|] == e;
    CborEncode.WrittenIsRead(g, 0, e, 0, |e|, item);
    HeaderOfItem(h);
    SplitUndoesConcat(parseCid, e, item, body);
  }

  // ---- two passes over one body ----

  function Restrict(m: map<Utf8Text, Cbor.Item>, fields: set<Utf8Text>): map<Utf8Text, Cbor.Item> {
    map k | k in m && k in fields :: m[k]
  }

  lemma RestrictUpdate(m: map<Utf8Text, Cbor.Item>, k: Utf8Text, v: Cbor.Item, fields: set<Utf8Text>)
    ensures Restrict(m[k := v], fields) == if k in fields then Restrict(m, fields)[k := v] else Restrict(m, fields)
  {
  }

  /** A struct with more fields reads the same values for the fields it shares. */
  lemma {:induction false} KnownProjects(a: set<Utf8Text>, b: set<Utf8Text>, entries: seq<Cbor.Entry>)
    ensures Known(a + b, entries).Some? <==> Known(a, entries).Some? && Known(b, entries).Some?
    ensures Known(a + b, entries).Some? ==>
      && Known(a, entries) == Some(Restrict(Known(a + b, entries).value, a))
      && Known(b, entries) == Some(Restrict(Known(a + b, entries).value, b))
  {
    if entries != [] {
      KnownProjects(a, b, entries[1..]);
      var key, whole := entries[0].key, Known(a + b, entries[1..]);
      if key.Text? && whole.Some? {
        RestrictUpdate(whole.value, key.utf8, entries[0].value, a);
        RestrictUpdate(whole.value, key.utf8, entries[0].value, b);
      }
    }
  }

  /** The whole of a `#commit` body, read in one pass. */
  function CommitBodyOf(parseCid: CidParser, item: Cbor.Item): Option<(CommitEnvelope, seq<byte>)> {
    var m :- Fields(ENVELOPE_FIELDS + BLOCKS_FIELDS, item);
    var envelope :- ReadEnvelope(parseCid, m);
    var blocks :- ReadBlocks(m);
    Some((envelope, blocks))
  }

  lemma EnvelopeReadsItsFields(parseCid: CidParser, m: map<Utf8Text, Cbor.Item>)
    ensures ReadEnvelope(parseCid, Restrict(m, ENVELOPE_FIELDS)) == ReadEnvelope(parseCid, m)
    ensures ReadBlocks(Restrict(m, BLOCKS_FIELDS)) == ReadBlocks(m)
  {
  }

  /** The pass that skips `blocks` and the pass for `blocks` alone are the two halves of one decode. */
  lemma TwoPassesAreOneDecode(parseCid: CidParser, item: Cbor.Item)
    ensures CommitBodyOf(parseCid, item).Some? <==> EnvelopeOf(parseCid, item).Some? && BlocksOf(item).Some?
    ensures CommitBodyOf(parseCid, item).Some? ==>
      CommitBodyOf(parseCid, item).value == (EnvelopeOf(parseCid, item).value, BlocksOf(item).value)
  {
    if item.Map? {
      KnownProjects(ENVELOPE_FIELDS, BLOCKS_FIELDS, item.entries);
      var m := Known(ENVELOPE_FIELDS + BLOCKS_FIELDS, item.entries);
      if m.Some? {
        EnvelopeReadsItsFields(parseCid, m.value);
      }
    }
  }

  // ---- which commits are wanted ----

  const SLASH: byte := 0x2f

  /** The collection: a path up to its first slash. */
  function Collection(path: Utf8Text): (c: Utf8Text)
    ensures c <= path && SLASH !in c
    ensures c == path || path[|c|] == SLASH
  {
    if path == [] || path[0] == SLASH then [] else [path[0]] + Collection(path[1..])
  }

  /** An empty list tracks everything. */
  predicate IsTracked(op: RepoOp, collections: seq<Utf8Text>) {
    collections == [] || Collection(op.path) in collections
  }

  predicate MatchesTracked(envelope: CommitEnvelope, collections: seq<Utf8Text>) {
    collections == [] || exists i | 0 <= i < |envelope.ops| :: IsTracked(envelope.ops[i], collections)
  }

  /** Collections of a path and a key are told apart by the slash alone. */
  lemma {:induction false} CollectionOfPath(collection: Utf8Text, key: Utf8Text)
    requires SLASH !in collection
    ensures Collection(collection + [SLASH] + key) == collection
  {
    var path := collection + [SLASH] + key;
    if collection != [] {
      assert path[1..] == collection[1..] + [SLASH] + key;
      CollectionOfPath(collection[1..], key);
    }
  }
}
