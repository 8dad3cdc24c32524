/** What each frame means: an event is decoded exactly from frames whose fields say it. */
module FrameMeaning {
  import opened Common
  import opened Wire
  import opened Frames
  import FrameEvents
  import Cbor

  type Struct = map<Utf8Text, Cbor.Item>

  // ---- structs ----

  /** The map's keys are text, `m` holds its known ones with their values, and none of those is given twice. */
  ghost predicate IsStruct(known: set<Utf8Text>, item: Cbor.Item, m: Struct) {
    && item.Map? && KeysAreText(item.entries) && NoRepeats(known, item.entries)
    && (forall x | x in item.entries && IsKnown(known, x) :: x.key.utf8 in m && m[x.key.utf8] == x.value)
    && (forall k | k in m :: k in known && Cbor.Entry(Cbor.Text(k), m[k]) in item.entries)
  }

  lemma {:induction false} KnownHasNoRepeats(known: set<Utf8Text>, entries: seq<Cbor.Entry>)
    requires Known(known, entries).Some?
    ensures KeysAreText(entries) && NoRepeats(known, entries)
    ensures forall x | x in entries && IsKnown(known, x) :: x.key.utf8 in Known(known, entries).value
  {
    if entries != [] {
      var rest := entries[1..];
      KnownHasNoRepeats(known, rest);
      assert forall i | 0 < i < |entries| :: entries[i] == rest[i - 1];
      forall i, j | 0 <= i < j < |entries| && entries[i].key == entries[j].key
        ensures entries[i].key.Text? ==> entries[i].key.utf8 !in known
      {
        if i == 0 {
          assert entries[j] in rest;
        } else {
          assert rest[i - 1].key == rest[j - 1].key;
        }
      }
    }
  }

  lemma FieldsExactly(known: set<Utf8Text>, item: Cbor.Item, m: Struct)
    ensures Fields(known, item) == Some(m) <==> IsStruct(known, item, m)
  {
    if item.Map? && Known(known, item.entries).Some? {
      KnownHasNoRepeats(known, item.entries);
    }
    if item.Map? && KeysAreText(item.entries) && NoRepeats(known, item.entries) {
      KnownFinds(known, item.entries);
      if IsStruct(known, item, m) {
        SameStruct(known, item, m, Known(known, item.entries).value);
      }
    }
  }

  lemma SameStruct(known: set<Utf8Text>, item: Cbor.Item, a: Struct, b: Struct)
    requires IsStruct(known, item, a) && IsStruct(known, item, b)
    ensures a == b
  {
    forall k ensures k in a <==> k in b {
      if k in a { assert IsKnown(known, Cbor.Entry(Cbor.Text(k), a[k])); }
      if k in b { assert IsKnown(known, Cbor.Entry(Cbor.Text(k), b[k])); }
    }
    forall k | k in a ensures a[k] == b[k] {
      assert IsKnown(known, Cbor.Entry(Cbor.Text(k), a[k]));
    }
  }

  // ---- fields ----

  predicate Has(m: Struct, name: string, item: Cbor.Item) { Ascii(name) in m && m[Ascii(name)] == item }

  predicate HasNone(m: Struct, name: string) { Ascii(name) in m ==> m[Ascii(name)] == Cbor.Null }

  predicate HasInteger(m: Struct, name: string, n: int) {
    -0x8000_0000_0000_0000 <= n <= 0x7fff_ffff_ffff_ffff && Has(m, name, IntegerItem(n))
  }

  predicate HasOptionalText(m: Struct, name: string, t: Option<Utf8Text>) {
    if t.None? then HasNone(m, name) else Has(m, name, Cbor.Text(t.value))
  }

  /** A tagged byte string: a zero byte, then what the CID library reads. */
  predicate IsLinkTo(parseCid: CidParser, item: Cbor.Item, cid: Cid) {
    item.Link? && |item.prefixed| >= 1 && item.prefixed[0] == 0x00 && parseCid(item.prefixed[1..]) == Some(cid)
  }

  predicate HasLink(parseCid: CidParser, m: Struct, name: string, cid: Cid) {
    Ascii(name) in m && IsLinkTo(parseCid, m[Ascii(name)], cid)
  }

  predicate HasOptionalLink(parseCid: CidParser, m: Struct, name: string, cid: Option<Cid>) {
    if cid.None? then HasNone(m, name) else HasLink(parseCid, m, name, cid.value)
  }

  lemma IntegerIs(m: Struct, name: string, n: int)
    ensures Required(m, name, I64) == Some(n) <==> HasInteger(m, name, n)
  {
  }

  lemma TextIs(m: Struct, name: string, t: Utf8Text)
    ensures Required(m, name, Text) == Some(t) <==> Has(m, name, Cbor.Text(t))
  {
  }

  lemma OptionalTextIs(m: Struct, name: string, t: Option<Utf8Text>)
    ensures Optional(m, name, Text) == Some(t) <==> HasOptionalText(m, name, t)
  {
  }

  lemma LinkIs(parseCid: CidParser, m: Struct, name: string, cid: Cid)
    ensures Required(m, name, i => Link(parseCid, i)) == Some(cid) <==> HasLink(parseCid, m, name, cid)
  {
  }

  lemma OptionalLinkIs(parseCid: CidParser, m: Struct, name: string, cid: Option<Cid>)
    ensures Optional(m, name, i => Link(parseCid, i)) == Some(cid) <==> HasOptionalLink(parseCid, m, name, cid)
  {
  }

  // ---- payloads ----

  ghost predicate SaysSync(item: Cbor.Item, p: SyncPayload) {
    exists m: Struct ::
      && IsStruct(SYNC_FIELDS, item, m) && HasInteger(m, "seq", p.sequence) && Has(m, "did", Cbor.Text(p.did))
      && Has(m, "rev", Cbor.Text(p.rev)) && HasOptionalText(m, "time", p.time)
  }

  ghost predicate SaysIdentity(item: Cbor.Item, p: IdentityPayload) {
    exists m: Struct ::
      && IsStruct(IDENTITY_FIELDS, item, m) && HasInteger(m, "seq", p.sequence) && Has(m, "did", Cbor.Text(p.did))
      && HasOptionalText(m, "handle", p.handle) && HasOptionalText(m, "time", p.time)
  }

  ghost predicate SaysAccount(item: Cbor.Item, p: AccountPayload) {
    exists m: Struct ::
      && IsStruct(ACCOUNT_FIELDS, item, m) && HasInteger(m, "seq", p.sequence) && Has(m, "did", Cbor.Text(p.did))
      && Has(m, "active", Cbor.Bool(p.active))
      && HasOptionalText(m, "status", p.status) && HasOptionalText(m, "time", p.time)
  }

  ghost predicate SaysInfo(item: Cbor.Item, p: InfoPayload) {
    exists m: Struct ::
      IsStruct(INFO_FIELDS, item, m) && Has(m, "name", Cbor.Text(p.name)) && HasOptionalText(m, "message", p.message)
  }

  ghost predicate SaysError(item: Cbor.Item, p: ErrorPayload) {
    exists m: Struct ::
      IsStruct(ERROR_FIELDS, item, m) && Has(m, "error", Cbor.Text(p.error)) && HasOptionalText(m, "message", p.message)
  }

  ghost predicate SaysOp(parseCid: CidParser, item: Cbor.Item, op: RepoOp) {
    exists m: Struct ::
      && IsStruct(OP_FIELDS, item, m)
      && Has(m, "action", Cbor.Text(Ascii(FrameEvents.ActionName(op.action)))) && Has(m, "path", Cbor.Text(op.path))
      && HasOptionalLink(parseCid, m, "cid", op.cid) && HasOptionalLink(parseCid, m, "prev", op.prev)
  }

  ghost predicate SaysOps(parseCid: CidParser, item: Cbor.Item, ops: seq<RepoOp>) {
    && item.Array? && |item.items| == |ops|
    && forall i | 0 <= i < |ops| :: SaysOp(parseCid, item.items[i], ops[i])
  }

  ghost predicate SaysCommit(parseCid: CidParser, item: Cbor.Item, p: CommitEnvelope) {
    exists m: Struct ::
      && IsStruct(ENVELOPE_FIELDS, item, m)
      && HasInteger(m, "seq", p.sequence) && Has(m, "repo", Cbor.Text(p.repo)) && Has(m, "rev", Cbor.Text(p.rev))
      && HasOptionalText(m, "since", p.since) && HasOptionalText(m, "time", p.time)
      && HasLink(parseCid, m, "commit", p.commit) && HasOptionalLink(parseCid, m, "prevData", p.prevData)
      && Ascii("ops") in m && SaysOps(parseCid, m[Ascii("ops")], p.ops)
  }

  /** The blocks, as bytes or as text. */
  ghost predicate SaysBlocks(item: Cbor.Item, blocks: seq<byte>) {
    exists m: Struct ::
      && IsStruct(BLOCKS_FIELDS, item, m)
      && (Has(m, "blocks", Cbor.Bytes(blocks)) || Has(m, "blocks", Cbor.Text(blocks)))
  }

  // ---- decoding is saying ----

  lemma StructsAre(known: set<Utf8Text>, item: Cbor.Item)
    ensures forall m :: Fields(known, item) == Some(m) <==> IsStruct(known, item, m)
  {
    forall m ensures Fields(known, item) == Some(m) <==> IsStruct(known, item, m) {
      FieldsExactly(known, item, m);
    }
  }

  lemma SyncExactly(item: Cbor.Item, p: SyncPayload)
    ensures SyncOf(item) == Some(p) <==> SaysSync(item, p)
  {
    StructsAre(SYNC_FIELDS, item);
    if Fields(SYNC_FIELDS, item).Some? {
      var m := Fields(SYNC_FIELDS, item).value;
      IntegerIs(m, "seq", p.sequence);
      TextIs(m, "did", p.did);
      TextIs(m, "rev", p.rev);
      OptionalTextIs(m, "time", p.time);
    }
  }

  lemma IdentityExactly(item: Cbor.Item, p: IdentityPayload)
    ensures IdentityOf(item) == Some(p) <==> SaysIdentity(item, p)
  {
    StructsAre(IDENTITY_FIELDS, item);
    if Fields(IDENTITY_FIELDS, item).Some? {
      var m := Fields(IDENTITY_FIELDS, item).value;
      IntegerIs(m, "seq", p.sequence);
      TextIs(m, "did", p.did);
      OptionalTextIs(m, "handle", p.handle);
      OptionalTextIs(m, "time", p.time);
    }
  }

  lemma AccountExactly(item: Cbor.Item, p: AccountPayload)
    ensures AccountOf(item) == Some(p) <==> SaysAccount(item, p)
  {
    StructsAre(ACCOUNT_FIELDS, item);
    if Fields(ACCOUNT_FIELDS, item).Some? {
      var m := Fields(ACCOUNT_FIELDS, item).value;
      IntegerIs(m, "seq", p.sequence);
      TextIs(m, "did", p.did);
      assert Required(m, "active", Boolean) == Some(p.active) <==> Has(m, "active", Cbor.Bool(p.active));
      OptionalTextIs(m, "status", p.status);
      OptionalTextIs(m, "time", p.time);
    }
  }

  lemma InfoExactly(item: Cbor.Item, p: InfoPayload)
    ensures InfoOf(item) == Some(p) <==> SaysInfo(item, p)
  {
    StructsAre(INFO_FIELDS, item);
    if Fields(INFO_FIELDS, item).Some? {
      var m := Fields(INFO_FIELDS, item).value;
      TextIs(m, "name", p.name);
      OptionalTextIs(m, "message", p.message);
    }
  }

  lemma ErrorExactly(item: Cbor.Item, p: ErrorPayload)
    ensures ErrorOf(item) == Some(p) <==> SaysError(item, p)
  {
    StructsAre(ERROR_FIELDS, item);
    if Fields(ERROR_FIELDS, item).Some? {
      var m := Fields(ERROR_FIELDS, item).value;
      TextIs(m, "error", p.error);
      OptionalTextIs(m, "message", p.message);
    }
  }

  lemma ActionIs(m: Struct, a: Action)
    ensures Required(m, "action", ActionOf) == Some(a)
      <==> Has(m, "action", Cbor.Text(Ascii(FrameEvents.ActionName(a))))
  {
    FrameEvents.ActionReads(a);
  }

  lemma OpExactly(parseCid: CidParser, item: Cbor.Item, op: RepoOp)
    ensures OpOf(parseCid, item) == Some(op) <==> SaysOp(parseCid, item, op)
  {
    StructsAre(OP_FIELDS, item);
    if Fields(OP_FIELDS, item).Some? {
      var m := Fields(OP_FIELDS, item).value;
      ActionIs(m, op.action);
      TextIs(m, "path", op.path);
      OptionalLinkIs(parseCid, m, "cid", op.cid);
      OptionalLinkIs(parseCid, m, "prev", op.prev);
    }
  }

  lemma {:induction false} EachExactly<T>(items: seq<Cbor.Item>, values: seq<T>, read: Cbor.Item -> Option<T>)
    ensures Each(items, read) == Some(values)
      <==> |items| == |values| && forall i | 0 <= i < |items| :: read(items[i]) == Some(values[i])
  {
    if items != [] && values != [] {
      EachExactly(items[1..], values[1..], read);
      assert values == [values[0]] + values[1..];
      assert forall i | 0 < i < |items| :: items[i] == items[1..][i - 1];
      assert forall i | 0 < i < |values| :: values[i] == values[1..][i - 1];
      if Each(items, read) == Some(values) {
        var rest := Each(items[1..], read).value;
        assert ([read(items[0]).value] + rest)[1..] == rest;
      }
    }
  }

  lemma OpsExactly(parseCid: CidParser, item: Cbor.Item, ops: seq<RepoOp>)
    ensures OpsOf(parseCid, item) == Some(ops) <==> SaysOps(parseCid, item, ops)
  {
    if item.Array? {
      EachExactly(item.items, ops, i => OpOf(parseCid, i));
      forall i | 0 <= i < |item.items| && i < |ops|
        ensures OpOf(parseCid, item.items[i]) == Some(ops[i]) <==> SaysOp(parseCid, item.items[i], ops[i])
      {
        OpExactly(parseCid, item.items[i], ops[i]);
      }
    }
  }

  lemma CommitExactly(parseCid: CidParser, item: Cbor.Item, p: CommitEnvelope)
    ensures EnvelopeOf(parseCid, item) == Some(p) <==> SaysCommit(parseCid, item, p)
  {
    StructsAre(ENVELOPE_FIELDS, item);
    if Fields(ENVELOPE_FIELDS, item).Some? {
      var m := Fields(ENVELOPE_FIELDS, item).value;
      IntegerIs(m, "seq", p.sequence);
      TextIs(m, "repo", p.repo);
      TextIs(m, "rev", p.rev);
      OptionalTextIs(m, "since", p.since);
      OptionalTextIs(m, "time", p.time);
      LinkIs(parseCid, m, "commit", p.commit);
      OptionalLinkIs(parseCid, m, "prevData", p.prevData);
      if Ascii("ops") in m { OpsExactly(parseCid, m[Ascii("ops")], p.ops); }
    }
  }

  lemma BlocksExactly(item: Cbor.Item, blocks: seq<byte>)
    ensures BlocksOf(item) == Some(blocks) <==> SaysBlocks(item, blocks)
  {
    StructsAre(BLOCKS_FIELDS, item);
  }

  // ---- frames ----

  /** The frame's body begins with the item. */
  predicate Carries(parseCid: CidParser, f: Frame, item: Cbor.Item) { Body(parseCid, f) == Some(item) }

  /** The header says that the body is a message of the kind. */
  predicate IsMessage(f: Frame, kind: string) { f.header.op != -1 && f.header.t == Some(Ascii(kind)) }

  /** The frame says the event: its header gives the kind, its body the fields. */
  ghost predicate Means(parseCid: CidParser, f: Frame, event: Event) {
    match event
    case Commit(p) =>
      IsMessage(f, "#commit") && exists item :: Carries(parseCid, f, item) && SaysCommit(parseCid, item, p)
    case Sync(p) => IsMessage(f, "#sync") && exists item :: Carries(parseCid, f, item) && SaysSync(item, p)
    case Identity(p) => IsMessage(f, "#identity") && exists item :: Carries(parseCid, f, item) && SaysIdentity(item, p)
    case Account(p) => IsMessage(f, "#account") && exists item :: Carries(parseCid, f, item) && SaysAccount(item, p)
    case Info(p) => IsMessage(f, "#info") && exists item :: Carries(parseCid, f, item) && SaysInfo(item, p)
    case Error(p) => f.header.op == -1 && exists item :: Carries(parseCid, f, item) && SaysError(item, p)
    case Unknown(tag) =>
      && f.header.op != -1 && tag == (if f.header.t.Some? then f.header.t.value else [])
      && !IsMessage(f, "#commit") && !IsMessage(f, "#sync") && !IsMessage(f, "#identity")
      && !IsMessage(f, "#account") && !IsMessage(f, "#info")
  }

  lemma KindsDiffer()
    ensures Ascii("#commit")[1] == 99 && Ascii("#sync")[1] == 115 && |Ascii("#identity")| == 9
    ensures Ascii("#account")[1] == 97 && |Ascii("#info")| == 5 && |Ascii("#commit")| == 7
    ensures |Ascii("#sync")| == 5 && Ascii("#info")[1] == 105 && |Ascii("#account")| == 8
  {
  }

  /** A frame decodes to an event exactly when it says that event. */
  lemma EventsExactly(parseCid: CidParser, f: Frame, event: Event)
    ensures EventOf(parseCid, f) == Ok(event) <==> Means(parseCid, f, event)
  {
    match event
    case Commit(p) => CommitEvent(parseCid, f, p);
    case Sync(p) => SyncEvent(parseCid, f, p);
    case Identity(p) => IdentityEvent(parseCid, f, p);
    case Account(p) => AccountEvent(parseCid, f, p);
    case Info(p) => InfoEvent(parseCid, f, p);
    case Error(p) => ErrorEvent(parseCid, f, p);
    case Unknown(tag) => UnknownEvent(parseCid, f, tag);
  }

  lemma CommitEvent(parseCid: CidParser, f: Frame, p: CommitEnvelope)
    ensures EventOf(parseCid, f) == Ok(Event.Commit(p)) <==> Means(parseCid, f, Event.Commit(p))
  {
    KindsDiffer();
    if Body(parseCid, f).Some? { CommitExactly(parseCid, Body(parseCid, f).value, p); }
  }

  lemma SyncEvent(parseCid: CidParser, f: Frame, p: SyncPayload)
    ensures EventOf(parseCid, f) == Ok(Event.Sync(p)) <==> Means(parseCid, f, Event.Sync(p))
  {
    KindsDiffer();
    if Body(parseCid, f).Some? { SyncExactly(Body(parseCid, f).value, p); }
  }

  lemma IdentityEvent(parseCid: CidParser, f: Frame, p: IdentityPayload)
    ensures EventOf(parseCid, f) == Ok(Event.Identity(p)) <==> Means(parseCid, f, Event.Identity(p))
  {
    KindsDiffer();
    if Body(parseCid, f).Some? { IdentityExactly(Body(parseCid, f).value, p); }
  }

  lemma AccountEvent(parseCid: CidParser, f: Frame, p: AccountPayload)
    ensures EventOf(parseCid, f) == Ok(Event.Account(p)) <==> Means(parseCid, f, Event.Account(p))
  {
    KindsDiffer();
    if Body(parseCid, f).Some? { AccountExactly(Body(parseCid, f).value, p); }
  }

  lemma InfoEvent(parseCid: CidParser, f: Frame, p: InfoPayload)
    ensures EventOf(parseCid, f) == Ok(Event.Info(p)) <==> Means(parseCid, f, Event.Info(p))
  {
    KindsDiffer();
    if Body(parseCid, f).Some? { InfoExactly(Body(parseCid, f).value, p); }
  }

  lemma ErrorEvent(parseCid: CidParser, f: Frame, p: ErrorPayload)
    ensures EventOf(parseCid, f) == Ok(Event.Error(p)) <==> Means(parseCid, f, Event.Error(p))
  {
    KindsDiffer();
    if Body(parseCid, f).Some? { ErrorExactly(Body(parseCid, f).value, p); }
  }

  lemma UnknownEvent(parseCid: CidParser, f: Frame, tag: Utf8Text)
    ensures EventOf(parseCid, f) == Ok(Unknown(tag)) <==> Means(parseCid, f, Unknown(tag))
  {
    KindsDiffer();
  }

  /** And its blocks are the ones it says. */
  lemma CommitBlocksExactly(parseCid: CidParser, f: Frame, blocks: seq<byte>)
    ensures CommitBlocks(parseCid, f) == Ok(blocks)
      <==> exists item :: Carries(parseCid, f, item) && SaysBlocks(item, blocks)
  {
    var body := Body(parseCid, f);
    if body.Some? { BlocksExactly(body.value, blocks); }
  }

  ghost predicate SaysHeader(item: Cbor.Item, h: FrameHeader) {
    exists m: Struct ::
      && IsStruct(HEADER_FIELDS, item, m) && -128 <= h.op <= 127 && HasInteger(m, "op", h.op)
      && HasOptionalText(m, "t", h.t)
  }

  lemma HeaderExactly(item: Cbor.Item, h: FrameHeader)
    ensures HeaderOf(item) == Some(h) <==> SaysHeader(item, h)
  {
    StructsAre(HEADER_FIELDS, item);
    if Fields(HEADER_FIELDS, item).Some? {
      var m := Fields(HEADER_FIELDS, item).value;
      IntegerIs(m, "op", h.op);
      assert Required(m, "op", I8) == Some(h.op) <==> -128 <= h.op <= 127 && Required(m, "op", I64) == Some(h.op);
      OptionalTextIs(m, "t", h.t);
    }
  }

  /** A frame splits exactly where an item that says the header ends; the body is what follows, all of it. */
  lemma SplitsExactly(parseCid: CidParser, frame: seq<byte>, f: Frame)
    ensures Split(parseCid, frame) == Ok(f) <==> exists item, n: nat ::
      && Cbor.Parse(Lenient(parseCid), 0, frame, 0) == Some((item, n)) && SaysHeader(item, f.header)
      && f.body == frame[n..]
  {
    var read := Cbor.Parse(Lenient(parseCid), 0, frame, 0);
    if read.Some? { HeaderExactly(read.value.0, f.header); }
  }
}
