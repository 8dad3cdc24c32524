/** The data model as DAG-CBOR: values written, and read back through the untyped visitor. */
module Value {
  import opened Common
  import opened AtprotoJson
  import Cbor
  import CborEncode
  import CborGrammar
  import KeyOrder
  import Text
  import Utf8

  /** Doubles and their bits; `ofBits` reads the patterns of any width, given as in a CBOR head. */
  datatype Doubles = Doubles(isDouble: F64 -> bool, toBits: F64 -> nat, ofBits: (nat, nat) -> F64) {
    /** The finite doubles and the finite 64-bit patterns are in bijection. */
    ghost predicate Lawful() {
      && (forall f | isDouble(f) ::
        !f.NotFinite? && toBits(f) <= U64_MAX && Cbor.IsFiniteFloat(27, toBits(f)) && ofBits(27, toBits(f)) == f)
      && (forall bits | 0 <= bits <= U64_MAX && Cbor.IsFiniteFloat(27, bits) ::
        isDouble(ofBits(27, bits)) && toBits(ofBits(27, bits)) == bits)
    }
  }

  // ---- writing ----

  const LEAST_INTEGER := -1 - U64_MAX

  /** The serializer's own failures are integers CBOR cannot hold and floats that are not finite. */
  predicate Writable(d: Doubles, v: Ipld) {
    match v
    case Integer(i) => LEAST_INTEGER <= i <= U64_MAX
    case Float(f) => !f.NotFinite? && d.isDouble(f)
    case List(items) => forall i | 0 <= i < |items| :: Writable(d, items[i])
    case Map(entries) => forall k | k in entries :: Writable(d, entries[k])
    case _ => true
  }

  function DagCborBytes(cid: Cid): seq<byte> { [0x00] + cid.bytes }

  ghost function ItemOf(d: Doubles, v: Ipld): Cbor.Item
    requires Writable(d, v)
    decreases v
  {
    match v
    case Null => Cbor.Null
    case Bool(b) => Cbor.Bool(b)
    case Integer(i) => if i >= 0 then Cbor.UInt(i) else Cbor.NInt(-1 - i)
    case Float(f) => Cbor.Float(27, d.toBits(f))
    case String(s) => Cbor.Text(Text.Encode(s))
    case Bytes(b) => Cbor.Bytes(b)
    case List(items) => Cbor.Array(seq(|items|, i requires 0 <= i < |items| => ItemOf(d, items[i])))
    case Map(entries) =>
      var keys := KeyOrder.SortedKeys(entries.Keys);
      Cbor.Map(seq(|keys|, i requires 0 <= i < |keys| =>
        Cbor.Entry(Cbor.Text(Text.Encode(keys[i])), ItemOf(d, entries[keys[i]]))))
    case Link(cid) => Cbor.Link(DagCborBytes(cid))
  }

  ghost function ToVec(d: Doubles, v: Ipld): Option<seq<byte>> {
    if Writable(d, v) then Some(CborEncode.Encode(ItemOf(d, v))) else None
  }

  // ---- reading ----

  /** Bytes of more than one byte that start with the identity prefix and parse as a CID are a link. */
  function VisitBytes(parseCid: CidParser, b: seq<byte>): Ipld {
    if |b| > 1 && b[0] == 0x00 && Cbor.FromDagCborBytes(parseCid, b).Some? then
      Link(Cbor.FromDagCborBytes(parseCid, b).value)
    else Bytes(b)
  }

  predicate Readable(item: Cbor.Item) {
    match item
    case Text(b) => Utf8.Valid(b)
    case Array(items) => forall i | 0 <= i < |items| :: Readable(items[i])
    case Map(entries) =>
      forall i | 0 <= i < |entries| ::
        entries[i].key.Text? && Utf8.Valid(entries[i].key.utf8) && Readable(entries[i].value)
    case _ => true
  }

  /** What the visitor makes of an item. */
  function IpldOf(d: Doubles, parseCid: CidParser, item: Cbor.Item): Ipld
    requires Readable(item)
    decreases item
  {
    match item
    case UInt(n) => Integer(n)
    case NInt(n) => Integer(-1 - n)
    case Bytes(b) => VisitBytes(parseCid, b)
    case Text(b) => String(Text.Decode(b))
    case Array(items) => List(seq(|items|, i requires 0 <= i < |items| => IpldOf(d, parseCid, items[i])))
    case Map(entries) =>
      Map(Inserted(seq(|entries|, i requires 0 <= i < |entries| =>
        (Text.Decode(entries[i].key.utf8), IpldOf(d, parseCid, entries[i].value)))))
    case Link(b) => VisitBytes(parseCid, b)
    case Bool(b) => Bool(b)
    case Null => Null
    case Float(info, bits) => Float(d.ofBits(info, bits))
  }

  /** Entries inserted in turn: a later one replaces an earlier one with its key. */
  function Inserted(pairs: seq<(string, Ipld)>): map<string, Ipld> {
    if pairs == [] then map[]
    else
      var last := pairs[|pairs| - 1];
      Inserted(pairs[..|pairs| - 1])[last.0 := last.1]
  }

  function FromSlice(d: Doubles, parseCid: CidParser, s: seq<byte>): Option<Ipld> {
    var item :- CborEncode.DecodeStrict(parseCid, s);
    if Readable(item) then Some(IpldOf(d, parseCid, item)) else None
  }

  // ---- what reading makes of what was written ----

  /** `v` with every byte string that looks like a CID turned into a link. */
  function Visited(parseCid: CidParser, v: Ipld): Ipld
    decreases v
  {
    match v
    case Bytes(b) => VisitBytes(parseCid, b)
    case List(items) => List(seq(|items|, i requires 0 <= i < |items| => Visited(parseCid, items[i])))
    case Map(entries) => Map(map k | k in entries :: Visited(parseCid, entries[k]))
    case _ => v
  }

  /** Somewhere in `v` a byte string looks like a CID. */
  ghost predicate HasCidBytes(parseCid: CidParser, v: Ipld) {
    match v
    case Bytes(b) => |b| > 1 && b[0] == 0x00 && parseCid(b[1..]).Some?
    case List(items) => exists i | 0 <= i < |items| :: HasCidBytes(parseCid, items[i])
    case Map(entries) => exists k | k in entries :: HasCidBytes(parseCid, entries[k])
    case _ => false
  }

  /** Every link holds a CID the parser reads back. */
  predicate LinksAreCids(parseCid: CidParser, v: Ipld) {
    match v
    case Link(cid) => cid.bytes != [] && parseCid(cid.bytes) == Some(cid)
    case List(items) => forall i | 0 <= i < |items| :: LinksAreCids(parseCid, items[i])
    case Map(entries) => forall k | k in entries :: LinksAreCids(parseCid, entries[k])
    case _ => true
  }

  /** The value is read back unchanged exactly when no byte string in it looks like a CID. */
  lemma {:induction false} VisitedIsSame(parseCid: CidParser, v: Ipld)
    ensures Visited(parseCid, v) == v <==> !HasCidBytes(parseCid, v)
  {
    match v
    case List(items) =>
      var visited := Visited(parseCid, v).items;
      forall i | 0 <= i < |items| ensures visited[i] == items[i] <==> !HasCidBytes(parseCid, items[i]) {
        VisitedIsSame(parseCid, items[i]);
      }
      assert visited == items <==> forall i | 0 <= i < |items| :: visited[i] == items[i];
    case Map(entries) =>
      var visited := Visited(parseCid, v).entries;
      forall k | k in entries ensures visited[k] == entries[k] <==> !HasCidBytes(parseCid, entries[k]) {
        VisitedIsSame(parseCid, entries[k]);
      }
      assert visited == entries <==> forall k | k in entries :: visited[k] == entries[k];
    case _ =>
  }

  lemma {:induction false} InsertedAll(pairs: seq<(string, Ipld)>)
    requires forall i, j | 0 <= i < j < |pairs| :: pairs[i].0 != pairs[j].0
    ensures forall k :: k in Inserted(pairs) <==> exists i :: 0 <= i < |pairs| && pairs[i].0 == k
    ensures forall i | 0 <= i < |pairs| :: pairs[i].0 in Inserted(pairs) && Inserted(pairs)[pairs[i].0] == pairs[i].1
  {
    if pairs != [] {
      InsertedAll(pairs[..|pairs| - 1]);
    }
  }

  /** Items made from values are read back as those values, but for byte strings that look like CIDs. */
  lemma {:induction false} IpldOfItem(d: Doubles, parseCid: CidParser, v: Ipld)
    requires d.Lawful() && Writable(d, v) && LinksAreCids(parseCid, v)
    ensures Readable(ItemOf(d, v)) && IpldOf(d, parseCid, ItemOf(d, v)) == Visited(parseCid, v)
    decreases v, 1
  {
    match v
    case String(s) => Text.DecodeOfEncode(s);
    case List(items) =>
      forall i | 0 <= i < |items|
        ensures Readable(ItemOf(d, items[i])) && IpldOf(d, parseCid, ItemOf(d, items[i])) == Visited(parseCid, items[i])
      {
        IpldOfItem(d, parseCid, items[i]);
      }
    case Map(_) => IpldOfMapItem(d, parseCid, v);
    case Link(cid) => assert DagCborBytes(cid)[1..] == cid.bytes;
    case _ =>
  }

  lemma {:induction false} InsertedIsMap(keys: seq<string>, pairs: seq<(string, Ipld)>, m: map<string, Ipld>)
    requires |pairs| == |keys| && forall k :: k in keys <==> k in m
    requires forall i, j | 0 <= i < j < |keys| :: keys[i] != keys[j]
    requires forall i | 0 <= i < |keys| :: pairs[i] == (keys[i], m[keys[i]])
    ensures Inserted(pairs) == m
  {
    InsertedAll(pairs);
    forall k ensures k in Inserted(pairs) <==> k in m {
      if k in m {
        var i :| 0 <= i < |keys| && keys[i] == k;
        assert pairs[i].0 == k;
      }
    }
    forall k | k in m ensures Inserted(pairs)[k] == m[k] {
      var i :| 0 <= i < |keys| && keys[i] == k;
      assert pairs[i].0 == k;
    }
  }

  /** The entry holds the key and, once visited, the value. */
  predicate EntryHolds(d: Doubles, parseCid: CidParser, entry: Cbor.Entry, k: string, v: Ipld) {
    && entry.key.Text? && Utf8.Valid(entry.key.utf8) && Text.Decode(entry.key.utf8) == k
    && Readable(entry.value) && IpldOf(d, parseCid, entry.value) == v
  }

  lemma {:induction false} IpldOfMapItem(d: Doubles, parseCid: CidParser, v: Ipld)
    requires v.Map? && d.Lawful() && Writable(d, v) && LinksAreCids(parseCid, v)
    ensures Readable(ItemOf(d, v)) && IpldOf(d, parseCid, ItemOf(d, v)) == Visited(parseCid, v)
    decreases v, 0
  {
    var m, visited := v.entries, Visited(parseCid, v).entries;
    var keys := KeyOrder.SortedKeys(m.Keys);
    var entries := ItemOf(d, v).entries;
    forall i | 0 <= i < |keys| ensures EntryHolds(d, parseCid, entries[i], keys[i], visited[keys[i]]) {
      Text.DecodeOfEncode(keys[i]);
      IpldOfItem(d, parseCid, m[keys[i]]);
    }
    KeyOrder.SortedKeysAscend(m.Keys);
    HeldMapReads(d, parseCid, entries, keys, visited);
  }

  lemma {:induction false} HeldMapReads(
    d: Doubles, parseCid: CidParser, entries: seq<Cbor.Entry>, keys: seq<string>, m: map<string, Ipld>)
    requires KeyOrder.Ascends(keys) && |entries| == |keys| && forall k :: k in keys <==> k in m
    requires forall i | 0 <= i < |keys| :: EntryHolds(d, parseCid, entries[i], keys[i], m[keys[i]])
    ensures Readable(Cbor.Map(entries)) && IpldOf(d, parseCid, Cbor.Map(entries)) == Map(m)
  {
    var pairs := seq(|keys|, i requires 0 <= i < |keys| && keys[i] in m => (keys[i], m[keys[i]]));
    forall i, j | 0 <= i < j < |keys| ensures keys[i] != keys[j] {
      KeyOrder.AscendingDiffer(keys, i, j);
    }
    InsertedIsMap(keys, pairs, m);
    MapItemReads(d, parseCid, Cbor.Map(entries), pairs);
  }

  lemma MapItemReads(d: Doubles, parseCid: CidParser, item: Cbor.Item, pairs: seq<(string, Ipld)>)
    requires item.Map? && Readable(item) && |pairs| == |item.entries|
    requires forall i | 0 <= i < |pairs| ::
      pairs[i] == (Text.Decode(item.entries[i].key.utf8), IpldOf(d, parseCid, item.entries[i].value))
    ensures IpldOf(d, parseCid, item) == Map(Inserted(pairs))
  {
    var entries := item.entries;
    assert pairs == seq(|entries|, i requires 0 <= i < |entries| =>
      (Text.Decode(entries[i].key.utf8), IpldOf(d, parseCid, entries[i].value)));
  }

  // ---- through bytes ----

  predicate StringFits(bytes: nat) { bytes <= 64 * 1024 * 1024 }

  predicate ContainerFits(depth: nat, entries: nat) { depth < 256 && entries <= 16_777_216 }

  predicate KeyFits(k: string) { StringFits(|Text.Encode(k)|) }

  /** Strings of at most 64 MiB, and containers of at most 2^24 entries, at most 256 deep. */
  predicate Fits(depth: nat, v: Ipld)
    decreases v
  {
    match v
    case String(s) => StringFits(|Text.Encode(s)|)
    case Bytes(b) => StringFits(|b|)
    case Link(cid) => StringFits(1 + |cid.bytes|)
    case List(items) =>
      ContainerFits(depth, |items|) && forall i | 0 <= i < |items| :: Fits(depth + 1, items[i])
    case Map(entries) =>
      ContainerFits(depth, |entries|) && forall k | k in entries :: KeyFits(k) && Fits(depth + 1, entries[k])
    case _ => true
  }

  lemma BeforeIsKeyLess(a: string, b: string)
    requires KeyFits(a) && KeyFits(b)
    ensures KeyOrder.Before(a, b) <==> Cbor.KeyLess(Text.Encode(a), Text.Encode(b))
  {
    KeyOrder.EncodedOrderIsKeyOrder(Text.Encode(a), Text.Encode(b));
  }

  lemma AscendingIsInOrder(keys: seq<string>, written: seq<Cbor.Entry>)
    requires KeyOrder.Ascends(keys) && |written| == |keys|
    requires forall i | 0 <= i < |keys| :: KeyFits(keys[i]) && written[i].key == Cbor.Text(Text.Encode(keys[i]))
    ensures Cbor.KeysInOrder(written)
  {
    forall i | 0 < i < |written| ensures Cbor.KeyLess(written[i - 1].key.utf8, written[i].key.utf8) {
      assert KeyOrder.Before(keys[i - 1], keys[i]);
      BeforeIsKeyLess(keys[i - 1], keys[i]);
    }
  }

  /** What the serializer writes is what a strict decoder demands, up to the decoder's limits. */
  lemma {:induction false} ItemIsWellFormed(d: Doubles, g: Cbor.Config, depth: nat, v: Ipld)
    requires d.Lawful() && Writable(d, v) && (g.strict ==> LinksAreCids(g.parseCid, v))
    ensures CborEncode.WellFormed(g, depth, ItemOf(d, v)) <==> Fits(depth, v)
    decreases v, 1
  {
    match v
    case String(s) => Text.DecodeOfEncode(s);
    case Float(f) => DoubleIsWellFormed(d, g, depth, f);
    case List(_) => ListItemIsWellFormed(d, g, depth, v);
    case Map(_) => MapItemIsWellFormed(d, g, depth, v);
    case Link(cid) => assert DagCborBytes(cid)[1..] == cid.bytes;
    case _ =>
  }

  lemma DoubleIsWellFormed(d: Doubles, g: Cbor.Config, depth: nat, f: F64)
    requires d.Lawful() && d.isDouble(f)
    ensures CborEncode.WellFormed(g, depth, Cbor.Float(27, d.toBits(f)))
  {
    CborEncode.Capacities();
  }

  lemma {:induction false} ListItemIsWellFormed(d: Doubles, g: Cbor.Config, depth: nat, v: Ipld)
    requires v.List? && d.Lawful() && Writable(d, v) && (g.strict ==> LinksAreCids(g.parseCid, v))
    ensures CborEncode.WellFormed(g, depth, ItemOf(d, v)) <==> Fits(depth, v)
    decreases v, 0
  {
    var items, written := v.items, ItemOf(d, v).items;
    forall i | 0 <= i < |items| ensures CborEncode.WellFormed(g, depth + 1, written[i]) <==> Fits(depth + 1, items[i]) {
      ItemIsWellFormed(d, g, depth + 1, items[i]);
    }
    ListAgrees(g, depth, items, written);
  }

  lemma ListAgrees(g: Cbor.Config, depth: nat, items: seq<Ipld>, written: seq<Cbor.Item>)
    requires |items| == |written|
    requires forall i | 0 <= i < |items| ::
      CborEncode.WellFormed(g, depth + 1, written[i]) <==> Fits(depth + 1, items[i])
    ensures CborEncode.WellFormed(g, depth, Cbor.Array(written)) <==> Fits(depth, List(items))
  {
  }

  ghost predicate EntryAgrees(g: Cbor.Config, depth: nat, k: string, v: Ipld, written: Cbor.Entry) {
    && (CborEncode.WellFormed(g, depth, written.key) <==> KeyFits(k))
    && (CborEncode.WellFormed(g, depth, written.value) <==> Fits(depth, v))
  }

  ghost predicate EntriesAgree(
    g: Cbor.Config, depth: nat, m: map<string, Ipld>, keys: seq<string>, written: seq<Cbor.Entry>) {
    && |keys| == |written| == |m|
    && (forall k :: k in keys <==> k in m)
    && forall i | 0 <= i < |keys| :: EntryAgrees(g, depth, keys[i], m[keys[i]], written[i])
  }

  lemma WellFormedMapFits(g: Cbor.Config, depth: nat, m: map<string, Ipld>, keys: seq<string>, written: seq<Cbor.Entry>)
    requires EntriesAgree(g, depth + 1, m, keys, written) && CborEncode.WellFormed(g, depth, Cbor.Map(written))
    ensures Fits(depth, Map(m))
  {
    forall k | k in m ensures KeyFits(k) && Fits(depth + 1, m[k]) {
      var i :| 0 <= i < |keys| && keys[i] == k;
      assert EntryAgrees(g, depth + 1, keys[i], m[keys[i]], written[i]);
    }
  }

  lemma FittingMapIsWellFormed(
    g: Cbor.Config, depth: nat, m: map<string, Ipld>, keys: seq<string>, written: seq<Cbor.Entry>)
    requires EntriesAgree(g, depth + 1, m, keys, written) && Cbor.KeysInOrder(written) && Fits(depth, Map(m))
    ensures CborEncode.WellFormed(g, depth, Cbor.Map(written))
  {
    forall i | 0 <= i < |written|
      ensures CborEncode.WellFormed(g, depth + 1, written[i].key)
      ensures CborEncode.WellFormed(g, depth + 1, written[i].value)
    {
      assert EntryAgrees(g, depth + 1, keys[i], m[keys[i]], written[i]);
      assert keys[i] in m && KeyFits(keys[i]);
    }
  }

  lemma MapAgrees(g: Cbor.Config, depth: nat, m: map<string, Ipld>, keys: seq<string>, written: seq<Cbor.Entry>)
    requires EntriesAgree(g, depth + 1, m, keys, written) && KeyOrder.Ascends(keys)
    requires forall i | 0 <= i < |keys| :: written[i].key == Cbor.Text(Text.Encode(keys[i]))
    ensures CborEncode.WellFormed(g, depth, Cbor.Map(written)) <==> Fits(depth, Map(m))
  {
    if CborEncode.WellFormed(g, depth, Cbor.Map(written)) {
      WellFormedMapFits(g, depth, m, keys, written);
    }
    if Fits(depth, Map(m)) {
      forall i | 0 <= i < |keys| ensures KeyFits(keys[i]) {
        assert keys[i] in m;
      }
      AscendingIsInOrder(keys, written);
      FittingMapIsWellFormed(g, depth, m, keys, written);
    }
  }

  lemma {:induction false} MapItemIsWellFormed(d: Doubles, g: Cbor.Config, depth: nat, v: Ipld)
    requires v.Map? && d.Lawful() && Writable(d, v) && (g.strict ==> LinksAreCids(g.parseCid, v))
    ensures CborEncode.WellFormed(g, depth, ItemOf(d, v)) <==> Fits(depth, v)
    decreases v, 0
  {
    var m := v.entries;
    var keys := KeyOrder.SortedKeys(m.Keys);
    var written := ItemOf(d, v).entries;
    forall i | 0 <= i < |keys| ensures EntryAgrees(g, depth + 1, keys[i], m[keys[i]], written[i]) {
      Text.DecodeOfEncode(keys[i]);
      ItemIsWellFormed(d, g, depth + 1, m[keys[i]]);
    }
    KeyOrder.SortedKeysAscend(m.Keys);
    MapAgrees(g, depth, m, keys, written);
  }

  /**
   * A value written and read back is itself, except that each byte string that looks like a CID
   * has become that link; so it is itself exactly when it has no such byte string.
   */
  lemma RoundTrip(d: Doubles, parseCid: CidParser, v: Ipld)
    requires d.Lawful() && Writable(d, v) && LinksAreCids(parseCid, v) && Fits(0, v)
    ensures FromSlice(d, parseCid, ToVec(d, v).value) == Some(Visited(parseCid, v))
    ensures FromSlice(d, parseCid, ToVec(d, v).value) == Some(v) <==> !HasCidBytes(parseCid, v)
  {
    ItemIsWellFormed(d, Cbor.Config(true, parseCid), 0, v);
    IpldOfItem(d, parseCid, v);
    CborEncode.StrictDecodingInvertsEncoding(parseCid, ToVec(d, v).value, ItemOf(d, v));
    VisitedIsSame(parseCid, v);
  }

  /** Small integers are written in one byte, negative ones in the second range of 32. */
  lemma SmallIntegersAreOneByte(d: Doubles, i: int)
    requires -24 <= i < 24
    ensures ToVec(d, Integer(i)) == Some([if i >= 0 then i else 0x20 + (-1 - i)])
  {
    if i >= 0 {
      CborGrammar.HeadsOf(0, i);
    } else {
      CborGrammar.HeadsOf(1, -1 - i);
    }
  }
}
