/** The bytes a strict decoder accepts are the ones the value it returns would be written as. */
module ValueCanonical {
  import opened Common
  import opened AtprotoJson
  import opened Value
  import Cbor
  import CborEncode
  import KeyOrder
  import Text
  import Utf8

  /**
   * Nothing in the item changes when read: untagged bytes do not look like a CID, and tagged bytes
   * are a CID and no more.
   */
  ghost predicate IsExact(parseCid: CidParser, item: Cbor.Item) {
    match item
    case Bytes(b) => VisitBytes(parseCid, b) == Bytes(b)
    case Link(b) => VisitBytes(parseCid, b).Link? && DagCborBytes(VisitBytes(parseCid, b).cid) == b
    case Array(items) => forall i | 0 <= i < |items| :: IsExact(parseCid, items[i])
    case Map(entries) => forall i | 0 <= i < |entries| :: IsExact(parseCid, entries[i].value)
    case _ => true
  }

  lemma {:induction false} WellFormedIsReadable(parseCid: CidParser, depth: nat, item: Cbor.Item)
    requires CborEncode.WellFormed(Cbor.Config(true, parseCid), depth, item)
    ensures Readable(item)
    decreases item
  {
    match item
    case Array(items) =>
      forall i | 0 <= i < |items| ensures Readable(items[i]) { WellFormedIsReadable(parseCid, depth + 1, items[i]); }
    case Map(entries) =>
      forall i | 0 <= i < |entries|
        ensures entries[i].key.Text? && Utf8.Valid(entries[i].key.utf8) && Readable(entries[i].value)
      {
        assert CborEncode.WellFormed(Cbor.Config(true, parseCid), depth + 1, entries[i].key);
        WellFormedIsReadable(parseCid, depth + 1, entries[i].value);
      }
    case _ =>
  }

  // ---- a sorted sequence of keys is the one sorting gives ----

  lemma {:induction false} ChainReaches(keys: seq<string>, i: nat, j: nat)
    requires forall n | 0 < n < |keys| :: KeyOrder.Before(keys[n - 1], keys[n])
    requires i < j < |keys|
    ensures KeyOrder.Before(keys[i], keys[j])
  {
    if i < j - 1 {
      ChainReaches(keys, i, j - 1);
      KeyOrder.BeforeTransitive(keys[i], keys[j - 1], keys[j]);
    }
  }

  lemma LeastIsUnique(a: string, b: string, keys: set<string>)
    requires KeyOrder.IsLeast(a, keys) && KeyOrder.IsLeast(b, keys)
    ensures a == b
  {
    KeyOrder.BeforeIsTotal(a, b);
  }

  lemma {:induction false} AscendingIsSorted(keys: seq<string>, all: set<string>)
    requires KeyOrder.Ascends(keys) && forall k :: k in keys <==> k in all
    ensures KeyOrder.SortedKeys(all) == keys
  {
    if keys == [] {
      assert all == {};
    } else {
      var first, rest := keys[0], keys[1..];
      assert first in all;
      KeyOrder.SortedKeysStep(all);
      FirstIsLeast(keys, all);
      LeastIsUnique(first, KeyOrder.SortedKeys(all)[0], all);
      forall k ensures k in rest <==> k in all - {first} {
        AscendingDiffers(keys, k);
      }
      KeyOrder.AscendsTail(keys);
      AscendingIsSorted(rest, all - {first});
    }
  }

  lemma FirstIsLeast(keys: seq<string>, all: set<string>)
    requires keys != [] && KeyOrder.Ascends(keys) && forall k :: k in keys <==> k in all
    ensures KeyOrder.IsLeast(keys[0], all)
  {
    forall j | j in all && j != keys[0] ensures KeyOrder.Before(keys[0], j) {
      var i :| 0 <= i < |keys| && keys[i] == j;
    }
  }

  lemma AscendingDiffers(keys: seq<string>, k: string)
    requires keys != [] && KeyOrder.Ascends(keys)
    ensures k in keys[1..] <==> k in keys && k != keys[0]
  {
    if k in keys[1..] {
      var i :| 0 <= i < |keys| - 1 && keys[1..][i] == k;
      assert KeyOrder.Before(keys[0], keys[i + 1]);
      KeyOrder.BeforeIsTotal(k, k);
    }
  }

  // ---- what a strictly read map is read as ----

  lemma KeysAscend(entries: seq<Cbor.Entry>, keys: seq<string>)
    requires |keys| == |entries| && Cbor.KeysInOrder(entries)
    requires forall i | 0 <= i < |entries| :: entries[i].key == Cbor.Text(Text.Encode(keys[i])) && KeyFits(keys[i])
    ensures KeyOrder.Ascends(keys)
  {
    forall i | 0 < i < |keys| ensures KeyOrder.Before(keys[i - 1], keys[i]) {
      assert Cbor.KeyLess(entries[i - 1].key.utf8, entries[i].key.utf8);
      BeforeIsKeyLess(keys[i - 1], keys[i]);
    }
    forall i, j | 0 <= i < j < |keys| ensures KeyOrder.Before(keys[i], keys[j]) {
      ChainReaches(keys, i, j);
    }
  }

  lemma ReadMapIs(d: Doubles, parseCid: CidParser, item: Cbor.Item, keys: seq<string>, values: seq<Ipld>)
    requires item.Map? && Readable(item) && |keys| == |values| == |item.entries| && KeyOrder.Ascends(keys)
    requires forall i | 0 <= i < |keys| ::
      keys[i] == Text.Decode(item.entries[i].key.utf8) && values[i] == IpldOf(d, parseCid, item.entries[i].value)
    ensures var m := IpldOf(d, parseCid, item).entries;
      && (forall k :: k in keys <==> k in m)
      && forall i | 0 <= i < |keys| :: keys[i] in m && m[keys[i]] == values[i]
  {
    var pairs := seq(|keys|, i requires 0 <= i < |keys| => (keys[i], values[i]));
    MapItemReads(d, parseCid, item, pairs);
    forall i, j | 0 <= i < j < |pairs| ensures pairs[i].0 != pairs[j].0 {
      KeyOrder.AscendingDiffer(keys, i, j);
    }
    InsertedAre(keys, values, pairs);
  }

  lemma {:induction false} InsertedAre(keys: seq<string>, values: seq<Ipld>, pairs: seq<(string, Ipld)>)
    requires |keys| == |values| == |pairs| && forall i | 0 <= i < |keys| :: pairs[i] == (keys[i], values[i])
    requires forall i, j | 0 <= i < j < |pairs| :: pairs[i].0 != pairs[j].0
    ensures forall k :: k in keys <==> k in Inserted(pairs)
    ensures forall i | 0 <= i < |keys| :: keys[i] in Inserted(pairs) && Inserted(pairs)[keys[i]] == values[i]
  {
    InsertedAll(pairs);
    forall k ensures k in keys <==> k in Inserted(pairs) {
      if k in keys {
        var i :| 0 <= i < |keys| && keys[i] == k;
        assert pairs[i].0 == k;
      }
    }
    forall i | 0 <= i < |keys| ensures keys[i] in Inserted(pairs) && Inserted(pairs)[keys[i]] == values[i] {
      assert pairs[i].0 == keys[i];
    }
  }

  /** `keys` are a strictly read map's keys, in the order the serializer would write them. */
  ghost predicate KeysOf(item: Cbor.Item, m: map<string, Ipld>, keys: seq<string>)
    requires item.Map?
  {
    && |keys| == |item.entries| && KeyOrder.SortedKeys(m.Keys) == keys
    && (forall k :: k in keys <==> k in m)
    && forall i | 0 <= i < |keys| :: KeyFits(keys[i]) && item.entries[i].key == Cbor.Text(Text.Encode(keys[i]))
  }

  lemma StrictMapReads(d: Doubles, parseCid: CidParser, depth: nat, item: Cbor.Item) returns (keys: seq<string>)
    requires item.Map? && CborEncode.WellFormed(Cbor.Config(true, parseCid), depth, item) && Readable(item)
    ensures IpldOf(d, parseCid, item).Map?
    ensures var m := IpldOf(d, parseCid, item).entries;
      && KeysOf(item, m, keys)
      && forall i | 0 <= i < |keys| :: keys[i] in m && m[keys[i]] == IpldOf(d, parseCid, item.entries[i].value)
  {
    var entries := item.entries;
    keys := seq(|entries|, i requires 0 <= i < |entries| => Text.Decode(entries[i].key.utf8));
    var values := seq(|entries|, i requires 0 <= i < |entries| => IpldOf(d, parseCid, entries[i].value));
    forall i | 0 <= i < |entries| ensures entries[i].key == Cbor.Text(Text.Encode(keys[i])) && KeyFits(keys[i]) {
      Text.EncodeOfDecode(entries[i].key.utf8);
      assert CborEncode.WellFormed(Cbor.Config(true, parseCid), depth + 1, entries[i].key);
    }
    KeysAscend(entries, keys);
    ReadMapIs(d, parseCid, item, keys, values);
    AscendingIsSorted(keys, IpldOf(d, parseCid, item).entries.Keys);
  }

  // ---- items are recovered from the values read from them ----

  lemma {:induction false} ItemOfIpld(d: Doubles, parseCid: CidParser, depth: nat, item: Cbor.Item)
    requires CborEncode.WellFormed(Cbor.Config(true, parseCid), depth, item) && Readable(item)
    requires d.Lawful() && IsExact(parseCid, item)
    ensures Writable(d, IpldOf(d, parseCid, item)) && ItemOf(d, IpldOf(d, parseCid, item)) == item
    decreases item, 1
  {
    match item
    case Text(b) => Text.EncodeOfDecode(b);
    case Array(items) =>
      var v := IpldOf(d, parseCid, item);
      forall i | 0 <= i < |items| ensures Writable(d, v.items[i]) && ItemOf(d, v.items[i]) == items[i] {
        ItemOfIpld(d, parseCid, depth + 1, items[i]);
      }
      assert ItemOf(d, v).items == items;
    case Map(_) => MapItemOfIpld(d, parseCid, depth, item);
    case Float(_, _) => CborEncode.Capacities();
    case _ =>
  }

  lemma {:induction false} MapItemOfIpld(d: Doubles, parseCid: CidParser, depth: nat, item: Cbor.Item)
    requires item.Map? && CborEncode.WellFormed(Cbor.Config(true, parseCid), depth, item) && Readable(item)
    requires d.Lawful() && IsExact(parseCid, item)
    ensures Writable(d, IpldOf(d, parseCid, item)) && ItemOf(d, IpldOf(d, parseCid, item)) == item
    decreases item, 0
  {
    var entries, m := item.entries, IpldOf(d, parseCid, item).entries;
    var keys := StrictMapReads(d, parseCid, depth, item);
    forall i | 0 <= i < |keys| ensures Writable(d, m[keys[i]]) && ItemOf(d, m[keys[i]]) == entries[i].value {
      ItemOfIpld(d, parseCid, depth + 1, entries[i].value);
    }
    WrittenMapIs(d, m, keys, entries);
  }

  lemma WrittenMapIs(d: Doubles, m: map<string, Ipld>, keys: seq<string>, entries: seq<Cbor.Entry>)
    requires KeysOf(Cbor.Map(entries), m, keys)
    requires forall i | 0 <= i < |keys| :: Writable(d, m[keys[i]]) && entries[i].value == ItemOf(d, m[keys[i]])
    ensures Writable(d, Map(m)) && ItemOf(d, Map(m)) == Cbor.Map(entries)
  {
    forall k | k in m ensures Writable(d, m[k]) {
      assert k in keys;
    }
    var written := ItemOf(d, Map(m)).entries;
    forall i | 0 <= i < |entries| ensures written[i] == entries[i] {
      assert keys[i] in m;
    }
    assert written == entries;
  }

  // ---- and only then ----

  lemma {:induction false} RecoveredIsExact(d: Doubles, parseCid: CidParser, depth: nat, item: Cbor.Item)
    requires CborEncode.WellFormed(Cbor.Config(true, parseCid), depth, item) && Readable(item)
    requires Writable(d, IpldOf(d, parseCid, item)) && ItemOf(d, IpldOf(d, parseCid, item)) == item
    ensures IsExact(parseCid, item)
    decreases item, 1
  {
    match item
    case Array(items) =>
      var v := IpldOf(d, parseCid, item);
      forall i | 0 <= i < |items| ensures IsExact(parseCid, items[i]) {
        assert ItemOf(d, v).items[i] == ItemOf(d, v.items[i]);
        RecoveredIsExact(d, parseCid, depth + 1, items[i]);
      }
    case Map(_) => RecoveredMapIsExact(d, parseCid, depth, item);
    case _ =>
  }

  lemma {:induction false} RecoveredMapIsExact(d: Doubles, parseCid: CidParser, depth: nat, item: Cbor.Item)
    requires item.Map? && CborEncode.WellFormed(Cbor.Config(true, parseCid), depth, item) && Readable(item)
    requires Writable(d, IpldOf(d, parseCid, item)) && ItemOf(d, IpldOf(d, parseCid, item)) == item
    ensures IsExact(parseCid, item)
    decreases item, 0
  {
    var entries, m := item.entries, IpldOf(d, parseCid, item).entries;
    var keys := StrictMapReads(d, parseCid, depth, item);
    forall i | 0 <= i < |entries| ensures IsExact(parseCid, entries[i].value) {
      assert ItemOf(d, Map(m)).entries[i].value == ItemOf(d, m[keys[i]]);
      RecoveredIsExact(d, parseCid, depth + 1, entries[i].value);
    }
  }

  /** The CID parser makes a CID of no more bytes than it is given. */
  ghost predicate ParserShrinks(parseCid: CidParser) {
    forall b | parseCid(b).Some? :: |parseCid(b).value.bytes| <= |b|
  }

  lemma VisitedFits(parseCid: CidParser, depth: nat, b: seq<byte>)
    requires ParserShrinks(parseCid) && |b| <= Cbor.MAX_ALLOC
    ensures Fits(depth, VisitBytes(parseCid, b))
  {
    if VisitBytes(parseCid, b).Link? {
      assert parseCid(b[1..]).Some?;
    }
  }

  lemma {:induction false} ReadFits(d: Doubles, parseCid: CidParser, depth: nat, item: Cbor.Item)
    requires ParserShrinks(parseCid)
    requires CborEncode.WellFormed(Cbor.Config(true, parseCid), depth, item) && Readable(item)
    ensures Fits(depth, IpldOf(d, parseCid, item))
    decreases item, 1
  {
    match item
    case Text(b) => Text.EncodeOfDecode(b);
    case Bytes(b) => VisitedFits(parseCid, depth, b);
    case Link(b) => VisitedFits(parseCid, depth, b);
    case Array(items) =>
      forall i | 0 <= i < |items| ensures Fits(depth + 1, IpldOf(d, parseCid, items[i])) {
        ReadFits(d, parseCid, depth + 1, items[i]);
      }
    case Map(_) => ReadMapFits(d, parseCid, depth, item);
    case _ =>
  }

  lemma {:induction false} ReadMapFits(d: Doubles, parseCid: CidParser, depth: nat, item: Cbor.Item)
    requires ParserShrinks(parseCid) && item.Map?
    requires CborEncode.WellFormed(Cbor.Config(true, parseCid), depth, item) && Readable(item)
    ensures Fits(depth, IpldOf(d, parseCid, item))
    decreases item, 0
  {
    var m := IpldOf(d, parseCid, item).entries;
    var keys := StrictMapReads(d, parseCid, depth, item);
    forall i | 0 <= i < |keys| ensures Fits(depth + 1, m[keys[i]]) {
      ReadFits(d, parseCid, depth + 1, item.entries[i].value);
    }
    KeyedMapFits(depth, item, m, keys);
  }

  lemma KeyedMapFits(depth: nat, item: Cbor.Item, m: map<string, Ipld>, keys: seq<string>)
    requires item.Map? && depth < Cbor.MAX_DEPTH && |item.entries| <= Cbor.MAX_ENTRIES && KeysOf(item, m, keys)
    requires forall i | 0 <= i < |keys| :: Fits(depth + 1, m[keys[i]])
    ensures Fits(depth, Map(m))
  {
    assert |m.Keys| == |keys|;
    forall k | k in m ensures KeyFits(k) && Fits(depth + 1, m[k]) {
      assert k in keys;
    }
  }

  /**
   * One byte string for each value: what is read from strictly accepted bytes is written as those
   * bytes again, exactly when nothing in them changes kind when read.
   */
  lemma AcceptedBytesAreCanonical(d: Doubles, parseCid: CidParser, s: seq<byte>)
    requires d.Lawful() && ParserShrinks(parseCid) && CborEncode.DecodeStrict(parseCid, s).Some?
    ensures FromSlice(d, parseCid, s).Some?
    ensures ToVec(d, FromSlice(d, parseCid, s).value) == Some(s)
      <==> IsExact(parseCid, CborEncode.DecodeStrict(parseCid, s).value)
  {
    var item := CborEncode.DecodeStrict(parseCid, s).value;
    CborEncode.StrictDecodingInvertsEncoding(parseCid, s, item);
    WellFormedIsReadable(parseCid, 0, item);
    if IsExact(parseCid, item) {
      ItemOfIpld(d, parseCid, 0, item);
    }
    if ToVec(d, IpldOf(d, parseCid, item)) == Some(s) {
      WrittenAlikeIsExact(d, parseCid, item);
    }
  }

  lemma WrittenAlikeIsExact(d: Doubles, parseCid: CidParser, item: Cbor.Item)
    requires d.Lawful() && ParserShrinks(parseCid)
    requires CborEncode.WellFormed(Cbor.Config(true, parseCid), 0, item) && Readable(item)
    requires ToVec(d, IpldOf(d, parseCid, item)) == Some(CborEncode.Encode(item))
    ensures IsExact(parseCid, item)
  {
    var v, g := IpldOf(d, parseCid, item), Cbor.Config(false, parseCid);
    ReadFits(d, parseCid, 0, item);
    ItemIsWellFormed(d, g, 0, v);
    CborEncode.StrictIsLenient(parseCid, 0, item);
    CborEncode.EncodingIsPrefixFree(g, item, ItemOf(d, v), [], []);
    RecoveredIsExact(d, parseCid, 0, item);
  }
}
