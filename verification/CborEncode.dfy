/** Writing CBOR items in DAG-CBOR form: shortest heads, keys in order. */
module CborEncode {
  import opened Common
  import opened Cbor
  import Radix
  import Utf8

  function BigEndian(width: nat, n: nat): (d: seq<byte>)
    ensures |d| == width
  {
    if width == 0 then [] else BigEndian(width - 1, n / 256) + [n % 256]
  }

  lemma {:induction false} ValueOfBigEndian(width: nat, n: nat)
    requires n < Radix.Power(256, width)
    ensures Radix.Value(256, BigEndian(width, n)) == n
  {
    if width > 0 {
      ValueOfBigEndian(width - 1, n / 256);
      Radix.ValueOfAppend(256, BigEndian(width - 1, n / 256), n % 256);
    }
  }

  lemma {:induction false} BigEndianOfValue(d: seq<byte>)
    ensures Radix.Value(256, d) < Radix.Power(256, |d|)
    ensures BigEndian(|d|, Radix.Value(256, d)) == d
  {
    if d != [] {
      var init, last: int := d[..|d| - 1], d[|d| - 1];
      BigEndianOfValue(init);
      var v: int := Radix.Value(256, init);
      assert (v * 256 + last) / 256 == v && (v * 256 + last) % 256 == last;
      assert d == init + [last];
    }
  }

  lemma Capacities()
    ensures Radix.Power(256, 1) == 0x100 && Radix.Power(256, 2) == 0x1_0000
    ensures Radix.Power(256, 4) == 0x1_0000_0000 && Radix.Power(256, 8) == 0x1_0000_0000_0000_0000
  {
    assert Radix.Power(256, 3) == 0x100_0000;
    assert Radix.Power(256, 5) == 0x100_0000_0000;
    assert Radix.Power(256, 6) == 0x1_0000_0000_0000;
    assert Radix.Power(256, 7) == 0x100_0000_0000_0000;
  }

  // ---- heads ----

  /** The argument can be held beside `info`. */
  predicate Holds(info: nat, arg: nat) {
    match ArgWidth(info)
    case None => false
    case Some(width) => if width == 0 then arg == info else arg < Radix.Power(256, width)
  }

  function HeadBytes(major: nat, info: nat, arg: nat): (s: seq<byte>)
    ensures ArgWidth(info).Some? ==> |s| == 1 + ArgWidth(info).value
  {
    [(major * 32 + info) % 256] + (if ArgWidth(info).Some? then BigEndian(ArgWidth(info).value, arg) else [])
  }

  /** The head an encoder writes. */
  function PrintHead(major: nat, arg: nat): seq<byte> {
    HeadBytes(major, ShortestInfo(arg), arg)
  }

  lemma ShortestHolds(arg: nat)
    requires arg <= U64_MAX
    ensures Holds(ShortestInfo(arg), arg)
  {
    Capacities();
  }

  /** `e` stands in `s` at position `i`. */
  predicate At(s: seq<byte>, i: nat, e: seq<byte>) {
    i + |e| <= |s| && s[i..i + |e|] == e
  }

  lemma AtConcat(s: seq<byte>, i: nat, a: seq<byte>, b: seq<byte>)
    ensures At(s, i, a + b) <==> At(s, i, a) && At(s, i + |a|, b)
  {
    if i + |a| + |b| <= |s| {
      SliceJoin(s, i, i + |a|, i + |a| + |b|);
      if At(s, i, a + b) {
        assert s[i..i + |a|] == (a + b)[..|a|];
        assert s[i + |a|..i + |a| + |b|] == (a + b)[|a|..];
      }
    }
  }

  /** A head at `i` is its initial byte there and its argument after it. */
  lemma HeadParts(s: seq<byte>, i: nat, major: nat, info: nat, arg: nat)
    requires major < 8 && info < 28
    ensures At(s, i, HeadBytes(major, info, arg))
      <==> i < |s| && s[i] == major * 32 + info && At(s, i + 1, BigEndian(ArgWidth(info).value, arg))
  {
    var tail := BigEndian(ArgWidth(info).value, arg);
    AtConcat(s, i, [major * 32 + info], tail);
    assert i < |s| ==> s[i..i + 1] == [s[i]];
  }

  lemma InitialByte(major: nat, info: nat, b: int)
    requires info < 32 && b == major * 32 + info
    ensures b / 32 == major && b % 32 == info
  {
  }

  lemma ParseHeadParts(g: Config, s: seq<byte>, i: nat, major: nat, info: nat, arg: nat)
    requires major < 8 && Holds(info, arg)
    requires i < |s| && s[i] == major * 32 + info && At(s, i + 1, BigEndian(ArgWidth(info).value, arg))
    requires g.strict && major < 7 ==> info == ShortestInfo(arg)
    ensures ParseHead(g, s, i) == Some(Head(major, info, arg, i + 1 + ArgWidth(info).value))
  {
    InitialByte(major, info, s[i]);
    var width := ArgWidth(info).value;
    if width > 0 {
      ValueOfBigEndian(width, arg);
      assert s[i + 1..i + 1 + width] == BigEndian(width, arg);
    }
  }

  lemma ParseHeadBytes(g: Config, s: seq<byte>, i: nat, major: nat, info: nat, arg: nat)
    requires major < 8 && Holds(info, arg) && At(s, i, HeadBytes(major, info, arg))
    requires g.strict && major < 7 ==> info == ShortestInfo(arg)
    ensures ParseHead(g, s, i) == Some(Head(major, info, arg, i + |HeadBytes(major, info, arg)|))
  {
    HeadParts(s, i, major, info, arg);
    ParseHeadParts(g, s, i, major, info, arg);
  }

  lemma ParsedHeadBytes(g: Config, s: seq<byte>, i: nat)
    requires ParseHead(g, s, i).Some?
    ensures var h := ParseHead(g, s, i).value;
      && Holds(h.info, h.arg) && At(s, i, HeadBytes(h.major, h.info, h.arg))
      && h.end == i + |HeadBytes(h.major, h.info, h.arg)|
  {
    var h := ParseHead(g, s, i).value;
    HeadParts(s, i, h.major, h.info, h.arg);
    if ArgWidth(h.info).value > 0 {
      BigEndianOfValue(s[i + 1..h.end]);
    }
  }

  // ---- items ----

  /** What a decoder can return at `depth`. */
  ghost predicate WellFormed(g: Config, depth: nat, item: Item)
    decreases item
  {
    match item
    case UInt(n) => n <= U64_MAX
    case NInt(n) => n <= U64_MAX
    case Bytes(b) => |b| <= MAX_ALLOC
    case Text(b) => |b| <= MAX_ALLOC && Utf8.Valid(b)
    case Array(items) =>
      && depth < MAX_DEPTH && |items| <= MAX_ENTRIES
      && forall i | 0 <= i < |items| :: WellFormed(g, depth + 1, items[i])
    case Map(entries) =>
      && depth < MAX_DEPTH && |entries| <= MAX_ENTRIES
      && (g.strict ==> KeysInOrder(entries))
      && forall i | 0 <= i < |entries| ::
        WellFormed(g, depth + 1, entries[i].key) && WellFormed(g, depth + 1, entries[i].value)
    case Link(b) => |b| <= MAX_ALLOC && (g.strict ==> FromDagCborBytes(g.parseCid, b).Some?)
    case Bool(_) => true
    case Null => true
    case Float(info, bits) => IsFiniteFloat(info, bits) && Holds(info, bits) && (g.strict ==> info == 27)
  }

  function Encode(item: Item): seq<byte>
    decreases item, 0
  {
    match item
    case UInt(n) => PrintHead(0, n)
    case NInt(n) => PrintHead(1, n)
    case Bytes(b) => PrintHead(2, |b|) + b
    case Text(b) => PrintHead(3, |b|) + b
    case Array(items) => PrintHead(4, |items|) + EncodeItems(items)
    case Map(entries) => PrintHead(5, |entries|) + EncodeEntries(entries)
    case Link(b) => PrintHead(6, CID_TAG) + (PrintHead(2, |b|) + b)
    case Bool(b) => HeadBytes(7, if b then 21 else 20, if b then 21 else 20)
    case Null => HeadBytes(7, 22, 22)
    case Float(info, bits) => HeadBytes(7, info, bits)
  }

  function EncodeItems(items: seq<Item>): seq<byte>
    decreases items, 0
  {
    if items == [] then [] else Encode(items[0]) + EncodeItems(items[1..])
  }

  function EncodeEntries(entries: seq<Entry>): seq<byte>
    decreases entries, 0
  {
    if entries == [] then []
    else EncodeEntry(entries[0]) + EncodeEntries(entries[1..])
  }

  function EncodeEntry(entry: Entry): seq<byte>
    decreases entry, 0
  {
    Encode(entry.key) + Encode(entry.value)
  }

  // ---- written and read, as relations between positions ----

  /** Between `i` and `j` stands what the encoder writes. */
  predicate Writes(s: seq<byte>, i: nat, j: nat, item: Item) {
    i <= j <= |s| && s[i..j] == Encode(item)
  }

  predicate WritesItems(s: seq<byte>, i: nat, j: nat, items: seq<Item>) {
    i <= j <= |s| && s[i..j] == EncodeItems(items)
  }

  predicate WritesEntries(s: seq<byte>, i: nat, j: nat, entries: seq<Entry>) {
    i <= j <= |s| && s[i..j] == EncodeEntries(entries)
  }

  predicate WritesEntry(s: seq<byte>, i: nat, j: nat, entry: Entry) {
    i <= j <= |s| && s[i..j] == EncodeEntry(entry)
  }

  /** A decoder standing at `i` returns the item and stands at `j`. */
  predicate Reads(g: Config, depth: nat, s: seq<byte>, i: nat, j: nat, item: Item) {
    Parse(g, depth, s, i) == Some((item, j))
  }

  predicate ReadsItems(g: Config, depth: nat, s: seq<byte>, i: nat, j: nat, items: seq<Item>) {
    i <= |s| && ParseItems(g, depth, s, i, |items|) == Some((items, j))
  }

  predicate ReadsEntries(g: Config, depth: nat, s: seq<byte>, i: nat, j: nat, entries: seq<Entry>) {
    i <= |s| && ParseEntries(g, depth, s, i, |entries|) == Some((entries, j))
  }

  predicate ReadsEntry(g: Config, depth: nat, s: seq<byte>, i: nat, j: nat, entry: Entry) {
    i <= |s| && ParseEntry(g, depth, s, i) == Some((entry, j))
  }

  predicate ReadsHead(g: Config, s: seq<byte>, i: nat, j: nat, major: nat, arg: nat) {
    var h := ParseHead(g, s, i);
    h.Some? && h.value.major == major && h.value.arg == arg && h.value.end == j
  }

  ghost predicate AllWellFormed(g: Config, depth: nat, items: seq<Item>) {
    forall k | 0 <= k < |items| :: WellFormed(g, depth, items[k])
  }

  ghost predicate AllEntriesWellFormed(g: Config, depth: nat, entries: seq<Entry>) {
    forall k | 0 <= k < |entries| :: EntryWellFormed(g, depth, entries[k])
  }

  ghost predicate EntryWellFormed(g: Config, depth: nat, entry: Entry) {
    WellFormed(g, depth, entry.key) && WellFormed(g, depth, entry.value)
  }

  // ---- heads ----

  lemma PrintedHead(g: Config, s: seq<byte>, i: nat, j: nat, major: nat, arg: nat)
    requires major < 7 && arg <= U64_MAX && i <= j <= |s| && s[i..j] == PrintHead(major, arg)
    ensures ReadsHead(g, s, i, j, major, arg)
  {
    ShortestHolds(arg);
    ParseHeadBytes(g, s, i, major, ShortestInfo(arg), arg);
  }

  lemma StrictHead(g: Config, s: seq<byte>, i: nat, j: nat, major: nat, arg: nat)
    requires g.strict && major < 7 && ReadsHead(g, s, i, j, major, arg)
    ensures arg <= U64_MAX && i <= j <= |s| && s[i..j] == PrintHead(major, arg)
  {
    ParsedHeadBytes(g, s, i);
    Capacities();
  }

  /** A head and what follows it. */
  lemma HeadAnd(s: seq<byte>, i: nat, k: nat, major: nat, arg: nat, tail: seq<byte>) returns (j: nat)
    requires i <= k <= |s| && s[i..k] == PrintHead(major, arg) + tail
    ensures i <= j <= k && s[i..j] == PrintHead(major, arg) && s[j..k] == tail
  {
    j := i + |PrintHead(major, arg)|;
    assert s[i..j] == s[i..k][..j - i];
    assert s[j..k] == s[i..k][j - i..];
  }

  // ---- containers, one element at a time ----

  lemma SplitItems(s: seq<byte>, i: nat, k: nat, items: seq<Item>) returns (j: nat)
    requires items != [] && WritesItems(s, i, k, items)
    ensures Writes(s, i, j, items[0]) && WritesItems(s, j, k, items[1..])
  {
    j := i + |Encode(items[0])|;
    assert s[i..j] == s[i..k][..j - i];
    assert s[j..k] == s[i..k][j - i..];
  }

  lemma JoinItems(s: seq<byte>, i: nat, j: nat, k: nat, items: seq<Item>)
    requires items != [] && Writes(s, i, j, items[0]) && WritesItems(s, j, k, items[1..])
    ensures WritesItems(s, i, k, items)
  {
    SliceJoin(s, i, j, k);
  }

  lemma SplitEntries(s: seq<byte>, i: nat, k: nat, entries: seq<Entry>) returns (j: nat)
    requires entries != [] && WritesEntries(s, i, k, entries)
    ensures WritesEntry(s, i, j, entries[0]) && WritesEntries(s, j, k, entries[1..])
  {
    j := i + |EncodeEntry(entries[0])|;
    assert s[i..j] == s[i..k][..j - i];
    assert s[j..k] == s[i..k][j - i..];
  }

  lemma JoinEntries(s: seq<byte>, i: nat, j: nat, k: nat, entries: seq<Entry>)
    requires entries != [] && WritesEntry(s, i, j, entries[0]) && WritesEntries(s, j, k, entries[1..])
    ensures WritesEntries(s, i, k, entries)
  {
    SliceJoin(s, i, j, k);
  }

  lemma SplitEntry(s: seq<byte>, i: nat, k: nat, entry: Entry) returns (j: nat)
    requires WritesEntry(s, i, k, entry)
    ensures Writes(s, i, j, entry.key) && Writes(s, j, k, entry.value)
  {
    j := i + |Encode(entry.key)|;
    assert s[i..j] == s[i..k][..j - i];
    assert s[j..k] == s[i..k][j - i..];
  }

  lemma JoinEntry(s: seq<byte>, i: nat, j: nat, k: nat, entry: Entry)
    requires Writes(s, i, j, entry.key) && Writes(s, j, k, entry.value)
    ensures WritesEntry(s, i, k, entry)
  {
    SliceJoin(s, i, j, k);
  }

  lemma ItemsStep(g: Config, depth: nat, s: seq<byte>, i: nat, j: nat, k: nat, items: seq<Item>)
    requires items != [] && Reads(g, depth, s, i, j, items[0]) && ReadsItems(g, depth, s, j, k, items[1..])
    ensures ReadsItems(g, depth, s, i, k, items)
  {
    assert items == [items[0]] + items[1..];
  }

  lemma ItemsUnstep(g: Config, depth: nat, s: seq<byte>, i: nat, k: nat, items: seq<Item>) returns (j: nat)
    requires items != [] && ReadsItems(g, depth, s, i, k, items)
    ensures i < j && Reads(g, depth, s, i, j, items[0]) && ReadsItems(g, depth, s, j, k, items[1..])
  {
    var (item, end) := Parse(g, depth, s, i).value;
    var (rest, _) := ParseItems(g, depth, s, end, |items| - 1).value;
    assert items == [item] + rest;
    j := end;
  }

  lemma EntriesStep(g: Config, depth: nat, s: seq<byte>, i: nat, j: nat, k: nat, entries: seq<Entry>)
    requires entries != [] && ReadsEntry(g, depth, s, i, j, entries[0]) && ReadsEntries(g, depth, s, j, k, entries[1..])
    ensures ReadsEntries(g, depth, s, i, k, entries)
  {
    assert entries == [entries[0]] + entries[1..];
  }

  lemma EntriesUnstep(g: Config, depth: nat, s: seq<byte>, i: nat, k: nat, entries: seq<Entry>) returns (j: nat)
    requires entries != [] && ReadsEntries(g, depth, s, i, k, entries)
    ensures i < j && ReadsEntry(g, depth, s, i, j, entries[0]) && ReadsEntries(g, depth, s, j, k, entries[1..])
  {
    var (entry, end) := ParseEntry(g, depth, s, i).value;
    var (rest, _) := ParseEntries(g, depth, s, end, |entries| - 1).value;
    assert entries == [entry] + rest;
    j := end;
  }

  lemma EntryStep(g: Config, depth: nat, s: seq<byte>, i: nat, j: nat, k: nat, entry: Entry)
    requires i <= |s| && Reads(g, depth, s, i, j, entry.key) && Reads(g, depth, s, j, k, entry.value)
    ensures ReadsEntry(g, depth, s, i, k, entry)
  {
  }

  lemma EntryUnstep(g: Config, depth: nat, s: seq<byte>, i: nat, k: nat, entry: Entry) returns (j: nat)
    requires ReadsEntry(g, depth, s, i, k, entry)
    ensures i < j && Reads(g, depth, s, i, j, entry.key) && Reads(g, depth, s, j, k, entry.value)
  {
    j := Parse(g, depth, s, i).value.1;
  }

  // ---- reading what was written ----

  /** A well-formed item is read back wherever it is written, and the reader stops at its end. */
  lemma {:induction false} WrittenIsRead(g: Config, depth: nat, s: seq<byte>, i: nat, j: nat, item: Item)
    requires WellFormed(g, depth, item) && Writes(s, i, j, item)
    ensures Reads(g, depth, s, i, j, item)
    decreases item, 2
  {
    match item
    case UInt(_) => WrittenNumberIsRead(g, depth, s, i, j, item);
    case NInt(_) => WrittenNumberIsRead(g, depth, s, i, j, item);
    case Bytes(b) => WrittenStringIsRead(g, s, i, j, 2, b);
    case Text(b) => WrittenStringIsRead(g, s, i, j, 3, b);
    case Array(_) => WrittenArrayIsRead(g, depth, s, i, j, item);
    case Map(_) => WrittenMapIsRead(g, depth, s, i, j, item);
    case Link(_) => WrittenLinkIsRead(g, depth, s, i, j, item);
    case _ => WrittenSimpleIsRead(g, depth, s, i, j, item);
  }

  lemma WrittenNumberIsRead(g: Config, depth: nat, s: seq<byte>, i: nat, j: nat, item: Item)
    requires (item.UInt? || item.NInt?) && WellFormed(g, depth, item) && Writes(s, i, j, item)
    ensures Reads(g, depth, s, i, j, item)
  {
    match item
    case UInt(n) => PrintedHead(g, s, i, j, 0, n);
    case NInt(n) => PrintedHead(g, s, i, j, 1, n);
  }

  lemma WrittenSimpleIsRead(g: Config, depth: nat, s: seq<byte>, i: nat, j: nat, item: Item)
    requires (item.Bool? || item.Null? || item.Float?) && WellFormed(g, depth, item) && Writes(s, i, j, item)
    ensures Reads(g, depth, s, i, j, item)
  {
    match item
    case Bool(b) => SimpleIsRead(g, depth, s, i, if b then 21 else 20, if b then 21 else 20, item);
    case Null => SimpleIsRead(g, depth, s, i, 22, 22, item);
    case Float(info, bits) => SimpleIsRead(g, depth, s, i, info, bits, item);
  }

  lemma SimpleIsRead(g: Config, depth: nat, s: seq<byte>, i: nat, info: nat, arg: nat, item: Item)
    requires Holds(info, arg) && At(s, i, HeadBytes(7, info, arg)) && SimpleItem(g, info, arg) == Some(item)
    ensures Reads(g, depth, s, i, i + |HeadBytes(7, info, arg)|, item)
  {
    ParseHeadBytes(g, s, i, 7, info, arg);
  }

  lemma WrittenStringIsRead(g: Config, s: seq<byte>, i: nat, j: nat, major: nat, b: seq<byte>)
    requires major < 7 && |b| <= MAX_ALLOC && i <= j <= |s| && s[i..j] == PrintHead(major, |b|) + b
    ensures var h := ParseHead(g, s, i);
      && h.Some? && h.value.major == major && h.value.arg == |b|
      && ReadBytes(s, h.value) == Some(b) && h.value.end + |b| == j
  {
    var k := HeadAnd(s, i, j, major, |b|, b);
    PrintedHead(g, s, i, k, major, |b|);
  }

  lemma WrittenLinkIsRead(g: Config, depth: nat, s: seq<byte>, i: nat, j: nat, item: Item)
    requires item.Link? && WellFormed(g, depth, item) && Writes(s, i, j, item)
    ensures Reads(g, depth, s, i, j, item)
  {
    var b := item.prefixed;
    var k := HeadAnd(s, i, j, 6, CID_TAG, PrintHead(2, |b|) + b);
    PrintedHead(g, s, i, k, 6, CID_TAG);
    WrittenStringIsRead(g, s, k, j, 2, b);
  }

  lemma {:induction false} WrittenArrayIsRead(g: Config, depth: nat, s: seq<byte>, i: nat, j: nat, item: Item)
    requires item.Array? && WellFormed(g, depth, item) && Writes(s, i, j, item)
    ensures Reads(g, depth, s, i, j, item)
    decreases item, 1
  {
    var k := HeadAnd(s, i, j, 4, |item.items|, EncodeItems(item.items));
    PrintedHead(g, s, i, k, 4, |item.items|);
    WrittenItemsAreRead(g, depth + 1, s, k, j, item.items);
  }

  lemma {:induction false} WrittenMapIsRead(g: Config, depth: nat, s: seq<byte>, i: nat, j: nat, item: Item)
    requires item.Map? && WellFormed(g, depth, item) && Writes(s, i, j, item)
    ensures Reads(g, depth, s, i, j, item)
    decreases item, 1
  {
    var k := HeadAnd(s, i, j, 5, |item.entries|, EncodeEntries(item.entries));
    PrintedHead(g, s, i, k, 5, |item.entries|);
    WrittenEntriesAreRead(g, depth + 1, s, k, j, item.entries);
  }

  lemma {:induction false} WrittenItemsAreRead(g: Config, depth: nat, s: seq<byte>, i: nat, j: nat, items: seq<Item>)
    requires AllWellFormed(g, depth, items) && WritesItems(s, i, j, items)
    ensures ReadsItems(g, depth, s, i, j, items)
    decreases items, 1
  {
    if items != [] {
      var k := SplitItems(s, i, j, items);
      WrittenIsRead(g, depth, s, i, k, items[0]);
      WrittenItemsAreRead(g, depth, s, k, j, items[1..]);
      ItemsStep(g, depth, s, i, k, j, items);
    }
  }

  lemma {:induction false} WrittenEntriesAreRead(
    g: Config, depth: nat, s: seq<byte>, i: nat, j: nat, entries: seq<Entry>)
    requires AllEntriesWellFormed(g, depth, entries) && WritesEntries(s, i, j, entries)
    ensures ReadsEntries(g, depth, s, i, j, entries)
    decreases entries, 1
  {
    if entries != [] {
      var k := SplitEntries(s, i, j, entries);
      assert EntryWellFormed(g, depth, entries[0]);
      WrittenEntryIsRead(g, depth, s, i, k, entries[0]);
      WrittenEntriesAreRead(g, depth, s, k, j, entries[1..]);
      EntriesStep(g, depth, s, i, k, j, entries);
    }
  }

  lemma {:induction false} WrittenEntryIsRead(g: Config, depth: nat, s: seq<byte>, i: nat, j: nat, entry: Entry)
    requires EntryWellFormed(g, depth, entry) && WritesEntry(s, i, j, entry)
    ensures ReadsEntry(g, depth, s, i, j, entry)
    decreases entry, 1
  {
    var k := SplitEntry(s, i, j, entry);
    WrittenIsRead(g, depth, s, i, k, entry.key);
    WrittenIsRead(g, depth, s, k, j, entry.value);
    EntryStep(g, depth, s, i, k, j, entry);
  }

  // ---- only what would have been written is read ----

  /** A strict decoder accepts one spelling of each item: the encoder's. */
  lemma {:induction false} StrictReadIsWritten(g: Config, depth: nat, s: seq<byte>, i: nat, j: nat, item: Item)
    requires g.strict && Reads(g, depth, s, i, j, item)
    ensures WellFormed(g, depth, item) && Writes(s, i, j, item)
    decreases j - i, 1
  {
    var h := ParseHead(g, s, i).value;
    assert ParseBody(g, depth, s, h) == Some((item, j));
    match h.major
    case 4 => StrictArrayIsWritten(g, depth, s, i, j, item, h);
    case 5 => StrictMapIsWritten(g, depth, s, i, j, item, h);
    case 6 => StrictLinkIsWritten(g, depth, s, i, j, item, h);
    case 7 => StrictSimpleIsWritten(g, depth, s, i, j, item, h);
    case _ =>
      if h.major < 2 {
        StrictNumberIsWritten(g, depth, s, i, j, item, h);
      } else {
        StrictTextIsWritten(g, depth, s, i, j, item, h);
      }
  }

  lemma StrictNumberIsWritten(g: Config, depth: nat, s: seq<byte>, i: nat, j: nat, item: Item, h: Head)
    requires g.strict && ParseHead(g, s, i) == Some(h) && ParseBody(g, depth, s, h) == Some((item, j))
    requires h.major < 2
    ensures WellFormed(g, depth, item) && Writes(s, i, j, item)
  {
    StrictHead(g, s, i, h.end, h.major, h.arg);
  }

  lemma StrictTextIsWritten(g: Config, depth: nat, s: seq<byte>, i: nat, j: nat, item: Item, h: Head)
    requires g.strict && ParseHead(g, s, i) == Some(h) && ParseBody(g, depth, s, h) == Some((item, j))
    requires h.major == 2 || h.major == 3
    ensures WellFormed(g, depth, item) && Writes(s, i, j, item)
  {
    StrictStringIsWritten(g, s, i, h);
  }

  lemma SimpleIsWritten(g: Config, depth: nat, info: nat, arg: nat, item: Item)
    requires g.strict && Holds(info, arg) && SimpleItem(g, info, arg) == Some(item)
    ensures WellFormed(g, depth, item) && Encode(item) == HeadBytes(7, info, arg)
  {
  }

  lemma StrictSimpleIsWritten(g: Config, depth: nat, s: seq<byte>, i: nat, j: nat, item: Item, h: Head)
    requires g.strict && ParseHead(g, s, i) == Some(h) && ParseBody(g, depth, s, h) == Some((item, j))
    requires h.major == 7
    ensures WellFormed(g, depth, item) && Writes(s, i, j, item)
  {
    ParsedHeadBytes(g, s, i);
    SimpleIsWritten(g, depth, h.info, h.arg, item);
  }

  lemma StrictLinkIsWritten(g: Config, depth: nat, s: seq<byte>, i: nat, j: nat, item: Item, h: Head)
    requires g.strict && ParseHead(g, s, i) == Some(h) && ParseBody(g, depth, s, h) == Some((item, j))
    requires h.major == 6
    ensures WellFormed(g, depth, item) && Writes(s, i, j, item)
  {
    StrictHead(g, s, i, h.end, 6, h.arg);
    StrictStringIsWritten(g, s, h.end, ParseHead(g, s, h.end).value);
    SliceJoin(s, i, h.end, j);
  }

  lemma {:induction false} StrictArrayIsWritten(
    g: Config, depth: nat, s: seq<byte>, i: nat, j: nat, item: Item, h: Head)
    requires g.strict && ParseHead(g, s, i) == Some(h) && ParseBody(g, depth, s, h) == Some((item, j))
    requires h.major == 4
    ensures WellFormed(g, depth, item) && Writes(s, i, j, item)
    decreases j - i, 0
  {
    StrictHead(g, s, i, h.end, 4, h.arg);
    StrictItemsAreWritten(g, depth + 1, s, h.end, j, item.items);
    SliceJoin(s, i, h.end, j);
  }

  lemma {:induction false} StrictMapIsWritten(g: Config, depth: nat, s: seq<byte>, i: nat, j: nat, item: Item, h: Head)
    requires g.strict && ParseHead(g, s, i) == Some(h) && ParseBody(g, depth, s, h) == Some((item, j))
    requires h.major == 5
    ensures WellFormed(g, depth, item) && Writes(s, i, j, item)
    decreases j - i, 0
  {
    StrictHead(g, s, i, h.end, 5, h.arg);
    StrictEntriesAreWritten(g, depth + 1, s, h.end, j, item.entries);
    SliceJoin(s, i, h.end, j);
  }

  lemma StrictStringIsWritten(g: Config, s: seq<byte>, i: nat, h: Head)
    requires g.strict && ParseHead(g, s, i) == Some(h) && h.major < 7 && ReadBytes(s, h).Some?
    ensures var b := ReadBytes(s, h).value;
      |b| == h.arg <= MAX_ALLOC && s[i..h.end + h.arg] == PrintHead(h.major, |b|) + b
  {
    StrictHead(g, s, i, h.end, h.major, h.arg);
    SliceJoin(s, i, h.end, h.end + h.arg);
  }

  lemma {:induction false} StrictItemsAreWritten(g: Config, depth: nat, s: seq<byte>, i: nat, j: nat, items: seq<Item>)
    requires g.strict && ReadsItems(g, depth, s, i, j, items)
    ensures AllWellFormed(g, depth, items) && WritesItems(s, i, j, items)
    decreases j - i, 3
  {
    if items != [] {
      var k := ItemsUnstep(g, depth, s, i, j, items);
      StrictReadIsWritten(g, depth, s, i, k, items[0]);
      StrictItemsAreWritten(g, depth, s, k, j, items[1..]);
      JoinItems(s, i, k, j, items);
      assert forall n | 0 < n < |items| :: items[n] == items[1..][n - 1];
    }
  }

  lemma {:induction false} StrictEntriesAreWritten(
    g: Config, depth: nat, s: seq<byte>, i: nat, j: nat, entries: seq<Entry>)
    requires g.strict && ReadsEntries(g, depth, s, i, j, entries)
    ensures AllEntriesWellFormed(g, depth, entries) && WritesEntries(s, i, j, entries)
    decreases j - i, 3
  {
    if entries != [] {
      var k := EntriesUnstep(g, depth, s, i, j, entries);
      StrictEntryIsWritten(g, depth, s, i, k, entries[0]);
      StrictEntriesAreWritten(g, depth, s, k, j, entries[1..]);
      JoinEntries(s, i, k, j, entries);
      assert forall n | 0 < n < |entries| :: entries[n] == entries[1..][n - 1];
    }
  }

  lemma {:induction false} StrictEntryIsWritten(g: Config, depth: nat, s: seq<byte>, i: nat, j: nat, entry: Entry)
    requires g.strict && ReadsEntry(g, depth, s, i, j, entry)
    ensures EntryWellFormed(g, depth, entry) && WritesEntry(s, i, j, entry)
    decreases j - i, 2
  {
    var k := EntryUnstep(g, depth, s, i, j, entry);
    StrictReadIsWritten(g, depth, s, i, k, entry.key);
    StrictReadIsWritten(g, depth, s, k, j, entry.value);
    JoinEntry(s, i, k, j, entry);
  }

  // ---- the two directions together ----

  /** Decoding a whole byte string strictly. */
  function DecodeStrict(parseCid: CidParser, s: seq<byte>): Option<Item> {
    match Parse(Config(true, parseCid), 0, s, 0)
    case None => None
    case Some((item, end)) => if end == |s| then Some(item) else None
  }

  /** Strict decoding succeeds exactly on what the encoder writes, and undoes it. */
  lemma StrictDecodingInvertsEncoding(parseCid: CidParser, s: seq<byte>, item: Item)
    ensures DecodeStrict(parseCid, s) == Some(item)
      <==> WellFormed(Config(true, parseCid), 0, item) && s == Encode(item)
  {
    var g := Config(true, parseCid);
    assert s[0..|s|] == s;
    if DecodeStrict(parseCid, s) == Some(item) {
      StrictReadIsWritten(g, 0, s, 0, |s|, item);
    }
    if WellFormed(g, 0, item) && s == Encode(item) {
      WrittenIsRead(g, 0, s, 0, |s|, item);
    }
  }

  /** What a strict decoder can return a lenient one can. */
  lemma {:induction false} StrictIsLenient(parseCid: CidParser, depth: nat, item: Item)
    requires WellFormed(Config(true, parseCid), depth, item)
    ensures WellFormed(Config(false, parseCid), depth, item)
    decreases item
  {
    match item
    case Array(items) =>
      forall i | 0 <= i < |items| ensures WellFormed(Config(false, parseCid), depth + 1, items[i]) {
        StrictIsLenient(parseCid, depth + 1, items[i]);
      }
    case Map(entries) =>
      forall i | 0 <= i < |entries|
        ensures WellFormed(Config(false, parseCid), depth + 1, entries[i].key)
        ensures WellFormed(Config(false, parseCid), depth + 1, entries[i].value)
      {
        StrictIsLenient(parseCid, depth + 1, entries[i].key);
        StrictIsLenient(parseCid, depth + 1, entries[i].value);
      }
    case _ =>
  }

  /** Two items are never written alike, in front of anything. */
  lemma EncodingIsPrefixFree(g: Config, a: Item, b: Item, s: seq<byte>, t: seq<byte>)
    requires WellFormed(g, 0, a) && WellFormed(g, 0, b) && Encode(a) + s == Encode(b) + t
    ensures a == b && s == t
  {
    var all := Encode(a) + s;
    assert all[0..|Encode(a)|] == Encode(a) && all[0..|Encode(b)|] == Encode(b);
    WrittenIsRead(g, 0, all, 0, |Encode(a)|, a);
    WrittenIsRead(g, 0, all, 0, |Encode(b)|, b);
    assert s == all[|Encode(a)|..];
  }
}
