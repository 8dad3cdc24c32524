/** Every way of spelling an item that a lenient decoder takes: it reads those spellings and no others. */
module CborGrammar {
  import opened Common
  import opened Cbor
  import opened CborEncode
  import Utf8

  // ---- the grammar, as relations between positions ----

  /** A head of any width that holds the argument. */
  ghost predicate HeadAt(s: seq<byte>, i: nat, j: nat, major: nat, arg: nat) {
    exists info: nat ::
      info < 28 && Holds(info, arg) && At(s, i, HeadBytes(major, info, arg)) && j == i + |HeadBytes(major, info, arg)|
  }

  ghost predicate StringAt(s: seq<byte>, i: nat, j: nat, major: nat, b: seq<byte>) {
    exists k: nat :: HeadAt(s, i, k, major, |b|) && At(s, k, b) && j == k + |b|
  }

  ghost predicate Spelled(s: seq<byte>, i: nat, j: nat, item: Item)
    decreases item, 1
  {
    match item
    case UInt(n) => HeadAt(s, i, j, 0, n)
    case NInt(n) => HeadAt(s, i, j, 1, n)
    case Bytes(b) => StringAt(s, i, j, 2, b)
    case Text(b) => StringAt(s, i, j, 3, b)
    case Array(items) => exists k: nat :: HeadAt(s, i, k, 4, |items|) && ItemsSpelled(s, k, j, items)
    case Map(entries) => exists k: nat :: HeadAt(s, i, k, 5, |entries|) && EntriesSpelled(s, k, j, entries)
    case Link(b) => exists k: nat :: HeadAt(s, i, k, 6, 42) && StringAt(s, k, j, 2, b)
    case Bool(b) => At(s, i, [if b then 0xf5 else 0xf4]) && j == i + 1
    case Null => At(s, i, [0xf6]) && j == i + 1
    case Float(info, bits) => At(s, i, HeadBytes(7, info, bits)) && j == i + |HeadBytes(7, info, bits)|
  }

  ghost predicate ItemsSpelled(s: seq<byte>, i: nat, j: nat, items: seq<Item>)
    decreases items, 0
  {
    if items == [] then i == j <= |s|
    else exists k: nat :: Spelled(s, i, k, items[0]) && ItemsSpelled(s, k, j, items[1..])
  }

  ghost predicate EntriesSpelled(s: seq<byte>, i: nat, j: nat, entries: seq<Entry>)
    decreases entries, 0
  {
    if entries == [] then i == j <= |s|
    else exists k: nat :: EntrySpelled(s, i, k, entries[0]) && EntriesSpelled(s, k, j, entries[1..])
  }

  ghost predicate EntrySpelled(s: seq<byte>, i: nat, j: nat, entry: Entry)
    decreases entry, 0
  {
    exists k: nat :: Spelled(s, i, k, entry.key) && Spelled(s, k, j, entry.value)
  }

  // ---- heads and strings ----

  lemma HeadExactly(g: Config, s: seq<byte>, i: nat, j: nat, major: nat, arg: nat)
    requires !g.strict && major < 8
    ensures ReadsHead(g, s, i, j, major, arg) <==> HeadAt(s, i, j, major, arg)
  {
    if ReadsHead(g, s, i, j, major, arg) {
      ParsedHeadBytes(g, s, i);
      var h := ParseHead(g, s, i).value;
      assert Holds(h.info, arg) && At(s, i, HeadBytes(major, h.info, arg));
    }
    forall info: nat | && info < 28 && Holds(info, arg)
                       && At(s, i, HeadBytes(major, info, arg)) && j == i + |HeadBytes(major, info, arg)|
      ensures ReadsHead(g, s, i, j, major, arg)
    {
      ParseHeadBytes(g, s, i, major, info, arg);
    }
  }

  predicate ReadsString(g: Config, s: seq<byte>, i: nat, j: nat, major: nat, b: seq<byte>) {
    var h := ParseHead(g, s, i);
    h.Some? && h.value.major == major && ReadBytes(s, h.value) == Some(b) && j == h.value.end + |b|
  }

  lemma StringExactly(g: Config, s: seq<byte>, i: nat, j: nat, major: nat, b: seq<byte>)
    requires !g.strict && major < 8
    ensures ReadsString(g, s, i, j, major, b) <==> |b| <= MAX_ALLOC && StringAt(s, i, j, major, b)
  {
    if ReadsString(g, s, i, j, major, b) {
      var h := ParseHead(g, s, i).value;
      HeadExactly(g, s, i, h.end, major, |b|);
    }
    forall k: nat | |b| <= MAX_ALLOC && HeadAt(s, i, k, major, |b|) && At(s, k, b) && j == k + |b|
      ensures ReadsString(g, s, i, j, major, b)
    {
      HeadExactly(g, s, i, k, major, |b|);
    }
  }

  // ---- what is read is spelled ----

  lemma {:induction false} ReadIsSpelled(g: Config, depth: nat, s: seq<byte>, i: nat, j: nat, item: Item)
    requires !g.strict && Reads(g, depth, s, i, j, item)
    ensures WellFormed(g, depth, item) && Spelled(s, i, j, item)
    decreases j - i, 1
  {
    var h := ParseHead(g, s, i).value;
    assert ParseBody(g, depth, s, h) == Some((item, j));
    match h.major
    case 4 => ArrayIsSpelled(g, depth, s, i, j, item, h);
    case 5 => MapIsSpelled(g, depth, s, i, j, item, h);
    case 6 => LinkIsSpelled(g, depth, s, i, j, item, h);
    case 7 => SimpleIsSpelled(g, depth, s, i, j, item, h);
    case _ =>
      if h.major < 2 {
        NumberIsSpelled(g, depth, s, i, j, item, h);
      } else {
        TextIsSpelled(g, depth, s, i, j, item, h);
      }
  }

  lemma NumberIsSpelled(g: Config, depth: nat, s: seq<byte>, i: nat, j: nat, item: Item, h: Head)
    requires !g.strict && ParseHead(g, s, i) == Some(h) && ParseBody(g, depth, s, h) == Some((item, j))
    requires h.major < 2
    ensures WellFormed(g, depth, item) && Spelled(s, i, j, item)
  {
    HeadExactly(g, s, i, h.end, h.major, h.arg);
    HeldIsU64(s, i, h.end, h.major, h.arg);
  }

  lemma HeldIsU64(s: seq<byte>, i: nat, j: nat, major: nat, arg: nat)
    requires HeadAt(s, i, j, major, arg)
    ensures arg <= U64_MAX
  {
    Capacities();
  }

  lemma TextIsSpelled(g: Config, depth: nat, s: seq<byte>, i: nat, j: nat, item: Item, h: Head)
    requires !g.strict && ParseHead(g, s, i) == Some(h) && ParseBody(g, depth, s, h) == Some((item, j))
    requires h.major == 2 || h.major == 3
    ensures WellFormed(g, depth, item) && Spelled(s, i, j, item)
  {
    var b := ReadBytes(s, h).value;
    assert ReadsString(g, s, i, j, h.major, b);
    StringExactly(g, s, i, j, h.major, b);
  }

  lemma LinkIsSpelled(g: Config, depth: nat, s: seq<byte>, i: nat, j: nat, item: Item, h: Head)
    requires !g.strict && ParseHead(g, s, i) == Some(h) && ParseBody(g, depth, s, h) == Some((item, j))
    requires h.major == 6
    ensures WellFormed(g, depth, item) && Spelled(s, i, j, item)
  {
    HeadExactly(g, s, i, h.end, 6, 42);
    assert ReadsString(g, s, h.end, j, 2, item.prefixed);
    StringExactly(g, s, h.end, j, 2, item.prefixed);
  }

  lemma SimpleIsSpelled(g: Config, depth: nat, s: seq<byte>, i: nat, j: nat, item: Item, h: Head)
    requires !g.strict && ParseHead(g, s, i) == Some(h) && ParseBody(g, depth, s, h) == Some((item, j))
    requires h.major == 7
    ensures WellFormed(g, depth, item) && Spelled(s, i, j, item)
  {
    ParsedHeadBytes(g, s, i);
    SimpleStep(g, depth, s, i, h.info, h.arg, item);
  }

  lemma SimpleStep(g: Config, depth: nat, s: seq<byte>, i: nat, info: nat, arg: nat, item: Item)
    requires !g.strict && Holds(info, arg) && At(s, i, HeadBytes(7, info, arg))
    requires SimpleItem(g, info, arg) == Some(item)
    ensures WellFormed(g, depth, item) && Spelled(s, i, i + |HeadBytes(7, info, arg)|, item)
  {
    SimpleBytes(info, arg);
  }

  lemma SimpleBytes(info: nat, arg: nat)
    requires Holds(info, arg)
    ensures info < 24 ==> HeadBytes(7, info, arg) == [224 + info]
  {
    assert BigEndian(0, arg) == [];
  }

  lemma {:induction false} ArrayIsSpelled(g: Config, depth: nat, s: seq<byte>, i: nat, j: nat, item: Item, h: Head)
    requires !g.strict && ParseHead(g, s, i) == Some(h) && ParseBody(g, depth, s, h) == Some((item, j))
    requires h.major == 4
    ensures WellFormed(g, depth, item) && Spelled(s, i, j, item)
    decreases j - i, 0
  {
    HeadExactly(g, s, i, h.end, 4, h.arg);
    ItemsAreSpelled(g, depth + 1, s, h.end, j, item.items);
  }

  lemma {:induction false} MapIsSpelled(g: Config, depth: nat, s: seq<byte>, i: nat, j: nat, item: Item, h: Head)
    requires !g.strict && ParseHead(g, s, i) == Some(h) && ParseBody(g, depth, s, h) == Some((item, j))
    requires h.major == 5
    ensures WellFormed(g, depth, item) && Spelled(s, i, j, item)
    decreases j - i, 0
  {
    HeadExactly(g, s, i, h.end, 5, h.arg);
    EntriesAreSpelled(g, depth + 1, s, h.end, j, item.entries);
    assert forall n | 0 <= n < |item.entries| :: EntryWellFormed(g, depth + 1, item.entries[n]);
  }

  lemma {:induction false} ItemsAreSpelled(g: Config, depth: nat, s: seq<byte>, i: nat, j: nat, items: seq<Item>)
    requires !g.strict && ReadsItems(g, depth, s, i, j, items)
    ensures AllWellFormed(g, depth, items) && ItemsSpelled(s, i, j, items)
    decreases j - i, 3
  {
    if items != [] {
      var k := ItemsUnstep(g, depth, s, i, j, items);
      ReadIsSpelled(g, depth, s, i, k, items[0]);
      ItemsAreSpelled(g, depth, s, k, j, items[1..]);
      assert forall n | 0 < n < |items| :: items[n] == items[1..][n - 1];
    }
  }

  lemma {:induction false} EntriesAreSpelled(
    g: Config, depth: nat, s: seq<byte>, i: nat, j: nat, entries: seq<Entry>)
    requires !g.strict && ReadsEntries(g, depth, s, i, j, entries)
    ensures AllEntriesWellFormed(g, depth, entries) && EntriesSpelled(s, i, j, entries)
    decreases j - i, 3
  {
    if entries != [] {
      var k := EntriesUnstep(g, depth, s, i, j, entries);
      EntryIsSpelled(g, depth, s, i, k, entries[0]);
      EntriesAreSpelled(g, depth, s, k, j, entries[1..]);
      assert forall n | 0 < n < |entries| :: entries[n] == entries[1..][n - 1];
    }
  }

  lemma {:induction false} EntryIsSpelled(g: Config, depth: nat, s: seq<byte>, i: nat, j: nat, entry: Entry)
    requires !g.strict && ReadsEntry(g, depth, s, i, j, entry)
    ensures EntryWellFormed(g, depth, entry) && EntrySpelled(s, i, j, entry)
    decreases j - i, 2
  {
    var k := EntryUnstep(g, depth, s, i, j, entry);
    ReadIsSpelled(g, depth, s, i, k, entry.key);
    ReadIsSpelled(g, depth, s, k, j, entry.value);
  }

  // ---- what is spelled is read ----

  lemma {:induction false} SpelledIsRead(g: Config, depth: nat, s: seq<byte>, i: nat, j: nat, item: Item)
    requires !g.strict && WellFormed(g, depth, item) && Spelled(s, i, j, item)
    ensures Reads(g, depth, s, i, j, item)
    decreases item, 2
  {
    match item
    case UInt(_) => SpelledLeafIsRead(g, depth, s, i, j, item);
    case NInt(_) => SpelledLeafIsRead(g, depth, s, i, j, item);
    case Bytes(_) => SpelledLeafIsRead(g, depth, s, i, j, item);
    case Text(_) => SpelledLeafIsRead(g, depth, s, i, j, item);
    case Array(_) => SpelledArrayIsRead(g, depth, s, i, j, item);
    case Map(_) => SpelledMapIsRead(g, depth, s, i, j, item);
    case Link(_) => SpelledLinkIsRead(g, depth, s, i, j, item);
    case _ => SpelledSimpleIsRead(g, depth, s, i, j, item);
  }

  lemma SpelledLeafIsRead(g: Config, depth: nat, s: seq<byte>, i: nat, j: nat, item: Item)
    requires (item.UInt? || item.NInt? || item.Bytes? || item.Text?) && !g.strict && WellFormed(g, depth, item)
    requires Spelled(s, i, j, item)
    ensures Reads(g, depth, s, i, j, item)
  {
    match item
    case UInt(n) => HeadExactly(g, s, i, j, 0, n);
    case NInt(n) => HeadExactly(g, s, i, j, 1, n);
    case Bytes(b) => StringExactly(g, s, i, j, 2, b);
    case Text(b) => StringExactly(g, s, i, j, 3, b);
  }

  lemma SpelledSimpleIsRead(g: Config, depth: nat, s: seq<byte>, i: nat, j: nat, item: Item)
    requires (item.Bool? || item.Null? || item.Float?) && !g.strict && WellFormed(g, depth, item)
    requires Spelled(s, i, j, item)
    ensures Reads(g, depth, s, i, j, item)
  {
    SimpleBytes(20, 20);
    SimpleBytes(21, 21);
    SimpleBytes(22, 22);
    match item
    case Bool(b) => SimpleIsRead(g, depth, s, i, if b then 21 else 20, if b then 21 else 20, item);
    case Null => SimpleIsRead(g, depth, s, i, 22, 22, item);
    case Float(info, bits) => SimpleIsRead(g, depth, s, i, info, bits, item);
  }

  lemma SpelledLinkIsRead(g: Config, depth: nat, s: seq<byte>, i: nat, j: nat, item: Item)
    requires item.Link? && !g.strict && WellFormed(g, depth, item) && Spelled(s, i, j, item)
    ensures Reads(g, depth, s, i, j, item)
  {
    var b := item.prefixed;
    var k: nat :| HeadAt(s, i, k, 6, 42) && StringAt(s, k, j, 2, b);
    HeadExactly(g, s, i, k, 6, 42);
    StringExactly(g, s, k, j, 2, b);
    LinkStep(g, depth, s, i, k, j, b);
  }

  lemma LinkStep(g: Config, depth: nat, s: seq<byte>, i: nat, k: nat, j: nat, b: seq<byte>)
    requires !g.strict && ReadsHead(g, s, i, k, 6, 42) && ReadsString(g, s, k, j, 2, b)
    ensures Reads(g, depth, s, i, j, Link(b))
  {
    assert ParseLink(g, s, k) == Some((Link(b), j));
  }

  lemma MapStep(g: Config, depth: nat, s: seq<byte>, i: nat, k: nat, j: nat, entries: seq<Entry>)
    requires !g.strict && depth < MAX_DEPTH && |entries| <= MAX_ENTRIES
    requires ReadsHead(g, s, i, k, 5, |entries|) && ReadsEntries(g, depth + 1, s, k, j, entries)
    ensures Reads(g, depth, s, i, j, Map(entries))
  {
  }

  lemma {:induction false} SpelledArrayIsRead(g: Config, depth: nat, s: seq<byte>, i: nat, j: nat, item: Item)
    requires item.Array? && !g.strict && WellFormed(g, depth, item) && Spelled(s, i, j, item)
    ensures Reads(g, depth, s, i, j, item)
    decreases item, 1
  {
    var k: nat :| HeadAt(s, i, k, 4, |item.items|) && ItemsSpelled(s, k, j, item.items);
    HeadExactly(g, s, i, k, 4, |item.items|);
    SpelledItemsAreRead(g, depth + 1, s, k, j, item.items);
    ArrayStep(g, depth, s, i, k, j, item.items);
  }

  lemma ArrayStep(g: Config, depth: nat, s: seq<byte>, i: nat, k: nat, j: nat, items: seq<Item>)
    requires !g.strict && depth < MAX_DEPTH && |items| <= MAX_ENTRIES
    requires ReadsHead(g, s, i, k, 4, |items|) && ReadsItems(g, depth + 1, s, k, j, items)
    ensures Reads(g, depth, s, i, j, Array(items))
  {
  }

  lemma {:induction false} SpelledMapIsRead(g: Config, depth: nat, s: seq<byte>, i: nat, j: nat, item: Item)
    requires item.Map? && !g.strict && WellFormed(g, depth, item) && Spelled(s, i, j, item)
    ensures Reads(g, depth, s, i, j, item)
    decreases item, 1
  {
    var k: nat :| HeadAt(s, i, k, 5, |item.entries|) && EntriesSpelled(s, k, j, item.entries);
    HeadExactly(g, s, i, k, 5, |item.entries|);
    assert forall n | 0 <= n < |item.entries| :: EntryWellFormed(g, depth + 1, item.entries[n]);
    SpelledEntriesAreRead(g, depth + 1, s, k, j, item.entries);
    MapStep(g, depth, s, i, k, j, item.entries);
  }

  lemma {:induction false} SpelledItemsAreRead(g: Config, depth: nat, s: seq<byte>, i: nat, j: nat, items: seq<Item>)
    requires !g.strict && AllWellFormed(g, depth, items) && ItemsSpelled(s, i, j, items) && i <= |s|
    ensures ReadsItems(g, depth, s, i, j, items)
    decreases items, 1
  {
    if items != [] {
      var k: nat :| Spelled(s, i, k, items[0]) && ItemsSpelled(s, k, j, items[1..]);
      SpelledIsRead(g, depth, s, i, k, items[0]);
      SpelledItemsAreRead(g, depth, s, k, j, items[1..]);
      ItemsStep(g, depth, s, i, k, j, items);
    }
  }

  lemma {:induction false} SpelledEntriesAreRead(
    g: Config, depth: nat, s: seq<byte>, i: nat, j: nat, entries: seq<Entry>)
    requires !g.strict && AllEntriesWellFormed(g, depth, entries) && EntriesSpelled(s, i, j, entries) && i <= |s|
    ensures ReadsEntries(g, depth, s, i, j, entries)
    decreases entries, 1
  {
    if entries != [] {
      var k: nat :| EntrySpelled(s, i, k, entries[0]) && EntriesSpelled(s, k, j, entries[1..]);
      assert EntryWellFormed(g, depth, entries[0]);
      SpelledEntryIsRead(g, depth, s, i, k, entries[0]);
      SpelledEntriesAreRead(g, depth, s, k, j, entries[1..]);
      EntriesStep(g, depth, s, i, k, j, entries);
    }
  }

  lemma {:induction false} SpelledEntryIsRead(g: Config, depth: nat, s: seq<byte>, i: nat, j: nat, entry: Entry)
    requires !g.strict && EntryWellFormed(g, depth, entry) && EntrySpelled(s, i, j, entry) && i <= |s|
    ensures ReadsEntry(g, depth, s, i, j, entry)
    decreases entry, 1
  {
    var k: nat :| Spelled(s, i, k, entry.key) && Spelled(s, k, j, entry.value);
    SpelledIsRead(g, depth, s, i, k, entry.key);
    SpelledIsRead(g, depth, s, k, j, entry.value);
    EntryStep(g, depth, s, i, k, j, entry);
  }

  /** A lenient decoder reads an item between two positions exactly when it is spelled there within the limits. */
  lemma LenientExactly(parseCid: CidParser, depth: nat, s: seq<byte>, i: nat, j: nat, item: Item)
    ensures Parse(Config(false, parseCid), depth, s, i) == Some((item, j))
      <==> WellFormed(Config(false, parseCid), depth, item) && Spelled(s, i, j, item)
  {
    var g := Config(false, parseCid);
    if Reads(g, depth, s, i, j, item) {
      ReadIsSpelled(g, depth, s, i, j, item);
    }
    if WellFormed(g, depth, item) && Spelled(s, i, j, item) {
      SpelledIsRead(g, depth, s, i, j, item);
    }
  }

  /** Finite floats are those whose magnitude is below infinity's, in each of the three widths. */
  lemma FiniteExactly(info: nat, bits: nat)
    requires 25 <= info <= 27 && Holds(info, bits)
    ensures IsFiniteFloat(info, bits) <==>
      match info
      case 25 => bits % 0x8000 < 0x7c00
      case 26 => bits % 0x8000_0000 < 0x7f80_0000
      case _ => bits % 0x8000_0000_0000_0000 < 0x7ff0_0000_0000_0000
  {
    Capacities();
    match info
    case 25 => HalfIsFinite(bits);
    case 26 => SingleIsFinite(bits);
    case _ => DoubleIsFinite(bits);
  }

  lemma HalfIsFinite(bits: nat)
    ensures bits / 0x400 % 32 != 31 <==> bits % 0x8000 < 0x7c00
  {
  }

  lemma SingleIsFinite(bits: nat)
    ensures bits / 0x80_0000 % 256 != 255 <==> bits % 0x8000_0000 < 0x7f80_0000
  {
  }

  lemma DoubleIsFinite(bits: nat)
    ensures bits / 0x10_0000_0000_0000 % 2048 != 2047 <==> bits % 0x8000_0000_0000_0000 < 0x7ff0_0000_0000_0000
  {
  }

  // ---- the standard's examples ----

  /** A head's argument stands in its first byte, or in one or two bytes after it. */
  lemma HeadsOf(major: nat, n: nat)
    requires major < 7 && n < 0x1_0000
    ensures n < 24 ==> PrintHead(major, n) == [major * 32 + n]
    ensures 24 <= n < 0x100 ==> PrintHead(major, n) == [major * 32 + 24, n]
    ensures 0x100 <= n ==> PrintHead(major, n) == [major * 32 + 25, n / 256, n % 256]
  {
    assert BigEndian(0, n / 256 / 256) == [] && BigEndian(0, n) == [];
    assert BigEndian(1, n / 256) == [n / 256 % 256];
    assert BigEndian(2, n) == BigEndian(1, n / 256) + [n % 256];
    assert BigEndian(1, n) == BigEndian(0, n / 256) + [n % 256];
    assert n < 0x100 ==> BigEndian(0, n / 256) == [];
  }

  /** Encodings of integers given in appendix A of RFC 8949. */
  lemma IntegerExamples()
    ensures Encode(UInt(0)) == [0x00] && Encode(UInt(23)) == [0x17] && Encode(UInt(24)) == [0x18, 0x18]
    ensures Encode(UInt(1000)) == [0x19, 0x03, 0xe8]
    ensures Encode(NInt(0)) == [0x20] && Encode(NInt(99)) == [0x38, 0x63]
  {
    HeadsOf(0, 0);
    HeadsOf(0, 23);
    HeadsOf(0, 24);
    HeadsOf(0, 1000);
    HeadsOf(1, 0);
    HeadsOf(1, 99);
  }

  /** And of strings and simple values. */
  lemma StringExamples()
    ensures Encode(Bytes([1, 2, 3, 4])) == [0x44, 1, 2, 3, 4] && Encode(Text([0x61])) == [0x61, 0x61]
    ensures Encode(Bool(false)) == [0xf4] && Encode(Bool(true)) == [0xf5] && Encode(Null) == [0xf6]
  {
    HeadsOf(2, 4);
    HeadsOf(3, 1);
    SimpleBytes(20, 20);
    SimpleBytes(21, 21);
    SimpleBytes(22, 22);
  }

  /** And of an array and a map. */
  lemma ContainerExamples()
    ensures Encode(Array([UInt(1), UInt(2), UInt(3)])) == [0x83, 0x01, 0x02, 0x03]
    ensures Encode(Map([Entry(Text([0x61]), UInt(1))])) == [0xa1, 0x61, 0x61, 0x01]
  {
    HeadsOf(4, 3);
    HeadsOf(0, 1);
    HeadsOf(0, 2);
    HeadsOf(0, 3);
    HeadsOf(5, 1);
    HeadsOf(3, 1);
    var items := [UInt(1), UInt(2), UInt(3)];
    assert items[1..] == [UInt(2), UInt(3)] && items[1..][1..] == [UInt(3)] && items[1..][1..][1..] == [];
    assert EncodeItems([UInt(3)]) == [0x03];
    assert EncodeItems([UInt(2), UInt(3)]) == [0x02, 0x03];
    var entries := [Entry(Text([0x61]), UInt(1))];
    assert entries[1..] == [];
  }
}
