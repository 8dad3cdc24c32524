/**
 * CBOR items (section 3 of RFC 8949) as the repository's decoder reads them. A strict decoder
 * accepts only the DAG-CBOR form; a lenient one takes any argument width, key order and float size.
 */
module Cbor {
  import opened Common
  import Radix
  import Utf8

  datatype Item =
    | UInt(n: nat)
    | NInt(n: nat)                  // the integer -1 - n
    | Bytes(bytes: seq<byte>)
    | Text(utf8: seq<byte>)
    | Array(items: seq<Item>)
    | Map(entries: seq<Entry>)
    | Link(prefixed: seq<byte>)     // the byte string under tag 42
    | Bool(b: bool)
    | Null
    | Float(info: nat, bits: nat)   // the additional information, which gives the width

  datatype Entry = Entry(key: Item, value: Item)

  datatype Config = Config(strict: bool, parseCid: CidParser)

  /** An item's initial byte and argument; `end` is where the reader then stands. */
  datatype Head = Head(major: nat, info: nat, arg: nat, end: nat)

  const MAX_DEPTH := 256
  const MAX_ALLOC := 64 * 1024 * 1024
  const MAX_ENTRIES := 16_777_216
  const CID_TAG := 42

  /** Bytes of argument that follow an initial byte whose low five bits are `info`. */
  function ArgWidth(info: nat): Option<nat> {
    if info < 24 then Some(0)
    else if info == 24 then Some(1)
    else if info == 25 then Some(2)
    else if info == 26 then Some(4)
    else if info == 27 then Some(8)
    else None
  }

  /** The additional information of the shortest head for an argument. */
  function ShortestInfo(arg: nat): nat {
    if arg < 24 then arg
    else if arg <= 0xff then 24
    else if arg <= 0xffff then 25
    else if arg <= 0xffff_ffff then 26
    else 27
  }

  function ParseHead(g: Config, s: seq<byte>, i: nat): (h: Option<Head>)
    ensures h.Some? ==> i < h.value.end <= |s| && h.value.major < 8 && h.value.info < 28
  {
    if i >= |s| then None
    else
      var first: int := s[i];
      var major, info := first / 32, first % 32;
      match ArgWidth(info)
      case None => None
      case Some(width) =>
        if |s| < i + 1 + width then None
        else
          var arg := if width == 0 then info else Radix.Value(256, s[i + 1..i + 1 + width]);
          if g.strict && major < 7 && info != ShortestInfo(arg) then None
          else Some(Head(major, info, arg, i + 1 + width))
  }

  /** Floats are finite: the exponent is not all ones. */
  predicate IsFiniteFloat(info: nat, bits: nat) {
    match info
    case 25 => bits / 0x400 % 32 != 31
    case 26 => bits / 0x80_0000 % 256 != 255
    case 27 => bits / 0x10_0000_0000_0000 % 2048 != 2047
    case _ => false
  }

  function SimpleItem(g: Config, info: nat, bits: nat): Option<Item> {
    match info
    case 20 => Some(Bool(false))
    case 21 => Some(Bool(true))
    case 22 => Some(Null)
    case _ => if IsFiniteFloat(info, bits) && (g.strict ==> info == 27) then Some(Float(info, bits)) else None
  }

  /** The bytes of a CID in DAG-CBOR carry the identity multibase prefix. */
  function FromDagCborBytes(parseCid: CidParser, bytes: seq<byte>): Option<Cid> {
    if bytes == [] || bytes[0] != 0x00 then None else parseCid(bytes[1..])
  }

  /** First bytes that differ decide; a proper prefix comes first. */
  predicate LexLess(a: seq<byte>, b: seq<byte>) {
    b != [] && (a == [] || a[0] < b[0] || (a[0] == b[0] && LexLess(a[1..], b[1..])))
  }

  /** DAG-CBOR's order of map keys. */
  predicate KeyLess(a: seq<byte>, b: seq<byte>) {
    |a| < |b| || (|a| == |b| && LexLess(a, b))
  }

  predicate KeysInOrder(entries: seq<Entry>) {
    && (forall i | 0 <= i < |entries| :: entries[i].key.Text?)
    && (forall i | 0 < i < |entries| :: KeyLess(entries[i - 1].key.utf8, entries[i].key.utf8))
  }

  /** The item at position `i` and where the reader then stands; `depth` counts the containers around it. */
  function Parse(g: Config, depth: nat, s: seq<byte>, i: nat): (r: Option<(Item, nat)>)
    ensures r.Some? ==> i < r.value.1 <= |s|
    decreases |s| - i, 0
  {
    match ParseHead(g, s, i)
    case None => None
    case Some(h) => ParseBody(g, depth, s, h)
  }

  function ParseBody(g: Config, depth: nat, s: seq<byte>, h: Head): (r: Option<(Item, nat)>)
    requires h.end <= |s|
    ensures r.Some? ==> h.end <= r.value.1 <= |s|
    decreases |s| - h.end, 3
  {
    match h.major
    case 0 => Some((UInt(h.arg), h.end))
    case 1 => Some((NInt(h.arg), h.end))
    case 2 =>
      (match ReadBytes(s, h)
       case None => None
       case Some(bytes) => Some((Bytes(bytes), h.end + h.arg)))
    case 3 =>
      (match ReadBytes(s, h)
       case None => None
       case Some(bytes) => if Utf8.Valid(bytes) then Some((Text(bytes), h.end + h.arg)) else None)
    case 4 =>
      if h.arg > MAX_ENTRIES || depth >= MAX_DEPTH then None
      else
        (match ParseItems(g, depth + 1, s, h.end, h.arg)
         case None => None
         case Some((items, end)) => Some((Array(items), end)))
    case 5 =>
      if h.arg > MAX_ENTRIES || depth >= MAX_DEPTH then None
      else
        (match ParseEntries(g, depth + 1, s, h.end, h.arg)
         case None => None
         case Some((entries, end)) => if g.strict && !KeysInOrder(entries) then None else Some((Map(entries), end)))
    case 6 => if h.arg == CID_TAG then ParseLink(g, s, h.end) else None
    case _ =>
      match SimpleItem(g, h.info, h.arg)
      case None => None
      case Some(item) => Some((item, h.end))
  }

  /** The bytes a string's head announces. */
  function ReadBytes(s: seq<byte>, h: Head): (r: Option<seq<byte>>)
    requires h.end <= |s|
    ensures r.Some? ==> h.end + h.arg <= |s|
  {
    if h.arg > MAX_ALLOC || h.end + h.arg > |s| then None else Some(s[h.end..h.end + h.arg])
  }

  /** What tag 42 must be followed by. */
  function ParseLink(g: Config, s: seq<byte>, i: nat): (r: Option<(Item, nat)>)
    ensures r.Some? ==> i < r.value.1 <= |s|
  {
    match ParseHead(g, s, i)
    case None => None
    case Some(h) =>
      if h.major != 2 then None
      else
        match ReadBytes(s, h)
        case None => None
        case Some(bytes) =>
          if g.strict && FromDagCborBytes(g.parseCid, bytes).None? then None else Some((Link(bytes), h.end + h.arg))
  }

  function ParseItems(g: Config, depth: nat, s: seq<byte>, i: nat, n: nat): (r: Option<(seq<Item>, nat)>)
    requires i <= |s|
    ensures r.Some? ==> |r.value.0| == n && i <= r.value.1 <= |s|
    decreases |s| - i, 1
  {
    if n == 0 then Some(([], i))
    else
      match Parse(g, depth, s, i)
      case None => None
      case Some((item, j)) =>
        match ParseItems(g, depth, s, j, n - 1)
        case None => None
        case Some((items, end)) => Some(([item] + items, end))
  }

  function ParseEntries(g: Config, depth: nat, s: seq<byte>, i: nat, n: nat): (r: Option<(seq<Entry>, nat)>)
    requires i <= |s|
    ensures r.Some? ==> |r.value.0| == n && i <= r.value.1 <= |s|
    decreases |s| - i, 2
  {
    if n == 0 then Some(([], i))
    else
      match ParseEntry(g, depth, s, i)
      case None => None
      case Some((entry, j)) =>
        match ParseEntries(g, depth, s, j, n - 1)
        case None => None
        case Some((entries, end)) => Some(([entry] + entries, end))
  }

  function ParseEntry(g: Config, depth: nat, s: seq<byte>, i: nat): (r: Option<(Entry, nat)>)
    requires i <= |s|
    ensures r.Some? ==> i < r.value.1 <= |s|
    decreases |s| - i, 1
  {
    match Parse(g, depth, s, i)
    case None => None
    case Some((key, j)) =>
      match Parse(g, depth, s, j)
      case None => None
      case Some((value, end)) => Some((Entry(key, value), end))
  }

  // ---- an item says where it ends ----

  lemma SameSlice(s: seq<byte>, t: seq<byte>, i: nat, j: nat)
    requires i <= j <= |s|
    ensures (s + t)[i..j] == s[i..j]
  {
  }

  lemma HeadExtends(g: Config, s: seq<byte>, t: seq<byte>, i: nat)
    requires ParseHead(g, s, i).Some?
    ensures ParseHead(g, s + t, i) == ParseHead(g, s, i)
  {
    var width := ArgWidth((s[i] as int) % 32).value;
    SameSlice(s, t, i + 1, i + 1 + width);
  }

  /** Whatever follows an item, the reader finds the same item and stops in the same place. */
  lemma {:induction false} Extends(g: Config, depth: nat, s: seq<byte>, t: seq<byte>, i: nat)
    requires Parse(g, depth, s, i).Some?
    ensures Parse(g, depth, s + t, i) == Parse(g, depth, s, i)
    decreases |s| - i, 0
  {
    HeadExtends(g, s, t, i);
    BodyExtends(g, depth, s, t, ParseHead(g, s, i).value);
  }

  lemma {:induction false} BodyExtends(g: Config, depth: nat, s: seq<byte>, t: seq<byte>, h: Head)
    requires h.end <= |s| && ParseBody(g, depth, s, h).Some?
    ensures ParseBody(g, depth, s + t, h) == ParseBody(g, depth, s, h)
    decreases |s| - h.end, 3
  {
    match h.major
    case 2 => SameSlice(s, t, h.end, h.end + h.arg);
    case 3 => SameSlice(s, t, h.end, h.end + h.arg);
    case 4 => ItemsExtend(g, depth + 1, s, t, h.end, h.arg);
    case 5 => EntriesExtend(g, depth + 1, s, t, h.end, h.arg);
    case 6 => LinkExtends(g, s, t, h.end);
    case _ =>
  }

  lemma LinkExtends(g: Config, s: seq<byte>, t: seq<byte>, i: nat)
    requires ParseLink(g, s, i).Some?
    ensures ParseLink(g, s + t, i) == ParseLink(g, s, i)
  {
    HeadExtends(g, s, t, i);
    var h := ParseHead(g, s, i).value;
    SameSlice(s, t, h.end, h.end + h.arg);
  }

  lemma {:induction false} ItemsExtend(g: Config, depth: nat, s: seq<byte>, t: seq<byte>, i: nat, n: nat)
    requires i <= |s| && ParseItems(g, depth, s, i, n).Some?
    ensures ParseItems(g, depth, s + t, i, n) == ParseItems(g, depth, s, i, n)
    decreases |s| - i, 1
  {
    if n > 0 {
      Extends(g, depth, s, t, i);
      ItemsExtend(g, depth, s, t, Parse(g, depth, s, i).value.1, n - 1);
    }
  }

  lemma {:induction false} EntriesExtend(g: Config, depth: nat, s: seq<byte>, t: seq<byte>, i: nat, n: nat)
    requires i <= |s| && ParseEntries(g, depth, s, i, n).Some?
    ensures ParseEntries(g, depth, s + t, i, n) == ParseEntries(g, depth, s, i, n)
    decreases |s| - i, 2
  {
    if n > 0 {
      EntryExtends(g, depth, s, t, i);
      EntriesExtend(g, depth, s, t, ParseEntry(g, depth, s, i).value.1, n - 1);
    }
  }

  lemma {:induction false} EntryExtends(g: Config, depth: nat, s: seq<byte>, t: seq<byte>, i: nat)
    requires i <= |s| && ParseEntry(g, depth, s, i).Some?
    ensures ParseEntry(g, depth, s + t, i) == ParseEntry(g, depth, s, i)
    decreases |s| - i, 1
  {
    Extends(g, depth, s, t, i);
    Extends(g, depth, s, t, Parse(g, depth, s, i).value.1);
  }
}
