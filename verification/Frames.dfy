/** Structs as CBOR maps: how a writer may spell one, and what a reader makes of any spelling. */
module Frames {
  import opened Common
  import opened Wire
  import Cbor
  import CborEncode

  /** One field of a struct; a value that is absent is left out, or given as null. */
  datatype Field = Field(name: string, value: Option<Cbor.Item>)

  function EntryOf(f: Field): Cbor.Entry
    requires f.value.Some?
  {
    Cbor.Entry(Cbor.Text(Ascii(f.name)), f.value.value)
  }

  /** The fields that are there, in the order of declaration. */
  function Present(fields: seq<Field>): (entries: seq<Cbor.Entry>)
    ensures |entries| <= |fields|
  {
    if fields == [] then []
    else (if fields[0].value.None? then [] else [EntryOf(fields[0])]) + Present(fields[1..])
  }

  ghost predicate Distinct(fields: seq<Field>) {
    forall i, j | 0 <= i < j < |fields| :: Ascii(fields[i].name) != Ascii(fields[j].name)
  }

  ghost predicate NamesIn(known: set<Utf8Text>, fields: seq<Field>) {
    forall i | 0 <= i < |fields| :: Ascii(fields[i].name) in known
  }

  // ---- spellings ----

  ghost predicate KeysAreText(entries: seq<Cbor.Entry>) {
    forall i | 0 <= i < |entries| :: entries[i].key.Text?
  }

  /** No key a reader knows is given twice. */
  ghost predicate NoRepeats(known: set<Utf8Text>, entries: seq<Cbor.Entry>) {
    forall i, j | 0 <= i < j < |entries| && entries[i].key == entries[j].key ::
      entries[i].key.Text? ==> entries[i].key.utf8 !in known
  }

  predicate IsKnown(known: set<Utf8Text>, x: Cbor.Entry) { x.key.Text? && x.key.utf8 in known }

  /** The entry gives null for a field that is absent. */
  ghost predicate IsNullOf(fields: seq<Field>, x: Cbor.Entry) {
    exists i :: 0 <= i < |fields| &&
      fields[i].value.None? && x == Cbor.Entry(Cbor.Text(Ascii(fields[i].name)), Cbor.Null)
  }

  /**
   * Every field that is there, and of those a reader knows no other but nulls for absent ones, in any
   * order, among any keys it does not know.
   */
  ghost predicate Spells(known: set<Utf8Text>, fields: seq<Field>, entries: seq<Cbor.Entry>) {
    && KeysAreText(entries)
    && NoRepeats(known, entries)
    && (forall x | x in Present(fields) :: x in entries)
    && (forall x | x in entries && IsKnown(known, x) :: x in Present(fields) || IsNullOf(fields, x))
  }

  ghost predicate SpellsStruct(known: set<Utf8Text>, fields: seq<Field>, item: Cbor.Item) {
    item.Map? && Spells(known, fields, item.entries)
  }

  // ---- what a spelling is read as ----

  lemma NoRepeatsTail(known: set<Utf8Text>, entries: seq<Cbor.Entry>)
    requires entries != [] && KeysAreText(entries) && NoRepeats(known, entries)
    ensures KeysAreText(entries[1..]) && NoRepeats(known, entries[1..])
    ensures IsKnown(known, entries[0]) ==> forall x | x in entries[1..] :: x.key != entries[0].key
  {
    var rest := entries[1..];
    assert forall i | 0 <= i < |rest| :: rest[i] == entries[i + 1];
  }

  /** Reading finds exactly the known keys, with the values they are given. */
  lemma {:induction false} KnownFinds(known: set<Utf8Text>, entries: seq<Cbor.Entry>)
    requires KeysAreText(entries) && NoRepeats(known, entries)
    ensures Known(known, entries).Some?
    ensures forall x | x in entries && IsKnown(known, x) ::
      x.key.utf8 in Known(known, entries).value && Known(known, entries).value[x.key.utf8] == x.value
    ensures forall k | k in Known(known, entries).value ::
      k in known && Cbor.Entry(Cbor.Text(k), Known(known, entries).value[k]) in entries
  {
    if entries != [] {
      NoRepeatsTail(known, entries);
      KnownFinds(known, entries[1..]);
      KnownStep(known, entries, Known(known, entries[1..]).value);
    }
  }

  lemma KnownStep(known: set<Utf8Text>, entries: seq<Cbor.Entry>, rest: map<Utf8Text, Cbor.Item>)
    requires entries != [] && KeysAreText(entries) && Known(known, entries[1..]) == Some(rest)
    requires IsKnown(known, entries[0]) ==> forall x | x in entries[1..] :: x.key != entries[0].key
    requires forall x | x in entries[1..] && IsKnown(known, x) :: x.key.utf8 in rest && rest[x.key.utf8] == x.value
    requires forall k | k in rest :: k in known && Cbor.Entry(Cbor.Text(k), rest[k]) in entries[1..]
    ensures Known(known, entries).Some?
    ensures var m := Known(known, entries).value;
      && (forall x | x in entries && IsKnown(known, x) :: x.key.utf8 in m && m[x.key.utf8] == x.value)
      && (forall k | k in m :: k in known && Cbor.Entry(Cbor.Text(k), m[k]) in entries)
  {
    var key := entries[0].key.utf8;
    assert entries[0] == Cbor.Entry(Cbor.Text(key), entries[0].value);
    assert forall x | x in entries :: x == entries[0] || x in entries[1..];
    forall k | k in rest ensures key !in known || k != key {
      assert Cbor.Entry(Cbor.Text(k), rest[k]) in entries[1..];
    }
  }

  lemma {:induction false} PresentHas(fields: seq<Field>, i: nat)
    requires i < |fields| && fields[i].value.Some?
    ensures EntryOf(fields[i]) in Present(fields)
  {
    if i > 0 {
      assert fields[1..][i - 1] == fields[i];
      PresentHas(fields[1..], i - 1);
    }
  }

  lemma {:induction false} PresentOnly(fields: seq<Field>, x: Cbor.Entry) returns (i: nat)
    requires x in Present(fields)
    ensures i < |fields| && fields[i].value.Some? && x == EntryOf(fields[i])
  {
    if fields[0].value.Some? && x == EntryOf(fields[0]) {
      i := 0;
    } else {
      i := PresentOnly(fields[1..], x);
      assert fields[1..][i] == fields[i + 1];
      i := i + 1;
    }
  }

  /** `m` has the field's value, or none but null when the field is absent. */
  predicate Gives(m: map<Utf8Text, Cbor.Item>, f: Field) {
    if f.value.Some? then Ascii(f.name) in m && m[Ascii(f.name)] == f.value.value
    else Ascii(f.name) in m ==> m[Ascii(f.name)].Null?
  }

  /** However a struct is spelled, reading it gives each of its fields. */
  lemma SpellingGives(known: set<Utf8Text>, fields: seq<Field>, item: Cbor.Item) returns (m: map<Utf8Text, Cbor.Item>)
    requires Distinct(fields) && NamesIn(known, fields) && SpellsStruct(known, fields, item)
    ensures Fields(known, item) == Some(m)
    ensures forall i | 0 <= i < |fields| :: Gives(m, fields[i])
  {
    KnownFinds(known, item.entries);
    m := Known(known, item.entries).value;
    forall i | 0 <= i < |fields| ensures Gives(m, fields[i]) {
      var name := Ascii(fields[i].name);
      assert name in known;
      if fields[i].value.Some? {
        PresentHas(fields, i);
        assert IsKnown(known, EntryOf(fields[i]));
      } else if name in m {
        var x := Cbor.Entry(Cbor.Text(name), m[name]);
        assert IsKnown(known, x) && x in item.entries;
        if x in Present(fields) {
          var _ := PresentOnly(fields, x);
        }
      }
    }
  }

  // ---- the order of declaration is one spelling ----

  lemma {:induction false} PresentAt(fields: seq<Field>, i: nat, j: nat)
    requires Distinct(fields) && i < j < |Present(fields)|
    ensures Present(fields)[i].key.Text? && Present(fields)[j].key.Text?
    ensures Present(fields)[i].key != Present(fields)[j].key
  {
    var rest := fields[1..];
    assert forall k | 0 <= k < |rest| :: rest[k] == fields[k + 1];
    if fields[0].value.None? {
      PresentAt(rest, i, j);
    } else if i > 0 {
      PresentAt(rest, i - 1, j - 1);
    } else {
      var x := Present(fields)[j];
      assert x == Present(rest)[j - 1];
      var k := PresentOnly(rest, x);
      assert Ascii(fields[0].name) != Ascii(fields[k + 1].name);
    }
  }

  lemma PresentSpells(known: set<Utf8Text>, fields: seq<Field>)
    requires Distinct(fields)
    ensures Spells(known, fields, Present(fields))
  {
    var entries := Present(fields);
    forall i | 0 <= i < |entries| ensures entries[i].key.Text? {
      var _ := PresentOnly(fields, entries[i]);
    }
    forall i, j | 0 <= i < j < |entries| ensures entries[i].key != entries[j].key {
      PresentAt(fields, i, j);
    }
  }

  // ---- telling names apart ----

  predicate IsAscii(s: string) { forall i | 0 <= i < |s| :: s[i] as int < 128 }

  /** Length and last character, enough to tell the names of one struct apart. */
  function Mark(name: string): int
    requires name != ""
  {
    |name| * 256 + name[|name| - 1] as int
  }

  lemma MarkedDistinct(fields: seq<Field>, marks: seq<int>)
    requires |marks| == |fields|
    requires forall i | 0 <= i < |fields| ::
      fields[i].name != "" && IsAscii(fields[i].name) && Mark(fields[i].name) == marks[i]
    requires forall i, j | 0 <= i < j < |marks| :: marks[i] != marks[j]
    ensures Distinct(fields)
  {
    forall i, j | 0 <= i < j < |fields| ensures Ascii(fields[i].name) != Ascii(fields[j].name) {
      MarkTells(fields[i].name, fields[j].name);
    }
  }

  lemma MarkTells(a: string, b: string)
    requires a != "" && b != "" && IsAscii(a) && IsAscii(b) && Mark(a) != Mark(b)
    ensures Ascii(a) != Ascii(b)
  {
    if |a| == |b| {
      var last := |a| - 1;
      assert Ascii(a)[last] != Ascii(b)[last];
    }
  }

  // ---- reading one field ----

  function TextField(name: string, t: Utf8Text): Field { Field(name, Some(Cbor.Text(t))) }

  function OptionalText(name: string, t: Option<Utf8Text>): Field {
    Field(name, if t.None? then None else Some(Cbor.Text(t.value)))
  }

  function IntegerField(name: string, n: int): Field { Field(name, Some(IntegerItem(n))) }

  function LinkItem(cid: Cid): Cbor.Item { Cbor.Link([0x00] + cid.bytes) }

  function OptionalLink(name: string, cid: Option<Cid>): Field {
    Field(name, if cid.None? then None else Some(LinkItem(cid.value)))
  }

  lemma IntegerReads(m: map<Utf8Text, Cbor.Item>, name: string, n: int)
    requires FitsI64(n) && Gives(m, IntegerField(name, n))
    ensures Required(m, name, I64) == Some(n)
  {
  }

  lemma TextReads(m: map<Utf8Text, Cbor.Item>, name: string, t: Utf8Text)
    requires Gives(m, TextField(name, t))
    ensures Required(m, name, Text) == Some(t)
  {
  }

  lemma OptionalTextReads(m: map<Utf8Text, Cbor.Item>, name: string, t: Option<Utf8Text>)
    requires Gives(m, OptionalText(name, t))
    ensures Optional(m, name, Text) == Some(t)
  {
  }

  // ---- well-formed structs ----

  ghost predicate FieldFits(g: Cbor.Config, depth: nat, f: Field) {
    |f.name| <= Cbor.MAX_ALLOC && (f.value.Some? ==> CborEncode.WellFormed(g, depth, f.value.value))
  }

  /** Everything a struct's fields need for it to be well-formed around them. */
  ghost predicate StructFits(g: Cbor.Config, depth: nat, fields: seq<Field>) {
    |fields| <= Cbor.MAX_ENTRIES && forall i | 0 <= i < |fields| :: FieldFits(g, depth, fields[i])
  }

  lemma EntryFits(g: Cbor.Config, depth: nat, f: Field)
    requires FieldFits(g, depth, f) && f.value.Some?
    ensures CborEncode.EntryWellFormed(g, depth, EntryOf(f))
  {
    AsciiIsUtf8(f.name);
  }

  lemma EntriesFit(g: Cbor.Config, depth: nat, entries: seq<Cbor.Entry>)
    requires !g.strict && depth < Cbor.MAX_DEPTH && |entries| <= Cbor.MAX_ENTRIES
    requires CborEncode.AllEntriesWellFormed(g, depth + 1, entries)
    ensures CborEncode.WellFormed(g, depth, Cbor.Map(entries))
  {
    forall i | 0 <= i < |entries|
      ensures CborEncode.WellFormed(g, depth + 1, entries[i].key)
      ensures CborEncode.WellFormed(g, depth + 1, entries[i].value)
    {
      assert CborEncode.EntryWellFormed(g, depth + 1, entries[i]);
    }
  }

  lemma StructWellFormed(g: Cbor.Config, depth: nat, fields: seq<Field>)
    requires !g.strict && depth < Cbor.MAX_DEPTH && StructFits(g, depth + 1, fields)
    ensures CborEncode.WellFormed(g, depth, Cbor.Map(Present(fields)))
  {
    var entries := Present(fields);
    forall n | 0 <= n < |entries| ensures CborEncode.EntryWellFormed(g, depth + 1, entries[n]) {
      var i := PresentOnly(fields, entries[n]);
      EntryFits(g, depth + 1, fields[i]);
    }
    EntriesFit(g, depth, entries);
  }
}
