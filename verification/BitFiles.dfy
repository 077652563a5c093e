/**
 The files that the tolerant loader takes: any tagged fields in any order in front of the payload, and
 anything behind it.
 */
module BitFiles {
  import opened Results
  import opened Bytes
  import opened BitImage

  datatype Entry = Entry(tag: byte, value: seq<byte>)

  /** The letters a to d name the four descriptions. */
  function Letter(name: Name): byte {
    match name
    case Design => 0x61
    case Part => 0x62
    case Date => 0x63
    case Time => 0x64
  }

  /** Two length bytes, the high one first, and the value. */
  function Short(value: seq<byte>): seq<byte>
    requires |value| < 0x1_0000
  {
    [ToByte(|value| / 0x100), ToByte(|value| % 0x100)] + value
  }

  /** Four length bytes and the value. */
  function Long(value: seq<byte>): seq<byte>
    requires |value| < 0x1_0000_0000
  {
    var n := |value|;
    [ToByte(n / 0x100_0000), ToByte(n / 0x1_0000 % 0x100), ToByte(n / 0x100 % 0x100), ToByte(n % 0x100)] + value
  }

  predicate ValidEntry(e: Entry) {
    |e.value| < 0x1_0000 && e.tag != 0x65
  }

  predicate ValidEntries(entries: seq<Entry>) {
    forall i :: 0 <= i < |entries| ==> ValidEntry(entries[i])
  }

  function WrittenEntries(entries: seq<Entry>, rest: seq<byte>): seq<byte>
    requires ValidEntries(entries)
  {
    if entries == [] then rest
    else [entries[0].tag] + Short(entries[0].value) + WrittenEntries(entries[1..], rest)
  }

  /** What the loader has to make sense of; the payload's letter is e. */
  predicate ValidFile(header: seq<byte>, entries: seq<Entry>, payload: seq<byte>) {
    |header| < 0x1_0000 && |payload| < 0x1_0000_0000 && ValidEntries(entries)
  }

  function File(header: seq<byte>, entries: seq<Entry>, payload: seq<byte>, trailing: seq<byte>): seq<byte>
    requires ValidFile(header, entries, payload)
  {
    Short(header) + ([0, 1] + WrittenEntries(entries, [0x65] + (Long(payload) + trailing)))
  }

  /** `value` is that of the last entry under `tag`, up to trailing NULs. */
  ghost predicate IsLast(entries: seq<Entry>, tag: byte, value: seq<byte>) {
    exists i :: 0 <= i < |entries| && LastAt(entries, tag, i) && value == Trimmed(entries[i].value)
  }

  predicate LastAt(entries: seq<Entry>, tag: byte, i: nat)
    requires i < |entries|
  {
    entries[i].tag == tag && forall j :: i < j < |entries| ==> entries[j].tag != tag
  }

  predicate Mentions(entries: seq<Entry>, tag: byte) {
    exists i :: 0 <= i < |entries| && entries[i].tag == tag
  }

  /** Each description that is mentioned has its last value, and no other one is there. */
  ghost predicate Describes(metadata: map<Name, seq<byte>>, entries: seq<Entry>) {
    forall name ::
      && (name in metadata <==> Mentions(entries, Letter(name)))
      && (name in metadata ==> IsLast(entries, Letter(name), metadata[name]))
  }

  // ---------------------------------------------------------------------------------------------
  // The notation agrees with that of the serialisation

  lemma NoDigits(n: nat)
    ensures Digits(n, 0) == [] && Pow256(0) == 1
  {
  }

  lemma SingleByte(front: seq<byte>, b: byte)
    requires front == []
    ensures front + [b] == [b]
  {
  }

  lemma OneDigit(n: nat)
    requires n < 0x100
    ensures Digits(n, 1) == [ToByte(n)] && Pow256(1) == 0x100
  {
    hide ToByte, Digits, Pow256;
    SmallRemainder(n, 0x100);
    NoDigits(n / 256);
    DigitsStep(n, 0);
    SingleByte(Digits(n / 256, 0), ToByte(n % 256));
  }

  lemma TwoDigits(n: nat)
    requires n < 0x1_0000
    ensures Digits(n, 2) == [ToByte(n / 0x100), ToByte(n % 0x100)] && Pow256(2) == 0x1_0000
  {
    hide ToByte, Digits, Pow256;
    OneDigit(n / 256);
    DigitsStep(n, 1);
  }

  lemma ThreeDigits(n: nat)
    requires n < 0x100_0000
    ensures Digits(n, 3) == [ToByte(n / 0x1_0000), ToByte(n / 0x100 % 0x100), ToByte(n % 0x100)]
    ensures Pow256(3) == 0x100_0000
  {
    hide ToByte, Digits, Pow256;
    Quotients(n);
    TwoDigits(n / 0x100);
    DigitsStep(n, 2);
  }

  lemma FourDigits(n: nat)
    requires n < 0x1_0000_0000
    ensures Digits(n, 4)
      == [ToByte(n / 0x100_0000), ToByte(n / 0x1_0000 % 0x100), ToByte(n / 0x100 % 0x100), ToByte(n % 0x100)]
    ensures Pow256(4) == 0x1_0000_0000
  {
    hide ToByte, Digits, Pow256;
    Quotients(n);
    ThreeDigits(n / 0x100);
    DigitsStep(n, 3);
  }

  lemma Quotients(n: nat)
    ensures n / 0x100 / 0x100 == n / 0x1_0000 && n / 0x100 / 0x1_0000 == n / 0x100_0000
  {
  }

  lemma ShortCounts(value: seq<byte>)
    requires |value| < 0x1_0000
    ensures Counted(value, 2) == Short(value) && |value| < Pow256(2)
  {
    hide ToByte, Digits, Pow256;
    TwoDigits(|value|);
  }

  lemma LongCounts(value: seq<byte>)
    requires |value| < 0x1_0000_0000
    ensures Counted(value, 4) == Long(value) && |value| < Pow256(4)
  {
    hide ToByte, Digits, Pow256;
    FourDigits(|value|);
  }

  lemma MarkerBytes()
    ensures Digits(1, 2) == [0, 1]
  {
    hide Digits;
    TwoDigits(1);
    FirstBytes();
  }

  lemma FirstBytes()
    ensures ToByte(0) == 0 && ToByte(1) == 1
  {
  }

  lemma Letters(tag: byte, name: Name)
    ensures NameOf(tag) == Some(name) <==> tag == Letter(name)
  {
  }

  // ---------------------------------------------------------------------------------------------
  // Every such file is loaded

  /** What the fields, from some point on, make of what was noted before. */
  function NotedAll(metadata: map<Name, seq<byte>>, entries: seq<Entry>): map<Name, seq<byte>>
    decreases |entries|
  {
    if entries == [] then metadata
    else NotedAll(Noted(metadata, entries[0].tag, entries[0].value), entries[1..])
  }

  lemma {:induction false} EntriesLoad(entries: seq<Entry>, rest: seq<byte>, metadata: map<Name, seq<byte>>)
    requires ValidEntries(entries)
    ensures LoadedFields(WrittenEntries(entries, rest), metadata) == LoadedFields(rest, NotedAll(metadata, entries))
  {
    hide LoadedFields, Noted, Short, Counted;
    if entries != [] {
      var first, more := entries[0], WrittenEntries(entries[1..], rest);
      ShortCounts(first.value);
      FieldLoads(first.tag, first.value, more, metadata);
      assert WrittenEntries(entries, rest) == Field(first.tag, first.value, more);
      EntriesLoad(entries[1..], rest, Noted(metadata, first.tag, first.value));
    }
  }

  lemma PayloadEnds(payload: seq<byte>, trailing: seq<byte>, metadata: map<Name, seq<byte>>)
    requires |payload| < 0x1_0000_0000
    ensures LoadedFields([0x65] + (Long(payload) + trailing), metadata) == Ok(Image(payload, metadata))
  {
    hide Section, Long, Counted;
    var text := [0x65] + (Long(payload) + trailing);
    LongCounts(payload);
    assert text[1..] == Counted(payload, 4) + trailing;
    SectionReads(payload, 4, trailing);
  }

  lemma FileLoads(header: seq<byte>, entries: seq<Entry>, payload: seq<byte>, trailing: seq<byte>)
    requires ValidFile(header, entries, payload)
    requires |File(header, entries, payload, trailing)| >= 16
    ensures Loaded(File(header, entries, payload, trailing)) == Ok(Image(payload, NotedAll(map[], entries)))
  {
    hide Section, Marker, LoadedFields, Short, Long, WrittenEntries, NotedAll, Digits;
    var fields := WrittenEntries(entries, [0x65] + (Long(payload) + trailing));
    ShortCounts(header);
    MarkerBytes();
    SectionReads(header, 2, Digits(1, 2) + fields);
    MarkerReads(fields);
    EntriesLoad(entries, [0x65] + (Long(payload) + trailing), map[]);
    PayloadEnds(payload, trailing, NotedAll(map[], entries));
  }

  // ---------------------------------------------------------------------------------------------
  // And nothing else is

  lemma {:induction false} NotedLast(metadata: map<Name, seq<byte>>, entries: seq<Entry>, name: Name)
    ensures var noted := NotedAll(metadata, entries);
      if Mentions(entries, Letter(name)) then name in noted && IsLast(entries, Letter(name), noted[name])
      else (name in noted <==> name in metadata) && (name in noted ==> noted[name] == metadata[name])
    decreases |entries|
  {
    hide Trimmed;
    if entries != [] {
      var first, rest, tag := entries[0], entries[1..], Letter(name);
      var before := Noted(metadata, first.tag, first.value);
      NotedLast(before, rest, name);
      Letters(first.tag, name);
      if Mentions(rest, tag) {
        var i :| 0 <= i < |rest| && LastAt(rest, tag, i) && NotedAll(before, rest)[name] == Trimmed(rest[i].value);
        assert entries[i + 1] == rest[i] && LastAt(entries, tag, i + 1);
      } else if first.tag == tag {
        assert LastAt(entries, tag, 0);
      }
    }
  }

  lemma NotedDescribes(entries: seq<Entry>)
    ensures Describes(NotedAll(map[], entries), entries)
  {
    hide NotedAll, IsLast, Mentions;
    forall name: Name {
      NotedLast(map[], entries, name);
    }
  }

  lemma DescribedOnce(a: map<Name, seq<byte>>, b: map<Name, seq<byte>>, entries: seq<Entry>)
    requires Describes(a, entries) && Describes(b, entries)
    ensures a == b
  {
    forall name | name in a
      ensures name in b && a[name] == b[name]
    {
      var i :| 0 <= i < |entries| && LastAt(entries, Letter(name), i) && a[name] == Trimmed(entries[i].value);
      var j :| 0 <= j < |entries| && LastAt(entries, Letter(name), j) && b[name] == Trimmed(entries[j].value);
      assert i == j;
    }
    assert forall name :: name in b ==> name in a;
  }

  lemma ShortWritten(text: seq<byte>)
    requires Section(text, 2).Ok?
    ensures |Section(text, 2).value.0| < 0x1_0000
    ensures Short(Section(text, 2).value.0) + Section(text, 2).value.1 == text
  {
    hide Section, Digits, Pow256, Short;
    SectionWrites(text, 2);
    TwoDigits(0);
    ShortCounts(Section(text, 2).value.0);
  }

  lemma LongWritten(text: seq<byte>)
    requires Section(text, 4).Ok?
    ensures |Section(text, 4).value.0| < 0x1_0000_0000
    ensures Long(Section(text, 4).value.0) + Section(text, 4).value.1 == text
  {
    hide Section, Digits, Pow256, Long;
    SectionWrites(text, 4);
    FourDigits(0);
    LongCounts(Section(text, 4).value.0);
  }

  lemma {:induction false} FieldsWritten(text: seq<byte>, metadata: map<Name, seq<byte>>)
    returns (entries: seq<Entry>, trailing: seq<byte>)
    requires LoadedFields(text, metadata).Ok?
    ensures var image := LoadedFields(text, metadata).value;
      && |image.bytes| < 0x1_0000_0000 && ValidEntries(entries)
      && text == WrittenEntries(entries, [0x65] + (Long(image.bytes) + trailing))
      && image.metadata == NotedAll(metadata, entries)
    decreases |text|
  {
    hide Section, Noted, Short, Long;
    var rest := text[1..];
    assert text == [text[0]] + rest;
    if text[0] == TAG_E {
      LongWritten(rest);
      entries, trailing := [], Section(rest, 4).value.1;
    } else {
      ShortWritten(rest);
      var (value, more) := Section(rest, 2).value;
      var first := Entry(text[0], value);
      var later;
      later, trailing := FieldsWritten(more, Noted(metadata, text[0], value));
      entries := [first] + later;
      assert entries[1..] == later && ValidEntries(entries);
    }
  }

  /** `raw` is a file with these contents: the payload, and for each description its last value. */
  ghost predicate Contains(raw: seq<byte>, image: Image) {
    exists header, entries, trailing :: ContainsBetween(raw, image, header, entries, trailing)
  }

  ghost predicate ContainsBetween(
    raw: seq<byte>, image: Image, header: seq<byte>, entries: seq<Entry>, trailing: seq<byte>) {
    && ValidFile(header, entries, image.bytes)
    && raw == File(header, entries, image.bytes, trailing)
    && Describes(image.metadata, entries)
  }

  /** A file is loaded, to these contents, exactly when it is one that contains them. */
  lemma LoadsExactly(raw: seq<byte>, image: Image)
    ensures Loaded(raw) == Ok(image) <==> |raw| >= 16 && Contains(raw, image)
  {
    hide LoadedFields, Describes, NotedAll, Section, Marker, File, ValidFile;
    if Loaded(raw) == Ok(image) {
      var header, entries, trailing := LoadedIsFile(raw);
      assert ContainsBetween(raw, image, header, entries, trailing);
    }
    if |raw| >= 16 && Contains(raw, image) {
      var header, entries, trailing :| ContainsBetween(raw, image, header, entries, trailing);
      FileLoads(header, entries, image.bytes, trailing);
      NotedDescribes(entries);
      DescribedOnce(image.metadata, NotedAll(map[], entries), entries);
    }
  }

  lemma LoadedIsFile(raw: seq<byte>) returns (header: seq<byte>, entries: seq<Entry>, trailing: seq<byte>)
    requires Loaded(raw).Ok?
    ensures ContainsBetween(raw, Loaded(raw).value, header, entries, trailing)
  {
    hide LoadedFields, Describes, NotedAll, Section, Marker, Short, Long, WrittenEntries, Digits;
    var t0 := Section(raw, 2).value.1;
    var t1 := Marker(t0).value;
    header := Section(raw, 2).value.0;
    ShortWritten(raw);
    MarkerWrites(t0);
    MarkerBytes();
    entries, trailing := FieldsWritten(t1, map[]);
    NotedDescribes(entries);
  }

  /** The strict format is the case of the four descriptions in order, a payload and nothing behind it. */
  lemma SerializedIsFile(b: Bit)
    requires Encodable(b)
    ensures var entries := [Entry(0x61, b.design), Entry(0x62, b.part), Entry(0x63, b.date), Entry(0x64, b.time)];
      && ValidFile(b.header, entries, b.payload) && 0 < |b.payload|
      && Serialized(b) == File(b.header, entries, b.payload, [])
  {
    hide Counted, Digits, Short, Long, Pow256;
    TwoDigits(0);
    FourDigits(0);
    MarkerBytes();
    ShortCounts(b.header);
    ShortCounts(b.design);
    ShortCounts(b.part);
    ShortCounts(b.date);
    ShortCounts(b.time);
    LongCounts(b.payload);
    var end := PayloadField(b.payload);
    assert [0x65] + (Long(b.payload) + []) == end;
    var entries := [Entry(0x61, b.design), Entry(0x62, b.part), Entry(0x63, b.date), Entry(0x64, b.time)];
    EntriesStep(entries, end);
    EntriesStep(entries[1..], end);
    EntriesStep(entries[2..], end);
    EntriesStep(entries[3..], end);
  }

  lemma EntriesStep(entries: seq<Entry>, rest: seq<byte>)
    requires entries != [] && ValidEntries(entries)
    ensures ValidEntries(entries[1..])
    ensures WrittenEntries(entries, rest)
      == Field(entries[0].tag, entries[0].value, WrittenEntries(entries[1..], rest))
    ensures |entries| == 1 ==> WrittenEntries(entries[1..], rest) == rest
  {
    ShortCounts(entries[0].value);
  }
}
