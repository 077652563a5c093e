/**
 Two independent readers of Xilinx .bit files: the strict recogniser that guards JTAG uploads and
 the tolerant loader that feeds the flash programmer. `Serialized` is the format they share.
 */
module BitImage {
  import opened Results
  import opened Bytes

  const TAG_A: byte := 0x61
  const TAG_B: byte := 0x62
  const TAG_C: byte := 0x63
  const TAG_D: byte := 0x64
  const TAG_E: byte := 0x65

  /** What a complete file says. */
  datatype Bit = Bit(
    header: seq<byte>,
    design: seq<byte>,
    part: seq<byte>,
    date: seq<byte>,
    time: seq<byte>,
    payload: seq<byte>)

  // ---------------------------------------------------------------------------------------------
  // Writing

  function Digits(n: nat, count: nat): (r: seq<byte>)
    ensures |r| == count
  {
    if count == 0 then [] else Digits(n / 256, count - 1) + [ToByte(n % 256)]
  }

  lemma {:induction false} DigitsRead(n: nat, count: nat)
    requires n < Pow256(count)
    ensures BigEndian(Digits(n, count)) == n
  {
    if count > 0 {
      DigitsRead(n / 256, count - 1);
      BigEndianAppend(Digits(n / 256, count - 1), ToByte(n % 256));
    }
  }

  lemma {:induction false} ReadDigits(bytes: seq<byte>)
    ensures BigEndian(bytes) < Pow256(|bytes|) && Digits(BigEndian(bytes), |bytes|) == bytes
  {
    if bytes != [] {
      var n := |bytes| - 1;
      ReadDigits(bytes[..n]);
      OneMoreDigit(bytes[..n], bytes[n]);
      assert bytes[..n] + [bytes[n]] == bytes;
    }
  }

  lemma OneMoreDigit(front: seq<byte>, last: byte)
    requires BigEndian(front) < Pow256(|front|) && Digits(BigEndian(front), |front|) == front
    ensures BigEndian(front + [last]) < Pow256(|front| + 1)
    ensures Digits(BigEndian(front + [last]), |front| + 1) == front + [last]
  {
    hide BigEndian, ToByte, Digits, Pow256;
    var n := BigEndian(front + [last]);
    BigEndianAppend(front, last);
    RemainderUnique(n, BigEndian(front), last as int, 256);
    ByteIs(last);
    DigitsStep(n, |front|);
  }

  lemma DigitsStep(n: nat, count: nat)
    ensures Digits(n, count + 1) == Digits(n / 256, count) + [ToByte(n % 256)]
    ensures Pow256(count + 1) == 256 * Pow256(count)
  {
    hide ToByte;
  }

  lemma ByteIs(b: byte)
    ensures ToByte(b as int) == b
  {
    var c := ToByte(b as int);
    assert c as int == b as int;
  }

  function Counted(value: seq<byte>, width: nat): seq<byte> {
    Digits(|value|, width) + value
  }

  /** A tagged field in front of `rest`. */
  function Field(tag: byte, value: seq<byte>, rest: seq<byte>): seq<byte> {
    [tag] + Counted(value, 2) + rest
  }

  function Serialized(b: Bit): seq<byte> {
    Counted(b.header, 2) + (Digits(1, 2) + Fields(b))
  }

  function Fields(b: Bit): seq<byte> {
    Field(TAG_A, b.design, Field(TAG_B, b.part, Field(TAG_C, b.date, Field(TAG_D, b.time, PayloadField(b.payload)))))
  }

  function PayloadField(payload: seq<byte>): seq<byte> {
    [TAG_E] + Counted(payload, 4)
  }

  /** The lengths fit their fields, and there is a payload. */
  predicate Encodable(b: Bit) {
    && |b.header| < Pow256(2) && |b.design| < Pow256(2) && |b.part| < Pow256(2)
    && |b.date| < Pow256(2) && |b.time| < Pow256(2)
    && 0 < |b.payload| < Pow256(4)
  }

  // ---------------------------------------------------------------------------------------------
  // Reading strictly

  /** A length of `width` bytes, that many bytes, and the rest. */
  function Section(text: seq<byte>, width: nat): (r: Result<(seq<byte>, seq<byte>)>) {
    if width > |text| || BigEndian(text[..width]) > |text| - width then
      Err(TruncatedHeader)
    else
      var end := width + BigEndian(text[..width]);
      Ok((text[width..end], text[end..]))
  }

  function Tagged(text: seq<byte>, tag: byte): Result<(seq<byte>, seq<byte>)> {
    if text == [] || text[0] != tag then Err(BadField) else Section(text[1..], 2)
  }

  function Payload(text: seq<byte>): Result<seq<byte>> {
    if text == [] || text[0] != TAG_E then Err(BadField)
    else if |text| < 5 then Err(TruncatedHeader)
    else
      var count := BigEndian(text[1..5]);
      if count == 0 || count != |text| - 5 then Err(BadPayloadLength) else Ok(text[5..])
  }

  function Marker(text: seq<byte>): Result<seq<byte>> {
    if |text| < 2 then Err(TruncatedHeader)
    else if BigEndian(text[..2]) != 1 then Err(BadMarker)
    else Ok(text[2..])
  }

  function Parsed(text: seq<byte>): Result<Bit> {
    var (header, t0) :- Section(text, 2);
    var t1 :- Marker(t0);
    var (design, t2) :- Tagged(t1, TAG_A);
    var (part, t3) :- Tagged(t2, TAG_B);
    var (date, t4) :- Tagged(t3, TAG_C);
    var (time, t5) :- Tagged(t4, TAG_D);
    var payload :- Payload(t5);
    Ok(Bit(header, design, part, date, time, payload))
  }

  lemma SectionReads(value: seq<byte>, width: nat, rest: seq<byte>)
    requires |value| < Pow256(width)
    ensures Section(Counted(value, width) + rest, width) == Ok((value, rest))
  {
    var text := Counted(value, width) + rest;
    assert text[..width] == Digits(|value|, width);
    DigitsRead(|value|, width);
  }

  lemma SectionWrites(text: seq<byte>, width: nat)
    requires Section(text, width).Ok?
    ensures var (value, rest) := Section(text, width).value;
      |value| < Pow256(width) && Counted(value, width) + rest == text
  {
    hide Digits, BigEndian, Pow256;
    ReadDigits(text[..width]);
  }

  lemma TaggedReads(tag: byte, value: seq<byte>, rest: seq<byte>)
    requires |value| < Pow256(2)
    ensures Tagged(Field(tag, value, rest), tag) == Ok((value, rest))
  {
    var text := Field(tag, value, rest);
    assert text[1..] == Counted(value, 2) + rest;
    SectionReads(value, 2, rest);
  }

  lemma TaggedWrites(text: seq<byte>, tag: byte)
    requires Tagged(text, tag).Ok?
    ensures var (value, rest) := Tagged(text, tag).value;
      |value| < Pow256(2) && Field(tag, value, rest) == text
  {
    SectionWrites(text[1..], 2);
    assert [tag] + text[1..] == text;
  }

  /** Reading what was written gives it back. */
  lemma ParsedSerialized(b: Bit)
    requires Encodable(b)
    ensures Parsed(Serialized(b)) == Ok(b)
  {
    hide Section, Tagged, Counted, Field, Payload, PayloadField, Pow256;
    var t5 := PayloadField(b.payload);
    var t4 := Field(TAG_D, b.time, t5);
    var t3 := Field(TAG_C, b.date, t4);
    var t2 := Field(TAG_B, b.part, t3);
    SectionReads(b.header, 2, Digits(1, 2) + Fields(b));
    MarkerReads(Fields(b));
    TaggedReads(TAG_A, b.design, t2);
    TaggedReads(TAG_B, b.part, t3);
    TaggedReads(TAG_C, b.date, t4);
    TaggedReads(TAG_D, b.time, t5);
    PayloadReads(b.payload);
  }

  lemma MarkerReads(rest: seq<byte>)
    ensures Marker(Digits(1, 2) + rest) == Ok(rest)
  {
    var text := Digits(1, 2) + rest;
    assert text[..2] == Digits(1, 2) && text[2..] == rest;
    assert Pow256(2) == 65536;
    DigitsRead(1, 2);
  }

  lemma PayloadReads(payload: seq<byte>)
    requires 0 < |payload| < Pow256(4)
    ensures Payload(PayloadField(payload)) == Ok(payload)
  {
    var text := PayloadField(payload);
    assert text[1..5] == Digits(|payload|, 4) && text[5..] == payload;
    DigitsRead(|payload|, 4);
  }

  /** Whatever is accepted is the one serialisation of what was read. */
  lemma SerializedParsed(text: seq<byte>)
    requires Parsed(text).Ok?
    ensures Encodable(Parsed(text).value) && Serialized(Parsed(text).value) == text
  {
    hide Counted, Digits, Pow256, BigEndian, Field, PayloadField, Section, Marker, Tagged, Payload;
    var t0 := Section(text, 2).value.1;
    var t1 := Marker(t0).value;
    var t2 := Tagged(t1, TAG_A).value.1;
    var t3 := Tagged(t2, TAG_B).value.1;
    var t4 := Tagged(t3, TAG_C).value.1;
    var t5 := Tagged(t4, TAG_D).value.1;
    SectionWrites(text, 2);
    MarkerWrites(t0);
    TaggedWrites(t1, TAG_A);
    TaggedWrites(t2, TAG_B);
    TaggedWrites(t3, TAG_C);
    TaggedWrites(t4, TAG_D);
    PayloadWrites(t5);
  }

  lemma MarkerWrites(text: seq<byte>)
    requires Marker(text).Ok?
    ensures Digits(1, 2) + Marker(text).value == text
  {
    ReadDigits(text[..2]);
  }

  lemma PayloadWrites(text: seq<byte>)
    requires Payload(text).Ok?
    ensures 0 < |Payload(text).value| < Pow256(4) && PayloadField(Payload(text).value) == text
  {
    ReadDigits(text[1..5]);
  }

  /** A big-endian length at `position`, accumulated byte by byte. */
  method ReadLength(bytes: seq<byte>, position: nat, count: nat) returns (r: Result<nat>)
    requires position <= |bytes|
    ensures r ==
      if position + count > |bytes| then Err(TruncatedHeader) else Ok(BigEndian(bytes[position..position + count]))
  {
    if count > |bytes| - position {
      return Err(TruncatedHeader);
    }
    var value := 0;
    assert BigEndian(bytes[position..position + 0]) == 0;
    hide BigEndian;
    for i := 0 to count
      invariant value == BigEndian(bytes[position..position + i])
    {
      BigEndianAppend(bytes[position..position + i], bytes[position + i]);
      assert bytes[position..position + i] + [bytes[position + i]] == bytes[position..position + i + 1];
      value := 256 * value + bytes[position + i] as int;
    }
    return Ok(value);
  }

  /** Accept exactly the complete files, for the reason the grammar gives otherwise. */
  method ValidateBitImage(bytes: seq<byte>) returns (r: Result<()>)
    ensures r == match Parsed(bytes) case Ok(_) => Ok(()) case Err(e) => Err(e)
  {
    hide Section, Marker, Tagged, Payload;
    var position := 0;
    assert bytes[0..] == bytes;
    position :- SkipSection(bytes, position);
    position :- SkipMarker(bytes, position);
    position :- SkipTagged(bytes, position, TAG_A);
    position :- SkipTagged(bytes, position, TAG_B);
    position :- SkipTagged(bytes, position, TAG_C);
    position :- SkipTagged(bytes, position, TAG_D);
    r := CheckPayload(bytes, position);
  }

  method SkipMarker(bytes: seq<byte>, position: nat) returns (r: Result<nat>)
    requires position <= |bytes|
    ensures r.Ok? ==> position <= r.value <= |bytes|
    ensures match Marker(bytes[position..])
      case Ok(rest) => r.Ok? && bytes[r.value..] == rest
      case Err(e) => r == Err(e)
  {
    hide BigEndian;
    var marker :- ReadLength(bytes, position, 2);
    assert bytes[position..][..2] == bytes[position..position + 2];
    if marker != 1 {
      return Err(BadMarker);
    }
    assert bytes[position..][2..] == bytes[position + 2..];
    return Ok(position + 2);
  }

  method SkipSection(bytes: seq<byte>, position: nat) returns (r: Result<nat>)
    requires position <= |bytes|
    ensures r.Ok? ==> position <= r.value <= |bytes|
    ensures match Section(bytes[position..], 2)
      case Ok((_, rest)) => r.Ok? && bytes[r.value..] == rest
      case Err(e) => r == Err(e)
  {
    hide BigEndian;
    var text := bytes[position..];
    var count :- ReadLength(bytes, position, 2);
    assert text[..2] == bytes[position..position + 2];
    if count > |bytes| - (position + 2) {
      return Err(TruncatedHeader);
    }
    assert text[2 + count..] == bytes[position + 2 + count..];
    return Ok(position + 2 + count);
  }

  method SkipTagged(bytes: seq<byte>, position: nat, tag: byte) returns (r: Result<nat>)
    requires position <= |bytes|
    ensures r.Ok? ==> position <= r.value <= |bytes|
    ensures match Tagged(bytes[position..], tag)
      case Ok((_, rest)) => r.Ok? && bytes[r.value..] == rest
      case Err(e) => r == Err(e)
  {
    hide BigEndian;
    if position == |bytes| || bytes[position] != tag {
      return Err(BadField);
    }
    assert bytes[position..][1..] == bytes[position + 1..];
    r := SkipSection(bytes, position + 1);
  }

  method CheckPayload(bytes: seq<byte>, position: nat) returns (r: Result<()>)
    requires position <= |bytes|
    ensures r == match Payload(bytes[position..]) case Ok(_) => Ok(()) case Err(e) => Err(e)
  {
    hide BigEndian;
    if position == |bytes| || bytes[position] != TAG_E {
      return Err(BadField);
    }
    var count :- ReadLength(bytes, position + 1, 4);
    assert bytes[position..][1..5] == bytes[position + 1..position + 5];
    if count == 0 || count != |bytes| - (position + 5) {
      return Err(BadPayloadLength);
    }
    return Ok(());
  }

  /** The recogniser accepts precisely the serialisations of encodable contents. */
  lemma AcceptsExactlyTheFormat(text: seq<byte>)
    ensures Parsed(text).Ok? <==> exists b :: Encodable(b) && Serialized(b) == text
  {
    if Parsed(text).Ok? {
      SerializedParsed(text);
    }
    forall b | Encodable(b) && Serialized(b) == text
      ensures Parsed(text).Ok?
    {
      ParsedSerialized(b);
    }
  }

  // ---------------------------------------------------------------------------------------------
  // Loading tolerantly

  datatype Name = Design | Part | Date | Time

  datatype Image = Image(bytes: seq<byte>, metadata: map<Name, seq<byte>>)

  function NameOf(tag: byte): Option<Name> {
    if tag == TAG_A then Some(Design)
    else if tag == TAG_B then Some(Part)
    else if tag == TAG_C then Some(Date)
    else if tag == TAG_D then Some(Time)
    else None
  }

  /** A value without the NUL bytes at its end. */
  function Trimmed(value: seq<byte>): (r: seq<byte>)
    ensures r <= value && (r == [] || r[|r| - 1] != 0)
    ensures forall i :: |r| <= i < |value| ==> value[i] == 0
  {
    if value != [] && value[|value| - 1] == 0 then Trimmed(value[..|value| - 1]) else value
  }

  function Noted(metadata: map<Name, seq<byte>>, tag: byte, value: seq<byte>): map<Name, seq<byte>> {
    match NameOf(tag)
    case Some(name) => metadata[name := Trimmed(value)]
    case None => metadata
  }

  /** What the fields from here on make of the image; unknown tags are skipped. */
  function LoadedFields(text: seq<byte>, metadata: map<Name, seq<byte>>): Result<Image>
    decreases |text|
  {
    if text == [] then Err(MissingPayload)
    else if text[0] == TAG_E then
      var (bytes, _) :- Section(text[1..], 4);
      Ok(Image(bytes, metadata))
    else
      match Section(text[1..], 2)
      case Err(e) => Err(e)
      case Ok((value, rest)) => LoadedFields(rest, Noted(metadata, text[0], value))
  }

  function Loaded(raw: seq<byte>): Result<Image> {
    if |raw| < 16 then Err(TruncatedHeader)
    else
      var t0 :- Section(raw, 2);
      var t1 :- Marker(t0.1);
      LoadedFields(t1, map[])
  }

  function Big16(data: seq<byte>, offset: nat): Result<nat> {
    if offset + 2 > |data| then Err(TruncatedHeader) else Ok(BigEndian(data[offset..offset + 2]))
  }

  function Big32(data: seq<byte>, offset: nat): Result<nat> {
    if offset + 4 > |data| then Err(TruncatedHeader) else Ok(BigEndian(data[offset..offset + 4]))
  }

  method Trim(value: seq<byte>) returns (r: seq<byte>)
    ensures r == Trimmed(value)
  {
    r := value;
    while r != [] && r[|r| - 1] == 0
      invariant Trimmed(r) == Trimmed(value)
      decreases |r|
    {
      r := r[..|r| - 1];
    }
  }

  method LoadBit(raw: seq<byte>) returns (r: Result<Image>)
    ensures r == Loaded(raw)
  {
    hide BigEndian;
    if |raw| < 16 {
      return Err(TruncatedHeader);
    }
    var position := 0;
    var skipped := Big16(raw, position);
    if skipped.Err? {
      return Err(TruncatedHeader);
    }
    position := position + 2 + skipped.value;
    assert raw[..2] == raw[0..2];
    var marker := Big16(raw, position);
    if marker.Err? {
      return Err(TruncatedHeader);
    }
    assert raw[position..][..2] == raw[position..position + 2];
    if marker.value != 1 {
      return Err(BadMarker);
    }
    position := position + 2;
    r := LoadFields(raw, position);
  }

  method LoadFields(raw: seq<byte>, start: nat) returns (r: Result<Image>)
    requires start <= |raw|
    ensures r == LoadedFields(raw[start..], map[])
  {
    hide Section;
    var position := start;
    var metadata: map<Name, seq<byte>> := map[];
    while position < |raw|
      invariant start <= position <= |raw|
      invariant LoadedFields(raw[position..], metadata) == LoadedFields(raw[start..], map[])
      decreases |raw| - position
    {
      var tag := raw[position];
      assert raw[position..][1..] == raw[position + 1..];
      if tag == TAG_E {
        var payload :- TakeSection(raw, position + 1, 4);
        return Ok(Image(payload.0, metadata));
      }
      var field :- TakeSection(raw, position + 1, 2);
      match NameOf(tag) {
        case Some(name) =>
          var value := Trim(field.0);
          metadata := metadata[name := value];
        case None =>
      }
      position := field.1;
    }
    return Err(MissingPayload);
  }

  /** The bytes counted by the length field at `position`, and the position behind them. */
  method TakeSection(raw: seq<byte>, position: nat, width: nat) returns (r: Result<(seq<byte>, nat)>)
    requires position <= |raw| && (width == 2 || width == 4)
    ensures match Section(raw[position..], width)
      case Ok((value, rest)) =>
        r.Ok? && position <= r.value.1 <= |raw| && r.value.0 == value && raw[r.value.1..] == rest
      case Err(e) => r == Err(e)
  {
    hide BigEndian;
    var text := raw[position..];
    var length := if width == 2 then Big16(raw, position) else Big32(raw, position);
    if length.Err? {
      return Err(TruncatedHeader);
    }
    assert text[..width] == raw[position..position + width];
    var start := position + width;
    if length.value > |raw| - start {
      return Err(TruncatedHeader);
    }
    assert text[width..width + length.value] == raw[start..start + length.value];
    assert text[width + length.value..] == raw[start + length.value..];
    return Ok((raw[start..start + length.value], start + length.value));
  }

  // ---------------------------------------------------------------------------------------------
  // The two readers agree

  function Metadata(b: Bit): map<Name, seq<byte>> {
    map[Design := Trimmed(b.design), Part := Trimmed(b.part), Date := Trimmed(b.date), Time := Trimmed(b.time)]
  }

  lemma FieldLoads(tag: byte, value: seq<byte>, rest: seq<byte>, metadata: map<Name, seq<byte>>)
    requires |value| < Pow256(2) && tag != TAG_E
    ensures LoadedFields(Field(tag, value, rest), metadata) == LoadedFields(rest, Noted(metadata, tag, value))
  {
    var text := Field(tag, value, rest);
    assert text[1..] == Counted(value, 2) + rest;
    SectionReads(value, 2, rest);
  }

  lemma PayloadLoads(payload: seq<byte>, metadata: map<Name, seq<byte>>)
    requires |payload| < Pow256(4)
    ensures LoadedFields(PayloadField(payload), metadata) == Ok(Image(payload, metadata))
  {
    var text := PayloadField(payload);
    assert text[1..] == Counted(payload, 4) + [];
    SectionReads(payload, 4, []);
  }

  /** What is written is loaded: the same payload, and the four descriptions up to trailing NULs. */
  lemma SerializedLoads(b: Bit)
    requires Encodable(b)
    ensures Loaded(Serialized(b)) == Ok(Image(b.payload, Metadata(b)))
  {
    hide Section, Counted, Field, PayloadField, Pow256, LoadedFields, Marker, Trimmed;
    var t5 := PayloadField(b.payload);
    var t4 := Field(TAG_D, b.time, t5);
    var t3 := Field(TAG_C, b.date, t4);
    var t2 := Field(TAG_B, b.part, t3);
    SerializedLength(b);
    SectionReads(b.header, 2, Digits(1, 2) + Fields(b));
    MarkerReads(Fields(b));
    var m1 := map[Design := Trimmed(b.design)];
    var m2 := m1[Part := Trimmed(b.part)];
    var m3 := m2[Date := Trimmed(b.date)];
    FieldLoads(TAG_A, b.design, t2, map[]);
    FieldLoads(TAG_B, b.part, t3, m1);
    FieldLoads(TAG_C, b.date, t4, m2);
    FieldLoads(TAG_D, b.time, t5, m3);
    PayloadLoads(b.payload, m3[Time := Trimmed(b.time)]);
  }

  lemma SerializedLength(b: Bit)
    ensures |Serialized(b)| >= 21
  {
  }

  /** Every file that passes the recogniser is loaded, to the payload at its very end. */
  lemma AcceptedLoads(text: seq<byte>)
    requires Parsed(text).Ok?
    ensures var b := Parsed(text).value;
      && Loaded(text) == Ok(Image(b.payload, Metadata(b)))
      && EndsWith(text, b.payload)
  {
    hide EndsWith, Loaded, Serialized, Metadata, Parsed;
    SerializedParsed(text);
    SerializedLoads(Parsed(text).value);
    PayloadIsTail(Parsed(text).value);
  }

  predicate EndsWith(text: seq<byte>, tail: seq<byte>) {
    |tail| <= |text| && text[|text| - |tail|..] == tail
  }

  lemma LongerEndsWith(front: seq<byte>, text: seq<byte>, tail: seq<byte>)
    requires EndsWith(text, tail)
    ensures EndsWith(front + text, tail)
  {
  }

  lemma PayloadIsTail(b: Bit)
    ensures EndsWith(Serialized(b), b.payload)
  {
    hide EndsWith, Counted, Digits;
    var t5 := PayloadField(b.payload);
    var t4 := Field(TAG_D, b.time, t5);
    var t3 := Field(TAG_C, b.date, t4);
    var t2 := Field(TAG_B, b.part, t3);
    PayloadFieldTail(b.payload);
    LongerEndsWith([TAG_D] + Counted(b.time, 2), t5, b.payload);
    LongerEndsWith([TAG_C] + Counted(b.date, 2), t4, b.payload);
    LongerEndsWith([TAG_B] + Counted(b.part, 2), t3, b.payload);
    LongerEndsWith([TAG_A] + Counted(b.design, 2), t2, b.payload);
    LongerEndsWith(Digits(1, 2), Fields(b), b.payload);
    LongerEndsWith(Counted(b.header, 2), Digits(1, 2) + Fields(b), b.payload);
  }

  lemma PayloadFieldTail(payload: seq<byte>)
    ensures EndsWith(PayloadField(payload), payload)
  {
  }
}
