/**
 What a command line looks like from the outside: words between runs of blanks, each a sequence of
 pieces that are written in one of four ways. The tokenizer reads exactly these lines.
 */
module ArgumentLines {
  import opened Results
  import opened CommandLine

  /** Space, tab, newline, carriage return, vertical tab and form feed. */
  const BLANKS: string := " \t\n\r\U{000B}\U{000C}"

  predicate Ordinary(c: char) {
    c !in BLANKS && c != '"' && c != '\'' && c != '\\'
  }

  /** A character between quotation marks, with or without a backslash in front. */
  datatype Mark = Plain(c: char) | Protected(c: char)

  datatype Piece = Bare(c: char) | Slashed(c: char) | Single(text: string) | Double(marks: seq<Mark>)

  predicate ValidMark(m: Mark) {
    m.Plain? ==> m.c != '"' && m.c != '\\'
  }

  predicate ValidPiece(p: Piece) {
    match p
    case Bare(c) => Ordinary(c)
    case Slashed(_) => true
    case Single(text) => '\'' !in text
    case Double(marks) => forall m :: m in marks ==> ValidMark(m)
  }

  function WrittenMark(m: Mark): string {
    if m.Plain? then [m.c] else ['\\', m.c]
  }

  function WrittenMarks(marks: seq<Mark>): string {
    if marks == [] then ""
    else WrittenMark(marks[0]) + WrittenMarks(marks[1..])
  }

  function MarkedText(marks: seq<Mark>): string {
    if marks == [] then "" else [marks[0].c] + MarkedText(marks[1..])
  }

  /** How a piece is written. */
  function Written(p: Piece): string {
    match p
    case Bare(c) => [c]
    case Slashed(c) => ['\\', c]
    case Single(text) => "'" + text + "'"
    case Double(marks) => "\"" + WrittenMarks(marks) + "\""
  }

  /** What it contributes to the argument. */
  function Meant(p: Piece): string {
    match p
    case Bare(c) => [c]
    case Slashed(c) => [c]
    case Single(text) => text
    case Double(marks) => MarkedText(marks)
  }

  function WrittenWord(pieces: seq<Piece>): string {
    if pieces == [] then "" else Written(pieces[0]) + WrittenWord(pieces[1..])
  }

  function MeantWord(pieces: seq<Piece>): string {
    if pieces == [] then "" else Meant(pieces[0]) + MeantWord(pieces[1..])
  }

  /** A word and the blanks in front of it. */
  datatype Item = Item(gap: string, pieces: seq<Piece>)

  predicate IsGap(gap: string) {
    forall c :: c in gap ==> c in BLANKS
  }

  predicate ValidItem(item: Item) {
    && IsGap(item.gap)
    && item.pieces != [] && (forall p :: p in item.pieces ==> ValidPiece(p))
  }

  function Line(items: seq<Item>, trail: string): string {
    if items == [] then trail else items[0].gap + (WrittenWord(items[0].pieces) + Line(items[1..], trail))
  }

  function MeantLine(items: seq<Item>): seq<string> {
    if items == [] then [] else [MeantWord(items[0].pieces)] + MeantLine(items[1..])
  }

  /** Blanks may stand at both ends and must stand between two words. */
  predicate ValidLine(items: seq<Item>, trail: string) {
    && IsGap(trail)
    && (forall item :: item in items ==> ValidItem(item))
    && (forall i :: 0 < i < |items| ==> items[i].gap != "")
  }

  // ---------------------------------------------------------------------------------------------
  // Every line is read as it is meant

  lemma Blank(c: char)
    ensures IsSpace(c) <==> c in BLANKS
  {
    assert BLANKS == [' ', '\t', '\n', '\r', '\U{000B}', '\U{000C}'];
  }

  lemma {:induction false} SingleReads(text: string, rest: string)
    requires '\'' !in text
    ensures SingleQuoted(text + "'" + rest) == Some((text, rest))
  {
    var all := text + "'" + rest;
    if text == "" {
      assert all == "'" + rest;
    } else {
      assert all[0] == text[0] && all[1..] == text[1..] + "'" + rest;
      SingleReads(text[1..], rest);
      assert [text[0]] + text[1..] == text;
    }
  }

  lemma MarkReads(m: Mark, tail: string)
    requires ValidMark(m) && DoubleQuoted(tail).Some?
    ensures var (body, rest) := DoubleQuoted(tail).value;
      DoubleQuoted(WrittenMark(m) + tail) == Some(([m.c] + body, rest))
  {
    var all := WrittenMark(m) + tail;
    if m.Plain? {
      assert all[1..] == tail;
    } else {
      assert all[2..] == tail;
    }
  }

  lemma {:induction false} MarksRead(marks: seq<Mark>, rest: string)
    requires forall m :: m in marks ==> ValidMark(m)
    ensures DoubleQuoted(WrittenMarks(marks) + ("\"" + rest)) == Some((MarkedText(marks), rest))
  {
    var end := "\"" + rest;
    if marks == [] {
      assert "" + end == end && end[1..] == rest;
    } else {
      hide DoubleQuoted, WrittenMark, ValidMark;
      MarksRead(marks[1..], rest);
      MarkReads(marks[0], WrittenMarks(marks[1..]) + end);
      assert WrittenMark(marks[0]) + (WrittenMarks(marks[1..]) + end) == WrittenMarks(marks) + end;
    }
  }

  lemma SectionReads(all: string, text: string, rest: string, word: string, started: bool)
    requires all != ""
    requires
      || (all[0] == '\'' && SingleQuoted(all[1..]) == Some((text, rest)))
      || (all[0] == '"' && DoubleQuoted(all[1..]) == Some((text, rest)))
    ensures Words(all, word, started) == Words(rest, word + text, true)
  {
    var section := if all[0] == '"' then DoubleQuoted(all[1..]) else SingleQuoted(all[1..]);
    assert Words(all, word, started) == AfterQuoted(|all|, section, word);
  }

  lemma CharacterReads(p: Piece, rest: string, word: string, started: bool)
    requires ValidPiece(p) && (p.Bare? || p.Slashed?)
    ensures Words(Written(p) + rest, word, started) == Words(rest, word + [p.c], true)
  {
    var all := Written(p) + rest;
    if p.Bare? {
      Blank(p.c);
      assert all[1..] == rest;
    } else {
      assert all[2..] == rest;
    }
  }

  lemma SinglePieceReads(text: string, rest: string, word: string, started: bool)
    requires '\'' !in text
    ensures Words(Written(Single(text)) + rest, word, started) == Words(rest, word + text, true)
  {
    hide Words, SingleQuoted, DoubleQuoted;
    var all := Written(Single(text)) + rest;
    SingleReads(text, rest);
    assert all[0] == '\'' && all[1..] == text + "'" + rest;
    SectionReads(all, text, rest, word, started);
  }

  lemma DoublePieceReads(marks: seq<Mark>, rest: string, word: string, started: bool)
    requires forall m :: m in marks ==> ValidMark(m)
    ensures Words(Written(Double(marks)) + rest, word, started) == Words(rest, word + MarkedText(marks), true)
  {
    hide Words, SingleQuoted, DoubleQuoted, WrittenMarks, MarkedText, ValidMark;
    var all := Written(Double(marks)) + rest;
    MarksRead(marks, rest);
    assert all[0] == '"' && all[1..] == WrittenMarks(marks) + ("\"" + rest);
    SectionReads(all, MarkedText(marks), rest, word, started);
  }

  lemma PieceReads(p: Piece, rest: string, word: string, started: bool)
    requires ValidPiece(p)
    ensures Words(Written(p) + rest, word, started) == Words(rest, word + Meant(p), true)
  {
    hide Words, Written, Ordinary, MarkedText, ValidMark;
    match p
    case Single(text) => SinglePieceReads(text, rest, word, started);
    case Double(marks) => DoublePieceReads(marks, rest, word, started);
    case _ => CharacterReads(p, rest, word, started);
  }

  lemma {:induction false} WordReads(pieces: seq<Piece>, rest: string, word: string, started: bool)
    requires forall p :: p in pieces ==> ValidPiece(p)
    ensures Words(WrittenWord(pieces) + rest, word, started)
         == Words(rest, word + MeantWord(pieces), started || pieces != [])
  {
    hide Words, Written, Meant, ValidPiece;
    if pieces == [] {
      assert "" + rest == rest && word + "" == word;
    } else {
      var first := pieces[0];
      PieceReads(first, WrittenWord(pieces[1..]) + rest, word, started);
      WordReads(pieces[1..], rest, word + Meant(first), true);
      assert WrittenWord(pieces) + rest == Written(first) + (WrittenWord(pieces[1..]) + rest);
      assert word + Meant(first) + MeantWord(pieces[1..]) == word + MeantWord(pieces);
    }
  }

  lemma {:induction false} GapReads(gap: string, rest: string, word: string, started: bool)
    requires IsGap(gap) && gap != ""
    ensures Words(gap + rest, word, started) == Prepend(if started then [word] else [], Words(rest, "", false))
  {
    var tail := gap[1..] + rest;
    Blank(gap[0]);
    assert gap[0] in gap;
    assert (gap + rest)[0] == gap[0] && (gap + rest)[1..] == tail;
    if gap[1..] == "" {
      assert tail == rest;
    } else {
      GapReads(gap[1..], rest, "", false);
      PrependNothing(Words(rest, "", false));
    }
  }

  lemma {:induction false} LineReads(items: seq<Item>, trail: string, word: string, started: bool)
    requires ValidLine(items, trail)
    requires if started then items != [] ==> items[0].gap != "" else word == ""
    ensures Words(Line(items, trail), word, started) == Ok((if started then [word] else []) + MeantLine(items))
  {
    hide Words, MeantWord, ValidPiece, IsGap;
    var first := if started then [word] else [];
    if items == [] {
      TrailReads(trail, word, started);
      assert first + [] == first;
    } else {
      var item, rest := items[0], Line(items[1..], trail);
      assert ValidItem(item);
      var text := WrittenWord(item.pieces) + rest;
      if item.gap == "" {
        assert "" + text == text && word + MeantWord(item.pieces) == MeantWord(item.pieces);
        WordReads(item.pieces, rest, word, started);
      } else {
        GapReads(item.gap, text, word, started);
        WordReads(item.pieces, rest, "", false);
      }
      var meant := MeantWord(item.pieces);
      assert "" + meant == meant;
      assert forall i :: 0 < i < |items[1..]| ==> items[1..][i] == items[i + 1];
      LineReads(items[1..], trail, meant, true);
      assert first + ([meant] + MeantLine(items[1..])) == first + MeantLine(items);
      assert [] + MeantLine(items) == MeantLine(items);
    }
  }

  lemma TrailReads(trail: string, word: string, started: bool)
    requires IsGap(trail)
    ensures Words(trail, word, started) == Ok(if started then [word] else [])
  {
    if trail != "" {
      var first := if started then [word] else [];
      assert trail + "" == trail && first + [] == first;
      GapReads(trail, "", word, started);
    }
  }

  /** A line of words is split into exactly the words it means. */
  lemma LineSplits(items: seq<Item>, trail: string)
    requires ValidLine(items, trail)
    ensures Arguments(Line(items, trail)) == Ok(MeantLine(items))
  {
    LineReads(items, trail, "", false);
    assert [] + MeantLine(items) == MeantLine(items);
  }

  // ---------------------------------------------------------------------------------------------
  // Words in which nothing is special

  /** The words of `items` as they stand, with the blanks around them. */
  function PlainLine(gaps: seq<string>, words: seq<string>, trail: string): string
    requires |gaps| == |words|
  {
    if words == [] then trail else gaps[0] + (words[0] + PlainLine(gaps[1..], words[1..], trail))
  }

  function AsItems(gaps: seq<string>, words: seq<string>): seq<Item>
    requires |gaps| == |words|
  {
    seq(|words|, i requires 0 <= i < |words| => Item(gaps[i], AsPieces(words[i])))
  }

  function AsPieces(word: string): seq<Piece> {
    seq(|word|, i requires 0 <= i < |word| => Bare(word[i]))
  }

  lemma {:induction false} AsPiecesRead(word: string)
    ensures WrittenWord(AsPieces(word)) == word == MeantWord(AsPieces(word))
  {
    if word != "" {
      AsPiecesRead(word[1..]);
      assert AsPieces(word)[1..] == AsPieces(word[1..]);
      assert word == [word[0]] + word[1..];
    }
  }

  lemma {:induction false} PlainLineReads(gaps: seq<string>, words: seq<string>, trail: string)
    requires |gaps| == |words|
    ensures Line(AsItems(gaps, words), trail) == PlainLine(gaps, words, trail)
    ensures MeantLine(AsItems(gaps, words)) == words
  {
    hide AsPieces, WrittenWord, MeantWord;
    if words != [] {
      PlainLineReads(gaps[1..], words[1..], trail);
      AsPiecesRead(words[0]);
      assert AsItems(gaps, words)[1..] == AsItems(gaps[1..], words[1..]);
      assert words == [words[0]] + words[1..];
    }
  }

  /**
   Non-empty words without quotation mark, apostrophe, backslash or blank, with any blanks between and
   around them, come out exactly as they are.
   */
  lemma PlainWordsSplit(gaps: seq<string>, words: seq<string>, trail: string)
    requires |gaps| == |words|
    requires forall word :: word in words ==> word != "" && forall c :: c in word ==> Ordinary(c)
    requires IsGap(trail) && (forall gap :: gap in gaps ==> IsGap(gap))
    requires forall i :: 0 < i < |gaps| ==> gaps[i] != ""
    ensures Arguments(PlainLine(gaps, words, trail)) == Ok(words)
  {
    var items := AsItems(gaps, words);
    forall item | item in items
      ensures ValidItem(item)
    {
      var i :| 0 <= i < |items| && items[i] == item;
      assert words[i] in words && gaps[i] in gaps;
      forall p | p in item.pieces
        ensures ValidPiece(p)
      {
        var j :| 0 <= j < |item.pieces| && item.pieces[j] == p;
        assert words[i][j] in words[i];
      }
    }
    LineSplits(items, trail);
    PlainLineReads(gaps, words, trail);
  }

  // ---------------------------------------------------------------------------------------------
  // And nothing but such lines is accepted

  lemma {:induction false} SingleIsWritten(text: string)
    requires SingleQuoted(text).Some?
    ensures var (body, rest) := SingleQuoted(text).value; '\'' !in body && text == body + "'" + rest
  {
    if text[0] != '\'' {
      SingleIsWritten(text[1..]);
      assert text == [text[0]] + text[1..];
    }
  }

  lemma {:induction false} DoubleIsWritten(text: string) returns (marks: seq<Mark>)
    requires DoubleQuoted(text).Some?
    ensures forall m :: m in marks ==> ValidMark(m)
    ensures var (body, rest) := DoubleQuoted(text).value;
      MarkedText(marks) == body && text == WrittenMarks(marks) + "\"" + rest
  {
    if text[0] == '"' {
      marks := [];
    } else if text[0] == '\\' {
      var more := DoubleIsWritten(text[2..]);
      marks := [Protected(text[1])] + more;
      MarkInFront(marks, text[..2], text[2..]);
    } else {
      var more := DoubleIsWritten(text[1..]);
      marks := [Plain(text[0])] + more;
      MarkInFront(marks, text[..1], text[1..]);
    }
  }

  lemma MarkInFront(marks: seq<Mark>, first: string, text: string)
    requires marks != [] && first == WrittenMark(marks[0])
    requires DoubleQuoted(text).Some?
    requires text == WrittenMarks(marks[1..]) + "\"" + DoubleQuoted(text).value.1
    ensures first + text == WrittenMarks(marks) + "\"" + DoubleQuoted(text).value.1
  {
    hide DoubleQuoted;
  }

  /** Whatever is accepted is the rest of a word and then a line. */
  lemma {:induction false} AcceptedReads(text: string, word: string, started: bool)
    returns (pieces: seq<Piece>, items: seq<Item>, trail: string)
    requires Words(text, word, started).Ok?
    ensures forall p :: p in pieces ==> ValidPiece(p)
    ensures ValidLine(items, trail) && (items != [] ==> items[0].gap != "")
    ensures text == WrittenWord(pieces) + Line(items, trail)
    decreases |text|
  {
    pieces, items, trail := [], [], "";
    if text == "" {
      return;
    }
    hide Words, Written, WrittenWord, Meant, ValidPiece, IsSpace, Line, ValidLine;
    Blank(text[0]);
    if IsSpace(text[0]) {
      BlankAccepted(text, word, started);
      var inner, more;
      inner, more, trail := AcceptedReads(text[1..], "", false);
      items, trail := BlankInFront(text[0], inner, more, trail);
      assert text == [text[0]] + text[1..];
      NoPieces(Line(items, trail));
    } else {
      var p, rest := FirstPiece(text, word, started);
      var more;
      more, items, trail := AcceptedReads(rest, word + Meant(p), true);
      pieces := [p] + more;
      PieceInFront(p, more, Line(items, trail));
    }
  }

  lemma NoPieces(tail: string)
    ensures WrittenWord([]) + tail == tail
  {
  }

  lemma PieceInFront(p: Piece, more: seq<Piece>, tail: string)
    ensures Written(p) + (WrittenWord(more) + tail) == WrittenWord([p] + more) + tail
  {
    hide Written;
    assert ([p] + more)[1..] == more;
  }

  lemma BlankAccepted(text: string, word: string, started: bool)
    requires text != "" && IsSpace(text[0]) && Words(text, word, started).Ok?
    ensures Words(text[1..], "", false).Ok?
  {
  }

  lemma FirstPiece(text: string, word: string, started: bool) returns (p: Piece, rest: string)
    requires Words(text, word, started).Ok? && text != "" && !IsSpace(text[0])
    ensures ValidPiece(p) && text == Written(p) + rest && |rest| < |text|
    ensures Words(rest, word + Meant(p), true).Ok?
  {
    Blank(text[0]);
    if text[0] == '\\' {
      p, rest := Slashed(text[1]), text[2..];
    } else if text[0] == '\'' {
      SingleIsWritten(text[1..]);
      p, rest := Single(SingleQuoted(text[1..]).value.0), SingleQuoted(text[1..]).value.1;
      assert text == "'" + text[1..];
    } else if text[0] == '"' {
      var marks := DoubleIsWritten(text[1..]);
      p, rest := Double(marks), DoubleQuoted(text[1..]).value.1;
      assert text == "\"" + text[1..];
    } else {
      p, rest := Bare(text[0]), text[1..];
    }
  }

  lemma BlankInFront(c: char, inner: seq<Piece>, more: seq<Item>, trail: string)
    returns (items: seq<Item>, after: string)
    requires c in BLANKS && (forall p :: p in inner ==> ValidPiece(p))
    requires ValidLine(more, trail) && (more != [] ==> more[0].gap != "")
    ensures ValidLine(items, after) && (items != [] ==> items[0].gap != "")
    ensures Line(items, after) == [c] + (WrittenWord(inner) + Line(more, trail))
  {
    assert forall d :: d in [c] + trail ==> d == c || d in trail;
    if inner != [] {
      assert ValidItem(Item([c], inner));
      items, after := [Item([c], inner)] + more, trail;
    } else if more != [] {
      var first := more[0].(gap := [c] + more[0].gap);
      assert ValidItem(more[0]) && ValidItem(first);
      items, after := [first] + more[1..], trail;
    } else {
      items, after := [], [c] + trail;
    }
  }

  /** A text is accepted, with these arguments, exactly when it is a line that means them. */
  lemma AcceptsExactlyLines(text: string, args: seq<string>)
    ensures Arguments(text) == Ok(args) <==> IsLineOf(text, args)
  {
    hide Line, MeantLine, ValidLine, Words;
    if Arguments(text) == Ok(args) {
      var items, trail := AcceptedLine(text);
      LineSplits(items, trail);
      assert IsLineOf(text, args);
    }
    if IsLineOf(text, args) {
      var items, trail :| ValidLine(items, trail) && Line(items, trail) == text && MeantLine(items) == args;
      LineSplits(items, trail);
    }
  }

  ghost predicate IsLineOf(text: string, args: seq<string>) {
    exists items, trail :: ValidLine(items, trail) && Line(items, trail) == text && MeantLine(items) == args
  }

  lemma AcceptedLine(text: string) returns (items: seq<Item>, trail: string)
    requires Arguments(text).Ok?
    ensures ValidLine(items, trail) && Line(items, trail) == text
  {
    hide Words, ValidPiece;
    var pieces;
    pieces, items, trail := AcceptedReads(text, "", false);
    if pieces == [] {
      assert "" + Line(items, trail) == Line(items, trail);
    } else {
      var first := Item("", pieces);
      assert ValidItem(first);
      assert "" + text == text;
      items := [first] + items;
    }
  }

  // ---------------------------------------------------------------------------------------------
  // The line that is printed

  /** Exactly quotation marks and backslashes are protected. */
  function Protection(item: string): (marks: seq<Mark>)
    ensures forall m :: m in marks ==> ValidMark(m)
  {
    seq(|item|, i requires 0 <= i < |item| =>
      if item[i] == '"' || item[i] == '\\' then Protected(item[i]) else Plain(item[i]))
  }

  /** Each argument between quotation marks, one space between two of them. */
  function Shown(command: seq<string>): seq<Item> {
    seq(|command|, i requires 0 <= i < |command| =>
      Item(if i == 0 then "" else " ", [Double(Protection(command[i]))]))
  }

  lemma {:induction false} ProtectionWritten(item: string)
    ensures WrittenMarks(Protection(item)) == Escaped(item)
  {
    if item != "" {
      ProtectionWritten(item[1..]);
      assert Protection(item)[1..] == Protection(item[1..]);
    }
  }

  lemma ShownWord(item: string)
    ensures WrittenWord([Double(Protection(item))]) == Quoted(item)
  {
    hide Escaped, WrittenMarks;
    ProtectionWritten(item);
    var pieces := [Double(Protection(item))];
    assert pieces[1..] == [];
    assert Written(pieces[0]) + "" == Written(pieces[0]);
  }

  lemma {:induction false} ShownFrom(command: seq<string>, i: nat)
    requires i <= |command|
    ensures Line(Shown(command)[i..], "") == Displayed(command[i..], i == 0)
    decreases |command| - i
  {
    hide Protection, Escaped, WrittenWord, Quoted;
    if i < |command| {
      var items, later := Shown(command)[i..], command[i + 1..];
      ShownFrom(command, i + 1);
      ShownWord(command[i]);
      assert items[1..] == Shown(command)[i + 1..] && command[i..][1..] == later;
      var gap, word, rest := items[0].gap, Quoted(command[i]), Displayed(later, false);
      assert gap + (word + rest) == gap + word + rest;
    }
  }

  lemma DisplayIsLine(command: seq<string>)
    ensures Displayed(command, true) == Line(Shown(command), "")
  {
    ShownFrom(command, 0);
    assert Shown(command)[0..] == Shown(command) && command[0..] == command;
  }
}
