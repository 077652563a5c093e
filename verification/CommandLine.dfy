/** Splitting a command line into arguments, and the quoting that it undoes. */
module CommandLine {
  import opened Results

  predicate IsSpace(c: char) {
    c == ' ' || c == '\t' || c == '\n' || c == '\r' || c == '\U{000B}' || c == '\U{000C}'
  }

  // ---------------------------------------------------------------------------------------------
  // The grammar of argument lists, read from left to right

  /** The body of an apostrophe-quoted section and what follows it; nothing is special inside. */
  function SingleQuoted(text: string): (r: Option<(string, string)>)
    ensures r.Some? ==> |r.value.1| < |text|
  {
    if text == "" then None
    else if text[0] == '\'' then Some(("", text[1..]))
    else match SingleQuoted(text[1..])
      case None => None
      case Some((body, rest)) => Some(([text[0]] + body, rest))
  }

  /** The same between quotation marks, where a backslash takes the next character literally. */
  function DoubleQuoted(text: string): (r: Option<(string, string)>)
    ensures r.Some? ==> |r.value.1| < |text|
  {
    if text == "" then None
    else if text[0] == '"' then Some(("", text[1..]))
    else if text[0] == '\\' then
      if |text| == 1 then None else
        match DoubleQuoted(text[2..])
        case None => None
        case Some((body, rest)) => Some(([text[1]] + body, rest))
    else match DoubleQuoted(text[1..])
      case None => None
      case Some((body, rest)) => Some(([text[0]] + body, rest))
  }

  /** The arguments of `text`, when `word` is the beginning of the first one if `started`. */
  function Words(text: string, word: string, started: bool): Result<seq<string>>
    decreases |text|, 1
  {
    if text == "" then
      Ok(if started then [word] else [])
    else if text[0] == '\\' then
      if |text| == 1 then Err(UnterminatedArgument) else Words(text[2..], word + [text[1]], true)
    else if text[0] == '\'' then
      AfterQuoted(|text|, SingleQuoted(text[1..]), word)
    else if text[0] == '"' then
      AfterQuoted(|text|, DoubleQuoted(text[1..]), word)
    else if IsSpace(text[0]) then
      Prepend(if started then [word] else [], Words(text[1..], "", false))
    else
      Words(text[1..], word + [text[0]], true)
  }

  function AfterQuoted(bound: nat, section: Option<(string, string)>, word: string): Result<seq<string>>
    requires section.Some? ==> |section.value.1| < bound
    decreases bound, 0
  {
    match section
    case None => Err(UnterminatedArgument)
    case Some((body, rest)) => Words(rest, word + body, true)
  }

  function Prepend(first: seq<string>, rest: Result<seq<string>>): Result<seq<string>> {
    match rest
    case Ok(words) => Ok(first + words)
    case Err(e) => Err(e)
  }

  function Arguments(text: string): Result<seq<string>> {
    Words(text, "", false)
  }

  // ---------------------------------------------------------------------------------------------
  // The tokenizer

  /** What the tokenizer, in the middle of a text, will make of the characters that are left. */
  function Pending(quote: char, escaped: bool, word: string, started: bool, text: string): Result<seq<string>> {
    if escaped then
      if text == "" then Err(UnterminatedArgument) else Unescaped(quote, word + [text[0]], true, text[1..])
    else
      Unescaped(quote, word, started, text)
  }

  function Unescaped(quote: char, word: string, started: bool, text: string): Result<seq<string>> {
    if quote == '\'' then AfterQuoted(|text| + 1, SingleQuoted(text), word)
    else if quote == '"' then AfterQuoted(|text| + 1, DoubleQuoted(text), word)
    else Words(text, word, started)
  }

  lemma PendingStep(quote: char, escaped: bool, word: string, started: bool, text: string)
    requires text != "" && (quote == '\0' || quote == '\'' || quote == '"')
    requires escaped ==> quote != '\''
    ensures Pending(quote, escaped, word, started, text) ==
      var c, rest := text[0], text[1..];
      if escaped then Pending(quote, false, word + [c], true, rest)
      else if c == '\\' && quote != '\'' then Pending(quote, true, word, true, rest)
      else if quote != '\0' then
        if c == quote then Pending('\0', false, word, true, rest) else Pending(quote, false, word + [c], true, rest)
      else if c == '\'' || c == '"' then Pending(c, false, word, true, rest)
      else if IsSpace(c) then Prepend(if started then [word] else [], Pending('\0', false, "", false, rest))
      else Pending('\0', false, word + [c], true, rest)
  {
    var c, rest := text[0], text[1..];
    if !escaped && quote != '\0' {
      if c == '\\' && quote == '"' {
        if rest != "" {
          assert text[2..] == rest[1..];
          BodyGrows(DoubleQuoted(rest[1..]), word, rest[0]);
        }
      } else if c == quote {
        assert word + "" == word;
      } else {
        BodyGrows(if quote == '\'' then SingleQuoted(rest) else DoubleQuoted(rest), word, c);
      }
    } else if !escaped && c == '\\' && rest != "" {
      assert text[2..] == rest[1..];
    }
    if !escaped && quote == '\0' && (c == '\'' || c == '"') {
      var section := if c == '"' then DoubleQuoted(rest) else SingleQuoted(rest);
      assert Words(text, word, started) == AfterQuoted(|text|, section, word);
    }
  }

  lemma BodyGrows(section: Option<(string, string)>, word: string, c: char)
    ensures section.Some? ==> word + ([c] + section.value.0) == word + [c] + section.value.0
  {
  }

  method SplitCommandArguments(value: string) returns (r: Result<seq<string>>)
    ensures r == Arguments(value)
  {
    var result: seq<string> := [];
    var word := "";
    var quote := '\0';
    var escaped, started := false, false;
    assert value[0..] == value;
    PrependNothing(Arguments(value));
    for i := 0 to |value|
      invariant quote == '\0' || quote == '\'' || quote == '"'
      invariant escaped ==> quote != '\''
      invariant !started ==> word == ""
      invariant Prepend(result, Pending(quote, escaped, word, started, value[i..])) == Arguments(value)
    {
      PendingStep(quote, escaped, word, started, value[i..]);
      assert value[i..][1..] == value[i + 1..];
      var character := value[i];
      if escaped {
        word, escaped, started := word + [character], false, true;
      } else if character == '\\' && quote != '\'' {
        escaped, started := true, true;
      } else if quote != '\0' {
        if character == quote {
          quote := '\0';
        } else {
          word := word + [character];
        }
        started := true;
      } else if character == '\'' || character == '"' {
        quote, started := character, true;
      } else if IsSpace(character) {
        PrependTwice(result, if started then [word] else [], Pending('\0', false, "", false, value[i + 1..]));
        if started {
          result, word, started := result + [word], "", false;
        }
      } else {
        word, started := word + [character], true;
      }
    }
    assert value[|value|..] == "";
    assert result + [] == result;
    if escaped || quote != '\0' {
      return Err(UnterminatedArgument);
    }
    if started {
      result := result + [word];
    }
    return Ok(result);
  }

  lemma PrependNothing(rest: Result<seq<string>>)
    ensures Prepend([], rest) == rest
  {
    if rest.Ok? {
      assert [] + rest.value == rest.value;
    }
  }

  lemma PrependTwice(a: seq<string>, b: seq<string>, rest: Result<seq<string>>)
    ensures Prepend(a, Prepend(b, rest)) == Prepend(a + b, rest)
    ensures Prepend(a + [], rest) == Prepend(a, rest)
  {
    assert a + [] == a;
    if rest.Ok? {
      assert a + (b + rest.value) == a + b + rest.value;
    }
  }

  // ---------------------------------------------------------------------------------------------
  // Quoting, and its inverse

  /** std::quoted: every quotation mark and backslash gets a backslash in front. */
  function Escaped(item: string): string {
    if item == "" then ""
    else (if item[0] == '"' || item[0] == '\\' then ['\\', item[0]] else [item[0]]) + Escaped(item[1..])
  }

  function Quoted(item: string): string {
    "\"" + Escaped(item) + "\""
  }

  function Displayed(command: seq<string>, first: bool): string {
    if command == [] then ""
    else (if first then "" else " ") + Quoted(command[0]) + Displayed(command[1..], false)
  }

  method DisplayCommand(command: seq<string>) returns (output: string)
    ensures output == Displayed(command, true)
    ensures Arguments(output) == Ok(command)
  {
    output := "";
    var first := true;
    for i := 0 to |command|
      invariant first == (i == 0)
      invariant output + Displayed(command[i..], first) == Displayed(command, true)
    {
      assert command[i..][1..] == command[i + 1..];
      if !first {
        output := output + " ";
      }
      first := false;
      output := output + Quoted(command[i]);
    }
    SplitUndoesDisplay(command);
  }

  lemma {:induction false} QuotedReads(item: string, rest: string)
    ensures DoubleQuoted(Escaped(item) + "\"" + rest) == Some((item, rest))
  {
    var text := Escaped(item) + "\"" + rest;
    if item == "" {
      assert text == "\"" + rest;
    } else {
      var tail := Escaped(item[1..]) + "\"" + rest;
      QuotedReads(item[1..], rest);
      assert [item[0]] + item[1..] == item;
      if item[0] == '"' || item[0] == '\\' {
        assert text == ['\\', item[0]] + tail;
        assert text[2..] == tail;
      } else {
        assert text == [item[0]] + tail;
        assert text[1..] == tail;
      }
    }
  }

  lemma QuotedWord(tail: string, item: string, rest: string)
    requires DoubleQuoted(tail) == Some((item, rest))
    ensures Words("\"" + tail, "", false) == Words(rest, item, true)
  {
    var text := "\"" + tail;
    assert text[1..] == tail && "" + item == item;
    assert Words(text, "", false) == AfterQuoted(|text|, DoubleQuoted(tail), "");
  }

  lemma Regroup(a: string, b: string, c: string, d: string)
    ensures a + b + c + d == a + (b + c + d)
  {
  }

  lemma {:induction false} DisplayedReads(command: seq<string>, word: string)
    ensures Words(Displayed(command, false), word, true) == Ok([word] + command)
  {
    if command == [] {
      NothingMore(word);
      assert [word] + command == [word];
    } else {
      hide Words, Displayed;
      DisplayedReads(command[1..], command[0]);
      FirstReads(command);
      DisplayedNext(command);
      SpaceEnds(word, Displayed(command, true));
    }
  }

  lemma NothingMore(word: string)
    ensures Words("", word, true) == Ok([word])
  {
  }

  lemma DisplayedNext(command: seq<string>)
    requires command != []
    ensures Displayed(command, false) == " " + Displayed(command, true)
  {
    hide Quoted;
    var quoted, rest := Quoted(command[0]), Displayed(command[1..], false);
    assert "" + quoted == quoted;
    assert " " + quoted + rest == " " + (quoted + rest);
  }

  lemma SpaceEnds(word: string, rest: string)
    ensures Words(" " + rest, word, true) == Prepend([word], Words(rest, "", false))
  {
    var text := " " + rest;
    assert text[0] == ' ' && text[1..] == rest;
  }

  /** The first argument ends where its quotation marks close. */
  lemma FirstReads(command: seq<string>)
    requires command != []
    requires Words(Displayed(command[1..], false), command[0], true) == Ok([command[0]] + command[1..])
    ensures Words(Displayed(command, true), "", false) == Ok(command)
  {
    hide Words, Escaped, DoubleQuoted;
    var rest := Displayed(command[1..], false);
    var tail := Escaped(command[0]) + "\"" + rest;
    QuotedReads(command[0], rest);
    Regroup("\"", Escaped(command[0]), "\"", rest);
    assert "" + Quoted(command[0]) == Quoted(command[0]);
    QuotedWord(tail, command[0], rest);
    assert [command[0]] + command[1..] == command;
  }

  /** Quoting loses nothing: empty arguments, quotes, backslashes and spaces all come back. */
  lemma SplitUndoesDisplay(command: seq<string>)
    ensures Arguments(Displayed(command, true)) == Ok(command)
  {
    if command != [] {
      DisplayedReads(command[1..], command[0]);
      FirstReads(command);
    }
  }

  // ---------------------------------------------------------------------------------------------
  // Exactly which texts are rejected

  /** Two accepted texts, one after the other, are the arguments of both. */
  lemma {:induction false} SplitsApart(a: string, b: string, word: string, started: bool)
    requires Words(a, word, started).Ok?
    ensures Words(a + " " + b, word, started) == Prepend(Words(a, word, started).value, Arguments(b))
    decreases |a|
  {
    var both := a + " " + b;
    if a == "" {
      assert both == " " + b && both[1..] == b;
    } else {
      assert both[0] == a[0] && both[1..] == a[1..] + " " + b;
      if a[0] == '\\' {
        assert both[2..] == a[2..] + " " + b;
        SplitsApart(a[2..], b, word + [a[1]], true);
      } else if a[0] == '\'' {
        SingleExtends(a[1..], " " + b);
        assert a[1..] + (" " + b) == both[1..];
        var (body, rest) := SingleQuoted(a[1..]).value;
        assert rest + (" " + b) == rest + " " + b;
        SplitsApart(rest, b, word + body, true);
      } else if a[0] == '"' {
        DoubleExtends(a[1..], " " + b);
        assert a[1..] + (" " + b) == both[1..];
        var (body, rest) := DoubleQuoted(a[1..]).value;
        assert rest + (" " + b) == rest + " " + b;
        SplitsApart(rest, b, word + body, true);
      } else if IsSpace(a[0]) {
        SplitsApart(a[1..], b, "", false);
        PrependTwice(if started then [word] else [], Words(a[1..], "", false).value, Arguments(b));
      } else {
        SplitsApart(a[1..], b, word + [a[0]], true);
      }
    }
  }

  lemma {:induction false} SingleExtends(text: string, more: string)
    requires SingleQuoted(text).Some?
    ensures SingleQuoted(text + more) == Some((SingleQuoted(text).value.0, SingleQuoted(text).value.1 + more))
  {
    assert (text + more)[1..] == text[1..] + more;
    if text[0] != '\'' {
      SingleExtends(text[1..], more);
    }
  }

  lemma {:induction false} DoubleExtends(text: string, more: string)
    requires DoubleQuoted(text).Some?
    ensures DoubleQuoted(text + more) == Some((DoubleQuoted(text).value.0, DoubleQuoted(text).value.1 + more))
  {
    assert (text + more)[1..] == text[1..] + more;
    if text[0] == '\\' {
      assert (text + more)[2..] == text[2..] + more;
      DoubleExtends(text[2..], more);
    } else if text[0] != '"' {
      DoubleExtends(text[1..], more);
    }
  }

  /** What a text that ends inside a quote or an escape still needs; nothing if it does not. */
  function Missing(text: string): string
    decreases |text|
  {
    if text == "" then ""
    else if text[0] == '\\' then if |text| == 1 then "x" else Missing(text[2..])
    else if text[0] == '\'' then
      match SingleQuoted(text[1..])
      case None => "'"
      case Some((_, rest)) => Missing(rest)
    else if text[0] == '"' then
      match DoubleQuoted(text[1..])
      case None => if EndsEscaped(text[1..]) then "x\"" else "\""
      case Some((_, rest)) => Missing(rest)
    else Missing(text[1..])
  }

  /** The last backslash of a quoted section has nothing left to protect. */
  predicate EndsEscaped(text: string) {
    if text == "" then false
    else if text[0] == '\\' then |text| == 1 || EndsEscaped(text[2..])
    else EndsEscaped(text[1..])
  }

  /** A text is rejected exactly when it ends inside a quote or an escape, and finishing that repairs it. */
  lemma {:induction false} RejectsUnfinished(text: string, word: string, started: bool)
    ensures Words(text, word, started).Err? <==> Missing(text) != ""
    ensures Words(text + Missing(text), word, started).Ok?
    decreases |text|
  {
    var more := Missing(text);
    var done := text + more;
    if text == "" {
    } else if text[0] == '\\' {
      assert done[0] == text[0];
      if |text| > 1 {
        assert done[2..] == text[2..] + more;
        RejectsUnfinished(text[2..], word + [text[1]], true);
      } else {
        assert done[2..] == "";
      }
    } else if text[0] == '\'' || text[0] == '"' {
      var section := if text[0] == '"' then DoubleQuoted(text[1..]) else SingleQuoted(text[1..]);
      assert done[0] == text[0] && done[1..] == text[1..] + more;
      if section.Some? {
        if text[0] == '"' {
          DoubleExtends(text[1..], more);
        } else {
          SingleExtends(text[1..], more);
        }
        RejectsUnfinished(section.value.1, word + section.value.0, true);
      } else if text[0] == '"' {
        DoubleCloses(text[1..]);
        assert Words(done, word, started) == AfterQuoted(|done|, DoubleQuoted(done[1..]), word);
        assert Words("", word + DoubleQuoted(done[1..]).value.0, true).Ok?;
      } else {
        SingleCloses(text[1..]);
        assert Words(done, word, started) == AfterQuoted(|done|, SingleQuoted(done[1..]), word);
      }
    } else {
      assert done[0] == text[0] && done[1..] == text[1..] + more;
      if IsSpace(text[0]) {
        RejectsUnfinished(text[1..], "", false);
      } else {
        RejectsUnfinished(text[1..], word + [text[0]], true);
      }
    }
  }

  lemma {:induction false} SingleCloses(text: string)
    requires SingleQuoted(text).None?
    ensures SingleQuoted(text + "'").Some? && SingleQuoted(text + "'").value.1 == ""
  {
    if text != "" {
      assert (text + "'")[1..] == text[1..] + "'";
      SingleCloses(text[1..]);
    }
  }

  lemma {:induction false} DoubleCloses(text: string)
    requires DoubleQuoted(text).None?
    ensures var done := text + if EndsEscaped(text) then "x\"" else "\"";
      DoubleQuoted(done).Some? && DoubleQuoted(done).value.1 == ""
  {
    var more := if EndsEscaped(text) then "x\"" else "\"";
    var done := text + more;
    if text == "" {
      assert done == "\"";
    } else if text[0] == '\\' {
      if |text| == 1 {
        assert done == "\\x\"" && done[2..] == "\"";
      } else {
        assert done[2..] == text[2..] + more;
        DoubleCloses(text[2..]);
      }
    } else {
      assert done[1..] == text[1..] + more;
      DoubleCloses(text[1..]);
    }
  }
}
