/** The quoting tokenizer of custom stages, from internal/pipeline/runner.go. A command is a
    sequence of bytes, written here as characters. */
module Tokenizer {
  const SINGLE_QUOTE := '\''
  const DOUBLE_QUOTE := '"'
  const SPACE := ' '

  /** The variables of the loop. */
  datatype State = State(parts: seq<string>, current: string, inSingle: bool, inDouble: bool)

  function Flush(parts: seq<string>, current: string): seq<string> {
    if current != "" then parts + [current] else parts
  }

  function Step(s: State, c: char): State {
    if c == SINGLE_QUOTE && !s.inDouble then s.(inSingle := !s.inSingle)
    else if c == DOUBLE_QUOTE && !s.inSingle then s.(inDouble := !s.inDouble)
    else if c == SPACE && !s.inSingle && !s.inDouble then s.(parts := Flush(s.parts, s.current), current := "")
    else s.(current := s.current + [c])
  }

  function Run(s: State, rest: string): State
    decreases rest
  {
    if rest == "" then s else Run(Step(s, rest[0]), rest[1..])
  }

  function Parse(command: string): seq<string> {
    var s := Run(State([], "", false, false), command);
    Flush(s.parts, s.current)
  }

  method ParseCommand(command: string) returns (parts: seq<string>)
    ensures parts == Parse(command)
  {
    parts := [];
    var current := "";
    var inSingleQuote, inDoubleQuote := false, false;
    for i := 0 to |command|
      invariant Run(State(parts, current, inSingleQuote, inDoubleQuote), command[i..])
             == Run(State([], "", false, false), command)
    {
      var c := command[i];
      assert command[i..][1..] == command[i + 1..];
      if c == SINGLE_QUOTE && !inDoubleQuote {
        inSingleQuote := !inSingleQuote;
      } else if c == DOUBLE_QUOTE && !inSingleQuote {
        inDoubleQuote := !inDoubleQuote;
      } else if c == SPACE && !inSingleQuote && !inDoubleQuote {
        if |current| > 0 {
          parts := parts + [current];
          current := "";
        }
      } else {
        current := current + [c];
      }
    }
    if |current| > 0 {
      parts := parts + [current];
    }
  }

  // ---- What the tokens are ----

  /** What a byte does, given the quote that is open before it. */
  datatype Item = Kept(c: char) | Separator

  datatype Quote = Unquoted | In(mark: char)

  predicate IsMark(c: char) {
    c == SINGLE_QUOTE || c == DOUBLE_QUOTE
  }

  /** The command without its active quotes, each unquoted space marked as a separator. */
  function Items(command: string, quote: Quote): seq<Item> {
    if command == "" then []
    else
      var c, rest := command[0], command[1..];
      match quote
      case Unquoted =>
        if IsMark(c) then Items(rest, In(c))
        else [if c == SPACE then Separator else Kept(c)] + Items(rest, quote)
      case In(mark) =>
        if c == mark then Items(rest, Unquoted) else [Kept(c)] + Items(rest, quote)
  }

  /** The pieces between separators, empty ones included. */
  function Pieces(items: seq<Item>): (ps: seq<string>)
    ensures ps != []
  {
    if items == [] then [""]
    else
      var ps := Pieces(items[1..]);
      match items[0]
      case Separator => [""] + ps
      case Kept(c) => [[c] + ps[0]] + ps[1..]
  }

  function NonEmpty(ps: seq<string>): seq<string> {
    if ps == [] then [] else (if ps[0] == "" then [] else [ps[0]]) + NonEmpty(ps[1..])
  }

  /** The two flags are never up together: they say which quote is open. */
  function FlagsOf(quote: Quote): (bool, bool) {
    match quote
    case Unquoted => (false, false)
    case In(mark) => (mark == SINGLE_QUOTE, mark != SINGLE_QUOTE)
  }

  predicate Proper(quote: Quote) {
    quote.In? ==> IsMark(quote.mark)
  }

  function Resume(parts: seq<string>, current: string, items: seq<Item>): seq<string> {
    var ps := Pieces(items);
    parts + NonEmpty([current + ps[0]] + ps[1..])
  }

  lemma {:induction false} RunSplits(parts: seq<string>, current: string, quote: Quote, command: string)
    requires Proper(quote)
    ensures var flags := FlagsOf(quote);
            var s := Run(State(parts, current, flags.0, flags.1), command);
            Flush(s.parts, s.current) == Resume(parts, current, Items(command, quote))
    decreases command
  {
    var flags := FlagsOf(quote);
    var s := State(parts, current, flags.0, flags.1);
    if command == "" {
      assert [current][1..] == [] && current + "" == current;
      assert NonEmpty([current]) == if current == "" then [] else [current];
    } else {
      var c, rest := command[0], command[1..];
      var next := Step(s, c);
      if quote == Unquoted && IsMark(c) {
        RunSplits(parts, current, In(c), rest);
      } else if quote == In(c) {
        RunSplits(parts, current, Unquoted, rest);
      } else if quote == Unquoted && c == SPACE {
        RunSplits(next.parts, "", quote, rest);
        SeparatorFlushes(parts, current, Items(rest, quote));
      } else {
        RunSplits(parts, current + [c], quote, rest);
        KeptAppends(parts, current, c, Items(rest, quote));
      }
    }
  }

  lemma SeparatorFlushes(parts: seq<string>, current: string, rest: seq<Item>)
    ensures Resume(parts, current, [Separator] + rest) == Resume(Flush(parts, current), "", rest)
  {
    var ps := Pieces(rest);
    assert ([Separator] + rest)[1..] == rest;
    assert Pieces([Separator] + rest) == [""] + ps;
    assert ([""] + ps)[1..] == ps;
    assert current + "" == current && "" + ps[0] == ps[0];
    assert [ps[0]] + ps[1..] == ps;
    assert ([current] + ps)[1..] == ps;
  }

  lemma KeptAppends(parts: seq<string>, current: string, c: char, rest: seq<Item>)
    ensures Resume(parts, current, [Kept(c)] + rest) == Resume(parts, current + [c], rest)
  {
    var ps := Pieces(rest);
    assert ([Kept(c)] + rest)[1..] == rest;
    assert Pieces([Kept(c)] + rest) == [[c] + ps[0]] + ps[1..];
    assert current + ([c] + ps[0]) == (current + [c]) + ps[0];
  }

  /** The tokens are the non-empty pieces of the command between its unquoted spaces, without the
      active quotes. */
  lemma ParseIsSplit(command: string)
    ensures Parse(command) == NonEmpty(Pieces(Items(command, Unquoted)))
  {
    RunSplits([], "", Unquoted, command);
    var ps := Pieces(Items(command, Unquoted));
    assert "" + ps[0] == ps[0] && [ps[0]] + ps[1..] == ps;
  }

  function Concat(ps: seq<string>): string {
    if ps == [] then "" else ps[0] + Concat(ps[1..])
  }

  function KeptBytes(items: seq<Item>): string {
    if items == [] then ""
    else (match items[0] case Kept(c) => [c] case Separator => "") + KeptBytes(items[1..])
  }

  lemma {:induction false} NonEmptyKeeps(ps: seq<string>)
    ensures "" !in NonEmpty(ps) && Concat(NonEmpty(ps)) == Concat(ps)
  {
    if ps != [] {
      NonEmptyKeeps(ps[1..]);
      if ps[0] != "" {
        assert ([ps[0]] + NonEmpty(ps[1..]))[1..] == NonEmpty(ps[1..]);
      } else {
        assert NonEmpty(ps) == NonEmpty(ps[1..]);
      }
    }
  }

  lemma {:induction false} PiecesKeep(items: seq<Item>)
    ensures Concat(Pieces(items)) == KeptBytes(items)
  {
    if items == [] {
      assert Concat([""]) == "" + Concat([]);
    } else {
      PiecesKeep(items[1..]);
      var ps := Pieces(items[1..]);
      match items[0]
      case Separator =>
        assert ([""] + ps)[1..] == ps;
      case Kept(c) =>
        assert ([[c] + ps[0]] + ps[1..])[1..] == ps[1..];
        assert ([c] + ps[0]) + Concat(ps[1..]) == [c] + (ps[0] + Concat(ps[1..]));
    }
  }

  /** No token is empty, and together they are the command minus active quotes and unquoted
      spaces, in order. */
  lemma TokensKeepEverything(command: string)
    ensures "" !in Parse(command)
    ensures Concat(Parse(command)) == KeptBytes(Items(command, Unquoted))
  {
    ParseIsSplit(command);
    NonEmptyKeeps(Pieces(Items(command, Unquoted)));
    PiecesKeep(Items(command, Unquoted));
  }

  // ---- Quoting and parsing back ----

  /** A stretch of a word as a user would write it. */
  datatype Segment = Plain(text: string) | Quoted(text: string, mark: char)

  predicate Writable(g: Segment) {
    match g
    case Plain(text) => SPACE !in text && SINGLE_QUOTE !in text && DOUBLE_QUOTE !in text
    case Quoted(text, mark) => IsMark(mark) && mark !in text
  }

  function Written(g: Segment): string {
    match g
    case Plain(text) => text
    case Quoted(text, mark) => [mark] + text + [mark]
  }

  function WordText(word: seq<Segment>): string {
    if word == [] then "" else word[0].text + WordText(word[1..])
  }

  function WordWritten(word: seq<Segment>): string {
    if word == [] then "" else Written(word[0]) + WordWritten(word[1..])
  }

  /** The words joined by single spaces. */
  function Joined(words: seq<seq<Segment>>): string {
    if words == [] then ""
    else if |words| == 1 then WordWritten(words[0])
    else WordWritten(words[0]) + [SPACE] + Joined(words[1..])
  }

  function Texts(words: seq<seq<Segment>>): seq<string> {
    if words == [] then [] else [WordText(words[0])] + Texts(words[1..])
  }

  ghost predicate WritableWord(word: seq<Segment>) {
    WordText(word) != "" && forall g :: g in word ==> Writable(g)
  }

  lemma {:induction false} TextRuns(s: State, text: string, rest: string)
    requires s.inSingle || s.inDouble || SPACE !in text
    requires s.inSingle || DOUBLE_QUOTE !in text
    requires s.inDouble || SINGLE_QUOTE !in text
    ensures Run(s, text + rest) == Run(s.(current := s.current + text), rest)
    decreases text
  {
    if text == "" {
      assert text + rest == rest && s.current + text == s.current;
    } else {
      TextRuns(Step(s, text[0]), text[1..], rest);
      assert (text + rest)[1..] == text[1..] + rest;
      assert s.current + [text[0]] + text[1..] == s.current + text;
    }
  }

  lemma SegmentRuns(s: State, g: Segment, rest: string)
    requires !s.inSingle && !s.inDouble && Writable(g)
    ensures Run(s, Written(g) + rest) == Run(s.(current := s.current + g.text), rest)
  {
    match g
    case Plain(text) => TextRuns(s, text, rest);
    case Quoted(text, mark) =>
      var open := Step(s, mark);
      var shut := [mark] + rest;
      assert Written(g) + rest == [mark] + (text + shut);
      assert ([mark] + (text + shut))[1..] == text + shut;
      TextRuns(open, text, shut);
      var full := open.(current := open.current + text);
      assert shut[1..] == rest;
      assert Step(full, mark) == s.(current := s.current + text);
  }

  lemma {:induction false} WordRuns(s: State, word: seq<Segment>, rest: string)
    requires !s.inSingle && !s.inDouble
    requires forall g :: g in word ==> Writable(g)
    ensures Run(s, WordWritten(word) + rest) == Run(s.(current := s.current + WordText(word)), rest)
    decreases word
  {
    if word == [] {
      assert WordWritten(word) + rest == rest && s.current + WordText(word) == s.current;
    } else {
      var g, later := word[0], WordWritten(word[1..]) + rest;
      Regroup(Written(g), WordWritten(word[1..]), rest);
      SegmentRuns(s, g, later);
      WordRuns(s.(current := s.current + g.text), word[1..], rest);
      Regroup(s.current, g.text, WordText(word[1..]));
    }
  }

  lemma Regroup<T>(a: seq<T>, b: seq<T>, c: seq<T>)
    ensures a + b + c == a + (b + c)
  {
  }

  lemma OneWordRuns(parts: seq<string>, word: seq<Segment>)
    requires WritableWord(word)
    ensures var s := Run(State(parts, "", false, false), WordWritten(word));
            Flush(s.parts, s.current) == parts + [WordText(word)]
  {
    WordRuns(State(parts, "", false, false), word, "");
    assert WordWritten(word) + "" == WordWritten(word);
    assert "" + WordText(word) == WordText(word);
  }

  lemma WordThenSpace(parts: seq<string>, word: seq<Segment>, rest: string)
    requires WritableWord(word)
    ensures Run(State(parts, "", false, false), WordWritten(word) + [SPACE] + rest)
         == Run(State(parts + [WordText(word)], "", false, false), rest)
  {
    WordRuns(State(parts, "", false, false), word, [SPACE] + rest);
    assert WordWritten(word) + [SPACE] + rest == WordWritten(word) + ([SPACE] + rest);
    assert "" + WordText(word) == WordText(word);
    assert ([SPACE] + rest)[1..] == rest;
  }

  lemma {:induction false} WordsRun(parts: seq<string>, words: seq<seq<Segment>>)
    requires forall w :: w in words ==> WritableWord(w)
    ensures var s := Run(State(parts, "", false, false), Joined(words));
            Flush(s.parts, s.current) == parts + Texts(words)
    decreases words
  {
    if |words| == 1 {
      assert WritableWord(words[0]) && Texts(words[1..]) == [];
      OneWordRuns(parts, words[0]);
    } else if words != [] {
      assert WritableWord(words[0]);
      WordThenSpace(parts, words[0], Joined(words[1..]));
      WordsRun(parts + [WordText(words[0])], words[1..]);
      Regroup(parts, [WordText(words[0])], Texts(words[1..]));
    }
  }

  /** Words written with any mix of plain and quoted stretches and joined by spaces parse back. */
  lemma ParseUndoesQuoting(words: seq<seq<Segment>>)
    requires forall w :: w in words ==> WritableWord(w)
    ensures Parse(Joined(words)) == Texts(words)
  {
    WordsRun([], words);
  }
}
