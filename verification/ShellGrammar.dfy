/** The command lines that the lexer of src/git_evidence.rs models, written out as a
    grammar (POSIX Shell Command Language, section 2.2 Quoting), and the proof that the
    lexer reads exactly these, and reads off exactly their words and separators. */
module ShellGrammar {
  import opened Wrappers
  import opened Text
  import opened ShellLexer

  /** Inside double quotes: a character, or a backslash with one. */
  datatype Part = Char(c: char) | Pair(c: char) {
    predicate Ok() { if Char? then c != '\\' && c != '"' && c != '$' && c != '`' else c != '\n' && c != '\r' }

    /** A backslash goes only in front of a character it can quote. */
    function Value(): string { if Char? || c in "$`\"\\" then [c] else ['\\', c] }

    function Render(): string { if Char? then [c] else ['\\', c] }
  }

  predicate PartsOk(parts: seq<Part>) { forall i :: 0 <= i < |parts| ==> parts[i].Ok() }

  function PartsValue(parts: seq<Part>): string {
    if parts == [] then "" else parts[0].Value() + PartsValue(parts[1..])
  }

  function PartsText(parts: seq<Part>): string {
    if parts == [] then "" else parts[0].Render() + PartsText(parts[1..])
  }

  datatype Piece =
    | Bare(c: char)                    // an unquoted ordinary character
    | Escaped(c: char)                 // backslash and any character but a line break
    | SingleQuoted(s: string)          // no single quote inside
    | DoubleQuoted(parts: seq<Part>)
  {
    predicate Ok(first: bool) {
      match this
      case Bare(c) =>
        c !in "'\"\\$`<>*?[]{}();|&\n" && !IsWhitespace(c) && !(c == '#' && first)
      case Escaped(c) => c != '\n' && c != '\r'
      case SingleQuoted(s) => '\'' !in s
      case DoubleQuoted(parts) => PartsOk(parts)
    }

    function Value(): string {
      match this
      case Bare(c) => [c]
      case Escaped(c) => [c]
      case SingleQuoted(s) => s
      case DoubleQuoted(parts) => PartsValue(parts)
    }

    function Render(): string {
      match this
      case Bare(c) => [c]
      case Escaped(c) => ['\\', c]
      case SingleQuoted(s) => "'" + s + "'"
      case DoubleQuoted(parts) => "\"" + PartsText(parts) + "\""
    }
  }

  /** Adjacent pieces make one word. */
  type Word = seq<Piece>

  predicate PiecesOk(w: Word, first: bool) { forall i :: 0 <= i < |w| ==> w[i].Ok(i == 0 && first) }

  function WordValue(w: Word): string {
    if w == [] then "" else w[0].Value() + WordValue(w[1..])
  }

  function WordText(w: Word): string {
    if w == [] then "" else w[0].Render() + WordText(w[1..])
  }

  predicate IsBlank(c: char) { IsWhitespace(c) && c != '\n' }

  predicate SeparatorOk(sep: string) { sep in {";", "|", "||", "&", "&&", "\n"} }

  /** A command line: a run of pieces, ended by the end of the line, or by a blank or a
      separator with a command line behind it. */
  datatype Command = Command(run: Word, tail: Tail) {
    /** `inWord`: the run goes on with a word; `filled`: the segment already has one. */
    predicate Ok(inWord: bool, filled: bool) {
      && PiecesOk(run, !inWord)
      && var has := filled || run != [];
      match tail
      case End => has
      case Space(c, rest) => IsBlank(c) && rest.Ok(false, has)
      case Break(sep, rest) => has && SeparatorOk(sep) && rest.Ok(false, false)
    }

    function Render(): string { WordText(run) + tail.Render() }

    /** The words up to the first separator. */
    function Words(): seq<string> {
      (if run == [] then [] else [WordValue(run)]) + if tail.Space? then tail.rest.Words() else []
    }

    /** The segments behind it. */
    function Later(): seq<seq<string>>
      decreases this, 0
    {
      match tail
      case End => []
      case Space(_, rest) => rest.Later()
      case Break(_, rest) => rest.Segments()
    }

    function Segments(): seq<seq<string>>
      decreases this, 1
    {
      [Words()] + Later()
    }

    function Separators(): seq<string> {
      match tail
      case End => []
      case Space(_, rest) => rest.Separators()
      case Break(sep, rest) => [sep] + rest.Separators()
    }
  }

  datatype Tail = End | Space(c: char, rest: Command) | Break(sep: string, rest: Command) {
    function Render(): string {
      match this
      case End => ""
      case Space(c, rest) => [c] + rest.Render()
      case Break(sep, rest) => sep + rest.Render()
    }
  }

  // ---------------------------------------------------------------- lexing undoes quoting

  lemma LexStep(x: Lexer, s: string, y: Lexer, n: nat, rest: string)
    requires s != [] && Step(x, s) == Some((y, n)) && s[n..] == rest
    ensures Lex(x, s) == Lex(y, rest)
  {
  }

  lemma LexEnd(x: Lexer)
    ensures Lex(x, "") == Some(x)
  {
  }

  lemma {:induction false} LexSingle(x: Lexer, s: string, rest: string)
    requires x.quote == Single && '\'' !in s
    ensures Lex(x, s + "'" + rest) == Lex(x.(current := x.current + s, quote := Plain), rest)
    decreases |s|
  {
    var all := s + "'" + rest;
    if s == [] {
      assert x.current + [] == x.current;
      LexStep(x, all, x.(quote := Plain), 1, rest);
    } else {
      var y := x.(current := x.current + [s[0]]);
      LexStep(x, all, y, 1, s[1..] + "'" + rest);
      LexSingle(y, s[1..], rest);
      assert y.current + s[1..] == x.current + s;
    }
  }

  lemma {:induction false} LexDouble(x: Lexer, parts: seq<Part>, rest: string)
    requires x.quote == Double && PartsOk(parts)
    ensures Lex(x, PartsText(parts) + "\"" + rest)
      == Lex(x.(current := x.current + PartsValue(parts), quote := Plain), rest)
    decreases |parts|
  {
    hide Lex, Step, Part.Ok, Part.Value, Part.Render;
    if parts == [] {
      assert PartsText(parts) + "\"" + rest == "\"" + rest && ("\"" + rest)[1..] == rest;
      QuoteStep(x, rest);
      LexStep(x, "\"" + rest, x.(quote := Plain), 1, rest);
      assert x.current + [] == x.current;
    } else {
      var p, tail := parts[0], PartsText(parts[1..]) + "\"" + rest;
      assert PartsText(parts) + "\"" + rest == p.Render() + tail;
      var y := x.(current := x.current + p.Value());
      PartStep(x, p, tail);
      assert (p.Render() + tail)[|p.Render()|..] == tail;
      LexStep(x, p.Render() + tail, y, |p.Render()|, tail);
      LexDouble(y, parts[1..], rest);
      assert y.current + PartsValue(parts[1..]) == x.current + PartsValue(parts);
    }
  }

  lemma QuoteStep(x: Lexer, rest: string)
    requires x.quote == Double
    ensures Step(x, "\"" + rest) == Some((x.(quote := Plain), 1))
  {
  }

  lemma PartStep(x: Lexer, p: Part, tail: string)
    requires x.quote == Double && p.Ok()
    ensures p.Render() != "" && Step(x, p.Render() + tail) == Some((x.(current := x.current + p.Value()), |p.Render()|))
  {
  }

  lemma LexPiece(x: Lexer, p: Piece, rest: string)
    requires x.quote == Plain && p.Ok(!x.inToken)
    ensures Lex(x, p.Render() + rest) == Lex(x.Add(p.Value()), rest)
  {
    hide Lex, PartsText, PartsValue, PartsOk;
    var all := p.Render() + rest;
    match p
    case Bare(c) => LexStep(x, all, x.Add([c]), 1, rest);
    case Escaped(c) => LexStep(x, all, x.Add([c]), 2, rest);
    case SingleQuoted(s) => LexSingleQuoted(x, s, rest);
    case DoubleQuoted(parts) => LexDoubleQuoted(x, parts, rest);
  }

  lemma LexSingleQuoted(x: Lexer, s: string, rest: string)
    requires x.quote == Plain && '\'' !in s
    ensures Lex(x, "'" + s + "'" + rest) == Lex(x.Add(s), rest)
  {
    hide Lex;
    var all := "'" + s + "'" + rest;
    var y := x.(quote := Single, inToken := true);
    assert all[1..] == s + "'" + rest;
    LexStep(x, all, y, 1, s + "'" + rest);
    LexSingle(y, s, rest);
  }

  lemma LexDoubleQuoted(x: Lexer, parts: seq<Part>, rest: string)
    requires x.quote == Plain && PartsOk(parts)
    ensures Lex(x, "\"" + PartsText(parts) + "\"" + rest) == Lex(x.Add(PartsValue(parts)), rest)
  {
    hide Lex, PartsText, PartsValue, PartsOk;
    var all := "\"" + PartsText(parts) + "\"" + rest;
    var y := x.(quote := Double, inToken := true);
    assert all[1..] == PartsText(parts) + "\"" + rest;
    LexStep(x, all, y, 1, PartsText(parts) + "\"" + rest);
    LexDouble(y, parts, rest);
  }

  lemma {:induction false} LexPieces(x: Lexer, w: Word, rest: string)
    requires x.quote == Plain
    requires PiecesOk(w, !x.inToken)
    ensures Lex(x, WordText(w) + rest) == Lex(if w == [] then x else x.Add(WordValue(w)), rest)
    decreases |w|
  {
    hide Lex, Piece.Ok, Piece.Render, Piece.Value;
    if w == [] {
      assert WordText(w) + rest == rest;
    } else {
      var tail := WordText(w[1..]) + rest;
      assert WordText(w) + rest == w[0].Render() + tail;
      assert forall i :: 0 <= i < |w[1..]| ==> w[1..][i] == w[i + 1];
      LexPiece(x, w[0], tail);
      var y := x.Add(w[0].Value());
      LexPieces(y, w[1..], rest);
      AddTwice(x, w[0].Value(), WordValue(w[1..]));
      assert w[1..] == [] ==> WordValue(w) == w[0].Value();
    }
  }

  lemma AddTwice(x: Lexer, a: string, b: string)
    ensures x.Add(a).Add(b) == x.Add(a + b)
  {
    assert (x.current + a) + b == x.current + (a + b);
  }

  lemma BlankStep(x: Lexer, c: char, rest: string)
    requires x.quote == Plain && IsBlank(c)
    ensures Step(x, [c] + rest) == Some((x.PushToken(), 1))
  {
  }

  lemma SeparatorStep(x: Lexer, sep: string, rest: string)
    requires x.quote == Plain && SeparatorOk(sep) && (x.tokens != [] || x.inToken)
    requires rest != "" && !IsSeparator(rest[0])
    ensures sep != ""
    ensures var y := x.PushToken();
      Step(x, sep + rest)
      == Some((y.(segments := y.segments + [y.tokens], tokens := [], separators := y.separators + [sep]), |sep|))
  {
    var all := sep + rest;
    assert all[0] == sep[0] && all[1] == (if |sep| > 1 then sep[1] else rest[0]);
  }

  /** Behind a separator comes no separator. */
  lemma StartsPlain(c: Command)
    requires c.Ok(false, false)
    ensures c.Render() != "" && !IsSeparator(c.Render()[0])
  {
    hide WordValue;
    if c.run != [] {
      assert c.run[0].Ok(true);
      assert c.Render()[0] == c.run[0].Render()[0];
    }
  }

  /** The lexer behind the run of a command. */
  function AfterRun(x: Lexer, run: Word): Lexer { if run == [] then x else x.Add(WordValue(run)) }

  function Broken(x: Lexer, sep: string): Lexer {
    x.(segments := x.segments + [x.tokens], tokens := [], separators := x.separators + [sep])
  }

  lemma RunEnds(x: Lexer, run: Word)
    requires !x.inToken && x.current == ""
    ensures AfterRun(x, run).PushToken() == x.(tokens := x.tokens + if run == [] then [] else [WordValue(run)])
  {
    hide WordValue;
    assert x.tokens + [] == x.tokens && x.current + WordValue(run) == WordValue(run);
  }

  lemma LexBlank(x: Lexer, b: char, rest: string)
    requires x.quote == Plain && IsBlank(b)
    ensures Lex(x, [b] + rest) == Lex(x.PushToken(), rest)
  {
    hide Lex, Step, IsBlank;
    BlankStep(x, b, rest);
    assert ([b] + rest)[1..] == rest;
    LexStep(x, [b] + rest, x.PushToken(), 1, rest);
  }

  lemma LexSeparator(x: Lexer, sep: string, rest: string)
    requires x.quote == Plain && SeparatorOk(sep) && (x.tokens != [] || x.inToken)
    requires rest != "" && !IsSeparator(rest[0])
    ensures Lex(x, sep + rest) == Lex(Broken(x.PushToken(), sep), rest)
  {
    hide Lex, Step, SeparatorOk, IsSeparator;
    SeparatorStep(x, sep, rest);
    assert (sep + rest)[|sep|..] == rest;
    LexStep(x, sep + rest, Broken(x.PushToken(), sep), |sep|, rest);
  }

  /** What reading a command from `x` comes to. */
  ghost predicate ReadsAs(x: Lexer, text: string, segments: seq<seq<string>>, separators: seq<string>) {
    Lex(x, text).Some?
    && Finish(Lex(x, text).value) == Ok(Parsed(x.segments + segments, x.separators + separators, x.unmodeled))
    && |segments| == |separators| + 1
  }

  /** The lexer at the start of a run: what it has, and what the command adds. */
  lemma {:induction false} LexCommand(x: Lexer, c: Command)
    requires x.quote == Plain && !x.inToken && x.current == "" && |x.segments| == |x.separators|
    requires c.Ok(false, x.tokens != [])
    ensures ReadsAs(x, c.Render(), [x.tokens + c.Words()] + c.Later(), c.Separators())
    decreases c
  {
    hide Lex, WordText, WordValue, PiecesOk, IsBlank, SeparatorOk, AfterRun, ReadsAs, Finish;
    LexPieces(x, c.run, c.tail.Render());
    var y := AfterRun(x, c.run);
    AfterRunIs(x, c.run);
    RunEnds(x, c.run);
    var z := y.PushToken();
    match c.tail
    case End =>
      EndReads(x, c);
    case Space(b, rest) =>
      LexBlank(y, b, rest.Render());
      LexCommand(z, rest);
      WordsBehindBlank(x.tokens, c);
      SameReading(x, c.Render(), z, rest.Render(), [x.tokens + c.Words()] + c.Later(), c.Separators());
    case Break(sep, rest) =>
      StartsPlain(rest);
      LexSeparator(y, sep, rest.Render());
      LexCommand(Broken(z, sep), rest);
      WordsBehindBreak(x.tokens, c);
      BrokenReading(x, c.Render(), z, sep, rest.Render(), [[] + rest.Words()] + rest.Later(), rest.Separators());
  }

  lemma WordsBehindBlank(tokens: seq<string>, c: Command)
    requires c.tail.Space?
    ensures var word := if c.run == [] then [] else [WordValue(c.run)];
      (tokens + word) + c.tail.rest.Words() == tokens + c.Words()
  {
    hide WordValue;
    var word := if c.run == [] then [] else [WordValue(c.run)];
    assert c.Words() == word + c.tail.rest.Words();
    hide Command.Words;
    assert (tokens + word) + c.tail.rest.Words() == tokens + (word + c.tail.rest.Words());
  }

  lemma WordsBehindBreak(tokens: seq<string>, c: Command)
    requires c.tail.Break?
    ensures var word := if c.run == [] then [] else [WordValue(c.run)];
      [tokens + c.Words()] + c.Later() == [tokens + word] + ([[] + c.tail.rest.Words()] + c.tail.rest.Later())
  {
    hide WordValue;
    assert [] + c.tail.rest.Words() == c.tail.rest.Words();
    assert c.Words() == if c.run == [] then [] else [WordValue(c.run)];
  }

  lemma AfterRunIs(x: Lexer, run: Word)
    ensures AfterRun(x, run) == if run == [] then x else x.Add(WordValue(run))
    ensures AfterRun(x, run).quote == x.quote && AfterRun(x, run).tokens == x.tokens
    ensures AfterRun(x, run).inToken <==> x.inToken || run != []
  {
  }

  lemma EndReads(x: Lexer, c: Command)
    requires x.quote == Plain && !x.inToken && x.current == "" && |x.segments| == |x.separators|
    requires c.tail.End? && (x.tokens != [] || c.run != []) && Lex(x, c.Render()) == Lex(AfterRun(x, c.run), "")
    ensures ReadsAs(x, c.Render(), [x.tokens + c.Words()] + c.Later(), c.Separators())
  {
    hide WordValue, WordText;
    RunEnds(x, c.run);
    LexEnd(AfterRun(x, c.run));
    hide Lex;
    var word := if c.run == [] then [] else [WordValue(c.run)];
    assert c.Words() == word + [] == word;
    var end := AfterRun(x, c.run).PushToken();
    assert end.tokens == x.tokens + word != [];
    assert Finish(AfterRun(x, c.run)) == Ok(Parsed(x.segments + [end.tokens], x.separators, x.unmodeled));
    assert x.segments + ([x.tokens + c.Words()] + []) == x.segments + [x.tokens + c.Words()];
    assert x.separators + [] == x.separators;
  }

  lemma SameReading(x: Lexer, text: string, z: Lexer, rest: string, segments: seq<seq<string>>, separators: seq<string>)
    requires Lex(x, text) == Lex(z, rest) && ReadsAs(z, rest, segments, separators)
    requires z.segments == x.segments && z.separators == x.separators && z.unmodeled == x.unmodeled
    ensures ReadsAs(x, text, segments, separators)
  {
    hide Lex, Finish;
  }

  lemma BrokenReading(x: Lexer, text: string, z: Lexer, sep: string, rest: string, segments: seq<seq<string>>,
          separators: seq<string>)
    requires Lex(x, text) == Lex(Broken(z, sep), rest) && ReadsAs(Broken(z, sep), rest, segments, separators)
    requires z.segments == x.segments && z.separators == x.separators && z.unmodeled == x.unmodeled
    ensures ReadsAs(x, text, [z.tokens] + segments, [sep] + separators)
  {
    hide Lex, Finish;
    assert (z.segments + [z.tokens]) + segments == x.segments + ([z.tokens] + segments);
    assert (z.separators + [sep]) + separators == x.separators + ([sep] + separators);
  }

  /** Lexing undoes quoting: any command of the grammar parses back to exactly its
      segments and separators, with no unmodelled syntax seen. */
  lemma LexingUndoesQuoting(c: Command)
    requires c.Ok(false, false)
    ensures Parse(c.Render()) == Ok(Parsed(c.Segments(), c.Separators(), false))
  {
    hide Lex, Finish;
    LexCommand(START, c);
    assert START.tokens + c.Words() == c.Words();
    assert START.segments + ([START.tokens + c.Words()] + c.Later()) == c.Segments();
    assert START.separators + c.Separators() == c.Separators();
  }

  // ---------------------------------------------------------------- nothing else parses

  /** The lexer comes through with nothing unmodelled. */
  ghost predicate Accepts(x: Lexer, s: string) {
    Lex(x, s).Some? && Finish(Lex(x, s).value).Ok? && !Lex(x, s).value.unmodeled
  }

  lemma {:induction false} UnmodeledStays(x: Lexer, s: string)
    requires x.unmodeled
    ensures !Accepts(x, s)
    decreases |s|
  {
    if s != [] {
      match Step(x, s)
      case None =>
      case Some((y, n)) =>
        assert y.unmodeled;
        hide Step;
        UnmodeledStays(y, s[n..]);
    }
  }

  lemma AcceptsStep(x: Lexer, s: string)
    requires Accepts(x, s) && s != []
    ensures Step(x, s).Some?
    ensures var (y, n) := Step(x, s).value; !y.unmodeled && Accepts(y, s[n..])
  {
    hide Step, Finish;
    var (y, n) := Step(x, s).value;
    if y.unmodeled { UnmodeledStays(y, s[n..]); }
  }

  lemma QuoteLeftOpen(x: Lexer)
    requires x.quote != Plain
    ensures !Accepts(x, "")
  {
  }

  /** The rest of a single-quoted piece. */
  lemma {:induction false} ReadSingle(x: Lexer, s: string) returns (text: string, rest: string)
    requires x.quote == Single && Accepts(x, s)
    ensures '\'' !in text && s == text + "'" + rest
    ensures Accepts(x.(current := x.current + text, quote := Plain), rest)
    decreases |s|
  {
    hide Accepts;
    if s == [] { QuoteLeftOpen(x); }
    AcceptsStep(x, s);
    if s[0] == '\'' {
      text, rest := "", s[1..];
      assert x.current + text == x.current;
    } else {
      var y := x.(current := x.current + [s[0]]);
      var more;
      more, rest := ReadSingle(y, s[1..]);
      text := [s[0]] + more;
      assert y.current + more == x.current + text;
    }
  }

  /** The next part of a double-quoted piece. */
  lemma ReadPart(x: Lexer, s: string) returns (p: Part)
    requires x.quote == Double && Accepts(x, s) && s != [] && s[0] != '"'
    ensures p.Ok() && |p.Render()| <= |s| && p.Render() == s[..|p.Render()|] && p.Render() != ""
    ensures Accepts(x.(current := x.current + p.Value()), s[|p.Render()|..])
  {
    hide Accepts;
    AcceptsStep(x, s);
    p := if s[0] == '\\' then Pair(s[1]) else Char(s[0]);
  }

  lemma {:induction false} ReadDouble(x: Lexer, s: string) returns (parts: seq<Part>, rest: string)
    requires x.quote == Double && Accepts(x, s)
    ensures PartsOk(parts) && s == PartsText(parts) + "\"" + rest
    ensures Accepts(x.(current := x.current + PartsValue(parts), quote := Plain), rest)
    decreases |s|
  {
    hide Accepts, Part.Ok, Part.Value, Part.Render;
    if s == [] { QuoteLeftOpen(x); }
    if s[0] == '"' {
      DoubleCloses(x, s);
      parts, rest := [], s[1..];
      assert x.current + PartsValue(parts) == x.current;
    } else {
      var p := ReadPart(x, s);
      var y := x.(current := x.current + p.Value());
      var more;
      more, rest := ReadDouble(y, s[|p.Render()|..]);
      parts := [p] + more;
      assert y.current + PartsValue(more) == x.current + PartsValue(parts);
      assert s == p.Render() + s[|p.Render()|..];
    }
  }

  lemma DoubleCloses(x: Lexer, s: string)
    requires x.quote == Double && Accepts(x, s) && s != [] && s[0] == '"'
    ensures Accepts(x.(quote := Plain), s[1..])
  {
    hide Accepts;
    AcceptsStep(x, s);
  }

  predicate StartsPiece(c: char) { !IsSeparator(c) && !IsWhitespace(c) }

  /** The next piece of a word. */
  lemma ReadPiece(x: Lexer, s: string) returns (p: Piece, rest: string)
    requires x.quote == Plain && Accepts(x, s) && s != [] && StartsPiece(s[0])
    ensures p.Ok(!x.inToken) && s == p.Render() + rest && |rest| < |s| && Accepts(x.Add(p.Value()), rest)
  {
    hide Accepts, PartsText, PartsValue, PartsOk;
    AcceptsStep(x, s);
    if s[0] == '\'' {
      var text;
      text, rest := ReadSingle(x.(quote := Single, inToken := true), s[1..]);
      p := SingleQuoted(text);
    } else if s[0] == '"' {
      var parts;
      parts, rest := ReadDouble(x.(quote := Double, inToken := true), s[1..]);
      p := DoubleQuoted(parts);
    } else if s[0] == '\\' {
      p, rest := Escaped(s[1]), s[2..];
    } else {
      p, rest := Bare(s[0]), s[1..];
    }
  }

  lemma ReadBlank(x: Lexer, s: string)
    requires x.quote == Plain && Accepts(x, s) && s != [] && !IsSeparator(s[0]) && IsWhitespace(s[0])
    ensures IsBlank(s[0]) && s == [s[0]] + s[1..] && Accepts(x.PushToken(), s[1..])
  {
    hide Accepts;
    AcceptsStep(x, s);
    BlankStep(x, s[0], s[1..]);
    assert s == [s[0]] + s[1..];
  }

  lemma ReadSeparator(x: Lexer, s: string) returns (sep: string, rest: string)
    requires x.quote == Plain && Accepts(x, s) && s != [] && IsSeparator(s[0])
    ensures SeparatorOk(sep) && (x.tokens != [] || x.inToken) && s == sep + rest && sep != ""
    ensures Accepts(Broken(x.PushToken(), sep), rest)
  {
    hide Accepts;
    AcceptsStep(x, s);
    var doubled := (s[0] == '|' || s[0] == '&') && |s| >= 2 && s[1] == s[0];
    sep := if doubled then [s[0], s[0]] else [s[0]];
    rest := s[|sep|..];
    assert s == sep + rest;
  }

  /** A word goes on with one more piece. */
  lemma MorePiece(p: Piece, c: Command, inWord: bool, filled: bool)
    requires p.Ok(!inWord) && c.Ok(true, true)
    ensures Command([p] + c.run, c.tail).Ok(inWord, filled)
    ensures Command([p] + c.run, c.tail).Render() == p.Render() + c.Render()
  {
    hide Piece.Ok, Piece.Render, Piece.Value, IsBlank, SeparatorOk;
    var run := [p] + c.run;
    assert run[1..] == c.run;
    assert forall i :: 0 < i < |run| ==> run[i] == c.run[i - 1];
  }

  /** From any state between pieces, what the lexer accepts is spelled by a command. */
  lemma {:induction false} ReadCommand(x: Lexer, s: string) returns (c: Command)
    requires x.quote == Plain && |x.segments| == |x.separators| && Accepts(x, s)
    ensures c.Ok(x.inToken, x.tokens != [] || x.inToken) && c.Render() == s
    decreases |s|
  {
    hide Accepts, Piece.Ok, Piece.Render, Piece.Value, IsBlank, SeparatorOk, IsSeparator, IsWhitespace, Lex, Step;
    if s == [] {
      EndAccepted(x);
      c := Command([], End);
    } else if StartsPiece(s[0]) {
      var p, rest := ReadPiece(x, s);
      var more := ReadCommand(x.Add(p.Value()), rest);
      MorePiece(p, more, x.inToken, x.tokens != [] || x.inToken);
      c := Command([p] + more.run, more.tail);
    } else if IsSeparator(s[0]) {
      var sep, rest := ReadSeparator(x, s);
      var more := ReadCommand(Broken(x.PushToken(), sep), rest);
      c := Command([], Break(sep, more));
    } else {
      ReadBlank(x, s);
      var more := ReadCommand(x.PushToken(), s[1..]);
      c := Command([], Space(s[0], more));
    }
  }

  lemma EndAccepted(x: Lexer)
    requires x.quote == Plain && |x.segments| == |x.separators| && Accepts(x, "")
    ensures x.tokens != [] || x.inToken
  {
  }

  /** A text of the grammar, and what it says. */
  predicate Spells(c: Command, command: string, p: Parsed) {
    c.Ok(false, false) && c.Render() == command && p == Parsed(c.Segments(), c.Separators(), false)
  }

  /** The lexer reads exactly the grammar: it parses a line with nothing unmodelled if and
      only if the line is a command of the grammar, and then to its words and separators. */
  lemma ReadsExactlyTheGrammar(command: string, p: Parsed)
    ensures Parse(command) == Ok(p) && !p.unmodeled <==> exists c :: Spells(c, command, p)
  {
    hide Lex, Finish, Command.Ok, Command.Render, Command.Segments, Command.Separators;
    if Parse(command) == Ok(p) && !p.unmodeled {
      FinishKeepsFlag(Lex(START, command).value);
      var c := ReadCommand(START, command);
      LexingUndoesQuoting(c);
      assert Spells(c, command, p);
    }
    if exists c :: Spells(c, command, p) {
      var c :| Spells(c, command, p);
      LexingUndoesQuoting(c);
    }
  }

  lemma FinishKeepsFlag(x: Lexer)
    ensures Finish(x).Ok? ==> Finish(x).value.unmodeled == x.unmodeled
  {
  }

  // ---------------------------------------------------------------- arbitrary tokens

  /** Text in double quotes, with a backslash where one is needed. */
  function PartsOf(s: string): seq<Part> {
    if s == [] then [] else [if EscapesInDouble(s[0]) then Pair(s[0]) else Char(s[0])] + PartsOf(s[1..])
  }

  lemma {:induction false} PartsOfSpell(s: string)
    ensures PartsOk(PartsOf(s)) && PartsValue(PartsOf(s)) == s
  {
    if s != "" {
      hide Part.Ok, Part.Value;
      PartsOfSpell(s[1..]);
      var first, more := if EscapesInDouble(s[0]) then Pair(s[0]) else Char(s[0]), PartsOf(s[1..]);
      OnePartSpells(s[0]);
      assert PartsOf(s) == [first] + more && ([first] + more)[1..] == more;
      assert PartsValue([first] + more) == first.Value() + PartsValue(more);
      assert [s[0]] + s[1..] == s;
    }
  }

  lemma OnePartSpells(c: char)
    ensures var p := if EscapesInDouble(c) then Pair(c) else Char(c); p.Ok() && p.Value() == [c]
  {
  }

  /** One token in single quotes when it has none inside, otherwise in double quotes. */
  function Quote(token: string): Piece {
    if '\'' in token then DoubleQuoted(PartsOf(token)) else SingleQuoted(token)
  }

  /** The tokens in quotes, a space between them. */
  function QuoteAll(tokens: seq<string>, tail: Tail): Command
    requires tokens != []
  {
    Command([Quote(tokens[0])], if |tokens| == 1 then tail else Space(' ', QuoteAll(tokens[1..], tail)))
  }

  function Conjoin(segments: seq<seq<string>>): Command
    requires segments != [] && forall i :: 0 <= i < |segments| ==> segments[i] != []
  {
    QuoteAll(segments[0], if |segments| == 1 then End else Break("&&", Conjoin(segments[1..])))
  }

  lemma QuotedToken(token: string, tail: Tail, inWord: bool, filled: bool)
    requires tail.End? || (tail.Space? && IsBlank(tail.c) && tail.rest.Ok(false, true))
          || (tail.Break? && SeparatorOk(tail.sep) && tail.rest.Ok(false, false))
    ensures Command([Quote(token)], tail).Ok(inWord, filled)
    ensures WordValue([Quote(token)]) == token
  {
    hide PartsOk, PartsValue, PartsOf, IsBlank, SeparatorOk;
    PartsOfSpell(token);
    var w := [Quote(token)];
    assert w[0].Value() + WordValue(w[1..]) == token;
  }

  lemma {:induction false} QuotedTokens(tokens: seq<string>, tail: Tail, filled: bool)
    requires tokens != [] && (tail.End? || (tail.Break? && SeparatorOk(tail.sep) && tail.rest.Ok(false, false)))
    ensures var c := QuoteAll(tokens, tail);
      && c.Ok(false, filled) && c.Words() == tokens
      && c.Later() == (if tail.End? then [] else tail.rest.Segments())
      && c.Separators() == (if tail.End? then [] else [tail.sep] + tail.rest.Separators())
    decreases |tokens|
  {
    hide Quote, WordValue, PiecesOk, SeparatorOk;
    if |tokens| == 1 {
      QuotedToken(tokens[0], tail, false, filled);
    } else {
      QuotedTokens(tokens[1..], tail, true);
      QuotedToken(tokens[0], Space(' ', QuoteAll(tokens[1..], tail)), false, filled);
      assert tokens == [tokens[0]] + tokens[1..];
    }
  }

  /** For any non-empty list of non-empty segments of arbitrary strings, quoting every
      token and joining with `&&` parses back to exactly those segments. */
  lemma {:induction false} AnyTokensRoundTrip(segments: seq<seq<string>>)
    requires segments != [] && forall i :: 0 <= i < |segments| ==> segments[i] != []
    ensures Conjoin(segments).Ok(false, false) && Conjoin(segments).Segments() == segments
    ensures Conjoin(segments).Separators() == seq(|segments| - 1, _ => "&&")
    ensures Parse(Conjoin(segments).Render()) == Ok(Parsed(segments, seq(|segments| - 1, _ => "&&"), false))
    decreases |segments|
  {
    hide Parse, Command.Render, QuoteAll;
    if |segments| == 1 {
      QuotedTokens(segments[0], End, false);
      assert segments == [segments[0]];
    } else {
      AnyTokensRoundTrip(segments[1..]);
      QuotedTokens(segments[0], Break("&&", Conjoin(segments[1..])), false);
      assert segments == [segments[0]] + segments[1..];
    }
    LexingUndoesQuoting(Conjoin(segments));
  }

  // ---------------------------------------------------------------- shape of every parse

  predicate Shaped(x: Lexer) {
    && |x.segments| == |x.separators|
    && (forall i :: 0 <= i < |x.segments| ==> x.segments[i] != [])
    && (forall i :: 0 <= i < |x.separators| ==> SeparatorOk(x.separators[i]))
  }

  lemma {:induction false} LexKeepsShape(x: Lexer, s: string)
    requires Shaped(x)
    ensures Lex(x, s).Some? ==> Shaped(Lex(x, s).value)
    decreases |s|
  {
    if s != [] {
      match Step(x, s)
      case None =>
      case Some((y, n)) =>
        assert x.quote.Plain? && IsSeparator(s[0]) ==> SeparatorOk([s[0]]);
        assert Shaped(y);
        LexKeepsShape(y, s[n..]);
    }
  }

  /** Whatever the command line, a successful parse has one segment more than separators,
      no empty segment, and only the six separators. */
  lemma ParseShape(command: string)
    requires Parse(command).Ok?
    ensures var p := Parse(command).value;
      && |p.segments| == |p.separators| + 1
      && (forall i :: 0 <= i < |p.segments| ==> p.segments[i] != [])
      && (forall i :: 0 <= i < |p.separators| ==> SeparatorOk(p.separators[i]))
  {
    LexKeepsShape(START, command);
  }
}
