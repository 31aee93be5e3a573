/** The shell lexer of src/git_evidence.rs: a command line becomes segments of words and
    the separators between them, with a flag for syntax the recogniser does not model. */
module ShellLexer {
  import opened Wrappers
  import opened Text

  datatype Quote = Plain | Single | Double

  datatype Lexer = Lexer(
    segments: seq<seq<string>>,
    separators: seq<string>,
    unmodeled: bool,
    tokens: seq<string>,
    current: string,
    quote: Quote,
    inToken: bool)
  {
    function PushToken(): Lexer {
      if inToken then this.(tokens := tokens + [current], current := "", inToken := false) else this
    }

    function Add(text: string): Lexer { this.(current := current + text, inToken := true) }
  }

  const START := Lexer([], [], false, [], "", Plain, false)

  datatype Parsed = Parsed(segments: seq<seq<string>>, separators: seq<string>, unmodeled: bool)

  predicate IsSeparator(c: char) { c in ";|&\n" }

  predicate IsUnmodeledChar(c: char) { c in "$`<>*?[]{}()" }

  predicate EscapesInDouble(c: char) { c in "$`\"\\" }

  /** One turn of the loop: the state after it and how many characters it took; None is
      an error. */
  function Step(x: Lexer, s: string): (r: Option<(Lexer, nat)>)
    requires s != []
    ensures r.Some? ==> 1 <= r.value.1 <= 2 && r.value.1 <= |s|
  {
    var ch := s[0];
    match x.quote
    case Plain =>
      if ch == '\'' then Some((x.(quote := Single, inToken := true), 1))
      else if ch == '"' then Some((x.(quote := Double, inToken := true), 1))
      else if ch == '\\' then
        if |s| < 2 then None
        else if s[1] == '\n' || s[1] == '\r' then Some((x.(unmodeled := true, inToken := true), 2))
        else Some((x.Add([s[1]]), 2))
      else if IsUnmodeledChar(ch) || (ch == '#' && !x.inToken) then
        Some((x.(unmodeled := true).Add([ch]), 1))
      else if IsSeparator(ch) then
        var y := x.PushToken();
        if y.tokens == [] then None
        else
          var doubled := (ch == '|' || ch == '&') && |s| >= 2 && s[1] == ch;
          Some((y.(segments := y.segments + [y.tokens], tokens := [],
                   separators := y.separators + [if doubled then [ch, ch] else [ch]]),
                if doubled then 2 else 1))
      else if IsWhitespace(ch) then Some((x.PushToken(), 1))
      else Some((x.Add([ch]), 1))
    case Single =>
      if ch == '\'' then Some((x.(quote := Plain), 1)) else Some((x.(current := x.current + [ch]), 1))
    case Double =>
      if ch == '"' then Some((x.(quote := Plain), 1))
      else if ch == '\\' then
        if |s| < 2 then None
        else if s[1] == '\n' || s[1] == '\r' then Some((x.(unmodeled := true), 2))
        else if EscapesInDouble(s[1]) then Some((x.(current := x.current + [s[1]]), 2))
        else Some((x.(current := x.current + ['\\', s[1]]), 2))
      else if ch == '$' || ch == '`' then
        Some((x.(unmodeled := true, current := x.current + [ch]), 1))
      else Some((x.(current := x.current + [ch]), 1))
  }

  function Lex(x: Lexer, s: string): Option<Lexer>
    decreases |s|
  {
    if s == [] then Some(x)
    else
      match Step(x, s)
      case None => None
      case Some((y, n)) => Lex(y, s[n..])
  }

  function Finish(x: Lexer): Result<Parsed> {
    if x.quote != Plain then Err
    else
      var y := x.PushToken();
      var segments := if y.tokens == [] then y.segments else y.segments + [y.tokens];
      if segments == [] || |y.separators| + 1 != |segments| then Err
      else Ok(Parsed(segments, y.separators, y.unmodeled))
  }

  function Parse(command: string): Result<Parsed> {
    match Lex(START, command)
    case None => Err
    case Some(x) => Finish(x)
  }

  /** `parse_shell_command`, with its cursor and buffers. */
  method ParseShellCommand(command: string) returns (r: Result<Parsed>)
    ensures r == Parse(command)
  {
    var segments: seq<seq<string>>, separators: seq<string>, unmodeled := [], [], false;
    var tokens: seq<string>, current: string, quote, inToken := [], "", Plain, false;
    var i := 0;
    assert command[0..] == command;
    while i < |command|
      invariant 0 <= i <= |command|
      invariant Lex(START, command)
        == Lex(Lexer(segments, separators, unmodeled, tokens, current, quote, inToken), command[i..])
      decreases |command| - i
    {
      ghost var rest := command[i..];
      ghost var x := Lexer(segments, separators, unmodeled, tokens, current, quote, inToken);
      var ch := command[i];
      var hasNext := i + 1 < |command|;
      var width := 1;
      assert rest[0] == ch && (|rest| >= 2 <==> hasNext) && (hasNext ==> rest[1] == command[i + 1]);
      match quote {
      case Plain =>
        if ch == '\'' {
          quote, inToken := Single, true;
        } else if ch == '"' {
          quote, inToken := Double, true;
        } else if ch == '\\' {
          inToken := true;
          if !hasNext { return Err; }
          width := 2;
          if command[i + 1] == '\n' || command[i + 1] == '\r' {
            unmodeled := true;
          } else {
            current := current + [command[i + 1]];
          }
        } else if IsUnmodeledChar(ch) || (ch == '#' && !inToken) {
          unmodeled, current, inToken := true, current + [ch], true;
        } else if IsSeparator(ch) {
          if inToken { tokens, current, inToken := tokens + [current], "", false; }
          if tokens == [] { return Err; }
          segments, tokens := segments + [tokens], [];
          var separator := [ch];
          if (ch == '|' || ch == '&') && hasNext && command[i + 1] == ch {
            separator := [ch, ch];
            width := 2;
          }
          separators := separators + [separator];
        } else if IsWhitespace(ch) {
          if inToken { tokens, current, inToken := tokens + [current], "", false; }
        } else {
          current, inToken := current + [ch], true;
        }
      case Single =>
        if ch == '\'' { quote := Plain; } else { current := current + [ch]; }
      case Double =>
        if ch == '"' {
          quote := Plain;
        } else if ch == '\\' {
          if !hasNext { return Err; }
          width := 2;
          var next := command[i + 1];
          if next == '\n' || next == '\r' {
            unmodeled := true;
          } else if EscapesInDouble(next) {
            current := current + [next];
          } else {
            current := current + ['\\', next];
          }
        } else if ch == '$' || ch == '`' {
          unmodeled, current := true, current + [ch];
        } else {
          current := current + [ch];
        }
      }
      assert Step(x, rest)
        == Some((Lexer(segments, separators, unmodeled, tokens, current, quote, inToken), width));
      assert 1 <= width <= |command| - i && rest[width..] == command[i + width..];
      i := i + width;
    }
    if quote != Plain { return Err; }
    if inToken { tokens := tokens + [current]; }
    if tokens != [] { segments := segments + [tokens]; }
    if segments == [] || |separators| + 1 != |segments| { return Err; }
    return Ok(Parsed(segments, separators, unmodeled));
  }
}
