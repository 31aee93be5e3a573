/** Reading the commit out of what `git commit` printed (src/git_evidence.rs): the lines that
    begin with a bracket naming a branch and a SHA. */
module CommitCandidate {
  import opened Wrappers
  import opened Text

  predicate IsHex(c: char) { '0' <= c <= '9' || 'a' <= c <= 'f' || 'A' <= c <= 'F' }

  predicate IsSha(s: string) { 7 <= |s| <= 64 && forall i :: 0 <= i < |s| ==> IsHex(s[i]) }

  predicate IsBlank(c: char) { c == ' ' || c == '\t' }

  /** Index of the last blank, or -1. */
  function LastBlank(s: string): (i: int)
    ensures -1 <= i < |s| && (i >= 0 ==> IsBlank(s[i])) && forall j :: i < j < |s| ==> !IsBlank(s[j])
  {
    if s == "" then -1 else if IsBlank(s[|s| - 1]) then |s| - 1 else LastBlank(s[..|s| - 1])
  }

  /** The SHA a line announces: `[branch sha]` in front, and no carriage return anywhere. */
  function ShaOf(line: string): Option<string> {
    var close := FirstIndex(line, ']');
    if line == "" || line[0] != '[' || close == |line| || '\r' in line then None else ShaInside(line[1..close])
  }

  function ShaInside(inside: string): Option<string> {
    var i := LastBlank(inside);
    if i >= 0 && IsSha(inside[i + 1..]) then Some(AsciiLower(inside[i + 1..])) else None
  }

  function ShasOf(lines: seq<string>): seq<string> {
    if lines == [] then []
    else (if ShaOf(lines[0]).Some? then [ShaOf(lines[0]).value] else []) + ShasOf(lines[1..])
  }

  /** `commit_candidate_from_output`: the one SHA announced, in lower case; none and several
      alike give nothing. */
  function Candidate(output: string): Option<string> {
    var shas := ShasOf(Split(output, '\n'));
    if shas != [] && forall i :: 0 <= i < |shas| ==> shas[i] == shas[0] then Some(shas[0]) else None
  }

  // ---------------------------------------------------------------- what is announced

  /** Inside the bracket: something, a space or a tab, and 7 to 64 hex digits. */
  ghost predicate Names(inside: string, sha: string) {
    exists head: string, blank: char, raw: string :: NamesAt(inside, head, blank, raw) && sha == AsciiLower(raw)
  }

  predicate NamesAt(inside: string, head: string, blank: char, raw: string) {
    && inside == head + [blank] + raw && blank in " \t" && 7 <= |raw| <= 64
    && forall i :: 0 <= i < |raw| ==> '0' <= raw[i] <= '9' || 'a' <= raw[i] <= 'f' || 'A' <= raw[i] <= 'F'
  }

  /** The line is a bracket with something, a blank and a SHA in it, and anything behind. */
  ghost predicate AnnouncesIn(line: string, sha: string) {
    exists inside: string, rest: string ::
      line == "[" + inside + "]" + rest && ']' !in inside && '\r' !in inside + rest && Names(inside, sha)
  }

  /** Somewhere in the output such a line stands between line feeds or its ends. */
  ghost predicate Announces(output: string, sha: string) {
    exists before: string, line: string, behind: string ::
      && output == before + line + behind && '\n' !in line && AnnouncesIn(line, sha)
      && (before != "" ==> before[|before| - 1] == '\n') && (behind != "" ==> behind[0] == '\n')
  }

  lemma InsideExactly(inside: string, sha: string)
    ensures ShaInside(inside) == Some(sha) <==> Names(inside, sha)
  {
    hide LastBlank, AsciiLower;
    var i := LastBlank(inside);
    if i >= 0 && IsSha(inside[i + 1..]) {
      assert inside == inside[..i] + [inside[i]] + inside[i + 1..];
      assert NamesAt(inside, inside[..i], inside[i], inside[i + 1..]);
    }
    forall head: string, blank: char, raw: string | NamesAt(inside, head, blank, raw)
      ensures i == |head| && inside[i + 1..] == raw && IsSha(raw)
    {
      BlankIsLast(head, blank, raw);
    }
  }

  lemma BlankIsLast(head: string, blank: char, raw: string)
    requires IsBlank(blank) && IsSha(raw)
    ensures var s := head + [blank] + raw; LastBlank(s) == |head| && s[|head| + 1..] == raw
  {
    hide LastBlank;
    var s := head + [blank] + raw;
    assert s[|head|] == blank;
    assert forall j :: |head| < j < |s| ==> s[j] == raw[j - |head| - 1];
  }

  lemma BracketIs(line: string, inside: string, rest: string)
    requires line == "[" + inside + "]" + rest && ']' !in inside
    ensures FirstIndex(line, ']') == |inside| + 1 && line[1..|inside| + 1] == inside && line[0] == '['
    ensures '\r' in line <==> '\r' in inside + rest
  {
    hide FirstIndex;
    assert line[|inside| + 1] == ']' && forall i :: 1 <= i <= |inside| ==> line[i] == inside[i - 1];
  }

  lemma BracketFound(line: string)
    requires line != "" && line[0] == '[' && FirstIndex(line, ']') < |line|
    ensures var close := FirstIndex(line, ']');
      line == "[" + line[1..close] + "]" + line[close + 1..] && ']' !in line[1..close]
  {
    hide FirstIndex;
    CutBrackets(line, FirstIndex(line, ']'));
  }

  lemma CutBrackets(line: string, close: nat)
    requires 0 < close < |line| && line[0] == '[' && line[close] == ']' && forall j :: 0 <= j < close ==> line[j] != ']'
    ensures line == "[" + line[1..close] + "]" + line[close + 1..] && ']' !in line[1..close]
  {
  }

  lemma ShaExactly(line: string, sha: string)
    ensures ShaOf(line) == Some(sha) <==> AnnouncesIn(line, sha)
  {
    hide FirstIndex, ShaInside, Names;
    if ShaOf(line).Some? {
      BracketFound(line);
      var close := FirstIndex(line, ']');
      BracketIs(line, line[1..close], line[close + 1..]);
      InsideExactly(line[1..close], ShaOf(line).value);
    }
    forall inside: string, rest: string
      | line == "[" + inside + "]" + rest && ']' !in inside && '\r' !in inside + rest && Names(inside, sha)
      ensures ShaOf(line) == Some(sha)
    {
      BracketIs(line, inside, rest);
      InsideExactly(inside, sha);
    }
  }

  lemma {:induction false} ShasAre(lines: seq<string>, sha: string)
    ensures sha in ShasOf(lines) <==> exists line :: line in lines && ShaOf(line) == Some(sha)
  {
    hide ShaOf;
    if lines != [] {
      ShasAre(lines[1..], sha);
      assert lines == [lines[0]] + lines[1..];
    }
  }

  lemma AnnouncedExactly(output: string, sha: string)
    ensures sha in ShasOf(Split(output, '\n')) <==> Announces(output, sha)
  {
    hide Split, ShasOf, ShaOf, AnnouncesIn;
    ShasAre(Split(output, '\n'), sha);
    forall line ensures ShaOf(line) == Some(sha) <==> AnnouncesIn(line, sha) { ShaExactly(line, sha); }
    forall line ensures line in Split(output, '\n') <==> IsPart(output, '\n', line) {
      SplitExactly(output, '\n', line);
    }
    if Announces(output, sha) {
      var before: string, line: string, behind: string :|
        && output == before + line + behind && '\n' !in line && AnnouncesIn(line, sha)
        && (before != "" ==> before[|before| - 1] == '\n') && (behind != "" ==> behind[0] == '\n');
      assert IsPiece(output, '\n', before, line, behind);
    }
  }

  /** The candidate is the one SHA that the output announces: if it announces none, or two
      that differ, there is no candidate. */
  lemma CandidateExactly(output: string, sha: string)
    ensures Candidate(output) == Some(sha)
      <==> Announces(output, sha) && forall other :: Announces(output, other) ==> other == sha
  {
    hide Announces, Split, ShasOf;
    var shas := ShasOf(Split(output, '\n'));
    forall other ensures other in shas <==> Announces(output, other) { AnnouncedExactly(output, other); }
    if Candidate(output) == Some(sha) {
      assert shas[0] in shas;
      forall other | other in shas ensures other == sha {
        var i :| 0 <= i < |shas| && shas[i] == other;
      }
    } else if sha in shas {
      var i :| 0 <= i < |shas| && shas[i] != shas[0];
      assert shas[i] in shas && shas[0] in shas;
    }
  }
}
