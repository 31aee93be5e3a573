/** The inline scanner of src/adapter/redaction.rs: it finds `key=value` and `key: value`
    with a sensitive key anywhere in a text and blanks the values. Positions count
    characters. */
module InlineRedaction {
  import opened Wrappers
  import opened Text
  import opened SensitiveKeys

  predicate IsAssign(c: char) { c == '=' || c == ':' }

  /** The first `=` or `:` at or behind `cursor`, or the end of the text. */
  function NextSeparator(line: string, cursor: nat): (p: nat)
    requires cursor <= |line|
    ensures cursor <= p <= |line| && (p < |line| ==> IsAssign(line[p]))
    ensures forall i :: cursor <= i < p ==> !IsAssign(line[i])
    decreases |line| - cursor
  {
    if cursor == |line| || IsAssign(line[cursor]) then cursor else NextSeparator(line, cursor + 1)
  }

  predicate IsQuoteOrSpace(c: char) { IsAsciiSpace(c) || c == '"' || c == '\'' || c == '`' }

  /** Walking left from `end` over characters of a kind. */
  function BackOver(line: string, end: nat, kind: char -> bool): (k: nat)
    requires end <= |line|
    ensures k <= end && (forall i :: k <= i < end ==> kind(line[i])) && (k > 0 ==> !kind(line[k - 1]))
  {
    if end == 0 || !kind(line[end - 1]) then end else BackOver(line, end - 1, kind)
  }

  /** Quotes and spaces in front of a separator do not belong to its key. */
  function KeyEnd(line: string, separator: nat): (k: nat)
    requires separator <= |line|
    ensures k <= separator && (forall i :: k <= i < separator ==> IsQuoteOrSpace(line[i]))
    ensures k > 0 ==> !IsQuoteOrSpace(line[k - 1])
  {
    BackOver(line, separator, c => IsQuoteOrSpace(c))
  }

  function WordStart(line: string, end: nat): (k: nat)
    requires end <= |line|
    ensures k <= end && (forall i :: k <= i < end ==> IsKeyChar(line[i])) && (k > 0 ==> !IsKeyChar(line[k - 1]))
  {
    BackOver(line, end, c => IsKeyChar(c))
  }

  /** `assignment_key_start`: the key in front of a separator, quotes and spaces between
      them skipped. */
  function KeyStart(line: string, separator: nat): (start: Option<nat>)
    requires separator <= |line|
    ensures start.Some? ==> start.value < separator
  {
    var end := KeyEnd(line, separator);
    var start := WordStart(line, end);
    if start < end then Some(start) else None
  }

  method FindKeyStart(line: string, separator: nat) returns (start: Option<nat>)
    requires separator <= |line|
    ensures start == KeyStart(line, separator)
  {
    var end: nat := separator;
    while end > 0 && IsQuoteOrSpace(line[end - 1])
      invariant end <= separator
      invariant KeyEnd(line, end) == KeyEnd(line, separator)
    {
      end := end - 1;
    }
    var first: nat := end;
    while first > 0 && IsKeyChar(line[first - 1])
      invariant first <= end
      invariant WordStart(line, first) == WordStart(line, end)
    {
      first := first - 1;
    }
    return if first < end then Some(first) else None;
  }

  function Key(line: string, separator: nat): string
    requires separator <= |line| && KeyStart(line, separator).Some?
  {
    line[KeyStart(line, separator).value..separator]
  }

  /** The separator stands behind a sensitive key. */
  predicate SensitiveAt(line: string, p: nat): (sensitive: bool)
    requires p <= |line|
    ensures sensitive ==> KeyStart(line, p).Some?
  {
    KeyStart(line, p).Some? && (IsSensitiveKey(Key(line, p)) || IsSensitiveOption(Key(line, p)))
  }

  /** The first position at or behind `from` whose character stops the value. */
  function FirstStop(line: string, from: nat, stop: char -> bool): (e: nat)
    requires from <= |line|
    ensures from <= e <= |line| && (e < |line| ==> stop(line[e])) && forall i :: from <= i < e ==> !stop(line[i])
    decreases |line| - from
  {
    if from == |line| || stop(line[from]) then from else FirstStop(line, from + 1, stop)
  }

  function SkipSpace(line: string, from: nat): (e: nat)
    requires from <= |line|
    ensures from <= e <= |line| && forall i :: from <= i < e ==> IsAsciiSpace(line[i])
    ensures e < |line| ==> !IsAsciiSpace(line[e])
  {
    FirstStop(line, from, c => !IsAsciiSpace(c))
  }

  predicate EndsBare(c: char) { IsAsciiSpace(c) || c in ",;}]&" }

  predicate IsBearer(word: string) { AsciiLower(word) == "bearer" }

  function WordEnd(line: string, start: nat): (e: nat)
    requires start <= |line|
    ensures start <= e <= |line| && (forall i :: start <= i < e ==> !EndsBare(line[i]))
    ensures e < |line| ==> EndsBare(line[e])
  {
    FirstStop(line, start, c => EndsBare(c))
  }

  /** An unquoted value: one word, or two when the first is `bearer`. */
  function BareEnd(line: string, start: nat): (e: nat)
    requires start <= |line|
    ensures start <= e <= |line| && (e < |line| ==> EndsBare(line[e]))
  {
    var first := WordEnd(line, start);
    if !IsBearer(line[start..first]) then first else WordEnd(line, SkipSpace(line, first))
  }

  predicate EndsHeader(c: char) { c in "\"'`\r\n" }

  function HeaderEnd(line: string, start: nat): (e: nat)
    requires start <= |line|
    ensures start <= e <= |line| && (forall i :: start <= i < e ==> !EndsHeader(line[i]))
    ensures e < |line| ==> EndsHeader(line[e])
  {
    FirstStop(line, start, c => EndsHeader(c))
  }

  /** A quoted value: up to the first quote that no odd run of backslashes precedes. */
  function QuotedEnd(line: string, from: nat, quote: char, escaped: bool): (e: nat)
    requires from <= |line|
    ensures from <= e <= |line| && (e < |line| ==> line[e] == quote)
    decreases |line| - from
  {
    if from == |line| then from
    else if line[from] == quote && !escaped then from
    else QuotedEnd(line, from + 1, quote, line[from] == '\\' && !escaped)
  }

  method FindQuotedEnd(line: string, start: nat, quote: char) returns (e: nat)
    requires start <= |line| && quote != '\\'
    ensures e == QuotedEnd(line, start, quote, false)
  {
    var escaped := false;
    e := start;
    while e < |line|
      invariant start <= e <= |line|
      invariant QuotedEnd(line, start, quote, false) == QuotedEnd(line, e, quote, escaped)
    {
      if line[e] == quote && !escaped { return; }
      escaped := line[e] == '\\' && !escaped;
      if line[e] != '\\' { escaped := false; }
      e := e + 1;
    }
  }

  predicate Quoted(line: string, p: nat)
    requires p < |line|
  {
    var start := SkipSpace(line, p + 1);
    start < |line| && (line[start] == '"' || line[start] == '\'')
  }

  /** `sensitive_assignment_value_bounds`: where the value starts and ends. */
  function ValueSpan(line: string, p: nat): (s: (nat, nat))
    requires p < |line| && KeyStart(line, p).Some?
    ensures p < s.0 <= s.1 <= |line|
    ensures forall i :: p < i < s.0 ==> !IsAssign(line[i])
  {
    var start := SkipSpace(line, p + 1);
    if Quoted(line, p) then (start + 1, QuotedEnd(line, start + 1, line[start], false))
    else if OwnsLine(Key(line, p), line[p]) then (start, HeaderEnd(line, start))
    else (start, BareEnd(line, start))
  }

  /** The values blanked from `cursor` on. */
  function Spans(line: string, cursor: nat): seq<(nat, nat)>
    requires cursor <= |line|
    decreases |line| - cursor
  {
    var p := NextSeparator(line, cursor);
    if p == |line| then []
    else if !SensitiveAt(line, p) then Spans(line, p + 1)
    else [ValueSpan(line, p)] + Spans(line, ValueSpan(line, p).1)
  }

  predicate Ordered(spans: seq<(nat, nat)>, from: nat, to: nat) {
    && (forall i :: 0 <= i < |spans| ==> from <= spans[i].0 <= spans[i].1 <= to)
    && (forall i, j :: 0 <= i < j < |spans| ==> spans[i].1 < spans[j].0)
  }

  lemma OrderedTail(spans: seq<(nat, nat)>, from: nat, to: nat)
    requires spans != [] && Ordered(spans, from, to)
    ensures Ordered(spans[1..], spans[0].1, to)
  {
    forall i | 0 <= i < |spans[1..]| ensures spans[0].1 <= spans[1..][i].0 <= spans[1..][i].1 <= to {
      assert spans[1..][i] == spans[i + 1];
    }
  }

  /** `line[from..]` with the spans replaced by the mark. */
  function Splice(line: string, from: nat, spans: seq<(nat, nat)>): string
    requires from <= |line| && Ordered(spans, from, |line|)
    decreases |spans|
  {
    if spans == [] then line[from..]
    else
      OrderedTail(spans, from, |line|);
      line[from..spans[0].0] + MARK + Splice(line, spans[0].1, spans[1..])
  }

  /** The spans come in order and do not touch a separator twice. */
  lemma {:induction false} SpansOrdered(line: string, cursor: nat)
    requires cursor <= |line|
    ensures Ordered(Spans(line, cursor), cursor, |line|)
    ensures forall i :: 0 <= i < |Spans(line, cursor)| ==> cursor < Spans(line, cursor)[i].0
    decreases |line| - cursor
  {
    hide SensitiveAt, ValueSpan, KeyStart, NextSeparator;
    var p := NextSeparator(line, cursor);
    if p < |line| {
      if SensitiveAt(line, p) { SpansOrdered(line, ValueSpan(line, p).1); } else { SpansOrdered(line, p + 1); }
    }
  }

  function RedactInline(line: string): string {
    SpansOrdered(line, 0);
    Splice(line, 0, Spans(line, 0))
  }

  method CheckKey(line: string, p: nat) returns (sensitive: bool)
    requires p <= |line|
    ensures sensitive == SensitiveAt(line, p)
  {
    var start := FindKeyStart(line, p);
    sensitive := start.Some? && (IsSensitiveKey(line[start.value..p]) || IsSensitiveOption(line[start.value..p]));
  }

  /** What the next separator means for the spans. */
  lemma SpansStep(line: string, cursor: nat)
    requires cursor <= |line|
    ensures var p := NextSeparator(line, cursor);
      && (p == |line| ==> Spans(line, cursor) == [])
      && (p < |line| && !SensitiveAt(line, p) ==> Spans(line, cursor) == Spans(line, p + 1))
      && (p < |line| && SensitiveAt(line, p) ==>
            Spans(line, cursor) != [] && Spans(line, cursor)[0] == ValueSpan(line, p)
            && Spans(line, cursor)[1..] == Spans(line, ValueSpan(line, p).1))
  {
    hide SensitiveAt, ValueSpan, KeyStart, NextSeparator;
  }

  /** One span blanked: what is written, and what is left to write. */
  lemma SpliceStep(line: string, from: nat, spans: seq<(nat, nat)>, p: nat)
    requires from <= |line| && Ordered(spans, from, |line|) && spans != [] && from <= p < spans[0].0
    ensures Ordered(spans[1..], spans[0].1, |line|)
    ensures Splice(line, from, spans)
         == line[from..p + 1] + line[p + 1..spans[0].0] + MARK + Splice(line, spans[0].1, spans[1..])
  {
    OrderedTail(spans, from, |line|);
    assert line[from..spans[0].0] == line[from..p + 1] + line[p + 1..spans[0].0];
  }

  lemma SpliceNothing(line: string, from: nat)
    requires from <= |line|
    ensures Ordered([], from, |line|) && Splice(line, from, []) == line[from..]
  {
  }

  lemma Regroup(done: string, a: string, b: string, c: string, rest: string)
    ensures done + (a + b + c + rest) == done + a + b + c + rest
  {
  }

  /** `redact_inline_sensitive_assignments`, with its two cursors. */
  method RedactAssignments(line: string) returns (output: string)
    ensures output == RedactInline(line)
  {
    hide SensitiveAt, ValueSpan, KeyStart, NextSeparator, Spans, Splice, Ordered, RedactInline;
    output := "";
    var scan, out := 0, 0;
    RedactInlineIs(line);
    while true
      invariant out <= scan <= |line|
      invariant Ordered(Spans(line, scan), out, |line|)
      invariant output + Splice(line, out, Spans(line, scan)) == RedactInline(line)
      invariant out == 0 ==> output == ""
      decreases |line| - scan
    {
      var p := NextSeparator(line, scan);
      SpansStep(line, scan);
      if p == |line| { break; }
      var sensitive := CheckKey(line, p);
      if !sensitive {
        scan := p + 1;
        continue;
      }
      var (prefixEnd, valueEnd) := ValueSpan(line, p);
      SpliceStep(line, out, Spans(line, scan), p);
      Regroup(output, line[out..p + 1], line[p + 1..prefixEnd], MARK, Splice(line, valueEnd, Spans(line, valueEnd)));
      output := output + line[out..p + 1];
      output := output + line[p + 1..prefixEnd];
      output := output + MARK;
      scan, out := valueEnd, valueEnd;
    }
    SpliceNothing(line, out);
    WholeLine(line);
    if out == 0 { return line; }
    output := output + line[out..];
  }

  lemma RedactInlineIs(line: string)
    ensures Ordered(Spans(line, 0), 0, |line|) && "" + Splice(line, 0, Spans(line, 0)) == RedactInline(line)
  {
    SpansOrdered(line, 0);
  }

  lemma WholeLine(line: string)
    ensures "" + line[0..] == line
  {
  }

  // ---------------------------------------------------------------- what the spans are

  predicate Inside(spans: seq<(nat, nat)>, p: nat) { exists i :: 0 <= i < |spans| && spans[i].0 <= p < spans[i].1 }

  /** The span is the value of the sensitive key in front of separator `p`. */
  predicate Owns(line: string, p: nat, span: (nat, nat)) {
    p < |line| && IsAssign(line[p]) && SensitiveAt(line, p) && ValueSpan(line, p) == span
  }

  predicate OwnsOne(line: string, p: nat, spans: seq<(nat, nat)>) {
    exists i :: 0 <= i < |spans| && Owns(line, p, spans[i])
  }

  ghost predicate HasOwner(line: string, cursor: nat, span: (nat, nat)) {
    exists p: nat :: cursor <= p && Owns(line, p, span)
  }

  predicate Accounted(line: string, p: nat, spans: seq<(nat, nat)>)
    requires p < |line|
  {
    IsAssign(line[p]) ==> Inside(spans, p) || OwnsOne(line, p, spans) || !SensitiveAt(line, p)
  }

  ghost predicate Exact(line: string, cursor: nat, spans: seq<(nat, nat)>) {
    && (forall i :: 0 <= i < |spans| ==> HasOwner(line, cursor, spans[i]))
    && (forall p: nat :: cursor <= p < |line| ==> Accounted(line, p, spans))
  }

  lemma PrependSpan(line: string, span: (nat, nat), rest: seq<(nat, nat)>, p: nat)
    ensures Inside([span] + rest, p) <==> span.0 <= p < span.1 || Inside(rest, p)
    ensures OwnsOne(line, p, [span] + rest) <==> Owns(line, p, span) || OwnsOne(line, p, rest)
  {
    hide SensitiveAt, ValueSpan, KeyStart;
    var spans := [span] + rest;
    if Inside(rest, p) {
      var i :| 0 <= i < |rest| && rest[i].0 <= p < rest[i].1;
      assert spans[i + 1] == rest[i];
    }
    if OwnsOne(line, p, rest) {
      var i :| 0 <= i < |rest| && Owns(line, p, rest[i]);
      assert spans[i + 1] == rest[i];
    }
    assert spans[0] == span;
  }

  /** The scanner blanks exactly the values of sensitive keys: every span is one, and every
      `=` or `:` lies in a span, owns a span, or has no sensitive key. */
  lemma {:induction false} SpansAreExact(line: string, cursor: nat)
    requires cursor <= |line|
    ensures Exact(line, cursor, Spans(line, cursor))
    decreases |line| - cursor
  {
    hide SensitiveAt, ValueSpan, NextSeparator, KeyStart, Inside, OwnsOne;
    var p := NextSeparator(line, cursor);
    if p < |line| {
      if SensitiveAt(line, p) {
        var span := ValueSpan(line, p);
        SpansAreExact(line, span.1);
        AddSpan(line, cursor, p, Spans(line, span.1));
      } else {
        SpansAreExact(line, p + 1);
        var spans := Spans(line, p + 1);
        forall i | 0 <= i < |spans| ensures HasOwner(line, cursor, spans[i]) {
          assert HasOwner(line, p + 1, spans[i]);
        }
        forall q: nat | cursor <= q < |line| ensures Accounted(line, q, spans) {
          assert q > p ==> Accounted(line, q, spans);
        }
      }
    }
  }

  lemma AddSpan(line: string, cursor: nat, p: nat, rest: seq<(nat, nat)>)
    requires cursor <= p < |line| && IsAssign(line[p]) && SensitiveAt(line, p)
    requires forall q :: cursor <= q < p ==> !IsAssign(line[q])
    requires Exact(line, ValueSpan(line, p).1, rest)
    ensures Exact(line, cursor, [ValueSpan(line, p)] + rest)
  {
    hide SensitiveAt, ValueSpan, KeyStart, Inside, OwnsOne;
    var span := ValueSpan(line, p);
    var spans := [span] + rest;
    forall i | 0 <= i < |spans| ensures HasOwner(line, cursor, spans[i]) {
      if i == 0 {
        assert Owns(line, p, spans[i]);
      } else {
        assert spans[i] == rest[i - 1] && HasOwner(line, span.1, rest[i - 1]);
      }
    }
    forall q: nat | cursor <= q < |line| ensures Accounted(line, q, spans) {
      PrependSpan(line, span, rest, q);
      assert q == p ==> Owns(line, q, span);
      assert q >= span.1 ==> Accounted(line, q, rest);
    }
  }

  /** Where position `i` of the text stands in the redacted text. */
  function Shifted(spans: seq<(nat, nat)>, from: int, i: int): int
    decreases |spans|
  {
    if spans == [] || i < spans[0].0 then i - from
    else spans[0].0 - from + |MARK| + Shifted(spans[1..], spans[0].1, i)
  }

  lemma FirstSplice(line: string, from: nat, spans: seq<(nat, nat)>)
    requires from <= |line| && Ordered(spans, from, |line|) && spans != []
    ensures Ordered(spans[1..], spans[0].1, |line|) && from <= spans[0].0 <= spans[0].1 <= |line|
    ensures Splice(line, from, spans) == line[from..spans[0].0] + MARK + Splice(line, spans[0].1, spans[1..])
  {
    OrderedTail(spans, from, |line|);
  }

  lemma FrontPart(a: string, m: string, t: string, i: nat)
    requires i < |a|
    ensures (a + m + t)[i] == a[i]
  {
  }

  lemma BackPart(a: string, m: string, t: string, j: nat)
    requires j < |t|
    ensures (a + m + t)[|a| + |m| + j] == t[j]
  {
  }

  lemma MarkPart(a: string, m: string, t: string)
    ensures (a + m + t)[|a|..|a| + |m|] == m
    ensures (a + m + t)[|a| + |m|..] == t
  {
  }

  lemma InsideTail(spans: seq<(nat, nat)>, i: nat)
    requires spans != [] && !Inside(spans, i)
    ensures !Inside(spans[1..], i) && !(spans[0].0 <= i < spans[0].1)
  {
    assert forall k :: 0 <= k < |spans[1..]| ==> spans[1..][k] == spans[k + 1];
  }

  /** Redaction keeps every character outside the spans, in order. */
  lemma {:induction false} SpliceKeepsTheRest(line: string, from: nat, spans: seq<(nat, nat)>, i: nat)
    requires from <= i < |line| && Ordered(spans, from, |line|) && !Inside(spans, i)
    ensures 0 <= Shifted(spans, from, i) < |Splice(line, from, spans)|
    ensures Splice(line, from, spans)[Shifted(spans, from, i)] == line[i]
    decreases |spans|
  {
    if spans == [] {
      SpliceNothing(line, from);
    } else {
      hide Splice, Ordered, Inside;
      FirstSplice(line, from, spans);
      InsideTail(spans, i);
      var a, t := line[from..spans[0].0], Splice(line, spans[0].1, spans[1..]);
      if i >= spans[0].0 {
        SpliceKeepsTheRest(line, spans[0].1, spans[1..], i);
        BackPart(a, MARK, t, Shifted(spans[1..], spans[0].1, i));
      } else {
        FrontPart(a, MARK, t, i - from);
      }
    }
  }

  /** Where the mark of span `k` stands in the redacted text. */
  function MarkAt(spans: seq<(nat, nat)>, from: int, k: nat): int
    requires k < |spans|
    decreases |spans|
  {
    if k == 0 then spans[0].0 - from else spans[0].0 - from + |MARK| + MarkAt(spans[1..], spans[0].1, k - 1)
  }

  /** Each span has become one mark. */
  lemma {:induction false} SpanBecomesMark(line: string, from: nat, spans: seq<(nat, nat)>, k: nat)
    requires from <= |line| && Ordered(spans, from, |line|) && k < |spans|
    ensures 0 <= MarkAt(spans, from, k) <= |Splice(line, from, spans)| - |MARK|
    ensures Splice(line, from, spans)[MarkAt(spans, from, k)..MarkAt(spans, from, k) + |MARK|] == MARK
    decreases |spans|
  {
    hide Splice, Ordered;
    FirstSplice(line, from, spans);
    var a, t := line[from..spans[0].0], Splice(line, spans[0].1, spans[1..]);
    MarkPart(a, MARK, t);
    if k > 0 {
      SpanBecomesMark(line, spans[0].1, spans[1..], k - 1);
      var j := MarkAt(spans[1..], spans[0].1, k - 1);
      assert (a + MARK + t)[|a| + |MARK|..][j..j + |MARK|]
        == (a + MARK + t)[|a| + |MARK| + j..|a| + |MARK| + j + |MARK|];
    }
  }

  function Width(spans: seq<(nat, nat)>): nat
    requires forall i :: 0 <= i < |spans| ==> spans[i].0 <= spans[i].1
  {
    if spans == [] then 0 else spans[0].1 - spans[0].0 + Width(spans[1..])
  }

  /** And nothing else has come in. */
  lemma {:induction false} SpliceLength(line: string, from: nat, spans: seq<(nat, nat)>)
    requires from <= |line| && Ordered(spans, from, |line|)
    ensures |Splice(line, from, spans)| + Width(spans) == |line| - from + |MARK| * |spans|
    decreases |spans|
  {
    if spans == [] {
      SpliceNothing(line, from);
    } else {
      hide Splice;
      FirstSplice(line, from, spans);
      SpliceLength(line, spans[0].1, spans[1..]);
      OneMore(|MARK|, |spans| - 1);
    }
  }

  lemma OneMore(m: nat, n: nat)
    ensures m * (n + 1) == m + m * n
  {
  }

  // ---------------------------------------------------------------- the detector

  predicate DetectFrom(line: string, cursor: nat)
    requires cursor <= |line|
    decreases |line| - cursor
  {
    var p := NextSeparator(line, cursor);
    p < |line| && (SensitiveAt(line, p) || DetectFrom(line, p + 1))
  }

  /** `contains_inline_sensitive_assignment`. */
  method ContainsSensitiveAssignment(line: string) returns (found: bool)
    ensures found == DetectFrom(line, 0)
  {
    hide SensitiveAt, KeyStart;
    var scan := 0;
    while true
      invariant scan <= |line| && DetectFrom(line, 0) == DetectFrom(line, scan)
      decreases |line| - scan
    {
      var p := NextSeparator(line, scan);
      if p == |line| { return false; }
      var sensitive := CheckKey(line, p);
      if sensitive { return true; }
      scan := p + 1;
    }
  }

  /** The detector, which never skips a value, and the redactor, which does, agree on
      whether there is anything to blank. */
  lemma {:induction false} DetectorAgrees(line: string, cursor: nat)
    requires cursor <= |line|
    ensures DetectFrom(line, cursor) <==> Spans(line, cursor) != []
    decreases |line| - cursor
  {
    hide SensitiveAt, ValueSpan;
    var p := NextSeparator(line, cursor);
    if p < |line| && !SensitiveAt(line, p) { DetectorAgrees(line, p + 1); }
  }

  lemma NothingFoundNothingChanged(line: string)
    requires !DetectFrom(line, 0)
    ensures RedactInline(line) == line
  {
    DetectorAgrees(line, 0);
  }
}
