/** What a second pass of the inline scanner (src/adapter/redaction.rs) does to a line the
    first has redacted. */
module RedactionTwice {
  import opened Wrappers
  import opened Text
  import opened SensitiveKeys
  import opened InlineRedaction

  predicate Blank(line: string, from: nat, to: nat)
    requires to <= |line|
  {
    forall i :: from <= i < to ==> IsQuoteOrSpace(line[i])
  }

  /** Why a second pass writes nothing new here: the value is quoted, or its key owns the
      line, or the key was part of the value in front, which ends at `from`. */
  predicate Settles(line: string, from: nat, p: nat)
    requires p < |line| && KeyStart(line, p).Some?
  {
    Quoted(line, p) || OwnsLine(Key(line, p), line[p]) || (0 < from <= p && Blank(line, from, p))
  }

  ghost predicate Settled(line: string, from: nat, span: (nat, nat)) {
    exists p: nat :: Owns(line, p, span) && Settles(line, from, p)
  }

  /** The end of the span in front of span `i`. */
  function EndBefore(spans: seq<(nat, nat)>, from: nat, i: nat): nat
    requires i < |spans|
  {
    if i == 0 then from else spans[i - 1].1
  }

  ghost predicate AllSettled(line: string, from: nat, spans: seq<(nat, nat)>) {
    forall i :: 0 <= i < |spans| ==> Settled(line, EndBefore(spans, from, i), spans[i])
  }

  // ---------------------------------------------------------------- the mark

  lemma MarkCharacters(k: nat)
    requires k < |MARK|
    ensures !IsQuoteOrSpace(MARK[k]) && !IsAssign(MARK[k]) && !EndsHeader(MARK[k]) && MARK[k] != '\\'
    ensures EndsBare(MARK[k]) <==> k == 9
  {
    assert MARK == ['[', 'R', 'E', 'D', 'A', 'C', 'T', 'E', 'D', ']'];
  }

  /** The mark stands at `q`. */
  predicate MarkedAt(out: string, q: nat) { q + |MARK| <= |out| && out[q..q + |MARK|] == MARK }

  lemma InMark(out: string, q: nat, i: nat)
    requires MarkedAt(out, q) && q <= i < q + |MARK|
    ensures out[i] == MARK[i - q]
    ensures !IsQuoteOrSpace(out[i]) && !IsAssign(out[i]) && !EndsHeader(out[i]) && out[i] != '\\'
    ensures EndsBare(out[i]) <==> i == q + 9
  {
    MarkCharacters(i - q);
    assert out[i] == out[q..q + |MARK|][i - q];
  }

  // ---------------------------------------------------------------- the value, read again

  /** Line and output agree from the separator to the value, and behind it. */
  predicate SameAround(line: string, p: nat, s: (nat, nat), out: string, p': nat, q: nat) {
    && p < s.0 <= s.1 <= |line| && q == p' + s.0 - p && MarkedAt(out, q)
    && (forall i :: p <= i < s.0 ==> out[p' + i - p] == line[i])
    && (q + |MARK| < |out| ==> s.1 < |line| && out[q + |MARK|] == line[s.1])
  }

  lemma SpaceAgain(line: string, p: nat, s: (nat, nat), out: string, p': nat, q: nat)
    requires p < |line| && KeyStart(line, p).Some? && s == ValueSpan(line, p) && SameAround(line, p, s, out, p', q)
    ensures Quoted(out, p') <==> Quoted(line, p)
    ensures SkipSpace(out, p' + 1) == if Quoted(line, p) then q - 1 else q
    ensures Quoted(line, p) ==> out[q - 1] == line[s.0 - 1]
    ensures Quoted(line, p) ==> s.1 == QuotedEnd(line, s.0, line[s.0 - 1], false)
  {
    hide QuotedEnd, KeyStart, OwnsLine, MarkedAt;
    MarkFits(out, q);
    InMark(out, q, q);
    var start := if Quoted(line, p) then s.0 - 1 else s.0;
    assert forall i :: p < i < start ==> out[p' + i - p] == line[i] && IsAsciiSpace(line[i]);
    assert forall j :: p' < j < p' + start - p ==> out[j] == line[j - p' + p];
    assert !IsAsciiSpace(out[p' + start - p]);
  }

  /** A quoted mark is read as the whole value. */
  lemma QuotedAgain(out: string, q: nat, from: nat, quote: char)
    requires MarkedAt(out, q) && q <= from <= q + |MARK| && (quote == '"' || quote == '\'')
    requires q + |MARK| < |out| ==> out[q + |MARK|] == quote
    ensures QuotedEnd(out, from, quote, false) == q + |MARK|
    decreases q + |MARK| - from
  {
    hide MarkedAt;
    assert q + |MARK| <= |out| by { MarkFits(out, q); }
    if from < q + |MARK| {
      InMark(out, q, from);
      QuotedAgain(out, q, from + 1, quote);
    }
  }

  lemma MarkFits(out: string, q: nat)
    requires MarkedAt(out, q)
    ensures q + |MARK| <= |out|
  {
  }

  lemma HeaderAgain(out: string, q: nat)
    requires MarkedAt(out, q) && (q + |MARK| < |out| ==> EndsHeader(out[q + |MARK|]))
    ensures HeaderEnd(out, q) == q + |MARK|
  {
    hide MarkedAt;
    MarkFits(out, q);
    var e := HeaderEnd(out, q);
    if e < q + |MARK| { InMark(out, q, e); }
  }

  lemma {:induction false} LowerLength(s: string)
    ensures |AsciiLower(s)| == |s|
  {
    if s != "" { LowerLength(s[1..]); }
  }

  /** A bare mark is read up to its bracket. */
  lemma BareAgain(out: string, q: nat)
    requires MarkedAt(out, q)
    ensures BareEnd(out, q) == q + 9
  {
    MarkFits(out, q);
    InMark(out, q, q + 9);
    var e := WordEnd(out, q);
    if e < q + 9 { InMark(out, q, e); }
    LowerLength(out[q..e]);
  }

  /** The value of the same key in the output: the mark, or the mark up to its bracket. */
  lemma ValueAgain(line: string, p: nat, out: string, p': nat, q: nat)
    requires p < |line| && KeyStart(line, p).Some? && SameAround(line, p, ValueSpan(line, p), out, p', q)
    requires KeyStart(out, p').Some? && Key(out, p') == Key(line, p)
    ensures ValueSpan(out, p')
      == (q, if Quoted(line, p) || OwnsLine(Key(line, p), line[p]) then q + |MARK| else q + 9)
  {
    hide KeyStart, QuotedEnd, OwnsLine, MarkedAt, BareEnd, HeaderEnd, Key;
    var s := ValueSpan(line, p);
    SpaceAgain(line, p, s, out, p', q);
    assert out[p'] == line[p];
    if Quoted(line, p) {
      QuotedAgain(out, q, q, out[q - 1]);
    } else if OwnsLine(Key(line, p), line[p]) {
      HeaderAgain(out, q);
    } else {
      BareAgain(out, q);
    }
  }

  // ---------------------------------------------------------------- the key, read again

  /** The output goes on from `f` as the line does, up to `p`; in front of it stands
      nothing, or a mark. */
  predicate SameUpTo(line: string, f: nat, p: nat, out: string, pre: nat) {
    && f <= p <= |line| && pre + p - f <= |out|
    && (forall i :: f <= i < p ==> out[pre + i - f] == line[i])
    && (f == 0 ==> pre == 0)
    && (f > 0 ==> pre > 0 && out[pre - 1] == ']' && (f < |line| ==> !IsKeyChar(line[f]) && !IsAssign(line[f])))
  }

  lemma Mirrored(line: string, f: nat, p: nat, out: string, pre: nat)
    requires SameUpTo(line, f, p, out, pre)
    ensures forall j :: pre <= j < pre + p - f ==> out[j] == line[j - pre + f]
  {
    hide IsKeyChar, IsAssign;
  }

  /** A key that the value in front swallowed is not found again. */
  lemma SwallowedKey(line: string, f: nat, p: nat, out: string, pre: nat)
    requires p < |line| && SameUpTo(line, f, p, out, pre) && 0 < f < p && Blank(line, f, p)
    ensures KeyStart(out, pre + p - f).None?
  {
    hide IsKeyChar, IsQuoteOrSpace, IsAssign;
    Mirrored(line, f, p, out, pre);
    BracketIsNoKey();
    assert KeyEnd(out, pre + p - f) == pre;
  }

  /** A key that lies behind `f` is found again. */
  lemma KeptKey(line: string, f: nat, p: nat, out: string, pre: nat)
    requires p < |line| && SameUpTo(line, f, p, out, pre) && (f > 0 ==> f < p) && !(f > 0 && Blank(line, f, p))
    ensures KeyStart(out, pre + p - f)
         == if KeyStart(line, p).Some? then Some(KeyStart(line, p).value - f + pre) else None
    ensures KeyStart(line, p).Some? ==> KeyStart(line, p).value >= f
  {
    hide IsKeyChar, IsQuoteOrSpace, IsAssign, Blank;
    Mirrored(line, f, p, out, pre);
    BracketIsNoKey();
    EndAgain(line, f, p, out, pre);
    var end := KeyEnd(line, p);
    hide KeyEnd;
    assert WordStart(line, end) >= f;
    assert WordStart(out, end - f + pre) == WordStart(line, end) - f + pre;
  }

  lemma BracketIsNoKey()
    ensures !IsKeyChar(']') && !IsQuoteOrSpace(']')
  {
  }

  lemma EndAgain(line: string, f: nat, p: nat, out: string, pre: nat)
    requires p < |line| && SameUpTo(line, f, p, out, pre) && (f > 0 ==> f < p) && !(f > 0 && Blank(line, f, p))
    ensures KeyEnd(out, pre + p - f) == KeyEnd(line, p) - f + pre && KeyEnd(line, p) >= f
    ensures f > 0 ==> KeyEnd(line, p) > f
  {
    hide IsQuoteOrSpace, IsKeyChar, IsAssign;
    var end, end' := KeyEnd(line, p), KeyEnd(out, pre + p - f);
    Mirrored(line, f, p, out, pre);
    assert f > 0 ==> end > f;
  }

  /** The separator is sensitive again if its key was not swallowed. */
  lemma SensitiveAgain(line: string, f: nat, p: nat, out: string, pre: nat)
    requires p < |line| && SameUpTo(line, f, p, out, pre) && (f > 0 ==> f < p)
    ensures SensitiveAt(out, pre + p - f) <==> SensitiveAt(line, p) && !(f > 0 && Blank(line, f, p))
    ensures SensitiveAt(out, pre + p - f) ==> Key(out, pre + p - f) == Key(line, p)
  {
    hide KeyStart, IsSensitiveKey, IsSensitiveOption, IsKeyChar, Blank;
    if f > 0 && Blank(line, f, p) {
      SwallowedKey(line, f, p, out, pre);
    } else {
      KeptKey(line, f, p, out, pre);
      if KeyStart(line, p).Some? { assert Key(out, pre + p - f) == Key(line, p); }
    }
  }

  // ---------------------------------------------------------------- the spans, read again

  lemma SpansSkip(line: string, a: nat, b: nat)
    requires a <= b <= |line| && forall i :: a <= i < b ==> !IsAssign(line[i])
    ensures Spans(line, a) == Spans(line, b) && NextSeparator(line, a) == NextSeparator(line, b)
    decreases b - a
  {
    hide SensitiveAt, ValueSpan, KeyStart, IsAssign;
    if a < b { SpansSkip(line, a + 1, b); }
  }

  /** Where a value ends, no key goes on and no separator stands. */
  lemma ValueEnds(line: string, p: nat)
    requires p < |line| && KeyStart(line, p).Some?
    ensures var e := ValueSpan(line, p).1; e < |line| ==> !IsKeyChar(line[e]) && !IsAssign(line[e])
  {
    hide KeyStart, QuotedEnd, OwnsLine, BareEnd, HeaderEnd, Key;
  }

  /** A span of the second pass covers one mark, or one but for its bracket. */
  predicate Whole(out: string, span: (nat, nat)) { span.1 == span.0 + |MARK| && MarkedAt(out, span.0) }

  predicate WholeOrCut(out: string, span: (nat, nat)) {
    Whole(out, span) || span.0 <= span.1 < span.0 + |MARK|
  }

  ghost predicate AllWhole(out: string, spans: seq<(nat, nat)>) {
    forall i :: 0 <= i < |spans| ==> Whole(out, spans[i])
  }

  ghost predicate AllWholeOrCut(out: string, spans: seq<(nat, nat)>) {
    forall i :: 0 <= i < |spans| ==> WholeOrCut(out, spans[i])
  }

  lemma WholeCons(out: string, s: (nat, nat), rest: seq<(nat, nat)>)
    ensures AllWhole(out, [s] + rest) <==> Whole(out, s) && AllWhole(out, rest)
    ensures AllWholeOrCut(out, [s] + rest) <==> WholeOrCut(out, s) && AllWholeOrCut(out, rest)
  {
    hide Whole, WholeOrCut;
    assert ([s] + rest)[0] == s && forall i :: 0 <= i < |rest| ==> ([s] + rest)[i + 1] == rest[i];
  }

  lemma SettledCons(line: string, f: nat, s: (nat, nat), rest: seq<(nat, nat)>)
    ensures AllSettled(line, f, [s] + rest) <==> Settled(line, f, s) && AllSettled(line, s.1, rest)
  {
    hide Settled;
    var spans := [s] + rest;
    assert spans[0] == s && EndBefore(spans, f, 0) == f;
    assert forall i :: 0 <= i < |rest| ==> spans[i + 1] == rest[i];
    forall i | 0 <= i < |rest| ensures EndBefore(spans, f, i + 1) == EndBefore(rest, s.1, i) {}
    if AllSettled(line, f, spans) {
      forall i | 0 <= i < |rest| ensures Settled(line, EndBefore(rest, s.1, i), rest[i]) {
        assert Settled(line, EndBefore(spans, f, i + 1), spans[i + 1]);
      }
    }
  }

  /** The separator in front of a span is the only one that can own it. */
  lemma SettledAt(line: string, f: nat, p: nat)
    requires p < |line| && IsAssign(line[p]) && SensitiveAt(line, p)
    ensures Settled(line, f, ValueSpan(line, p)) <==> Settles(line, f, p)
  {
    hide SensitiveAt, ValueSpan, KeyStart, Settles;
    var s := ValueSpan(line, p);
    assert Owns(line, p, s);
    if Settled(line, f, s) {
      var o: nat :| Owns(line, o, s) && Settles(line, f, o);
      assert o == p;
    }
  }

  lemma SpliceStart(line: string, f: nat, spans: seq<(nat, nat)>, p: nat)
    requires f <= p <= |line| && Ordered(spans, f, |line|) && (spans != [] ==> p <= spans[0].0)
    ensures |Splice(line, f, spans)| >= p - f && Splice(line, f, spans)[..p - f] == line[f..p]
  {
    if spans == [] {
      SpliceNothing(line, f);
    } else {
      FirstSplice(line, f, spans);
      assert line[f..spans[0].0][..p - f] == line[f..p];
    }
  }

  // ---------------------------------------------------------------- the second pass

  /** The first pass has written `pre` for `line[..f]` and scanned up to `c`; `out` is all
      it will have written. */
  ghost predicate Written(line: string, f: nat, c: nat, pre: string, out: string) {
    && f <= c <= |line| && Ordered(Spans(line, c), f, |line|)
    && out == pre + Splice(line, f, Spans(line, c))
    && (f == 0 ==> pre == "")
    && (f > 0 ==> pre != "" && pre[|pre| - 1] == ']' && (f < |line| ==> !IsKeyChar(line[f]) && !IsAssign(line[f])))
  }

  lemma CopiedUpTo(line: string, f: nat, c: nat, pre: string, out: string, e: nat)
    requires Written(line, f, c, pre, out) && f <= e <= |line|
    requires Spans(line, c) != [] ==> e <= Spans(line, c)[0].0
    ensures SameUpTo(line, f, e, out, |pre|)
  {
    hide IsKeyChar, IsAssign, Spans, Splice, Ordered;
    var spliced := Splice(line, f, Spans(line, c));
    SpliceStart(line, f, Spans(line, c), e);
    forall i | f <= i < e ensures out[|pre| + i - f] == line[i] {
      assert spliced[..e - f][i - f] == line[f..e][i - f];
    }
  }

  /** Spans come behind the separators that own them. */
  lemma SpansBehind(line: string, c: nat)
    requires c <= |line|
    ensures var p := NextSeparator(line, c); Spans(line, c) != [] ==> p < |line| && p < Spans(line, c)[0].0
  {
    hide SensitiveAt, ValueSpan, KeyStart, Spans;
    var p := NextSeparator(line, c);
    SpansStep(line, c);
    if p < |line| { SpansOrdered(line, p + 1); }
  }

  /** No separator is left. */
  lemma NothingLeft(line: string, f: nat, c: nat, pre: string, out: string)
    requires Written(line, f, c, pre, out) && NextSeparator(line, c) == |line|
    ensures Spans(line, c) == [] && |pre| + c - f <= |out| && Spans(out, |pre| + c - f) == []
  {
    hide IsKeyChar, IsAssign, SensitiveAt, ValueSpan, KeyStart;
    SpansStep(line, c);
    SpliceNothing(line, f);
    var d := |pre| + c - f;
    assert forall j :: d <= j < |out| ==> out[j] == line[j - |pre| + f];
    SpansSkip(out, d, |out|);
  }

  /** What stands around the mark of the next span. */
  lemma MarkWritten(line: string, f: nat, c: nat, pre: string, out: string, p: nat)
    requires Written(line, f, c, pre, out) && p == NextSeparator(line, c) && f <= p < |line| && SensitiveAt(line, p)
    ensures var s := ValueSpan(line, p);
      && MarkedAt(out, |pre| + s.0 - f)
      && SameAround(line, p, s, out, |pre| + p - f, |pre| + s.0 - f)
      && Written(line, s.1, s.1, pre + line[f..s.0] + MARK, out)
  {
    hide IsKeyChar, IsAssign, SensitiveAt, KeyStart, ValueSpan, Spans, Splice, Ordered;
    var s := ValueSpan(line, p);
    SpansStep(line, c);
    assert Spans(line, c)[0] == s && Spans(line, c)[1..] == Spans(line, s.1);
    FirstSplice(line, f, Spans(line, c));
    ValueEnds(line, p);
    var copied, tail := line[f..s.0], Splice(line, s.1, Spans(line, s.1));
    Regrouped(pre, copied, tail);
    var pre' := pre + copied + MARK;
    assert out == pre' + tail;
    CopiedUpTo(line, f, c, pre, out, s.0);
    assert out[|pre'| - |MARK|..|pre'|] == MARK;
    TailStarts(line, s.1);
    assert forall i :: f <= i < s.0 ==> out[|pre| + i - f] == line[i];
  }

  lemma Regrouped(pre: string, copied: string, tail: string)
    ensures pre + (copied + MARK + tail) == (pre + copied + MARK) + tail
    ensures (pre + copied + MARK)[|pre + copied + MARK| - 1] == ']'
  {
  }

  /** Behind a span the line goes on with the character that ended its value. */
  lemma TailStarts(line: string, e: nat)
    requires e <= |line|
    ensures Ordered(Spans(line, e), e, |line|)
    ensures var tail := Splice(line, e, Spans(line, e)); tail != [] ==> e < |line| && tail[0] == line[e]
  {
    hide SensitiveAt, KeyStart, ValueSpan;
    SpansOrdered(line, e);
    if e < |line| {
      SpliceStart(line, e, Spans(line, e), e + 1);
      var tail := Splice(line, e, Spans(line, e));
      assert tail[..1][0] == line[e..e + 1][0];
    } else {
      SpliceNothing(line, e);
    }
  }

  /** The next separator stands in the output where it stands in the line. */
  lemma SameSeparator(line: string, f: nat, c: nat, pre: string, out: string, p: nat)
    requires Written(line, f, c, pre, out) && p == NextSeparator(line, c) && p < |line|
    ensures f <= c <= p && SameUpTo(line, f, p + 1, out, |pre|) && SameUpTo(line, f, p, out, |pre|)
    ensures f > 0 ==> f < p
    ensures |pre| + p - f < |out| && NextSeparator(out, |pre| + c - f) == |pre| + p - f
  {
    hide IsKeyChar, SensitiveAt, ValueSpan, KeyStart, Spans, Splice, Ordered;
    SpansBehind(line, c);
    CopiedUpTo(line, f, c, pre, out, p + 1);
    hide Written;
    SameUpToLess(line, f, p, out, |pre|);
    SeparatorCopied(line, f, c, out, |pre|, p);
  }

  lemma SeparatorCopied(line: string, f: nat, c: nat, out: string, pre: nat, p: nat)
    requires f <= c <= p < |line| && SameUpTo(line, f, p + 1, out, pre) && p == NextSeparator(line, c)
    ensures pre + p - f < |out| && NextSeparator(out, pre + c - f) == pre + p - f
  {
    hide IsKeyChar;
    Mirrored(line, f, p + 1, out, pre);
    var d, p' := pre + c - f, pre + p - f;
    assert forall j :: d <= j < p' ==> out[j] == line[j - pre + f] && !IsAssign(out[j]);
    assert IsAssign(out[p']);
    hide SameUpTo, IsAssign;
    SpansSkip(out, d, p');
  }

  lemma SameUpToLess(line: string, f: nat, p: nat, out: string, pre: nat)
    requires f <= p < |line| && SameUpTo(line, f, p + 1, out, pre) && IsAssign(line[p])
    ensures SameUpTo(line, f, p, out, pre) && (f > 0 ==> f < p)
  {
    hide IsKeyChar, IsAssign;
  }

  /** What the second pass is expected to find from position `d` on. */
  ghost predicate FindsAgain(line: string, f: nat, c: nat, out: string, d: nat) {
    && c <= |line| && d <= |out|
    && AllWholeOrCut(out, Spans(out, d))
    && (AllWhole(out, Spans(out, d)) <==> AllSettled(line, f, Spans(line, c)))
  }

  /** A separator without a sensitive key has none in the output. */
  lemma PlainAgain(line: string, f: nat, c: nat, pre: string, out: string, p: nat)
    requires Written(line, f, c, pre, out) && p == NextSeparator(line, c) && p < |line| && !SensitiveAt(line, p)
    ensures Written(line, f, p + 1, pre, out) && |pre| + p + 1 - f <= |out|
    ensures FindsAgain(line, f, p + 1, out, |pre| + p + 1 - f) ==> FindsAgain(line, f, c, out, |pre| + c - f)
  {
    hide IsKeyChar, IsAssign, SensitiveAt, ValueSpan, KeyStart, Spans, Splice, Ordered, AllWhole, AllWholeOrCut,
      AllSettled;
    SameSeparator(line, f, c, pre, out, p);
    SensitiveAgain(line, f, p, out, |pre|);
    SpansStep(line, c);
    SpansStep(out, |pre| + c - f);
  }

  /** A swallowed key is no key in the output, and its mark is passed over. */
  lemma SwallowedAgain(line: string, f: nat, c: nat, pre: string, out: string, p: nat)
    requires Written(line, f, c, pre, out) && p == NextSeparator(line, c) && p < |line| && SensitiveAt(line, p)
    requires f > 0 && Blank(line, f, p)
    ensures var d, q := |pre| + c - f, |pre| + ValueSpan(line, p).0 - f;
      d <= |out| && MarkedAt(out, q) && q + |MARK| <= |out| && Spans(out, d) == Spans(out, q + |MARK|)
  {
    hide IsKeyChar, SensitiveAt, ValueSpan, KeyStart, Spans, Splice, Ordered, Blank, MarkedAt, IsAssign, Written,
      NextSeparator;
    var d, p', q := |pre| + c - f, |pre| + p - f, |pre| + ValueSpan(line, p).0 - f;
    SameSeparator(line, f, c, pre, out, p);
    SensitiveAgain(line, f, p, out, |pre|);
    SpansStep(out, d);
    MarkWritten(line, f, c, pre, out, p);
    MarkFits(out, q);
    assert forall j :: p' < j < q ==> out[j] == line[j - p' + p];
    forall j | p' + 1 <= j < q + |MARK| ensures !IsAssign(out[j]) { if j >= q { InMark(out, q, j); } }
    SpansSkip(out, p' + 1, q + |MARK|);
  }

  lemma SpansCons(line: string, c: nat)
    requires c <= |line|
    ensures var p := NextSeparator(line, c);
      p < |line| && SensitiveAt(line, p) ==> Spans(line, c) == [ValueSpan(line, p)] + Spans(line, ValueSpan(line, p).1)
  {
    hide SensitiveAt, ValueSpan, KeyStart, NextSeparator;
  }

  /** Any other key is found again; its value is its mark, or its mark up to the bracket. */
  lemma MarkAgain(line: string, f: nat, c: nat, pre: string, out: string, p: nat)
    requires Written(line, f, c, pre, out) && p == NextSeparator(line, c) && p < |line| && SensitiveAt(line, p)
    requires !(f > 0 && Blank(line, f, p))
    ensures var d, q := |pre| + c - f, |pre| + ValueSpan(line, p).0 - f;
      && d <= |out| && MarkedAt(out, q) && q + |MARK| <= |out|
      && Spans(out, d)
         == [(q, if Quoted(line, p) || OwnsLine(Key(line, p), line[p]) then q + |MARK| else q + 9)]
           + Spans(out, q + |MARK|)
  {
    hide IsKeyChar, SensitiveAt, ValueSpan, KeyStart, Spans, Blank, Quoted, OwnsLine, Key, MarkedAt, IsAssign, Written,
      NextSeparator, SameAround, SameUpTo;
    var q := |pre| + ValueSpan(line, p).0 - f;
    SameSeparator(line, f, c, pre, out, p);
    SensitiveAgain(line, f, p, out, |pre|);
    SpansCons(out, |pre| + c - f);
    MarkWritten(line, f, c, pre, out, p);
    MarkFits(out, q);
    ValueAgain(line, p, out, |pre| + p - f, q);
    InMark(out, q, q + 9);
    SpansSkip(out, q + 9, q + |MARK|);
  }

  lemma SensitiveStep(line: string, f: nat, c: nat, pre: string, out: string, p: nat)
    requires Written(line, f, c, pre, out) && p == NextSeparator(line, c) && p < |line| && SensitiveAt(line, p)
    ensures var s := ValueSpan(line, p);
      && Written(line, s.1, s.1, pre + line[f..s.0] + MARK, out)
      && (FindsAgain(line, s.1, s.1, out, |pre| + s.0 - f + |MARK|) ==> FindsAgain(line, f, c, out, |pre| + c - f))
  {
    hide IsKeyChar, IsAssign, SensitiveAt, ValueSpan, KeyStart, Spans, Splice, Ordered, Blank, Quoted, OwnsLine, Key,
      MarkedAt, AllWhole, AllWholeOrCut, AllSettled, Settled;
    var s := ValueSpan(line, p);
    MarkWritten(line, f, c, pre, out, p);
    if f > 0 && Blank(line, f, p) {
      SwallowedAgain(line, f, c, pre, out, p);
    } else {
      MarkAgain(line, f, c, pre, out, p);
    }
    SpansStep(line, c);
    var rest := Spans(line, s.1);
    assert Spans(line, c) == [s] + rest;
    SettledCons(line, f, s, rest);
    SettledAt(line, f, p);
    var q := |pre| + s.0 - f;
    var rest' := Spans(out, q + |MARK|);
    WholeCons(out, (q, q + |MARK|), rest');
    WholeCons(out, (q, q + 9), rest');
  }

  /** The second pass finds the marks again: whole where the value settles, without their
      bracket where it does not, and not at all where the key was swallowed. */
  lemma {:induction false} Again(line: string, f: nat, c: nat, pre: string, out: string)
    requires Written(line, f, c, pre, out)
    ensures FindsAgain(line, f, c, out, |pre| + c - f)
    decreases |line| - c
  {
    hide IsKeyChar, IsAssign, SensitiveAt, ValueSpan, KeyStart, Splice, Ordered, Settled;
    var p := NextSeparator(line, c);
    if p == |line| {
      NothingLeft(line, f, c, pre, out);
    } else if !SensitiveAt(line, p) {
      PlainAgain(line, f, c, pre, out, p);
      Again(line, f, p + 1, pre, out);
    } else {
      SensitiveStep(line, f, c, pre, out, p);
      var s := ValueSpan(line, p);
      Again(line, s.1, s.1, pre + line[f..s.0] + MARK, out);
    }
  }

  /** Replacing marks by marks changes nothing. */
  lemma {:induction false} SpliceOfMarks(out: string, from: nat, spans: seq<(nat, nat)>)
    requires from <= |out| && Ordered(spans, from, |out|) && AllWhole(out, spans)
    ensures Splice(out, from, spans) == out[from..]
    decreases |spans|
  {
    if spans == [] {
      SpliceNothing(out, from);
    } else {
      hide Splice, AllWhole, Ordered;
      FirstSplice(out, from, spans);
      assert spans == [spans[0]] + spans[1..];
      WholeCons(out, spans[0], spans[1..]);
      SpliceOfMarks(out, spans[0].1, spans[1..]);
      assert out[spans[0].0..spans[0].1] == MARK;
      assert out[from..] == out[from..spans[0].0] + out[spans[0].0..spans[0].1] + out[spans[0].1..];
    }
  }

  lemma {:induction false} NarrowSpans(out: string, spans: seq<(nat, nat)>)
    requires AllWholeOrCut(out, spans)
    ensures forall i :: 0 <= i < |spans| ==> spans[i].0 <= spans[i].1
    ensures Width(spans) <= |MARK| * |spans|
    ensures !AllWhole(out, spans) ==> Width(spans) < |MARK| * |spans|
    decreases |spans|
  {
    if spans != [] {
      assert spans == [spans[0]] + spans[1..];
      WholeCons(out, spans[0], spans[1..]);
      NarrowSpans(out, spans[1..]);
      OneMore(|MARK|, |spans| - 1);
    }
  }

  /** When redacting a line twice is redacting it once: if and only if each of its values is
      quoted, or is a header's, or its key was swallowed by the value in front. */
  lemma RedactsOnceExactly(line: string)
    ensures RedactInline(RedactInline(line)) == RedactInline(line) <==> AllSettled(line, 0, Spans(line, 0))
  {
    hide IsKeyChar, IsAssign, SensitiveAt, ValueSpan, KeyStart, Splice, Spans, AllSettled, Ordered, AllWhole,
      AllWholeOrCut;
    var out := RedactInline(line);
    RedactInlineIs(line);
    RedactInlineIs(out);
    Again(line, 0, 0, "", out);
    var spans := Spans(out, 0);
    if AllWhole(out, spans) {
      SpliceOfMarks(out, 0, spans);
      WholeLine(out);
    } else {
      NarrowSpans(out, spans);
      SpliceLength(out, 0, spans);
    }
  }

  lemma {:induction false} PlainWord(s: string)
    requires forall i :: 0 <= i < |s| ==> 'a' <= s[i] <= 'z'
    ensures AsciiLower(s) == s && Underscored(s) == s
  {
    if s != "" { PlainWord(s[1..]); }
  }

  lemma TokenIsSensitive()
    ensures Normalized("token") == "token"
  {
    hide IsAlphanumeric, TrimMatches, AsciiLower, Underscored;
    var word := "token";
    TokenTrimmed(word);
    PlainWord(word);
  }

  lemma TokenTrimmed(word: string)
    requires word == "token"
    ensures TrimMatches(Trim(word), c => !IsAlphanumeric(c) && c != '_') == word
  {
    hide TrimMatches;
    assert word[0] == 't' && word[4] == 'n' && |word| == 5;
    TrimNothing(word, c => IsWhitespace(c));
    TrimNothing(word, c => !IsAlphanumeric(c) && c != '_');
  }

  lemma TokenValue(v: string, e: nat)
    requires 0 < e <= |v| && e != 6 && !IsQuoteOrSpace(v[0])
    requires (forall i :: 0 <= i < e ==> !EndsBare(v[i])) && (e < |v| ==> EndsBare(v[e]))
    ensures SensitiveAt("token=" + v, 5) && ValueSpan("token=" + v, 5) == (6, 6 + e)
  {
    hide EndsBare, Normalized, KeyStart, NextSeparator;
    var line := "token=" + v;
    TokenSeparator(v);
    TokenIsSensitive();
    assert Key(line, 5) == "token";
    assert line[6] == v[0] && SkipSpace(line, 6) == 6;
    assert forall i :: 0 <= i < |v| ==> line[6 + i] == v[i];
    assert WordEnd(line, 6) == 6 + e;
    LowerLength(line[6..6 + e]);
  }

  /** `token=` in front of a bare word. */
  lemma TokenLine(v: string, e: nat)
    requires 0 < e <= |v| && e != 6 && (forall i :: 0 <= i < |v| ==> !IsAssign(v[i]) && !IsQuoteOrSpace(v[i]))
    requires (forall i :: 0 <= i < e ==> !EndsBare(v[i])) && (e < |v| ==> EndsBare(v[e]))
    ensures RedactInline("token=" + v) == "token=" + MARK + v[e..]
  {
    hide IsAssign, IsQuoteOrSpace, EndsBare, Splice, Spans, SensitiveAt, ValueSpan, KeyStart;
    var line := "token=" + v;
    TokenSeparator(v);
    TokenValue(v, e);
    SpansStep(line, 0);
    SpansSkip(line, 6 + e, |line|);
    SpansStep(line, |line|);
    RedactInlineIs(line);
    FirstSplice(line, 0, Spans(line, 0));
    SpliceNothing(line, 6 + e);
    assert line[0..6] == "token=" && line[6 + e..] == v[e..];
  }

  lemma TokenSeparator(v: string)
    ensures NextSeparator("token=" + v, 0) == 5 && KeyStart("token=" + v, 5) == Some(0)
  {
    var line := "token=" + v;
    assert line[0] == 't' && line[1] == 'o' && line[2] == 'k' && line[3] == 'e' && line[4] == 'n' && line[5] == '=';
    SpansSkip(line, 0, 5);
  }

  /** A bare value settles only once: the bracket of its mark is not part of the mark that
      is read the second time. */
  lemma BareValueIsRewritten()
    ensures RedactInline("token=a") == "token=[REDACTED]"
    ensures RedactInline("token=[REDACTED]") == "token=[REDACTED]]"
  {
    hide RedactInline;
    TokenLine("a", 1);
    forall i | 0 <= i < |MARK| ensures !IsAssign(MARK[i]) && !IsQuoteOrSpace(MARK[i]) { MarkCharacters(i); }
    forall i | 0 <= i < 9 ensures !EndsBare(MARK[i]) { MarkCharacters(i); }
    TokenLine(MARK, 9);
    assert "token=" + "a" == "token=a" && "token=" + MARK + "a"[1..] == "token=[REDACTED]";
    assert "token=" + MARK == "token=[REDACTED]" && "token=" + MARK + MARK[9..] == "token=[REDACTED]]";
  }
}
