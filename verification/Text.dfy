/** String helpers that several models share: decimal numerals, prefixes and
    suffixes, and splitting at the last occurrence of a character. */
module Text {
  import opened Wrappers

  predicate IsDigit(c: char) { '0' <= c <= '9' }

  predicate AllDigits(s: string) { forall i :: 0 <= i < |s| ==> IsDigit(s[i]) }

  function DigitChar(d: nat): (c: char)
    requires d < 10
    ensures IsDigit(c) && DigitValue(c) == d
  {
    ('0' as int + d) as char
  }

  function DigitValue(c: char): nat
    requires IsDigit(c)
  {
    c as int - '0' as int
  }

  /** Rust's `Display` for an unsigned integer. */
  function Decimal(n: nat): (s: string)
    ensures s != [] && AllDigits(s)
  {
    if n < 10 then [DigitChar(n)] else Decimal(n / 10) + [DigitChar(n % 10)]
  }

  function DigitsValue(s: string): nat
    requires AllDigits(s)
  {
    if s == [] then 0
    else 10 * DigitsValue(s[..|s| - 1]) + DigitValue(s[|s| - 1])
  }

  lemma {:induction false} DecimalRoundTrip(n: nat)
    ensures DigitsValue(Decimal(n)) == n
  {
    if n >= 10 {
      DecimalRoundTrip(n / 10);
      var s := Decimal(n);
      assert s[..|s| - 1] == Decimal(n / 10);
      assert s[|s| - 1] == DigitChar(n % 10);
    }
  }

  function SignedDecimal(n: int): string { if n < 0 then "-" + Decimal(-n) else Decimal(n) }

  /** Equal numerals denote equal numbers. */
  lemma DecimalInjective(m: nat, n: nat)
    requires Decimal(m) == Decimal(n)
    ensures m == n
  {
    DecimalRoundTrip(m);
    DecimalRoundTrip(n);
  }

  predicate StartsWith(s: string, p: string) { |p| <= |s| && s[..|p|] == p }

  predicate EndsWith(s: string, p: string) { |p| <= |s| && s[|s| - |p|..] == p }

  function StripPrefix(s: string, p: string): Option<string> {
    if StartsWith(s, p) then Some(s[|p|..]) else None
  }

  function StripSuffix(s: string, p: string): Option<string> {
    if EndsWith(s, p) then Some(s[..|s| - |p|]) else None
  }

  lemma StripConcat(p: string, x: string)
    ensures StripPrefix(p + x, p) == Some(x)
    ensures StripSuffix(x + p, p) == Some(x)
  {
    assert (p + x)[..|p|] == p && (p + x)[|p|..] == x;
    assert (x + p)[|x|..] == p && (x + p)[..|x|] == x;
  }

  /** Index of the last `c` in `s`, or -1. */
  function LastIndex(s: string, c: char): (i: int)
    ensures -1 <= i < |s|
    ensures i >= 0 ==> s[i] == c
    ensures forall j :: i < j < |s| ==> s[j] != c
  {
    if s == [] then -1
    else if s[|s| - 1] == c then |s| - 1
    else LastIndex(s[..|s| - 1], c)
  }

  /** `str::rsplit_once`. */
  function RSplitOnce(s: string, c: char): Option<(string, string)> {
    var i := LastIndex(s, c);
    if i < 0 then None else Some((s[..i], s[i + 1..]))
  }

  lemma RSplitOnceConcat(a: string, c: char, b: string)
    requires c !in b
    ensures RSplitOnce(a + [c] + b, c) == Some((a, b))
  {
    var s := a + [c] + b;
    var i := LastIndex(s, c);
    assert s[|a|] == c;
    forall j | |a| < j < |s| ensures s[j] != c { assert s[j] == b[j - |a| - 1]; }
    assert s[..i] == a && s[i + 1..] == b;
  }

  /** Index of the first `c` in `s`, or |s|. */
  function FirstIndex(s: string, c: char): (i: nat)
    ensures i <= |s|
    ensures i < |s| ==> s[i] == c
    ensures forall j :: 0 <= j < i ==> s[j] != c
  {
    if s == [] then 0
    else if s[0] == c then 0
    else 1 + FirstIndex(s[1..], c)
  }

  /** `str::split` for a character. */
  function Split(s: string, c: char): (parts: seq<string>)
    ensures parts != []
    decreases |s|
  {
    var i := FirstIndex(s, c);
    if i == |s| then [s] else [s[..i]] + Split(s[i + 1..], c)
  }

  /** `piece` stands in `s` between two separators or its ends. */
  predicate IsPiece(s: string, c: char, before: string, piece: string, behind: string) {
    && s == before + piece + behind && c !in piece
    && (before != "" ==> before[|before| - 1] == c) && (behind != "" ==> behind[0] == c)
  }

  ghost predicate IsPart(s: string, c: char, piece: string) {
    exists before, behind :: IsPiece(s, c, before, piece, behind)
  }

  /** The parts are the pieces between separators, and no others. */
  lemma {:induction false} SplitExactly(s: string, c: char, piece: string)
    ensures piece in Split(s, c) <==> IsPart(s, c, piece)
    decreases |s|
  {
    hide FirstIndex, IsPart;
    var i := FirstIndex(s, c);
    if i == |s| {
      OnePart(s, c, piece);
    } else {
      SplitExactly(s[i + 1..], c, piece);
      assert s == s[..i] + [c] + s[i + 1..];
      PartShifts(s, c, s[..i], s[i + 1..], piece);
    }
  }

  lemma PieceHolds(s: string, c: char, before: string, piece: string, behind: string)
    requires IsPiece(s, c, before, piece, behind)
    ensures before != "" || behind != "" ==> c in s
  {
    if before != "" { assert s[|before| - 1] == c; }
    if behind != "" { assert s[|before| + |piece|] == c; }
  }

  lemma OnePart(s: string, c: char, piece: string)
    requires c !in s
    ensures IsPart(s, c, piece) <==> piece == s
  {
    assert s == "" + s + "" && IsPiece(s, c, "", s, "");
    forall before, behind | IsPiece(s, c, before, piece, behind) ensures piece == s {
      PieceHolds(s, c, before, piece, behind);
    }
  }

  /** The first piece ends at the first separator; the others stand behind it. */
  lemma PartShifts(s: string, c: char, head: string, rest: string, piece: string)
    requires s == head + [c] + rest && c !in head
    ensures IsPart(s, c, piece) <==> piece == head || IsPart(rest, c, piece)
  {
    assert s == "" + head + ([c] + rest) && IsPiece(s, c, "", head, [c] + rest);
    forall before, behind | IsPiece(s, c, before, piece, behind) ensures piece == head || IsPart(rest, c, piece) {
      if before == "" { FirstPiece(s, c, head, rest, piece, behind); }
      else { LaterPiece(s, c, head, rest, before, piece, behind); }
    }
    forall before, behind | IsPiece(rest, c, before, piece, behind) ensures IsPart(s, c, piece) {
      var front := head + [c] + before;
      assert s == front + piece + behind && front[|front| - 1] == if before == "" then c else before[|before| - 1];
      assert IsPiece(s, c, front, piece, behind);
    }
  }

  lemma FirstPiece(s: string, c: char, head: string, rest: string, piece: string, behind: string)
    requires s == head + [c] + rest && c !in head && IsPiece(s, c, "", piece, behind)
    ensures piece == head
  {
    assert s == piece + behind && s[|head|] == c;
    assert forall j :: 0 <= j < |head| ==> s[j] == head[j];
    assert forall j :: 0 <= j < |piece| ==> s[j] == piece[j];
    assert behind != "" ==> s[|piece|] == behind[0];
    assert |piece| == |head|;
    assert piece == s[..|piece|] == head;
  }

  lemma LaterPiece(s: string, c: char, head: string, rest: string, before: string, piece: string, behind: string)
    requires s == head + [c] + rest && c !in head && before != "" && IsPiece(s, c, before, piece, behind)
    ensures IsPart(rest, c, piece)
  {
    assert s[|before| - 1] == before[|before| - 1] == c;
    assert forall j :: 0 <= j < |head| ==> s[j] == head[j];
    assert |before| > |head|;
    var later := before[|head| + 1..];
    assert rest == s[|head| + 1..] == later + piece + behind;
    assert IsPiece(rest, c, later, piece, behind);
  }

  /** Unicode `White_Space`, as `char::is_whitespace`. */
  predicate IsWhitespace(c: char) {
    var n := c as int;
    9 <= n <= 13 || n == 0x20 || n == 0x85 || n == 0xA0 || n == 0x1680 || 0x2000 <= n <= 0x200A
    || n == 0x2028 || n == 0x2029 || n == 0x202F || n == 0x205F || n == 0x3000
  }

  /** How many characters at the start of `s`, at its end, satisfy `drop`. */
  function LeadingRun(s: string, drop: char -> bool): (k: nat)
    ensures k <= |s| && forall i :: 0 <= i < k ==> drop(s[i])
    ensures k < |s| ==> !drop(s[k])
  {
    if s == [] || !drop(s[0]) then 0 else 1 + LeadingRun(s[1..], drop)
  }

  function TrailingRun(s: string, drop: char -> bool): (k: nat)
    ensures k <= |s| && forall i :: |s| - k <= i < |s| ==> drop(s[i])
    ensures k < |s| ==> !drop(s[|s| - 1 - k])
  {
    if s == [] || !drop(s[|s| - 1]) then 0 else 1 + TrailingRun(s[..|s| - 1], drop)
  }

  /** `str::trim_matches`. */
  function TrimMatches(s: string, drop: char -> bool): string {
    var t := s[LeadingRun(s, drop)..];
    t[..|t| - TrailingRun(t, drop)]
  }

  function Trim(s: string): string { TrimMatches(s, c => IsWhitespace(c)) }

  /** Trimming takes white space away at both ends, and leaves none there. */
  lemma TrimExactly(s: string)
    ensures exists i, j ::
      && 0 <= i <= j <= |s| && Trim(s) == s[i..j]
      && (forall k :: 0 <= k < i || j <= k < |s| ==> IsWhitespace(s[k]))
      && (i < j ==> !IsWhitespace(s[i]) && !IsWhitespace(s[j - 1]))
  {
    hide IsWhitespace, LeadingRun, TrailingRun;
    var drop := (c: char) => IsWhitespace(c);
    var i := LeadingRun(s, drop);
    var t := s[i..];
    var j := |s| - TrailingRun(t, drop);
    assert Trim(s) == t[..j - i] == s[i..j];
    assert forall k :: j <= k < |s| ==> s[k] == t[k - i];
    assert i < j ==> s[i] == t[0] && s[j - 1] == t[j - 1 - i];
  }

  /** What trimming cuts off, and what it keeps. */
  lemma TrimParts(s: string, drop: char -> bool) returns (front: string, core: string, back: string)
    ensures s == front + core + back && core == TrimMatches(s, drop)
    ensures forall i :: 0 <= i < |front| ==> drop(front[i])
    ensures forall i :: 0 <= i < |back| ==> drop(back[i])
    ensures core != "" ==> !drop(core[0]) && !drop(core[|core| - 1])
  {
    hide LeadingRun, TrailingRun;
    var i := LeadingRun(s, drop);
    var t := s[i..];
    var n := |t| - TrailingRun(t, drop);
    front, core, back := s[..i], t[..n], t[n..];
    assert forall k :: 0 <= k < |back| ==> back[k] == t[n + k];
  }

  lemma RunEnds(s: string, drop: char -> bool, k: nat)
    requires k <= |s|
    ensures (forall i :: 0 <= i < k ==> drop(s[i])) && (k < |s| ==> !drop(s[k])) ==> LeadingRun(s, drop) == k
    ensures (forall i :: |s| - k <= i < |s| ==> drop(s[i])) && (k < |s| ==> !drop(s[|s| - 1 - k])) ==>
              TrailingRun(s, drop) == k
  {
    hide LeadingRun, TrailingRun;
  }

  /** What is trimmed off and what is kept, the other way around. */
  lemma TrimAround(front: string, core: string, back: string, drop: char -> bool)
    requires forall i :: 0 <= i < |front| ==> drop(front[i])
    requires forall i :: 0 <= i < |back| ==> drop(back[i])
    requires core != "" ==> !drop(core[0]) && !drop(core[|core| - 1])
    ensures TrimMatches(front + core + back, drop) == core
  {
    hide LeadingRun, TrailingRun;
    if core == "" {
      TrimAll(front, back, drop);
      assert front + core + back == front + back;
    } else {
      assert front + core + back == front + (core + back);
      LeadingPart(front, core + back, drop);
      TrailingPart(core, back, drop);
    }
  }

  lemma LeadingPart(front: string, t: string, drop: char -> bool)
    requires t != "" && !drop(t[0]) && forall i :: 0 <= i < |front| ==> drop(front[i])
    ensures LeadingRun(front + t, drop) == |front| && (front + t)[|front|..] == t
  {
    hide LeadingRun;
    var s := front + t;
    assert s[|front|] == t[0] && forall k :: 0 <= k < |front| ==> s[k] == front[k];
    RunEnds(s, drop, |front|);
  }

  lemma TrailingPart(core: string, back: string, drop: char -> bool)
    requires core != "" && !drop(core[|core| - 1]) && forall i :: 0 <= i < |back| ==> drop(back[i])
    ensures TrailingRun(core + back, drop) == |back| && (core + back)[..|core|] == core
  {
    hide TrailingRun;
    var t := core + back;
    assert t[|core| - 1] == core[|core| - 1] && forall k :: |core| <= k < |t| ==> t[k] == back[k - |core|];
    RunEnds(t, drop, |back|);
  }

  lemma TrimAll(front: string, back: string, drop: char -> bool)
    requires forall i :: 0 <= i < |front| ==> drop(front[i])
    requires forall i :: 0 <= i < |back| ==> drop(back[i])
    ensures TrimMatches(front + back, drop) == ""
  {
    hide LeadingRun, TrailingRun;
    var s := front + back;
    assert forall k :: 0 <= k < |s| ==> s[k] == if k < |front| then front[k] else back[k - |front|];
    RunEnds(s, drop, |s|);
  }

  lemma TrimNothing(s: string, drop: char -> bool)
    requires s != "" && !drop(s[0]) && !drop(s[|s| - 1])
    ensures TrimMatches(s, drop) == s
  {
    assert LeadingRun(s, drop) == 0;
    assert s[0..] == s && TrailingRun(s, drop) == 0;
  }

  lemma TrimmedWord(s: string)
    requires s != "" && !IsWhitespace(s[0]) && !IsWhitespace(s[|s| - 1])
    ensures Trim(s) == s
  {
    hide TrimMatches, IsWhitespace;
    TrimNothing(s, c => IsWhitespace(c));
  }

  /** Rust's integer parsing: an optional sign (minus only for signed types), then at
      least one digit, within the type's range. */
  function ParseInteger(s: string, signed: bool, low: int, high: int): Option<int> {
    var negative := signed && s != [] && s[0] == '-';
    var digits := if s != [] && (s[0] == '+' || negative) then s[1..] else s;
    if digits == [] || !AllDigits(digits) then None
    else
      var v := if negative then -(DigitsValue(digits) as int) else DigitsValue(digits);
      if low <= v <= high then Some(v) else None
  }

  /** Read is exactly a sign, if any, and digits, for a number in range. */
  lemma ParsesExactly(s: string, signed: bool, low: int, high: int, v: int)
    ensures ParseInteger(s, signed, low, high) == Some(v) <==>
      && low <= v <= high
      && exists digits: string ::
           && digits != "" && AllDigits(digits)
           && (((s == digits || s == "+" + digits) && v == DigitsValue(digits))
               || (signed && s == "-" + digits && v == -(DigitsValue(digits) as int)))
  {
    hide DigitsValue;
    var negative := signed && s != [] && s[0] == '-';
    var digits := if s != [] && (s[0] == '+' || negative) then s[1..] else s;
    assert s == digits || s == "+" + digits || s == "-" + digits;
    forall other: string
      | other != "" && AllDigits(other) && (s == other || s == "+" + other || (signed && s == "-" + other))
      ensures other == digits && (negative <==> s == "-" + other)
    {
      assert IsDigit(other[0]);
      assert s != other ==> s[1..] == other;
    }
  }

  /** `str::lines`: a line ends at a line feed, with or without a carriage return before
      it; there is no empty line after a final line feed. */
  function Lines(s: string): seq<string>
    decreases |s|
  {
    if s == "" then []
    else
      var i := FirstIndex(s, '\n');
      if i == |s| then [s]
      else [if i > 0 && s[i - 1] == '\r' then s[..i - 1] else s[..i]] + Lines(s[i + 1..])
  }

  function AsciiLower(s: string): (r: string)
    ensures |r| == |s|
  {
    if s == "" then ""
    else [if 'A' <= s[0] <= 'Z' then (s[0] as int + 32) as char else s[0]] + AsciiLower(s[1..])
  }

  /** A line stands before its line feed, or before a carriage return and a line feed; what
      no line feed follows is a line too unless it is empty. */
  lemma LinesExactly(line: string, rest: string)
    requires '\n' !in line
    ensures Lines(line) == if line == "" then [] else [line]
    ensures !EndsWith(line, "\r") ==> Lines(line + "\n" + rest) == [line] + Lines(rest)
    ensures Lines(line + "\r\n" + rest) == [line] + Lines(rest)
  {
    hide Lines;
    LastLine(line);
    FirstLine(line, rest);
    FirstLine(line + "\r", rest);
    assert line + "\r\n" + rest == (line + "\r") + "\n" + rest;
    assert (line + "\r")[..|line|] == line;
    if line != "" && line[|line| - 1] == '\r' { assert line[|line| - 1..] == "\r"; }
  }

  lemma LastLine(line: string)
    requires '\n' !in line
    ensures Lines(line) == if line == "" then [] else [line]
  {
    hide FirstIndex;
    assert FirstIndex(line, '\n') == |line|;
  }

  lemma FirstLine(line: string, rest: string)
    requires '\n' !in line
    ensures Lines(line + "\n" + rest)
         == [if line != "" && line[|line| - 1] == '\r' then line[..|line| - 1] else line] + Lines(rest)
  {
    hide FirstIndex;
    var s := line + "\n" + rest;
    assert s[|line|] == '\n' && forall j :: 0 <= j < |line| ==> s[j] == line[j];
    assert FirstIndex(s, '\n') == |line| && s[..|line|] == line && s[|line| + 1..] == rest;
    assert line != "" ==> s[..|line| - 1] == line[..|line| - 1];
  }

  lemma {:induction false} AsciiLowerAt(s: string, i: nat)
    requires i < |s|
    ensures 'A' <= s[i] <= 'Z' ==> AsciiLower(s)[i] as int - 'a' as int == s[i] as int - 'A' as int
    ensures !('A' <= s[i] <= 'Z') ==> AsciiLower(s)[i] == s[i]
  {
    if |s| > 1 { AsciiLowerAt(s[1..], if i > 0 then i - 1 else 0); }
  }

  lemma HexMeans(c: char)
    ensures c in "0123456789abcdef" <==> '0' <= c <= '9' || 'a' <= c <= 'f'
  {
    var hex := "0123456789abcdef";
    if '0' <= c <= '9' { assert hex[c as int - '0' as int] == c; }
    if 'a' <= c <= 'f' { assert hex[c as int - 'a' as int + 10] == c; }
  }
}
