/** Version precedence as the release check computes it (scripts/ci/check_version_bump.py),
    against section 11 of Semantic Versioning 2.0.0. */
module Semver {
  import opened Wrappers
  import opened Text
  import opened StringOrder

  datatype Version = Version(major: nat, minor: nat, patch: nat, pre: Option<seq<string>>)

  predicate IsIdentifierChar(c: char) { '0' <= c <= '9' || 'a' <= c <= 'z' || 'A' <= c <= 'Z' || c in ".-" }

  predicate IsTail(s: string) { s != "" && forall i :: 0 <= i < |s| ==> IsIdentifierChar(s[i]) }

  /** Zero, or digits without a leading zero. */
  predicate IsCoreNumber(s: string) { s != "" && AllDigits(s) && (s[0] == '0' ==> s == "0") }

  /** The text up to the first `c`, and what follows it if there is one. */
  function Cut(s: string, c: char): (string, Option<string>) {
    var i := FirstIndex(s, c);
    if i == |s| then (s, None) else (s[..i], Some(s[i + 1..]))
  }

  /** Core and pre-release, without build metadata. */
  function ParseFront(front: string): Option<Version> {
    var (core, pre) := Cut(front, '-');
    var numbers := Split(core, '.');
    if |numbers| == 3 && (forall i :: 0 <= i < 3 ==> IsCoreNumber(numbers[i])) && (pre.Some? ==> IsTail(pre.value))
    then Some(Version(DigitsValue(numbers[0]), DigitsValue(numbers[1]), DigitsValue(numbers[2]),
                      if pre.Some? then Some(Split(pre.value, '.')) else None))
    else None
  }

  /** One line feed at the end is let through; build metadata is checked and dropped. */
  function Parse(text: string): Option<Version> {
    var s := if text != "" && text[|text| - 1] == '\n' then text[..|text| - 1] else text;
    var (front, build) := Cut(s, '+');
    if build.Some? && !IsTail(build.value) then None else ParseFront(front)
  }

  // ---------------------------------------------------------------- comparing

  type Sign = n: int | -1 <= n <= 1

  function Compared(a: int, b: int): Sign { if a < b then -1 else if a > b then 1 else 0 }

  predicate IsNumeric(s: string) { s != "" && AllDigits(s) }

  function CompareIdentifier(a: string, b: string): Sign {
    if IsNumeric(a) && IsNumeric(b) then Compared(DigitsValue(a), DigitsValue(b))
    else if IsNumeric(a) != IsNumeric(b) then (if IsNumeric(a) then -1 else 1)
    else if Less(a, b) then -1 else if Less(b, a) then 1 else 0
  }

  function CompareCore(a: Version, b: Version): Sign {
    if a.major != b.major then Compared(a.major, b.major)
    else if a.minor != b.minor then Compared(a.minor, b.minor)
    else Compared(a.patch, b.patch)
  }

  function ComparePre(a: seq<string>, b: seq<string>): Sign
    decreases |a|
  {
    if a == [] || b == [] then Compared(|a|, |b|)
    else if CompareIdentifier(a[0], b[0]) != 0 then CompareIdentifier(a[0], b[0])
    else ComparePre(a[1..], b[1..])
  }

  function Compare(a: Version, b: Version): Sign {
    if CompareCore(a, b) != 0 then CompareCore(a, b)
    else if a.pre.None? && b.pre.None? then 0
    else if a.pre.None? then 1
    else if b.pre.None? then -1
    else ComparePre(a.pre.value, b.pre.value)
  }

  /** The comparison with its early return out of the paired identifiers. */
  method CompareSemver(left: string, right: string) returns (r: Option<Sign>)
    ensures r == if Parse(left).Some? && Parse(right).Some?
      then Some(Compare(Parse(left).value, Parse(right).value)) else None
  {
    hide Parse, CompareIdentifier, CompareCore;
    var a, b := Parse(left), Parse(right);
    if a.None? || b.None? { return None; }
    if CompareCore(a.value, b.value) != 0 { return Some(CompareCore(a.value, b.value)); }
    if a.value.pre.None? && b.value.pre.None? { return Some(0); }
    if a.value.pre.None? { return Some(1); }
    if b.value.pre.None? { return Some(-1); }
    var p, q := a.value.pre.value, b.value.pre.value;
    var i := 0;
    assert p[0..] == p && q[0..] == q;
    while i < |p| && i < |q|
      invariant i <= |p| && i <= |q|
      invariant ComparePre(p, q) == ComparePre(p[i..], q[i..])
    {
      var compared := CompareIdentifier(p[i], q[i]);
      if compared != 0 { return Some(compared); }
      assert p[i..][1..] == p[i + 1..] && q[i..][1..] == q[i + 1..];
      i := i + 1;
    }
    return Some(Compared(|p|, |q|));
  }

  // ---------------------------------------------------------------- a total preorder

  /** What any two signs along a chain must do. */
  predicate Chains(ab: Sign, bc: Sign, ac: Sign) {
    && (ab <= 0 && bc <= 0 ==> ac <= 0)
    && (ab == 0 ==> ac == bc) && (bc == 0 ==> ac == ab)
    && (ab == bc ==> ac == ab)
  }

  lemma IdentifierOrder(a: string, b: string, c: string)
    ensures CompareIdentifier(a, a) == 0
    ensures CompareIdentifier(b, a) == -CompareIdentifier(a, b)
    ensures Chains(CompareIdentifier(a, b), CompareIdentifier(b, c), CompareIdentifier(a, c))
  {
    hide Less, DigitsValue, AllDigits;
    LessIrreflexive(a);
    TextOrder(a, b, c);
  }

  lemma TextOrder(a: string, b: string, c: string)
    ensures !(Less(a, b) && Less(b, a))
    ensures Less(a, b) && Less(b, c) ==> Less(a, c)
    ensures !Less(a, b) && !Less(b, a) ==> a == b
    ensures !Less(b, c) && !Less(c, b) ==> b == c
    ensures Less(b, a) && Less(c, b) ==> Less(c, a)
    ensures !(Less(a, c) && Less(c, a))
  {
    hide Less;
    LessIrreflexive(a);
    LessTotal(a, b);
    LessTotal(b, c);
    if Less(a, b) && Less(b, a) { LessTransitive(a, b, a); }
    if Less(a, c) && Less(c, a) { LessTransitive(a, c, a); }
    if Less(a, b) && Less(b, c) { LessTransitive(a, b, c); }
    if Less(b, a) && Less(c, b) { LessTransitive(c, b, a); }
  }

  lemma {:induction false} PreOrder(a: seq<string>, b: seq<string>, c: seq<string>)
    ensures ComparePre(a, a) == 0
    ensures ComparePre(b, a) == -ComparePre(a, b)
    ensures Chains(ComparePre(a, b), ComparePre(b, c), ComparePre(a, c))
    decreases |a| + |b| + |c|
  {
    hide CompareIdentifier;
    if a != [] { IdentifierOrder(a[0], a[0], a[0]); PreOrder(a[1..], [], []); }
    if a != [] && b != [] {
      IdentifierOrder(a[0], b[0], b[0]);
      PreOrder(a[1..], b[1..], []);
      if c != [] {
        IdentifierOrder(a[0], b[0], c[0]);
        PreOrder(a[1..], b[1..], c[1..]);
      }
    }
  }

  /** Precedence is a total preorder on all versions that parse. */
  lemma CompareIsTotalPreorder(a: Version, b: Version, c: Version)
    ensures Compare(a, a) == 0
    ensures Compare(b, a) == -Compare(a, b)
    ensures Chains(Compare(a, b), Compare(b, c), Compare(a, c))
  {
    hide ComparePre;
    PreOrder(if a.pre.Some? then a.pre.value else [], if b.pre.Some? then b.pre.value else [],
        if c.pre.Some? then c.pre.value else []);
  }

  // ---------------------------------------------------------------- section 11

  /** Section 11.4: the first identifiers that differ decide; if none does, the longer list
      is the higher. Numbers compare as numbers and come before text. */
  lemma {:induction false} FirstDifferenceDecides(a: seq<string>, b: seq<string>, k: nat)
    requires k <= |a| && k <= |b| && forall i :: 0 <= i < k ==> CompareIdentifier(a[i], b[i]) == 0
    ensures k < |a| && k < |b| && CompareIdentifier(a[k], b[k]) != 0 ==>
      ComparePre(a, b) == CompareIdentifier(a[k], b[k])
    ensures k == |a| || k == |b| ==> ComparePre(a, b) == Compared(|a|, |b|)
    decreases k
  {
    hide CompareIdentifier;
    if k > 0 { FirstDifferenceDecides(a[1..], b[1..], k - 1); }
  }

  predicate IsNumber(s: string) { s != "" && forall i :: 0 <= i < |s| ==> '0' <= s[i] <= '9' }

  lemma NumberIsNumeric(s: string)
    ensures IsNumber(s) <==> IsNumeric(s)
  {
  }

  /** Section 11.4.1 to 11.4.3: numbers by value, text in the order of its characters, and
      a number below text. */
  ghost predicate IdentifierBelow(a: string, b: string) {
    || (IsNumber(a) && IsNumber(b) && DigitsValue(a) < DigitsValue(b))
    || (IsNumber(a) && !IsNumber(b))
    || (!IsNumber(a) && !IsNumber(b) && exists k :: Before(a, b, k))
  }

  /** Section 11.4: at the first difference the identifier is below the other, or the list
      ends. */
  ghost predicate PreBelow(a: seq<string>, b: seq<string>) { exists k :: PreBelowAt(a, b, k) }

  ghost predicate PreBelowAt(a: seq<string>, b: seq<string>, k: nat) {
    && k <= |a| && k < |b| && (forall i :: 0 <= i < k ==> SameIdentifier(a[i], b[i]))
    && (k == |a| || IdentifierBelow(a[k], b[k]))
  }

  /** Section 11.2 and 11.3: major, minor and patch numbers decide in that order, and then a
      pre-release is below its release. */
  ghost predicate Precedes(a: Version, b: Version) {
    || a.major < b.major
    || (a.major == b.major && a.minor < b.minor)
    || (a.major == b.major && a.minor == b.minor && a.patch < b.patch)
    || (a.major == b.major && a.minor == b.minor && a.patch == b.patch && a.pre.Some?
        && (b.pre.None? || PreBelow(a.pre.value, b.pre.value)))
  }

  lemma IdentifierExactly(a: string, b: string)
    ensures CompareIdentifier(a, b) == -1 <==> IdentifierBelow(a, b)
  {
    hide Less, DigitsValue, IsNumeric, IsNumber, Before;
    NumberIsNumeric(a);
    NumberIsNumeric(b);
    LessExactly(a, b);
  }

  lemma {:induction false} PreExactly(a: seq<string>, b: seq<string>)
    ensures ComparePre(a, b) == -1 <==> PreBelow(a, b)
    decreases |a|
  {
    hide CompareIdentifier, SameIdentifier, IdentifierBelow;
    if a == [] {
      if b != [] { assert PreBelowAt(a, b, 0); }
    } else if b != [] {
      IdentifierExactly(a[0], b[0]);
      IdentifierTie(a[0], b[0]);
      PreExactly(a[1..], b[1..]);
      BelowShifts(a, b);
    }
  }

  lemma BelowShifts(a: seq<string>, b: seq<string>)
    requires a != [] && b != []
    ensures PreBelow(a, b)
      <==> IdentifierBelow(a[0], b[0]) || (SameIdentifier(a[0], b[0]) && PreBelow(a[1..], b[1..]))
  {
    hide SameIdentifier, IdentifierBelow;
    if PreBelow(a, b) {
      var k: nat :| PreBelowAt(a, b, k);
      if k > 0 { assert PreBelowAt(a[1..], b[1..], k - 1); }
    }
    if IdentifierBelow(a[0], b[0]) { assert PreBelowAt(a, b, 0); }
    if SameIdentifier(a[0], b[0]) && PreBelow(a[1..], b[1..]) {
      var k: nat :| PreBelowAt(a[1..], b[1..], k);
      forall i | 0 <= i < k + 1 ensures SameIdentifier(a[i], b[i]) {
        if i > 0 { assert SameIdentifier(a[1..][i - 1], b[1..][i - 1]); }
      }
      assert PreBelowAt(a, b, k + 1);
    }
  }

  /** The comparison is the precedence of section 11, lower and higher alike. */
  lemma ComparesExactly(a: Version, b: Version)
    ensures Compare(a, b) == -1 <==> Precedes(a, b)
    ensures Compare(a, b) == 1 <==> Precedes(b, a)
  {
    hide ComparePre, PreBelow;
    if a.pre.Some? && b.pre.Some? {
      PreExactly(a.pre.value, b.pre.value);
      PreExactly(b.pre.value, a.pre.value);
      PreOrder(a.pre.value, b.pre.value, []);
    }
  }

  /** Versions tie exactly when they have the same core and, identifier by identifier, the
      same pre-release, numbers read as numbers. */
  lemma TieMeansSame(a: Version, b: Version)
    ensures Compare(a, b) == 0 <==>
      && a.major == b.major && a.minor == b.minor && a.patch == b.patch
      && (a.pre.None? <==> b.pre.None?)
      && (a.pre.Some? ==>
            && |a.pre.value| == |b.pre.value|
            && forall i :: 0 <= i < |a.pre.value| ==> SameIdentifier(a.pre.value[i], b.pre.value[i]))
  {
    hide ComparePre, SameIdentifier;
    if a.pre.Some? && b.pre.Some? { PreTie(a.pre.value, b.pre.value); }
  }

  predicate SameIdentifier(a: string, b: string) {
    a == b || (IsNumber(a) && IsNumber(b) && DigitsValue(a) == DigitsValue(b))
  }

  lemma {:induction false} PreTie(a: seq<string>, b: seq<string>)
    ensures ComparePre(a, b) == 0 <==> |a| == |b| && forall i :: 0 <= i < |a| ==> SameIdentifier(a[i], b[i])
    decreases |a|
  {
    hide CompareIdentifier, SameIdentifier;
    if a != [] && b != [] {
      IdentifierTie(a[0], b[0]);
      PreTie(a[1..], b[1..]);
    }
  }

  lemma IdentifierTie(a: string, b: string)
    ensures CompareIdentifier(a, b) == 0 <==> SameIdentifier(a, b)
  {
    hide Less, DigitsValue, IsNumeric, IsNumber;
    NumberIsNumeric(a);
    NumberIsNumeric(b);
    LessIrreflexive(a);
    LessTotal(a, b);
  }

  /** Section 10: build metadata is checked and has no say. */
  lemma BuildHasNoSay(text: string, build: string)
    requires IsTail(build) && '+' !in text && '\n' !in text
    ensures Parse(text + "+" + build) == Parse(text)
  {
    hide ParseFront, Cut;
    var t := text + "+" + build;
    assert t[|t| - 1] == build[|build| - 1] != '\n';
    assert text != "" ==> text[|text| - 1] in text;
    assert t == text + ['+'] + build;
    CutAt(text, '+', build);
    CutNone(text, '+');
  }

  lemma CutAt(a: string, c: char, b: string)
    requires c !in a
    ensures Cut(a + [c] + b, c) == (a, Some(b))
  {
    var s := a + [c] + b;
    var i := FirstIndex(s, c);
    assert s[|a|] == c;
    assert forall j :: 0 <= j < |a| ==> s[j] == a[j] && a[j] in a;
    assert i == |a|;
    assert s[..i] == a && s[i + 1..] == b;
  }

  lemma CutNone(s: string, c: char)
    requires c !in s
    ensures Cut(s, c) == (s, None)
  {
  }

  // ---------------------------------------------------------------- every version has a text

  function Join(parts: seq<string>, c: char): string
    requires parts != []
  {
    if |parts| == 1 then parts[0] else parts[0] + [c] + Join(parts[1..], c)
  }

  lemma {:induction false} SplitJoin(parts: seq<string>, c: char)
    requires parts != [] && forall i :: 0 <= i < |parts| ==> c !in parts[i]
    ensures Split(Join(parts, c), c) == parts
  {
    if |parts| == 1 {
      CutNone(parts[0], c);
      assert FirstIndex(parts[0], c) == |parts[0]|;
    } else {
      hide Join;
      SplitJoin(parts[1..], c);
      JoinMore(parts, c);
      SplitFirst(parts[0], c, Join(parts[1..], c));
    }
  }

  lemma JoinMore(parts: seq<string>, c: char)
    requires |parts| > 1
    ensures Join(parts, c) == parts[0] + [c] + Join(parts[1..], c)
  {
  }

  lemma SplitFirst(a: string, c: char, b: string)
    requires c !in a
    ensures Split(a + [c] + b, c) == [a] + Split(b, c)
  {
    CutAt(a, c, b);
    var s := a + [c] + b;
    var i := FirstIndex(s, c);
    assert s[|a|] == c && forall j :: 0 <= j < |a| ==> s[j] == a[j] && a[j] in a;
    assert i == |a| && s[..i] == a && s[i + 1..] == b;
  }

  function CoreText(v: Version): string { Join([Decimal(v.major), Decimal(v.minor), Decimal(v.patch)], '.') }

  function Render(v: Version): string
    requires v.pre.Some? ==> v.pre.value != []
  {
    CoreText(v) + if v.pre.Some? then "-" + Join(v.pre.value, '.') else ""
  }

  predicate IsIdentifier(s: string) { forall i :: 0 <= i < |s| ==> IsIdentifierChar(s[i]) && s[i] != '.' }

  /** The versions the check accepts are all there to compare: each has a text that reads
      back as it. Empty identifiers are let through, but not a single empty one. */
  lemma RenderRoundTrip(v: Version)
    requires v.pre.Some? ==> v.pre.value != [] && v.pre.value != [""]
    requires v.pre.Some? ==> forall i :: 0 <= i < |v.pre.value| ==> IsIdentifier(v.pre.value[i])
    ensures Parse(Render(v)) == Some(v)
  {
    hide Split, Join, Decimal, DigitsValue, Cut;
    CoreReadsBack(v);
    var core := CoreText(v);
    if v.pre.Some? {
      var pre := Join(v.pre.value, '.');
      SplitJoin(v.pre.value, '.');
      JoinIsTail(v.pre.value);
      assert Render(v) == core + "-" + pre;
      CutAt(core, '-', pre);
      CutNone(Render(v), '+');
    } else {
      assert Render(v) == core;
      CutNone(core, '-');
      CutNone(core, '+');
    }
  }

  lemma CoreReadsBack(v: Version)
    ensures var core := CoreText(v);
      && core != "" && (forall i :: 0 <= i < |core| ==> IsDigit(core[i]) || core[i] == '.')
      && Split(core, '.') == [Decimal(v.major), Decimal(v.minor), Decimal(v.patch)]
      && IsCoreNumber(Decimal(v.major)) && IsCoreNumber(Decimal(v.minor)) && IsCoreNumber(Decimal(v.patch))
      && DigitsValue(Decimal(v.major)) == v.major && DigitsValue(Decimal(v.minor)) == v.minor
        && DigitsValue(Decimal(v.patch)) == v.patch
  {
    hide Decimal, DigitsValue, Split;
    DecimalIsCore(v.major);
    DecimalIsCore(v.minor);
    DecimalIsCore(v.patch);
    var parts := [Decimal(v.major), Decimal(v.minor), Decimal(v.patch)];
    SplitJoin(parts, '.');
    assert Join(parts, '.') == parts[0] + "." + (parts[1] + "." + parts[2]) by {
      assert parts[1..] == [parts[1], parts[2]] && parts[1..][1..] == [parts[2]];
      assert Join([parts[2]], '.') == parts[2];
      assert Join(parts[1..], '.') == parts[1] + "." + parts[2];
    }
  }

  lemma {:induction false} DecimalIsCore(n: nat)
    ensures IsCoreNumber(Decimal(n)) && DigitsValue(Decimal(n)) == n && '.' !in Decimal(n)
  {
    DecimalRoundTrip(n);
    NoLeadingZero(n);
  }

  lemma {:induction false} NoLeadingZero(n: nat)
    ensures Decimal(n) != "" && (n > 0 ==> Decimal(n)[0] != '0') && (n == 0 ==> Decimal(n) == "0")
  {
    if n >= 10 { NoLeadingZero(n / 10); }
  }

  lemma {:induction false} JoinIsTail(parts: seq<string>)
    requires parts != [] && forall i :: 0 <= i < |parts| ==> IsIdentifier(parts[i])
    ensures forall i :: 0 <= i < |Join(parts, '.')| ==> IsIdentifierChar(Join(parts, '.')[i])
    ensures parts != [""] ==> Join(parts, '.') != ""
  {
    if |parts| > 1 { JoinIsTail(parts[1..]); }
  }

  // ---------------------------------------------------------------- and nothing else is one

  /** Zero, or digits that do not begin with it. */
  predicate IsPlain(s: string) {
    s == "0" || (s != "" && s[0] != '0' && forall i :: 0 <= i < |s| ==> '0' <= s[i] <= '9')
  }

  /** Letters, digits, dots and dashes. */
  predicate IsDotted(s: string) {
    s != "" && forall i :: 0 <= i < |s| ==>
      '0' <= s[i] <= '9' || 'A' <= s[i] <= 'Z' || 'a' <= s[i] <= 'z' || s[i] == '.' || s[i] == '-'
  }

  lemma PlainIsCore(s: string)
    ensures IsPlain(s) <==> IsCoreNumber(s)
    ensures IsDotted(s) <==> IsTail(s)
  {
  }

  predicate CoreOk(core: seq<string>) { |core| == 3 && IsPlain(core[0]) && IsPlain(core[1]) && IsPlain(core[2]) }

  lemma PartsAreCore(core: seq<string>)
    requires |core| == 3
    ensures CoreOk(core) <==> IsCoreNumber(core[0]) && IsCoreNumber(core[1]) && IsCoreNumber(core[2])
  {
    PlainIsCore(core[0]);
    PlainIsCore(core[1]);
    PlainIsCore(core[2]);
  }

  /** Three numbers without leading zeros, then perhaps a pre-release, build metadata, and a
      line feed. */
  ghost predicate Spells(text: string, core: seq<string>, pre: Option<string>, build: Option<string>, feed: bool) {
    && CoreOk(core)
    && (pre.Some? ==> IsDotted(pre.value)) && (build.Some? ==> IsDotted(build.value))
    && text == FrontText(core, pre) + (if build.Some? then "+" + build.value else "") + if feed then "\n" else ""
  }

  function FrontText(core: seq<string>, pre: Option<string>): string
    requires |core| == 3
  {
    core[0] + "." + core[1] + "." + core[2] + if pre.Some? then "-" + pre.value else ""
  }

  function VersionOf(core: seq<string>, pre: Option<string>): Version
    requires CoreOk(core)
  {
    Version(DigitsValue(core[0]), DigitsValue(core[1]), DigitsValue(core[2]),
            if pre.Some? then Some(Split(pre.value, '.')) else None)
  }

  lemma {:induction false} JoinSplit(s: string, c: char)
    ensures Join(Split(s, c), c) == s
    ensures forall i :: 0 <= i < |Split(s, c)| ==> c !in Split(s, c)[i]
    decreases |s|
  {
    hide Join;
    var i := FirstIndex(s, c);
    if i == |s| {
      JoinOne(s, c);
    } else {
      JoinSplit(s[i + 1..], c);
      JoinMore([s[..i]] + Split(s[i + 1..], c), c);
      assert s == s[..i] + [c] + s[i + 1..];
    }
  }

  lemma JoinOne(s: string, c: char)
    ensures Join([s], c) == s
  {
  }

  lemma JoinThree(parts: seq<string>)
    requires |parts| == 3
    ensures Join(parts, '.') == parts[0] + "." + parts[1] + "." + parts[2]
  {
    assert parts[1..] == [parts[1], parts[2]] && parts[1..][1..] == [parts[2]];
    assert Join([parts[2]], '.') == parts[2];
    assert Join(parts[1..], '.') == parts[1] + "." + parts[2];
  }

  lemma CutParts(s: string, c: char)
    ensures var (a, b) := Cut(s, c); c !in a && s == a + if b.Some? then [c] + b.value else ""
  {
  }

  lemma CoreChars(core: seq<string>)
    requires CoreOk(core)
    ensures forall c :: c in FrontText(core, None) ==> IsDigit(c) || c == '.'
    ensures forall i :: 0 <= i < 3 ==> '.' !in core[i]
  {
    forall i | 0 <= i < 3 ensures '.' !in core[i] && forall c :: c in core[i] ==> IsDigit(c) {
      assert IsCoreNumber(core[i]) && AllDigits(core[i]);
    }
  }

  lemma FrontIsRead(core: seq<string>, pre: Option<string>)
    requires CoreOk(core) && (pre.Some? ==> IsDotted(pre.value))
    ensures ParseFront(FrontText(core, pre)) == Some(VersionOf(core, pre))
    ensures '+' !in FrontText(core, pre) && '\n' !in FrontText(core, pre)
  {
    hide Split, Join, DigitsValue, Cut, IsCoreNumber;
    PartsAreCore(core);
    CoreChars(core);
    JoinThree(core);
    if pre.Some? { PlainIsCore(pre.value); }
    SplitJoin(core, '.');
    var front := FrontText(core, None);
    assert front == Join(core, '.');
    if pre.Some? {
      assert FrontText(core, pre) == front + ['-'] + pre.value;
      CutAt(front, '-', pre.value);
    } else {
      assert FrontText(core, pre) == front;
      CutNone(front, '-');
    }
  }

  lemma FrontIsSpelled(front: string) returns (core: seq<string>, pre: Option<string>)
    requires ParseFront(front).Some?
    ensures CoreOk(core) && (pre.Some? ==> IsDotted(pre.value))
    ensures front == FrontText(core, pre) && ParseFront(front) == Some(VersionOf(core, pre))
  {
    hide Split, Join, DigitsValue, Cut, IsCoreNumber;
    var cut := Cut(front, '-');
    core, pre := Split(cut.0, '.'), cut.1;
    CutParts(front, '-');
    JoinSplit(cut.0, '.');
    PartsAreCore(core);
    if pre.Some? { PlainIsCore(pre.value); }
    JoinThree(core);
    assert front == cut.0 + if pre.Some? then "-" + pre.value else "";
  }

  /** Accepted are exactly these texts, and each is read as the version it spells. */
  lemma ParsesExactly(text: string, v: Version)
    ensures Parse(text) == Some(v) <==>
      exists core, pre, build, feed :: Spells(text, core, pre, build, feed) && v == VersionOf(core, pre)
  {
    hide ParseFront, Cut, FrontText, VersionOf, IsTail, IsCoreNumber;
    if Parse(text).Some? {
      var feed := text != "" && text[|text| - 1] == '\n';
      var s := if feed then text[..|text| - 1] else text;
      var (front, build) := Cut(s, '+');
      CutParts(s, '+');
      if build.Some? { PlainIsCore(build.value); }
      var core, pre := FrontIsSpelled(front);
      assert text == s + if feed then "\n" else "";
      assert Spells(text, core, pre, build, feed);
    }
    forall core, pre, build, feed | Spells(text, core, pre, build, feed) && v == VersionOf(core, pre)
      ensures Parse(text) == Some(v)
    {
      SpelledIsRead(text, core, pre, build, feed);
    }
  }

  lemma SpelledIsRead(text: string, core: seq<string>, pre: Option<string>, build: Option<string>, feed: bool)
    requires Spells(text, core, pre, build, feed)
    ensures Parse(text) == Some(VersionOf(core, pre))
  {
    hide ParseFront, Cut, FrontText, VersionOf, IsCoreNumber;
    FrontIsRead(core, pre);
    if build.Some? { PlainIsCore(build.value); }
    var front := FrontText(core, pre);
    var s := front + if build.Some? then "+" + build.value else "";
    if build.Some? {
      assert s == front + ['+'] + build.value;
      CutAt(front, '+', build.value);
      assert s[|s| - 1] == build.value[|build.value| - 1];
    } else {
      assert s == front;
      CutNone(front, '+');
    }
    assert s != "" && build.None? ==> s[|s| - 1] in front;
    assert s != "" ==> s[|s| - 1] != '\n';
    if feed {
      assert text == s + "\n" && text[..|text| - 1] == s && text[|text| - 1] == '\n';
    } else {
      assert text == s + "" == s;
    }
    assert Cut(s, '+') == (front, build);
  }
}
