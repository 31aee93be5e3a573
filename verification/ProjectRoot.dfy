/** Finding the worktree a directory belongs to from `.git` markers alone
    (src/project_id.rs). Devices, markers and the slower resolver are parameters. */
module ProjectRoot {
  import opened Wrappers
  import opened Text

  /** The components of an absolute path; its ancestors are its prefixes. */
  type Path = seq<string>

  /** The `.git` entry of a directory: a plain repository, something else, not there, or
      not to be read. */
  datatype Marker = Missing | Plain | Other | Unreadable

  datatype World = World(device: Path -> Option<int>, marker: Path -> Marker)

  datatype Discovery = Worktree(root: Path) | RequiresResolver | NoMarker

  function Walk(w: World, cwd: Path, k: nat, device: int): Discovery
    requires k <= |cwd|
  {
    if w.device(cwd[..k]) != Some(device) then RequiresResolver
    else
      match w.marker(cwd[..k])
      case Plain => Worktree(cwd[..k])
      case Other => RequiresResolver
      case Unreadable => RequiresResolver
      case Missing => if k == 0 then NoMarker else Walk(w, cwd, k - 1, device)
  }

  function Discover(w: World, cwd: Path): Discovery {
    if w.device(cwd).None? then RequiresResolver else Walk(w, cwd, |cwd|, w.device(cwd).value)
  }

  method GitWorktreeRootFromMarkers(w: World, cwd: Path) returns (d: Discovery)
    ensures d == Discover(w, cwd)
  {
    var starting := w.device(cwd);
    if starting.None? { return RequiresResolver; }
    var k := |cwd|;
    while true
      invariant 0 <= k <= |cwd| && Discover(w, cwd) == Walk(w, cwd, k, starting.value)
      decreases k
    {
      var candidate := cwd[..k];
      if w.device(candidate) != starting { return RequiresResolver; }
      match w.marker(candidate) {
        case Missing =>
        case Unreadable => return RequiresResolver;
        case Plain => return Worktree(candidate);
        case Other => return RequiresResolver;
      }
      if k == 0 { return NoMarker; }
      k := k - 1;
    }
  }

  /** From `r` down to `cwd` there is one device, and no marker below `r`. */
  ghost predicate ClearBelow(w: World, cwd: Path, r: nat) {
    && r <= |cwd| && w.device(cwd).Some?
    && (forall k :: r <= k <= |cwd| ==> w.device(cwd[..k]) == w.device(cwd))
    && (forall k :: r < k <= |cwd| ==> w.marker(cwd[..k]).Missing?)
  }

  lemma {:induction false} WalkIs(w: World, cwd: Path, k: nat, device: int, root: Path)
    requires k <= |cwd|
    ensures Walk(w, cwd, k, device) == Worktree(root) <==>
      && |root| <= k && root == cwd[..|root|] && w.marker(root).Plain?
      && (forall i :: |root| <= i <= k ==> w.device(cwd[..i]) == Some(device))
      && (forall i :: |root| < i <= k ==> w.marker(cwd[..i]).Missing?)
    ensures Walk(w, cwd, k, device).NoMarker? <==>
      && (forall i :: 0 <= i <= k ==> w.device(cwd[..i]) == Some(device))
      && (forall i :: 0 <= i <= k ==> w.marker(cwd[..i]).Missing?)
    decreases k
  {
    if w.device(cwd[..k]) == Some(device) && w.marker(cwd[..k]).Missing? && k > 0 {
      WalkIs(w, cwd, k - 1, device, root);
    } else {
      assert k <= |root| && |root| <= k && root == cwd[..|root|] ==> root == cwd[..k];
    }
  }

  /** A worktree is found exactly at the nearest ancestor with a marker, when that marker is
      plain and no device changes on the way; none is found exactly when no ancestor has a
      marker and no device changes. */
  lemma DiscoversNearest(w: World, cwd: Path, root: Path)
    ensures Discover(w, cwd) == Worktree(root)
      <==> ClearBelow(w, cwd, |root|) && root == cwd[..|root|] && w.marker(root).Plain?
    ensures Discover(w, cwd).NoMarker? <==> ClearBelow(w, cwd, 0) && w.marker([]).Missing?
  {
    assert cwd[..|cwd|] == cwd && cwd[..0] == [];
    if w.device(cwd).Some? { WalkIs(w, cwd, |cwd|, w.device(cwd).value, root); }
  }

  /** Directories under one root share it: with a root found from `cwd`, another directory
      under it finds the same exactly when nothing in between has a marker or another device. */
  lemma NestedShareRoot(w: World, cwd: Path, other: Path, root: Path)
    requires Discover(w, cwd) == Worktree(root) && |root| <= |other| && other[..|root|] == root
    ensures Discover(w, other) == Worktree(root) <==> ClearBelow(w, other, |root|)
    ensures Discover(w, other) == Worktree(root) ==> w.device(other) == w.device(cwd)
    ensures Discover(w, root) == Worktree(root)
  {
    hide Discover;
    DiscoversNearest(w, cwd, root);
    DiscoversNearest(w, other, root);
    DiscoversNearest(w, root, root);
    assert root[..|root|] == root && cwd[..|root|] == root;
    assert forall k :: |root| <= k <= |root| ==> root[..k] == root;
  }

  /** A directory inside another repository never joins the outer one. */
  lemma InnerRepositoryStaysApart(w: World, cwd: Path, inner: nat, root: Path)
    requires inner <= |cwd| && !w.marker(cwd[..inner]).Missing? && Discover(w, cwd) == Worktree(root)
    ensures |root| >= inner
  {
    hide Discover;
    DiscoversNearest(w, cwd, root);
  }

  /** The resolver's answer counts where markers do not settle it. */
  function CanonicalRoot(w: World, cwd: Path, environmentDecides: bool, resolve: Path -> Option<Path>,
          canonical: Path -> Path): Path
  {
    var asked := if resolve(cwd).Some? then canonical(resolve(cwd).value) else cwd;
    if environmentDecides then asked
    else
      match Discover(w, cwd)
      case Worktree(root) => root
      case RequiresResolver => asked
      case NoMarker => cwd
  }

  /** The nearest ancestor with a marker, and the marker is plain, on one device all the way. */
  ghost predicate MarkedRoot(w: World, cwd: Path, root: Path) {
    ClearBelow(w, cwd, |root|) && root == cwd[..|root|] && w.marker(root).Plain?
  }

  ghost predicate Unmarked(w: World, cwd: Path) { ClearBelow(w, cwd, 0) && w.marker([]).Missing? }

  /** Which root a directory is given: the one its markers settle, if the environment leaves
      it to them; itself, if it has no markers; and else the resolver's, put into canonical
      form, or itself where the resolver has none. */
  lemma RootExactly(w: World, cwd: Path, environmentDecides: bool, resolve: Path -> Option<Path>,
          canonical: Path -> Path, root: Path)
    ensures !environmentDecides && MarkedRoot(w, cwd, root) ==>
              CanonicalRoot(w, cwd, environmentDecides, resolve, canonical) == root
    ensures !environmentDecides && Unmarked(w, cwd) ==>
              CanonicalRoot(w, cwd, environmentDecides, resolve, canonical) == cwd
    ensures environmentDecides || (!Unmarked(w, cwd) && forall other :: !MarkedRoot(w, cwd, other)) ==>
              && (resolve(cwd) == Some(root) ==>
                    CanonicalRoot(w, cwd, environmentDecides, resolve, canonical) == canonical(root))
              && (resolve(cwd) == None ==> CanonicalRoot(w, cwd, environmentDecides, resolve, canonical) == cwd)
  {
    hide Discover, ClearBelow;
    DiscoversNearest(w, cwd, root);
    if Discover(w, cwd).Worktree? {
      DiscoversNearest(w, cwd, Discover(w, cwd).root);
      assert MarkedRoot(w, cwd, Discover(w, cwd).root);
    }
  }

  /** Where markers settle it, the root is an ancestor, and is its own root; and all
      directories of one clear worktree are one project. */
  lemma RootIsItsOwnRoot(w: World, cwd: Path, other: Path, resolve: Path -> Option<Path>, canonical: Path -> Path)
    requires !Discover(w, cwd).RequiresResolver?
    ensures var root := CanonicalRoot(w, cwd, false, resolve, canonical);
      && |root| <= |cwd| && cwd[..|root|] == root
      && CanonicalRoot(w, root, false, resolve, canonical) == root
      && ((Discover(w, cwd).Worktree? && |root| <= |other| && other[..|root|] == root
        && ClearBelow(w, other, |root|)) ==>
            CanonicalRoot(w, other, false, resolve, canonical) == root)
  {
    hide Discover, ClearBelow;
    assert cwd[..|cwd|] == cwd;
    if Discover(w, cwd).Worktree? {
      var root := Discover(w, cwd).root;
      DiscoversNearest(w, cwd, root);
      RootIsPrefix(w, cwd, root);
      NestedShareRoot(w, cwd, cwd, root);
      if |root| <= |other| && other[..|root|] == root { NestedShareRoot(w, cwd, other, root); }
    }
  }

  lemma RootIsPrefix(w: World, cwd: Path, root: Path)
    requires ClearBelow(w, cwd, |root|) && root == cwd[..|root|]
    ensures |root| <= |cwd|
  {
  }

  // ---------------------------------------------------------------- repository configuration

  /** A line as the reader takes it. */
  datatype Line = Skipped | Unclosed | Section(name: string) | Setting(key: string, value: string)

  function FirstWord(s: string): string {
    var t := s[LeadingRun(s, c => IsWhitespace(c))..];
    t[..LeadingRun(t, c => !IsWhitespace(c))]
  }

  function ReadLine(raw: string): Line {
    var line := Trim(raw);
    if line == "" || line[0] in "#;" then Skipped
    else if line[0] == '[' then
      var end := FirstIndex(line, ']');
      if end == |line| then Unclosed else Section(FirstWord(line[1..end]))
    else
      var k := KeyLength(line);
      Setting(Trim(line[..k]), ValueIn(if k < |line| then line[k + 1..] else ""))
  }

  function KeyLength(line: string): (k: nat)
    ensures k <= |line| && (forall i :: 0 <= i < k ==> line[i] != '=' && !IsWhitespace(line[i]))
    ensures k < |line| ==> line[k] == '=' || IsWhitespace(line[k])
  {
    LeadingRun(line, c => c != '=' && !IsWhitespace(c))
  }

  function EqualsLength(s: string): (k: nat)
    ensures k <= |s| && (forall i :: 0 <= i < k ==> s[i] == '=') && (k < |s| ==> s[k] != '=')
  {
    LeadingRun(s, c => c == '=')
  }

  /** Equals signs in front of a value are passed over. */
  function ValueIn(rest: string): string { Trim(Trim(rest)[EqualsLength(Trim(rest))..]) }

  predicate Same(a: string, lower: string) { AsciiLower(a) == lower }

  /** A line that needs the resolver wherever it stands. */
  predicate StopsAnywhere(l: Line) {
    l.Unclosed? || (l.Section? && (Same(l.name, "include") || Same(l.name, "includeif")))
  }

  /** A setting that needs the resolver in `section`. */
  predicate StopsIn(section: string, l: Line) {
    l.Setting? &&
    ( || (Same(section, "core") && Same(l.key, "worktree"))
      || (Same(section, "core") && Same(l.key, "bare") && AsciiLower(l.value) !in {"false", "no", "off", "0"})
      || Same(section, "extensions"))
  }

  /** The section in force after the first `n` lines: that of the last header among them. */
  function SectionAt(lines: seq<string>, n: nat): string
    requires n <= |lines|
  {
    if n == 0 then ""
    else if ReadLine(lines[n - 1]).Section? then ReadLine(lines[n - 1]).name
    else SectionAt(lines, n - 1)
  }

  predicate Stops(lines: seq<string>, i: nat)
    requires i < |lines|
  {
    StopsAnywhere(ReadLine(lines[i])) || StopsIn(SectionAt(lines, i), ReadLine(lines[i]))
  }

  predicate RequiresGit(lines: seq<string>) { exists i: nat :: i < |lines| && Stops(lines, i) }

  /** One pass over the lines, the section carried along. */
  method GitConfigRequiresResolver(contents: string) returns (r: bool)
    ensures r <==> RequiresGit(Lines(contents))
  {
    hide ReadLine, StopsAnywhere, StopsIn;
    var lines := Lines(contents);
    var section := "";
    for i := 0 to |lines|
      invariant section == SectionAt(lines, i)
      invariant forall k: nat :: k < i ==> !Stops(lines, k)
    {
      var line := ReadLine(lines[i]);
      if StopsAnywhere(line) {
        assert Stops(lines, i);
        return true;
      }
      if line.Section? {
        NoSettingStops(section, line);
        section := line.name;
      } else if StopsIn(section, line) {
        assert Stops(lines, i);
        return true;
      }
    }
    return false;
  }

  lemma NoSettingStops(section: string, l: Line)
    requires l.Section?
    ensures !StopsIn(section, l)
  {
  }

  /** More lines never make a configuration simpler. */
  lemma MoreLinesStillRequire(a: seq<string>, b: seq<string>)
    requires RequiresGit(a)
    ensures RequiresGit(a + b)
  {
    hide ReadLine, StopsAnywhere, StopsIn;
    var i: nat :| i < |a| && Stops(a, i);
    SamePrefixSameSection(a, b, i);
    assert Stops(a + b, i);
  }

  lemma {:induction false} SamePrefixSameSection(a: seq<string>, b: seq<string>, n: nat)
    requires n <= |a|
    ensures SectionAt(a + b, n) == SectionAt(a, n)
  {
    hide ReadLine;
    if n > 0 { SamePrefixSameSection(a, b, n - 1); }
  }

  // ---------------------------------------------------------------- what a line says

  predicate AllWhite(s: string) { forall i :: 0 <= i < |s| ==> IsWhitespace(s[i]) }

  predicate NoWhite(s: string) { forall i :: 0 <= i < |s| ==> !IsWhitespace(s[i]) }

  /** No white space at either end. */
  predicate Tight(s: string) { s != "" && !IsWhitespace(s[0]) && !IsWhitespace(s[|s| - 1]) }

  lemma TrimsTo(front: string, s: string, back: string)
    requires AllWhite(front) && AllWhite(back) && (s == "" || Tight(s))
    ensures Trim(front + s + back) == s
  {
    hide TrimMatches, IsWhitespace;
    TrimAround(front, s, back, c => IsWhitespace(c));
  }

  /** A blank line and a comment say nothing. */
  lemma CommentIsSkipped(front: string, comment: string, back: string)
    requires AllWhite(front) && AllWhite(back) && (comment == "" || (Tight(comment) && comment[0] in "#;"))
    ensures ReadLine(front + comment + back) == Skipped
  {
    hide Trim, IsWhitespace;
    TrimsTo(front, comment, back);
  }

  /** A header names the section whose name is the first word in its brackets; without a
      closing bracket it is no header. */
  lemma HeaderIsRead(front: string, gap: string, name: string, more: string, behind: string, back: string)
    requires AllWhite(front) && AllWhite(back) && AllWhite(gap) && NoWhite(name)
    requires (name == "" ==> more == "") && (more != "" ==> IsWhitespace(more[0]))
    requires ']' !in name + more && (behind != "" ==> !IsWhitespace(behind[|behind| - 1]))
    ensures ReadLine(front + ("[" + gap + name + more + "]" + behind) + back) == Section(name)
  {
    hide Trim, IsWhitespace, FirstWord;
    assert IsWhitespace(' ') && !IsWhitespace('[') && !IsWhitespace(']') by { BracketsAreTight(); }
    var inside := gap + name + more;
    var line := "[" + inside + "]" + behind;
    assert "[" + gap + name + more + "]" + behind == line;
    TrimsTo(front, line, back);
    NoBracket(gap);
    assert ']' !in inside;
    ClosesAt(inside, behind);
    FirstWordIs(gap, name, more);
  }

  lemma BracketsAreTight()
    ensures IsWhitespace(' ') && !IsWhitespace('[') && !IsWhitespace(']') && !IsWhitespace('=')
  {
  }

  lemma NoBracket(gap: string)
    requires AllWhite(gap)
    ensures ']' !in gap
  {
    hide IsWhitespace;
    BracketsAreTight();
  }

  lemma ClosesAt(inside: string, behind: string)
    requires ']' !in inside
    ensures var line := "[" + inside + "]" + behind;
      FirstIndex(line, ']') == |inside| + 1 && line[1..|inside| + 1] == inside
  {
    hide FirstIndex;
    var line := "[" + inside + "]" + behind;
    assert line[|inside| + 1] == ']';
    assert forall j :: 1 <= j < |inside| + 1 ==> line[j] == inside[j - 1];
  }

  lemma FirstWordIs(gap: string, name: string, more: string)
    requires AllWhite(gap) && NoWhite(name) && (name == "" ==> more == "") && (more != "" ==> IsWhitespace(more[0]))
    ensures FirstWord(gap + name + more) == name
  {
    hide LeadingRun, IsWhitespace;
    var s := gap + name + more;
    var i := LeadingRun(s, c => IsWhitespace(c));
    assert forall k :: 0 <= k < |gap| ==> s[k] == gap[k];
    assert name != "" ==> s[|gap|] == name[0];
    assert i == |gap|;
    var t := s[i..];
    assert t == name + more;
    assert forall k :: 0 <= k < |name| ==> t[k] == name[k];
    assert more != "" ==> t[|name|] == more[0];
    assert LeadingRun(t, c => !IsWhitespace(c)) == |name|;
  }

  lemma UnclosedIsRead(front: string, line: string, back: string)
    requires AllWhite(front) && AllWhite(back) && Tight(line) && line[0] == '[' && ']' !in line
    ensures ReadLine(front + line + back) == Unclosed
  {
    hide Trim, IsWhitespace, FirstIndex;
    TrimsTo(front, line, back);
  }

  predicate AllEquals(s: string) { forall i :: 0 <= i < |s| ==> s[i] == '=' }

  /** A setting is a key and a value with an equals sign or white space between, or both. */
  lemma SettingIsRead(front: string, key: string, gap: string, equals: string, gap2: string, value: string,
          back: string)
    requires AllWhite(front) && AllWhite(back) && AllWhite(gap) && AllWhite(gap2) && AllEquals(equals)
    requires key != "" && NoWhite(key) && '=' !in key && key[0] !in "#;[" && gap + equals != ""
    requires Tight(value) && value[0] != '='
    ensures ReadLine(front + (key + gap + equals + gap2 + value) + back) == Setting(key, value)
  {
    hide Trim, IsWhitespace, KeyLength, ValueIn;
    var line := key + gap + equals + gap2 + value;
    assert line[0] == key[0] && line[|line| - 1] == value[|value| - 1];
    TrimsTo(front, line, back);
    KeyEnds(key, gap, equals, gap2 + value);
    assert line == key + gap + equals + (gap2 + value);
    assert line[..|key|] == key && "" + key + "" == key;
    TrimsTo("", key, "");
    BehindKey(key, gap, equals, gap2, value);
  }

  lemma KeyEnds(key: string, gap: string, equals: string, behind: string)
    requires NoWhite(key) && '=' !in key && AllWhite(gap) && AllEquals(equals) && gap + equals != ""
    ensures KeyLength(key + gap + equals + behind) == |key|
  {
    hide KeyLength, IsWhitespace;
    var line := key + gap + equals + behind;
    assert forall k :: 0 <= k < |key| ==> line[k] == key[k];
    assert line[|key|] == if gap != "" then gap[0] else equals[0];
  }

  lemma BehindKey(key: string, gap: string, equals: string, gap2: string, value: string)
    requires AllWhite(gap) && AllWhite(gap2) && AllEquals(equals) && gap + equals != ""
    requires Tight(value) && value[0] != '='
    ensures ValueIn((key + gap + equals + gap2 + value)[|key| + 1..]) == value
  {
    hide ValueIn, IsWhitespace;
    var rest := (key + gap + equals + gap2 + value)[|key| + 1..];
    if gap != "" {
      assert rest == gap[1..] + equals + gap2 + value;
      ValueIs(gap[1..], equals, gap2, value);
    } else {
      assert rest == "" + equals[1..] + gap2 + value;
      ValueIs("", equals[1..], gap2, value);
    }
  }

  lemma ValueIs(gap: string, equals: string, gap2: string, value: string)
    requires AllWhite(gap) && AllWhite(gap2) && AllEquals(equals) && Tight(value) && value[0] != '='
    ensures ValueIn(gap + equals + gap2 + value) == value
  {
    hide Trim, IsWhitespace, EqualsLength;
    BracketsAreTight();
    if equals == "" {
      assert gap + equals + gap2 + value == (gap + gap2) + value + "";
      TrimsTo(gap + gap2, value, "");
      assert EqualsLength(value) == 0 && value[0..] == "" + value + "";
      TrimsTo("", value, "");
    } else {
      var v := equals + gap2 + value;
      assert gap + equals + gap2 + value == gap + v + "";
      assert v[0] == '=' && v[|v| - 1] == value[|value| - 1];
      TrimsTo(gap, v, "");
      EqualsEnd(equals, gap2 + value);
      assert v == equals + (gap2 + value) && v[|equals|..] == gap2 + value + "";
      assert gap2 != "" ==> (gap2 + value)[0] == gap2[0];
      TrimsTo(gap2, value, "");
    }
  }

  lemma EqualsEnd(equals: string, behind: string)
    requires AllEquals(equals) && behind != ""
    ensures behind[0] != '=' ==> EqualsLength(equals + behind) == |equals|
  {
    hide EqualsLength;
    var s := equals + behind;
    assert s[|equals|] == behind[0] && forall k :: 0 <= k < |equals| ==> s[k] == equals[k];
  }

  /** The last header before line `i`, or none. */
  ghost predicate InSection(lines: seq<string>, i: nat, section: string)
    requires i <= |lines|
  {
    || (section == "" && forall j :: 0 <= j < i ==> !ReadLine(lines[j]).Section?)
    || exists h :: 0 <= h < i && ReadLine(lines[h]) == Section(section)
                   && forall j :: h < j < i ==> !ReadLine(lines[j]).Section?
  }

  /** A header left open or of an included file; a worktree, a `bare` that is not off, or
      anything among the extensions. */
  predicate NeedsGit(section: string, line: Line) {
    match line
    case Skipped => false
    case Unclosed => true
    case Section(name) => AsciiLower(name) in {"include", "includeif"}
    case Setting(key, value) =>
      || AsciiLower(section) == "extensions"
      || (AsciiLower(section) == "core"
          && (AsciiLower(key) == "worktree"
              || (AsciiLower(key) == "bare" && AsciiLower(value) !in {"false", "no", "off", "0"})))
  }

  lemma {:induction false} SectionIs(lines: seq<string>, n: nat)
    requires n <= |lines|
    ensures InSection(lines, n, SectionAt(lines, n))
  {
    hide ReadLine;
    if n > 0 { SectionIs(lines, n - 1); }
  }

  lemma OneSection(lines: seq<string>, n: nat, a: string, b: string)
    requires n <= |lines| && InSection(lines, n, a) && InSection(lines, n, b)
    ensures a == b
  {
    hide ReadLine;
  }

  /** A configuration needs git to read it exactly if some line does under the last header
      before it. */
  lemma RequiresExactly(lines: seq<string>)
    ensures RequiresGit(lines) <==>
      exists i: nat, section :: i < |lines| && InSection(lines, i, section) && NeedsGit(section, ReadLine(lines[i]))
  {
    hide ReadLine, InSection, AsciiLower;
    forall i: nat | i < |lines| ensures Stops(lines, i) <==> NeedsGit(SectionAt(lines, i), ReadLine(lines[i])) {}
    forall i: nat | i < |lines| ensures InSection(lines, i, SectionAt(lines, i)) { SectionIs(lines, i); }
    forall i: nat, section | i < |lines| && InSection(lines, i, section) ensures section == SectionAt(lines, i) {
      SectionIs(lines, i);
      OneSection(lines, i, section, SectionAt(lines, i));
    }
  }
}
