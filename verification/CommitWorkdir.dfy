/** `commit_workdir` of src/git_evidence.rs: which command lines are one supported commit,
    and in which directory it ran. */
module CommitWorkdir {
  import opened Wrappers
  import opened Text
  import ShellLexer
  import opened GitInvocation
  import CommitArguments
  import AddArguments

  type Segment = seq<string>

  /** The target of `cd dir` or `cd -- dir`. */
  function CdTarget(s: Segment): Option<string> {
    if |s| == 2 && s[0] == "cd" then Some(s[1])
    else if |s| == 3 && s[0] == "cd" && s[1] == "--" then Some(s[2])
    else None
  }

  predicate IsCd(s: Segment) { CdTarget(s).Some? && IsLiteral(CdTarget(s).value) }

  predicate IsAdd(s: Segment) {
    match ReadInvocation(s, ".", false)
    case None => false
    case Some(inv) => inv.subcommand == "add" && AddArguments.AddArgs(inv.args, false)
  }

  predicate IsStatus(s: Segment) { s == ["git", "status", "--short"] }

  function CommitIn(s: Segment, cwd: string, quiet: bool): Option<string> {
    match ReadInvocation(s, cwd, true)
    case None => None
    case Some(inv) =>
      if inv.subcommand == "commit" && CommitArguments.CommitArgs(inv.args, false, quiet) then Some(inv.cwd) else None
  }

  /** The loop over segments: `found` is the commit's directory once it was seen. */
  function Scan(segments: seq<Segment>, cwd: string, found: Option<string>, quiet: bool): Option<string>
    decreases |segments|
  {
    if segments == [] then found
    else
      var s, rest := segments[0], segments[1..];
      if found.Some? then (if IsStatus(s) then Scan(rest, cwd, found, quiet) else None)
      else if IsCd(s) then Scan(rest, Moved(cwd, s), None, quiet)
      else if IsAdd(s) then Scan(rest, cwd, None, quiet)
      else
        match CommitIn(s, cwd, quiet)
        case None => None
        case Some(dir) => Scan(rest, cwd, Some(dir), quiet)
  }

  predicate OnlyAnd(separators: seq<string>) { forall i :: 0 <= i < |separators| ==> separators[i] == "&&" }

  function Workdir(command: string, base: string, quiet: bool): Option<string> {
    match ShellLexer.Parse(command)
    case Err => None
    case Ok(p) => if p.unmodeled || !OnlyAnd(p.separators) then None else Scan(p.segments, base, None, quiet)
  }

  /** `commit_workdir`, segment by segment. */
  method FindCommitWorkdir(command: string, base: string, quiet: bool) returns (dir: Option<string>)
    ensures dir == Workdir(command, base, quiet)
  {
    var parsed := ShellLexer.ParseShellCommand(command);
    if parsed.Err? || parsed.value.unmodeled || !OnlyAnd(parsed.value.separators) { return None; }
    var segments := parsed.value.segments;
    var cwd := base;
    dir := None;
    var i := 0;
    assert segments[0..] == segments;
    while i < |segments|
      invariant 0 <= i <= |segments|
      invariant Scan(segments, base, None, quiet) == Scan(segments[i..], cwd, dir, quiet)
    {
      var s := segments[i];
      assert segments[i..][1..] == segments[i + 1..];
      i := i + 1;
      if dir.Some? {
        if !IsStatus(s) { return None; }
        continue;
      }
      if IsCd(s) {
        cwd := Join(cwd, CdTarget(s).value);
        continue;
      }
      var add := ParseGitInvocation(s, ".", false);
      if add.Some? && add.value.subcommand == "add" {
        var supported := AddArguments.AddArgsAreSupported(add.value.args);
        if supported { continue; }
      }
      var inv := ParseGitInvocation(s, cwd, true);
      if inv.None? || inv.value.subcommand != "commit" { return None; }
      var supported := CommitArguments.CommitArgsAreSupported(inv.value.args, quiet);
      if !supported { return None; }
      dir := Some(inv.value.cwd);
    }
  }

  // ---------------------------------------------------------------- what it means

  /** Following the `cd` segments one after the other; `git add` moves nowhere. */
  function Follow(base: string, segments: seq<Segment>): string
    decreases |segments|
  {
    if segments == [] then base
    else Follow(Moved(base, segments[0]), segments[1..])
  }

  function Moved(base: string, s: Segment): string {
    if IsCd(s) then Join(base, CdTarget(s).value) else base
  }

  /** A `cd` to a directory written out. */
  predicate CdTo(s: Segment, dir: string) {
    (s == ["cd", dir] || s == ["cd", "--", dir]) && dir != "" && dir[0] != '~' && '$' !in dir && '`' !in dir
  }

  ghost predicate SomeCd(s: Segment) { exists dir :: CdTo(s, dir) }

  /** A supported add: `-C` options, `add`, and supported arguments. */
  ghost predicate AddSpelled(s: Segment) {
    && s != [] && s[0] == "git"
    && exists options: seq<GlobalOption>, args: seq<string>, dir: string ::
         Spells(options, s[1..], false, ".", Invocation("add", args, dir)) && AddArguments.AddArgs(args, false)
  }

  lemma CdExactly(s: Segment)
    ensures IsCd(s) <==> SomeCd(s)
    ensures forall dir :: CdTo(s, dir) ==> CdTarget(s) == Some(dir)
  {
    if IsCd(s) { assert CdTo(s, CdTarget(s).value); }
  }

  lemma AddExactly(s: Segment)
    ensures IsAdd(s) <==> AddSpelled(s)
  {
    hide Spells, GitFrom;
    if s != [] && s[0] == "git" {
      if IsAdd(s) {
        var inv := ReadInvocation(s, ".", false).value;
        ReadsExactlyTheGrammar(s[1..], ".", false, inv);
        var options :| Spells(options, s[1..], false, ".", inv);
        assert inv == Invocation("add", inv.args, inv.cwd);
      }
      if AddSpelled(s) {
        var options: seq<GlobalOption>, args: seq<string>, dir: string :|
          Spells(options, s[1..], false, ".", Invocation("add", args, dir)) && AddArguments.AddArgs(args, false);
        SpelledIsRead(options, s[1..], false, ".", Invocation("add", args, dir));
      }
    }
  }

  lemma MovedExactly(base: string, s: Segment, dir: string)
    ensures CdTo(s, dir) ==> Moved(base, s) == Join(base, dir)
    ensures !SomeCd(s) ==> Moved(base, s) == base
  {
    hide Join;
    CdExactly(s);
  }

  /** The `cd`s are followed from the first to the last, each from where those before it
      lead; nothing else moves. */
  lemma {:induction false} LastCdLeads(base: string, segments: seq<Segment>, s: Segment, dir: string)
    ensures CdTo(s, dir) && IsAbsolute(dir) ==> Follow(base, segments + [s]) == dir
    ensures CdTo(s, dir) && !IsAbsolute(dir) ==>
              Names(Follow(base, segments + [s])) == Names(Follow(base, segments)) + Names(dir)
    ensures !SomeCd(s) ==> Follow(base, segments + [s]) == Follow(base, segments)
    decreases |segments|
  {
    hide Join, Names, IsCd, CdTarget, CdTo, SomeCd;
    if segments == [] {
      assert segments + [s] == [s] && [s][1..] == [];
      MovedExactly(base, s, dir);
      JoinExactly(base, dir);
      assert Follow(base, [s]) == Follow(Moved(base, s), []);
    } else {
      assert (segments + [s])[1..] == segments[1..] + [s];
      LastCdLeads(Moved(base, segments[0]), segments[1..], s, dir);
    }
  }

  /** A supported commit: global options, `commit`, and supported arguments. */
  ghost predicate CommitSpelled(s: Segment, cwd: string, quiet: bool, dir: string) {
    && s != [] && s[0] == "git"
    && exists options: seq<GlobalOption>, args: seq<string> ::
         Spells(options, s[1..], true, cwd, Invocation("commit", args, dir))
         && CommitArguments.CommitArgs(args, false, quiet)
  }

  /** One segment is the commit, literal `cd`s and supported `add`s stand before it,
      `git status --short` behind it, and the directory is where the `cd`s and then the
      commit's own `-C` options lead. */
  ghost predicate OneCommit(segments: seq<Segment>, at: nat, base: string, quiet: bool, dir: string) {
    && at < |segments|
    && (forall j :: 0 <= j < at ==> SomeCd(segments[j]) || AddSpelled(segments[j]))
    && CommitSpelled(segments[at], Follow(base, segments[..at]), quiet, dir)
    && (forall j :: at < j < |segments| ==> segments[j] == ["git", "status", "--short"])
  }

  lemma CommitInMeansSpelled(s: Segment, cwd: string, quiet: bool, dir: string)
    ensures CommitIn(s, cwd, quiet) == Some(dir) <==> CommitSpelled(s, cwd, quiet, dir)
  {
    if s != [] && s[0] == "git" {
      if CommitIn(s, cwd, quiet) == Some(dir) {
        var inv := ReadInvocation(s, cwd, true).value;
        ReadsExactlyTheGrammar(s[1..], cwd, true, inv);
        var options :| Spells(options, s[1..], true, cwd, inv);
        assert inv == Invocation("commit", inv.args, dir);
      }
      if CommitSpelled(s, cwd, quiet, dir) {
        var options: seq<GlobalOption>, args: seq<string> :|
          Spells(options, s[1..], true, cwd, Invocation("commit", args, dir))
          && CommitArguments.CommitArgs(args, false, quiet);
        SpelledIsRead(options, s[1..], true, cwd, Invocation("commit", args, dir));
      }
    }
  }

  /** An add is no commit: what reads without identity settings reads the same with them. */
  lemma {:induction false} IdentityOnlyAdds(tokens: seq<string>, cwd: string, base: string)
    requires GitFrom(tokens, cwd, false).Some?
    ensures GitFrom(tokens, base, true).Some?
    ensures GitFrom(tokens, base, true).value.subcommand == GitFrom(tokens, cwd, false).value.subcommand
    decreases |tokens|
  {
    var t := tokens[0];
    if t == "-C" {
      IdentityOnlyAdds(tokens[2..], Join(cwd, tokens[1]), Join(base, tokens[1]));
    } else if StartsWith(t, "-C") {
      assert t[..2][1] == 'C';
      IdentityOnlyAdds(tokens[1..], Join(cwd, t[2..]), Join(base, t[2..]));
    }
  }

  lemma KindsApart(s: Segment, cwd: string, quiet: bool)
    requires CommitIn(s, cwd, quiet).Some?
    ensures !IsCd(s) && !IsAdd(s)
  {
    if IsAdd(s) { IdentityOnlyAdds(s[1..], ".", cwd); }
  }

  lemma {:induction false} ScanAfterCommit(segments: seq<Segment>, cwd: string, dir: string, quiet: bool)
    ensures Scan(segments, cwd, Some(dir), quiet) == Some(dir)
      || Scan(segments, cwd, Some(dir), quiet) == None
    ensures Scan(segments, cwd, Some(dir), quiet).Some? <==> forall j :: 0 <= j < |segments| ==> IsStatus(segments[j])
    decreases |segments|
  {
    if segments != [] {
      ScanAfterCommit(segments[1..], cwd, dir, quiet);
      assert forall j :: 0 < j < |segments| ==> segments[j] == segments[1..][j - 1];
      assert forall j :: 0 <= j < |segments[1..]| ==> segments[1..][j] == segments[j + 1];
    }
  }

  lemma MovedOnlyByCd(base: string, s: Segment)
    ensures !IsCd(s) ==> Moved(base, s) == base
  {
  }

  lemma {:induction false} ScanFinds(segments: seq<Segment>, base: string, quiet: bool, dir: string) returns (at: nat)
    requires Scan(segments, base, None, quiet) == Some(dir)
    ensures OneCommit(segments, at, base, quiet, dir)
    decreases |segments|
  {
    hide ReadInvocation, CommitSpelled, Moved, IsCd, IsAdd, CommitIn, SomeCd, AddSpelled;
    var s, rest := segments[0], segments[1..];
    CdExactly(s);
    AddExactly(s);
    MovedOnlyByCd(base, s);
    if IsCd(s) || IsAdd(s) {
      var next := Moved(base, s);
      at := ScanFinds(rest, next, quiet, dir);
      assert segments[..at + 1][1..] == rest[..at];
      assert Follow(base, segments[..at + 1]) == Follow(next, rest[..at]);
      at := at + 1;
    } else {
      at := 0;
      var here := CommitIn(s, base, quiet).value;
      ScanAfterCommit(rest, base, here, quiet);
      CommitInMeansSpelled(s, base, quiet, here);
      assert segments[..0] == [];
      assert forall j :: 0 < j < |segments| ==> segments[j] == rest[j - 1];
    }
  }

  lemma {:induction false} ScanAccepts(segments: seq<Segment>, at: nat, base: string, quiet: bool, dir: string)
    requires OneCommit(segments, at, base, quiet, dir)
    ensures Scan(segments, base, None, quiet) == Some(dir)
    decreases at
  {
    hide ReadInvocation, CommitSpelled, Moved, IsCd, IsAdd, CommitIn, SomeCd, AddSpelled;
    var s, rest := segments[0], segments[1..];
    CdExactly(s);
    AddExactly(s);
    MovedOnlyByCd(base, s);
    if at == 0 {
      assert segments[..0] == [];
      CommitInMeansSpelled(s, base, quiet, dir);
      KindsApart(s, base, quiet);
      ScanAfterCommit(rest, base, dir, quiet);
    } else {
      var next := Moved(base, s);
      assert segments[..at][1..] == rest[..at - 1];
      ScanAccepts(rest, at - 1, next, quiet, dir);
    }
  }

  /** A directory is found exactly for a command line that parses with nothing unmodelled
      and only `&&`, and that is one supported commit among its allowed neighbours. */
  lemma FoundExactlyForOneCommit(command: string, base: string, quiet: bool, dir: string)
    ensures Workdir(command, base, quiet) == Some(dir) <==>
      match ShellLexer.Parse(command)
      case Err => false
      case Ok(p) =>
        && !p.unmodeled && (forall i :: 0 <= i < |p.separators| ==> p.separators[i] == "&&")
        && exists at :: OneCommit(p.segments, at, base, quiet, dir)
  {
    match ShellLexer.Parse(command)
    case Err =>
    case Ok(p) =>
      if Scan(p.segments, base, None, quiet) == Some(dir) {
        var at := ScanFinds(p.segments, base, quiet, dir);
      }
      forall at | OneCommit(p.segments, at, base, quiet, dir) ensures Scan(p.segments, base, None, quiet) == Some(dir) {
        ScanAccepts(p.segments, at, base, quiet, dir);
      }
  }

  /** Whatever is found with `--quiet` refused is found with it allowed, in the same place. */
  lemma QuietOnlyAdds(command: string, base: string, dir: string)
    requires Workdir(command, base, false) == Some(dir)
    ensures Workdir(command, base, true) == Some(dir)
  {
    FoundExactlyForOneCommit(command, base, false, dir);
    var segments := ShellLexer.Parse(command).value.segments;
    var at: nat :| OneCommit(segments, at, base, false, dir);
    var cwd := Follow(base, segments[..at]);
    var options: seq<GlobalOption>, args: seq<string> :|
      Spells(options, segments[at][1..], true, cwd, Invocation("commit", args, dir))
      && CommitArguments.CommitArgs(args, false, false);
    CommitArguments.QuietOnlyAdds(args);
    assert OneCommit(segments, at, base, true, dir);
    FoundExactlyForOneCommit(command, base, true, dir);
  }
}
