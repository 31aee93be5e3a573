/** `git` command lines as src/git_evidence.rs reads them: the options before the
    subcommand, and the directory they lead to. */
module GitInvocation {
  import opened Wrappers
  import opened Text

  /** `~`, `$` and backquotes would need the shell; an empty target names nothing. */
  predicate IsLiteral(target: string) {
    target != "" && target[0] != '~' && '$' !in target && '`' !in target
  }

  /** `PathBuf::join` on Unix. */
  function Join(base: string, target: string): string {
    if target != "" && target[0] == '/' then target
    else if base == "" || base[|base| - 1] == '/' then base + target
    else base + "/" + target
  }

  function ResolveLiteralWorkdir(base: string, target: string): Option<string> {
    if IsLiteral(target) then Some(Join(base, target)) else None
  }

  predicate IsControl(c: char) { c as int < 0x20 || 0x7F <= c as int <= 0x9F }

  /** A `-c` setting may only set the committer's name or address. */
  predicate IsSafeIdentity(config: string) {
    var i := FirstIndex(config, '=');
    i < |config| && AsciiLower(config[..i]) in {"user.name", "user.email"}
    && forall j :: i < j < |config| ==> !IsControl(config[j])
  }

  datatype Invocation = Invocation(subcommand: string, args: seq<string>, cwd: string)

  /** The tokens after `git`, read from the left. */
  function GitFrom(tokens: seq<string>, cwd: string, allowIdentity: bool): Option<Invocation>
    decreases |tokens|
  {
    if tokens == [] then None
    else
      var t := tokens[0];
      if t == "-C" then
        if |tokens| < 2 then None
        else
          match ResolveLiteralWorkdir(cwd, tokens[1])
          case None => None
          case Some(dir) => GitFrom(tokens[2..], dir, allowIdentity)
      else if t == "-c" && allowIdentity then
        if |tokens| < 2 || !IsSafeIdentity(tokens[1]) then None
        else GitFrom(tokens[2..], cwd, allowIdentity)
      else if StartsWith(t, "-C") then
        match ResolveLiteralWorkdir(cwd, t[2..])
        case None => None
        case Some(dir) => GitFrom(tokens[1..], dir, allowIdentity)
      else if allowIdentity && StartsWith(t, "-c") then
        if IsSafeIdentity(t[2..]) then GitFrom(tokens[1..], cwd, allowIdentity) else None
      else if !StartsWith(t, "-") then Some(Invocation(t, tokens[1..], cwd))
      else None
  }

  function ReadInvocation(tokens: seq<string>, base: string, allowIdentity: bool): Option<Invocation> {
    if tokens == [] || tokens[0] != "git" then None else GitFrom(tokens[1..], base, allowIdentity)
  }

  /** `parse_git_invocation`, with its index and directory. */
  method ParseGitInvocation(tokens: seq<string>, base: string, allowIdentity: bool) returns (r: Option<Invocation>)
    ensures r == ReadInvocation(tokens, base, allowIdentity)
  {
    if tokens == [] || tokens[0] != "git" { return None; }
    var index, cwd := 1, base;
    while index < |tokens|
      invariant 1 <= index <= |tokens|
      invariant GitFrom(tokens[1..], base, allowIdentity) == GitFrom(tokens[index..], cwd, allowIdentity)
    {
      ghost var rest := tokens[index..];
      var t := tokens[index];
      assert rest[1..] == tokens[index + 1..];
      assert |rest| >= 2 ==> rest[1] == tokens[index + 1] && rest[2..] == tokens[index + 2..];
      if t == "-C" {
        if index + 1 >= |tokens| { return None; }
        match ResolveLiteralWorkdir(cwd, tokens[index + 1]) {
          case None => return None;
          case Some(dir) => cwd := dir;
        }
        index := index + 2;
      } else if t == "-c" && allowIdentity {
        if index + 1 >= |tokens| || !IsSafeIdentity(tokens[index + 1]) { return None; }
        index := index + 2;
      } else if StartsWith(t, "-C") {
        match ResolveLiteralWorkdir(cwd, t[2..]) {
          case None => return None;
          case Some(dir) => cwd := dir;
        }
        index := index + 1;
      } else if allowIdentity && StartsWith(t, "-c") {
        if !IsSafeIdentity(t[2..]) { return None; }
        index := index + 1;
      } else if !StartsWith(t, "-") {
        return Some(Invocation(t, tokens[index + 1..], cwd));
      } else {
        return None;
      }
    }
    return None;
  }

  // ---------------------------------------------------------------- the grammar it accepts

  /** The committer's name or address, and a value without control characters. */
  ghost predicate SetsIdentity(config: string) {
    exists key, value ::
      && config == key + "=" + value && '=' !in key && AsciiLower(key) in {"user.name", "user.email"}
      && Clean(value)
  }

  predicate Clean(value: string) {
    forall j :: 0 <= j < |value| ==> ' ' <= value[j] && !('\U{7F}' <= value[j] <= '\U{9F}')
  }

  lemma IdentityExactly(config: string)
    ensures IsSafeIdentity(config) <==> SetsIdentity(config)
  {
    hide AsciiLower, FirstIndex;
    var i := FirstIndex(config, '=');
    if i < |config| {
      var key, value := config[..i], config[i + 1..];
      assert config == key + "=" + value && '=' !in key;
      ValueOfSetting(config, key, value);
    }
    forall key, value | config == key + "=" + value && '=' !in key
      ensures i == |key| && config[..i] == key
      ensures (forall j :: i < j < |config| ==> !IsControl(config[j])) <==> Clean(value)
    {
      assert config[|key|] == '=' && config[..|key|] == key;
      assert i == |key|;
      ValueOfSetting(config, key, value);
    }
  }

  lemma ValueOfSetting(config: string, key: string, value: string)
    requires config == key + "=" + value
    ensures (forall j :: |key| < j < |config| ==> !IsControl(config[j])) <==> Clean(value)
  {
    assert forall j :: |key| < j < |config| ==> config[j] == value[j - |key| - 1];
    assert forall j :: 0 <= j < |value| ==> value[j] == config[j + |key| + 1];
  }

  datatype GlobalOption = Directory(dir: string, glued: bool) | Identity(config: string, glued: bool) {
    ghost predicate Ok(allowIdentity: bool) {
      match this
      case Directory(dir, _) => dir != "" && dir[0] != '~' && '$' !in dir && '`' !in dir
      case Identity(config, _) => allowIdentity && SetsIdentity(config)
    }

    function Render(): seq<string> {
      match this
      case Directory(dir, glued) => if glued then ["-C" + dir] else ["-C", dir]
      case Identity(config, glued) => if glued then ["-c" + config] else ["-c", config]
    }
  }

  ghost predicate OptionsOk(options: seq<GlobalOption>, allowIdentity: bool) {
    forall i :: 0 <= i < |options| ==> options[i].Ok(allowIdentity)
  }

  function RenderOptions(options: seq<GlobalOption>): seq<string> {
    if options == [] then [] else options[0].Render() + RenderOptions(options[1..])
  }

  /** Following the `-C` options one after the other. */
  function Enter(base: string, options: seq<GlobalOption>): string
    decreases |options|
  {
    if options == [] then base else Enter(After(base, options[0]), options[1..])
  }

  function After(base: string, o: GlobalOption): string {
    if o.Directory? then Join(base, o.dir) else base
  }

  predicate IsSubcommand(token: string) { !StartsWith(token, "-") }

  /** `tokens` are these options, then the subcommand and its arguments. */
  ghost predicate Spells(options: seq<GlobalOption>, tokens: seq<string>, allowIdentity: bool, base: string,
                         inv: Invocation)
  {
    && OptionsOk(options, allowIdentity) && IsSubcommand(inv.subcommand)
    && tokens == RenderOptions(options) + [inv.subcommand] + inv.args
    && inv.cwd == Enter(base, options)
  }

  lemma {:induction false} SpelledIsRead(options: seq<GlobalOption>, tokens: seq<string>, allowIdentity: bool,
          base: string, inv: Invocation)
    requires Spells(options, tokens, allowIdentity, base, inv)
    ensures GitFrom(tokens, base, allowIdentity) == Some(inv)
    decreases |options|
  {
    hide IsLiteral, IsSafeIdentity, Join, After, GitFrom, GlobalOption.Render, GlobalOption.Ok;
    if options == [] {
      assert tokens == [inv.subcommand] + inv.args;
      SubcommandIsRead(tokens, base, allowIdentity, inv);
    } else {
      var o, rest := options[0], RenderOptions(options[1..]) + [inv.subcommand] + inv.args;
      assert o.Ok(allowIdentity);
      assert tokens == o.Render() + rest;
      SpelledIsRead(options[1..], rest, allowIdentity, After(base, o), inv);
      OptionIsRead(o, rest, base, allowIdentity);
    }
  }

  lemma SubcommandIsRead(tokens: seq<string>, base: string, allowIdentity: bool, inv: Invocation)
    requires tokens == [inv.subcommand] + inv.args && IsSubcommand(inv.subcommand) && inv.cwd == base
    ensures GitFrom(tokens, base, allowIdentity) == Some(inv)
  {
    hide IsLiteral, IsSafeIdentity, Join;
    assert tokens[0] == inv.subcommand && tokens[1..] == inv.args;
  }

  lemma OptionIsRead(o: GlobalOption, rest: seq<string>, base: string, allowIdentity: bool)
    requires o.Ok(allowIdentity)
    ensures GitFrom(o.Render() + rest, base, allowIdentity) == GitFrom(rest, After(base, o), allowIdentity)
  {
    assert !IsSafeIdentity("");
    if o.Identity? { IdentityExactly(o.config); }
    hide IsSafeIdentity, SetsIdentity, Join;
    var tokens := o.Render() + rest;
    assert tokens[|o.Render()|..] == rest;
    assert o.Directory? && o.glued ==> tokens[0][2..] == o.dir;
    assert o.Identity? && o.glued ==> tokens[0][2..] == o.config;
  }

  /** The first option of a line that is read. */
  lemma FirstOption(tokens: seq<string>, base: string, allowIdentity: bool) returns (o: GlobalOption)
    requires tokens != [] && GitFrom(tokens, base, allowIdentity).Some? && !IsSubcommand(tokens[0])
    ensures o.Ok(allowIdentity) && |o.Render()| <= |tokens| && tokens[..|o.Render()|] == o.Render()
    ensures GitFrom(tokens, base, allowIdentity) == GitFrom(tokens[|o.Render()|..], After(base, o), allowIdentity)
  {
    hide IsSafeIdentity, SetsIdentity, Join;
    forall config ensures IsSafeIdentity(config) <==> SetsIdentity(config) { IdentityExactly(config); }
    var t := tokens[0];
    if t == "-C" { o := Directory(tokens[1], false); }
    else if t == "-c" && allowIdentity { o := Identity(tokens[1], false); }
    else if StartsWith(t, "-C") { o := Directory(t[2..], true); assert t == "-C" + t[2..]; }
    else { o := Identity(t[2..], true); assert t == "-c" + t[2..]; }
  }

  lemma {:induction false} ReadIsSpelled(tokens: seq<string>, base: string, allowIdentity: bool)
      returns (options: seq<GlobalOption>)
    requires GitFrom(tokens, base, allowIdentity).Some?
    ensures Spells(options, tokens, allowIdentity, base, GitFrom(tokens, base, allowIdentity).value)
    decreases |tokens|
  {
    hide GlobalOption.Render, GlobalOption.Ok, After, IsLiteral, IsSafeIdentity, Join, Spells, GitFrom, IsSubcommand,
      StartsWith;
    NonEmptyIsRead(tokens, base, allowIdentity);
    if IsSubcommand(tokens[0]) {
      options := [];
    } else {
      var o := FirstOption(tokens, base, allowIdentity);
      RenderNonEmpty(o);
      var n := |o.Render()|;
      var later := ReadIsSpelled(tokens[n..], After(base, o), allowIdentity);
      options := [o] + later;
      Prepend(o, later, tokens, base, allowIdentity, GitFrom(tokens, base, allowIdentity).value);
    }
  }

  lemma NonEmptyIsRead(tokens: seq<string>, base: string, allowIdentity: bool)
    requires GitFrom(tokens, base, allowIdentity).Some?
    ensures tokens != []
    ensures IsSubcommand(tokens[0]) ==>
      Spells([], tokens, allowIdentity, base, GitFrom(tokens, base, allowIdentity).value)
  {
    hide IsLiteral, IsSafeIdentity, Join;
    assert tokens == [tokens[0]] + tokens[1..];
  }

  lemma Prepend(o: GlobalOption, later: seq<GlobalOption>, tokens: seq<string>, base: string, allowIdentity: bool,
          inv: Invocation)
    requires o.Ok(allowIdentity) && |o.Render()| <= |tokens| && tokens[..|o.Render()|] == o.Render()
    requires Spells(later, tokens[|o.Render()|..], allowIdentity, After(base, o), inv)
    ensures Spells([o] + later, tokens, allowIdentity, base, inv)
  {
    hide GlobalOption.Render, GlobalOption.Ok, After, IsSubcommand;
    var n := |o.Render()|;
    assert ([o] + later)[1..] == later;
    assert tokens == tokens[..n] + tokens[n..];
  }

  lemma RenderNonEmpty(o: GlobalOption)
    ensures o.Render() != []
  {
  }

  /** A `git` line is read exactly when it spells global options, a subcommand and
      arguments, and then the directory is where its `-C` options lead. */
  lemma ReadsExactlyTheGrammar(tokens: seq<string>, base: string, allowIdentity: bool, inv: Invocation)
    ensures GitFrom(tokens, base, allowIdentity) == Some(inv)
      <==> exists options :: Spells(options, tokens, allowIdentity, base, inv)
  {
    if GitFrom(tokens, base, allowIdentity) == Some(inv) {
      var options := ReadIsSpelled(tokens, base, allowIdentity);
    }
    forall options | Spells(options, tokens, allowIdentity, base, inv)
      ensures GitFrom(tokens, base, allowIdentity) == Some(inv)
    {
      SpelledIsRead(options, tokens, allowIdentity, base, inv);
    }
  }

  // ---------------------------------------------------------------- where a directory leads

  /** The names along a path. */
  function Names(path: string): seq<string>
    decreases |path|
  {
    var i := FirstIndex(path, '/');
    (if i == 0 then [] else [path[..i]]) + if i == |path| then [] else Names(path[i + 1..])
  }

  lemma {:induction false} NamesApart(a: string, b: string)
    ensures Names(a + "/" + b) == Names(a) + Names(b)
    decreases |a|
  {
    hide Names, FirstIndex;
    var i := FirstIndex(a, '/');
    if i == |a| {
      OneName(a);
      FirstName(a, b);
    } else {
      assert a == a[..i] + "/" + a[i + 1..];
      assert a + "/" + b == a[..i] + "/" + (a[i + 1..] + "/" + b);
      FirstName(a[..i], a[i + 1..]);
      FirstName(a[..i], a[i + 1..] + "/" + b);
      NamesApart(a[i + 1..], b);
    }
  }

  lemma OneName(name: string)
    requires '/' !in name
    ensures Names(name) == if name == "" then [] else [name]
  {
    hide FirstIndex;
    assert name[..|name|] == name;
  }

  lemma FirstName(name: string, rest: string)
    requires '/' !in name
    ensures Names(name + "/" + rest) == (if name == "" then [] else [name]) + Names(rest)
  {
    hide FirstIndex;
    var s := name + "/" + rest;
    assert s[|name|] == '/' && forall j :: 0 <= j < |name| ==> s[j] == name[j];
    assert FirstIndex(s, '/') == |name| && s[..|name|] == name && s[|name| + 1..] == rest;
  }

  predicate IsAbsolute(path: string) { StartsWith(path, "/") }

  /** An absolute target is where it says, whatever the base; a relative one lies below it. */
  lemma JoinExactly(base: string, target: string)
    ensures Names(Join(base, target)) == if IsAbsolute(target) then Names(target) else Names(base) + Names(target)
    ensures IsAbsolute(Join(base, target)) <==> IsAbsolute(target) || IsAbsolute(base)
    ensures IsAbsolute(target) || base == "" ==> Join(base, target) == target
  {
    hide Names, Join;
    OneName("");
    JoinText(base, target);
    if !IsAbsolute(target) && base != "" {
      if base[|base| - 1] == '/' {
        var front := base[..|base| - 1];
        assert base == front + "/" + "" && base + target == front + "/" + target;
        NamesApart(front, "");
        NamesApart(front, target);
      } else {
        NamesApart(base, target);
      }
    }
  }

  lemma JoinText(base: string, target: string)
    ensures IsAbsolute(target) || base == "" ==> Join(base, target) == target
    ensures !IsAbsolute(target) && base != "" ==>
              && Join(base, target) == (if base[|base| - 1] == '/' then base + target else base + "/" + target)
              && (IsAbsolute(Join(base, target)) <==> IsAbsolute(base))
  {
    assert base == "" ==> base + target == target;
    assert base != "" ==> (base + target)[..1] == base[..1] && (base + "/" + target)[..1] == base[..1];
  }

  /** The `-C` options are followed from the first to the last, each from where those
      before it lead; an identity setting leads nowhere. */
  lemma {:induction false} LastOptionLeads(base: string, options: seq<GlobalOption>, o: GlobalOption)
    ensures o.Directory? && IsAbsolute(o.dir) ==> Enter(base, options + [o]) == o.dir
    ensures o.Directory? && !IsAbsolute(o.dir) ==>
              Names(Enter(base, options + [o])) == Names(Enter(base, options)) + Names(o.dir)
    ensures o.Identity? ==> Enter(base, options + [o]) == Enter(base, options)
    decreases |options|
  {
    hide Join, Names;
    if options == [] {
      assert options + [o] == [o] && [o][1..] == [];
      if o.Directory? { JoinExactly(base, o.dir); }
      EnterOne(base, o);
    } else {
      assert (options + [o])[1..] == options[1..] + [o];
      LastOptionLeads(After(base, options[0]), options[1..], o);
    }
  }

  lemma EnterOne(base: string, o: GlobalOption)
    ensures Enter(base, [o]) == After(base, o)
  {
    hide Join;
    assert [o][1..] == [];
    assert Enter(After(base, o), []) == After(base, o);
  }
}
