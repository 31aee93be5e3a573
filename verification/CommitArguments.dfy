/** The arguments of `git commit` that src/git_evidence.rs supports: the recogniser, and
    the grammar it is proved to accept exactly. */
module CommitArguments {
  import opened Wrappers
  import opened Text

  predicate IsMessageOption(name: string) { name in {"--message", "--file", "--reuse-message"} }

  predicate IsPlainOption(name: string) {
    name in {"--author", "--date", "--cleanup", "--trailer", "--pathspec-from-file"}
  }

  predicate IsSwitch(name: string) {
    name in {"--all", "--amend", "--allow-empty", "--allow-empty-message", "--no-verify", "--signoff",
             "--reset-author", "--include", "--only", "--no-post-rewrite", "--no-gpg-sign", "--pathspec-file-nul"}
  }

  /** `--fixup=amend:` and `--fixup=reword:` open an editor. */
  predicate IsFixupTarget(target: string) {
    target != "" && !StartsWith(target, "amend:") && !StartsWith(target, "reword:")
  }

  predicate IsShortFlag(c: char, quiet: bool) { c in "ansio" || (c == 'q' && quiet) }

  predicate IsShortMessage(c: char) { c in "mFC" }

  /** The letters after one dash: how many arguments they take, and whether they name a
      message. */
  function ShortOptions(letters: string, hasNext: bool, quiet: bool): (r: Option<(nat, bool)>)
    ensures r.Some? ==> 1 <= r.value.0 <= 2 && (r.value.0 == 2 ==> hasNext)
  {
    if letters == "" then Some((1, false))
    else if IsShortFlag(letters[0], quiet) then ShortOptions(letters[1..], hasNext, quiet)
    else if IsShortMessage(letters[0]) then
      if |letters| > 1 then Some((1, true)) else if hasNext then Some((2, true)) else None
    else None
  }

  predicate HasExactForm(a: string) {
    IsMessageOption(a) || a == "--fixup" || IsPlainOption(a) || a == "--no-edit" || IsSwitch(a)
  }

  /** An option spelled out in full, its value being the next argument. */
  function ExactStep(args: seq<string>): (r: Option<(nat, bool)>)
    requires args != []
    ensures r.Some? ==> 1 <= r.value.0 <= 2 && r.value.0 <= |args|
  {
    var a, hasNext := args[0], |args| > 1;
    if IsMessageOption(a) then (if hasNext then Some((2, true)) else None)
    else if a == "--fixup" then (if hasNext && IsFixupTarget(args[1]) then Some((2, true)) else None)
    else if IsPlainOption(a) then (if hasNext then Some((2, false)) else None)
    else if a == "--no-edit" then Some((1, true))
    else Some((1, false))
  }

  /** A long option with its value behind an equals sign. */
  function AttachedStep(a: string): Option<bool> {
    if StartsWith(a, "--message=") || StartsWith(a, "--file=") || StartsWith(a, "--reuse-message=") then Some(true)
    else if StartsWith(a, "--fixup=") then (if IsFixupTarget(a[8..]) then Some(true) else None)
    else if StartsWith(a, "--author=") || StartsWith(a, "--date=") || StartsWith(a, "--cleanup=")
         || StartsWith(a, "--trailer=") || StartsWith(a, "--pathspec-from-file=") then Some(false)
    else None
  }

  /** The first argument, which is not `--`: how many arguments it takes, and whether it
      names a message; None when it is not supported. */
  function CommitStep(args: seq<string>, quiet: bool): (r: Option<(nat, bool)>)
    requires args != []
    ensures r.Some? ==> 1 <= r.value.0 <= 2 && r.value.0 <= |args|
  {
    var a := args[0];
    if HasExactForm(a) then ExactStep(args)
    else if a == "--quiet" && quiet then Some((1, false))
    else if StartsWith(a, "--") then
      match AttachedStep(a)
      case None => None
      case Some(message) => Some((1, message))
    else if StartsWith(a, "-") then
      if a == "-" then None else ShortOptions(a[1..], |args| > 1, quiet)
    else Some((1, false))
  }

  function CommitArgs(args: seq<string>, hasMessage: bool, quiet: bool): bool
    decreases |args|
  {
    if args == [] || args[0] == "--" then hasMessage
    else
      match CommitStep(args, quiet)
      case None => false
      case Some((n, message)) => CommitArgs(args[n..], hasMessage || message, quiet)
  }

  /** `consume_commit_short_options`, scanning the letters of one argument. */
  method ConsumeShortOptions(letters: string, hasNext: bool, quiet: bool) returns (r: Option<(nat, bool)>)
    ensures r == ShortOptions(letters, hasNext, quiet)
  {
    var offset := 0;
    assert letters[0..] == letters;
    while offset < |letters|
      invariant 0 <= offset <= |letters|
      invariant ShortOptions(letters, hasNext, quiet) == ShortOptions(letters[offset..], hasNext, quiet)
    {
      var option := letters[offset];
      assert letters[offset..][1..] == letters[offset + 1..];
      if IsShortFlag(option, quiet) {
        offset := offset + 1;
      } else if IsShortMessage(option) {
        return if offset + 1 < |letters| then Some((1, true)) else if hasNext then Some((2, true)) else None;
      } else {
        return None;
      }
    }
    return Some((1, false));
  }

  /** One turn of the loop over the arguments. */
  method ReadStep(args: seq<string>, quiet: bool) returns (step: Option<(nat, bool)>)
    requires args != []
    ensures step == CommitStep(args, quiet)
  {
    hide ExactStep, AttachedStep, ShortOptions, HasExactForm;
    var a := args[0];
    if HasExactForm(a) { return ExactStep(args); }
    if a == "--quiet" && quiet { return Some((1, false)); }
    if StartsWith(a, "--") {
      var message := AttachedStep(a);
      return if message.Some? then Some((1, message.value)) else None;
    }
    if !StartsWith(a, "-") { return Some((1, false)); }
    if a == "-" { return None; }
    step := ConsumeShortOptions(a[1..], |args| > 1, quiet);
  }

  /** `commit_args_are_supported`, with its index and flags. */
  method CommitArgsAreSupported(args: seq<string>, quiet: bool) returns (supported: bool)
    ensures supported == CommitArgs(args, false, quiet)
  {
    hide CommitStep;
    var index, hasMessage, pathspecOnly := 0, false, false;
    assert args[0..] == args;
    while index < |args|
      invariant 0 <= index <= |args|
      invariant CommitArgs(args, false, quiet)
        == if pathspecOnly then hasMessage else CommitArgs(args[index..], hasMessage, quiet)
    {
      if pathspecOnly {
        index := index + 1;
        continue;
      }
      ghost var rest := args[index..];
      if args[index] == "--" {
        pathspecOnly := true;
        index := index + 1;
        continue;
      }
      var step := ReadStep(args[index..], quiet);
      if step.None? { return false; }
      assert rest[step.value.0..] == args[index + step.value.0..];
      index, hasMessage := index + step.value.0, hasMessage || step.value.1;
    }
    return hasMessage;
  }

  // ---------------------------------------------------------------- the grammar of commit

  datatype CommitItem =
    | Switch(name: string)
    | Separate(name: string, value: string)                 // `--message text`
    | Attached(name: string, value: string)                 // `--message=text`
    | ShortGroup(letters: string)                           // `-as`
    | ShortValue(letters: string, option: char, value: string, glued: bool)  // `-amtext`, `-am text`
    | Pathspec(path: string)
  {
    predicate Ok(quiet: bool) {
      match this
      case Switch(name) =>
        || (name == "--quiet" && quiet)
        || name in {"--all", "--amend", "--allow-empty", "--allow-empty-message", "--no-verify", "--signoff",
                    "--reset-author", "--include", "--only", "--no-post-rewrite", "--no-gpg-sign",
                    "--pathspec-file-nul", "--no-edit"}
      case Separate(name, value) => OptionOk(name, value)
      case Attached(name, value) => OptionOk(name, value)
      case ShortGroup(letters) => letters != "" && AllShortFlags(letters, quiet)
      case ShortValue(letters, option, value, glued) =>
        AllShortFlags(letters, quiet) && option in "mFC" && (glued ==> value != "")
      case Pathspec(path) => !StartsWith(path, "-")
    }

    /** The commit message comes from here, so no editor is opened. */
    predicate GivesMessage() {
      match this
      case Switch(name) => name == "--no-edit"
      case Separate(name, _) => name in {"--message", "--file", "--reuse-message", "--fixup"}
      case Attached(name, _) => name in {"--message", "--file", "--reuse-message", "--fixup"}
      case ShortGroup(_) => false
      case ShortValue(_, _, _, _) => true
      case Pathspec(_) => false
    }

    function Render(): (r: seq<string>)
      ensures 1 <= |r| <= 2
    {
      match this
      case Switch(name) => [name]
      case Separate(name, value) => [name, value]
      case Attached(name, value) => [name + "=" + value]
      case ShortGroup(letters) => ["-" + letters]
      case ShortValue(letters, option, value, glued) =>
        if glued then ["-" + letters + [option] + value] else ["-" + letters + [option], value]
      case Pathspec(path) => [path]
    }
  }

  predicate OptionOk(name: string, value: string) {
    || name in {"--message", "--file", "--reuse-message", "--author", "--date", "--cleanup", "--trailer",
                "--pathspec-from-file"}
    || (name == "--fixup" && value != "" && !StartsWith(value, "amend:") && !StartsWith(value, "reword:"))
  }

  predicate AllShortFlags(letters: string, quiet: bool) {
    forall i :: 0 <= i < |letters| ==> letters[i] in "ansio" || (letters[i] == 'q' && quiet)
  }

  predicate ItemsOk(items: seq<CommitItem>, quiet: bool) { forall i :: 0 <= i < |items| ==> items[i].Ok(quiet) }

  predicate SomeMessage(items: seq<CommitItem>) { exists i :: 0 <= i < |items| && items[i].GivesMessage() }

  function RenderItems(items: seq<CommitItem>): seq<string> {
    if items == [] then [] else items[0].Render() + RenderItems(items[1..])
  }

  lemma {:induction false} ShortFlagsScan(letters: string, tail: string, hasNext: bool, quiet: bool)
    requires AllShortFlags(letters, quiet)
    ensures ShortOptions(letters + tail, hasNext, quiet) == ShortOptions(tail, hasNext, quiet)
  {
    if letters == "" {
      assert letters + tail == tail;
    } else {
      assert (letters + tail)[1..] == letters[1..] + tail;
      ShortFlagsScan(letters[1..], tail, hasNext, quiet);
    }
  }

  /** Reading a rendered item takes exactly its arguments. */
  lemma ItemIsRead(item: CommitItem, rest: seq<string>, quiet: bool)
    requires item.Ok(quiet)
    ensures item.Render()[0] != "--"
    ensures CommitStep(item.Render() + rest, quiet) == Some((|item.Render()|, item.GivesMessage()))
  {
    match item
    case Attached(name, value) => AttachedIsRead(name, value, rest, quiet);
    case ShortGroup(letters) => ShortIsRead(item, rest, quiet);
    case ShortValue(letters, option, value, glued) => ShortIsRead(item, rest, quiet);
    case _ => ExactIsRead(item, rest, quiet);
  }

  lemma ExactIsRead(item: CommitItem, rest: seq<string>, quiet: bool)
    requires item.Ok(quiet) && (item.Switch? || item.Separate? || item.Pathspec?)
    ensures item.Render()[0] != "--"
    ensures CommitStep(item.Render() + rest, quiet) == Some((|item.Render()|, item.GivesMessage()))
  {
    hide AttachedStep, ShortOptions;
    var args := item.Render() + rest;
    assert item.Separate? ==> args[1] == item.value;
  }

  /** Two dashes begin every exact form, so nothing with one dash is one. */
  lemma OneDash(a: string)
    requires |a| >= 2 && a[0] == '-' && a[1] != '-'
    ensures !HasExactForm(a) && a != "--quiet" && a != "--" && a != "-" && StartsWith(a, "-") && !StartsWith(a, "--")
  {
    assert a[..1] == "-";
    assert a[..2][1] != "--"[1];
  }

  lemma ShortIsRead(item: CommitItem, rest: seq<string>, quiet: bool)
    requires item.Ok(quiet) && (item.ShortGroup? || item.ShortValue?)
    ensures item.Render()[0] != "--"
    ensures CommitStep(item.Render() + rest, quiet) == Some((|item.Render()|, item.GivesMessage()))
  {
    hide HasExactForm, ExactStep, AttachedStep, ShortOptions, AllShortFlags, IsShortMessage, StartsWith;
    ShortText(item, rest, quiet);
    var args := item.Render() + rest;
    var tail := ShortTail(item);
    ShortFlagsScan(item.letters, tail, |args| > 1, quiet);
    OneDash(args[0]);
    TailIsRead(item, |args| > 1, quiet);
  }

  function ShortTail(item: CommitItem): string
    requires item.ShortGroup? || item.ShortValue?
  {
    if item.ShortGroup? then "" else if item.glued then [item.option] + item.value else [item.option]
  }

  lemma ShortText(item: CommitItem, rest: seq<string>, quiet: bool)
    requires item.Ok(quiet) && (item.ShortGroup? || item.ShortValue?)
    ensures var a := (item.Render() + rest)[0];
      a == item.Render()[0] && |a| >= 2 && a[0] == '-' && a[1] != '-' && a[1..] == item.letters + ShortTail(item)
  {
    var a := item.Render()[0];
    assert a[1..] == item.letters + ShortTail(item);
    assert item.letters != "" ==> item.letters[0] in "ansioq";
  }

  lemma TailIsRead(item: CommitItem, hasNext: bool, quiet: bool)
    requires item.Ok(quiet) && (item.ShortGroup? || item.ShortValue?)
    requires item.ShortValue? && !item.glued ==> hasNext
    ensures ShortOptions(ShortTail(item), hasNext, quiet) == Some((|item.Render()|, item.GivesMessage()))
  {
  }

  lemma NoEqualsSign(a: string, i: nat)
    requires i < |a| && a[i] == '='
    ensures !HasExactForm(a) && a != "--quiet" && a != "--"
  {
    SwitchesHaveNoEquals(a, i);
    OptionsHaveNoEquals(a, i);
    hide IsSwitch, IsMessageOption, IsPlainOption;
  }

  lemma SwitchesHaveNoEquals(a: string, i: nat)
    requires i < |a| && a[i] == '='
    ensures !IsSwitch(a)
  {
  }

  lemma OptionsHaveNoEquals(a: string, i: nat)
    requires i < |a| && a[i] == '='
    ensures !IsMessageOption(a) && !IsPlainOption(a) && a != "--fixup" && a != "--no-edit"
  {
  }

  /** Which name stands before the equals sign. */
  lemma PrefixIsName(name: string, value: string, other: string)
    requires '=' !in name && '=' !in other
    ensures StartsWith(name + "=" + value, other + "=") <==> name == other
  {
    var a := name + "=" + value;
    var n, m := |name|, |other|;
    assert a[n] == '=' && a[..n + 1] == name + "=" && a[..n] == name;
    if StartsWith(a, other + "=") {
      assert a[..m + 1] == other + "=";
      assert a[m] == (other + "=")[m] == '=';
      assert forall i :: 0 <= i < n ==> a[i] == name[i] && a[i] != '=';
      assert forall i :: 0 <= i < m ==> a[i] == (other + "=")[i] && a[i] != '=';
      assert m == n;
      assert a[..m] == (other + "=")[..m] == other;
    }
  }

  lemma AttachedReads(name: string, value: string)
    requires OptionOk(name, value)
    ensures AttachedStep(name + "=" + value) == Some(IsMessageOption(name) || name == "--fixup")
    ensures StartsWith(name, "--")
  {
    OptionNames(name);
    MessagePrefixes(name, value);
    PlainPrefixes(name, value);
    assert (name + "=" + value)[|name| + 1..] == value;
    hide StartsWith, IsFixupTarget;
  }

  lemma MessagePrefixes(name: string, value: string)
    requires '=' !in name
    ensures var a := name + "=" + value;
      && (StartsWith(a, "--message=") <==> name == "--message") && (StartsWith(a, "--file=") <==> name == "--file")
      && (StartsWith(a, "--reuse-message=") <==> name == "--reuse-message")
      && (StartsWith(a, "--fixup=") <==> name == "--fixup")
  {
    hide StartsWith;
    PrefixIsName(name, value, "--message");
    PrefixIsName(name, value, "--file");
    PrefixIsName(name, value, "--reuse-message");
    PrefixIsName(name, value, "--fixup");
    assert "--message" + "=" == "--message=" && "--file" + "=" == "--file=";
    assert "--reuse-message" + "=" == "--reuse-message=" && "--fixup" + "=" == "--fixup=";
  }

  lemma PlainPrefixes(name: string, value: string)
    requires '=' !in name
    ensures var a := name + "=" + value;
      && (StartsWith(a, "--author=") <==> name == "--author") && (StartsWith(a, "--date=") <==> name == "--date")
      && (StartsWith(a, "--cleanup=") <==> name == "--cleanup")
      && (StartsWith(a, "--trailer=") <==> name == "--trailer")
      && (StartsWith(a, "--pathspec-from-file=") <==> name == "--pathspec-from-file")
  {
    hide StartsWith;
    PrefixIsName(name, value, "--author");
    PrefixIsName(name, value, "--date");
    PrefixIsName(name, value, "--cleanup");
    PrefixIsName(name, value, "--trailer");
    PrefixIsName(name, value, "--pathspec-from-file");
    assert "--author" + "=" == "--author=" && "--date" + "=" == "--date=" && "--cleanup" + "=" == "--cleanup=";
    assert "--trailer" + "=" == "--trailer=" && "--pathspec-from-file" + "=" == "--pathspec-from-file=";
  }

  lemma OptionNames(name: string)
    requires IsMessageOption(name) || IsPlainOption(name) || name == "--fixup"
    ensures '=' !in name && StartsWith(name, "--")
  {
  }

  lemma AttachedIsRead(name: string, value: string, rest: seq<string>, quiet: bool)
    requires OptionOk(name, value)
    ensures name + "=" + value != "--"
    ensures CommitStep([name + "=" + value] + rest, quiet) == Some((1, IsMessageOption(name) || name == "--fixup"))
  {
    AttachedReads(name, value);
    hide HasExactForm, ExactStep, AttachedStep, ShortOptions;
    var a := name + "=" + value;
    NoEqualsSign(a, |name|);
    assert a[..2] == name[..2];
  }

  /** Some item begins the arguments that are read. */
  lemma FirstItem(args: seq<string>, quiet: bool) returns (item: CommitItem)
    requires args != [] && args[0] != "--" && CommitStep(args, quiet).Some?
    ensures item.Ok(quiet)
    ensures CommitStep(args, quiet) == Some((|item.Render()|, item.GivesMessage()))
    ensures |item.Render()| <= |args| && args[..|item.Render()|] == item.Render()
  {
    var a := args[0];
    if HasExactForm(a) || a == "--quiet" { item := FirstExact(args, quiet); }
    else if !StartsWith(a, "-") { item := Pathspec(a); }
    else if StartsWith(a, "--") { item := FirstAttached(args, quiet); }
    else {
      assert a[..1] == "-" && |a| >= 2;
      assert a[..2] == [a[0], a[1]];
      item := FirstShort(args, quiet);
    }
  }

  lemma AttachedHasEquals(a: string)
    ensures AttachedStep(a).Some? ==> '=' in a
  {
    if AttachedStep(a).Some? {
      var item, message := AttachedSplit(a);
      assert a[|item.name|] == '=';
    }
  }

  lemma FirstExact(args: seq<string>, quiet: bool) returns (item: CommitItem)
    requires args != [] && CommitStep(args, quiet).Some? && (HasExactForm(args[0]) || args[0] == "--quiet")
    ensures item.Ok(quiet)
    ensures CommitStep(args, quiet) == Some((|item.Render()|, item.GivesMessage()))
    ensures |item.Render()| <= |args| && args[..|item.Render()|] == item.Render()
  {
    var a := args[0];
    if IsMessageOption(a) || IsPlainOption(a) || a == "--fixup" {
      item := Separate(a, args[1]);
    } else {
      item := Switch(a);
      AttachedHasEquals(a);
    }
  }

  lemma FirstAttached(args: seq<string>, quiet: bool) returns (item: CommitItem)
    requires args != [] && StartsWith(args[0], "--") && CommitStep(args, quiet).Some?
    requires !HasExactForm(args[0]) && args[0] != "--quiet"
    ensures item.Ok(quiet)
    ensures CommitStep(args, quiet) == Some((|item.Render()|, item.GivesMessage()))
    ensures |item.Render()| <= |args| && args[..|item.Render()|] == item.Render()
  {
    var a := args[0];
    var message;
    item, message := AttachedSplit(a);
  }

  lemma AttachedSplit(a: string) returns (item: CommitItem, message: bool)
    requires AttachedStep(a).Some?
    ensures item.Attached? && item.Ok(false) && item.Render() == [a] && AttachedStep(a) == Some(item.GivesMessage())
    ensures message == item.GivesMessage()
  {
    var name :=
      if StartsWith(a, "--message=") then "--message"
      else if StartsWith(a, "--file=") then "--file"
      else if StartsWith(a, "--reuse-message=") then "--reuse-message"
      else if StartsWith(a, "--fixup=") then "--fixup"
      else if StartsWith(a, "--author=") then "--author"
      else if StartsWith(a, "--date=") then "--date"
      else if StartsWith(a, "--cleanup=") then "--cleanup"
      else if StartsWith(a, "--trailer=") then "--trailer"
      else "--pathspec-from-file";
    assert a[..|name| + 1] == name + "=";
    item := Attached(name, a[|name| + 1..]);
    message := item.GivesMessage();
    assert a == a[..|name| + 1] + a[|name| + 1..];
  }

  /** Where a group of short options stops. */
  lemma {:induction false} ShortSplit(letters: string, hasNext: bool, quiet: bool) returns (k: nat)
    requires ShortOptions(letters, hasNext, quiet).Some?
    ensures k <= |letters| && AllShortFlags(letters[..k], quiet)
    ensures k < |letters| ==> IsShortMessage(letters[k])
    ensures ShortOptions(letters, hasNext, quiet)
         == (if k == |letters| then Some((1, false))
             else if k + 1 < |letters| then Some((1, true))
             else Some((2, true)))
  {
    if letters == "" || !IsShortFlag(letters[0], quiet) {
      k := 0;
    } else {
      k := ShortSplit(letters[1..], hasNext, quiet);
      assert forall i :: 0 < i < k + 1 ==> letters[i] == letters[1..][..k][i - 1];
      k := k + 1;
    }
  }

  lemma FirstShort(args: seq<string>, quiet: bool) returns (item: CommitItem)
    requires args != [] && |args[0]| >= 2 && args[0][0] == '-' && args[0][1] != '-' && CommitStep(args, quiet).Some?
    ensures item.Ok(quiet)
    ensures CommitStep(args, quiet) == Some((|item.Render()|, item.GivesMessage()))
    ensures |item.Render()| <= |args| && args[..|item.Render()|] == item.Render()
  {
    hide HasExactForm, ExactStep, AttachedStep;
    var a := args[0];
    var letters := a[1..];
    assert a == "-" + letters && a[1] != '-';
    OneDash(a);
    var k := ShortSplit(letters, |args| > 1, quiet);
    if k == |letters| {
      assert letters[..k] == letters;
      item := ShortGroup(letters);
    } else if k + 1 < |letters| {
      item := ShortValue(letters[..k], letters[k], letters[k + 1..], true);
      assert a == "-" + letters[..k] + [letters[k]] + letters[k + 1..];
    } else {
      item := ShortValue(letters[..k], letters[k], args[1], false);
      assert args[..2] == [args[0], args[1]];
      assert a == "-" + letters[..k] + [letters[k]];
    }
  }

  /** `args` are these items, then nothing or `--` and any paths. */
  predicate Spells(items: seq<CommitItem>, tail: seq<string>, args: seq<string>, quiet: bool) {
    ItemsOk(items, quiet) && args == RenderItems(items) + tail && (tail == [] || tail[0] == "--")
  }

  lemma {:induction false} SpelledIsRead(items: seq<CommitItem>, tail: seq<string>, args: seq<string>, hasMessage: bool,
          quiet: bool)
    requires Spells(items, tail, args, quiet)
    ensures CommitArgs(args, hasMessage, quiet) == (hasMessage || SomeMessage(items))
    decreases |items|
  {
    if items != [] {
      var item, rest := items[0], RenderItems(items[1..]) + tail;
      assert args == item.Render() + rest;
      ItemIsRead(item, rest, quiet);
      assert args[|item.Render()|..] == rest;
      SpelledIsRead(items[1..], tail, rest, hasMessage || item.GivesMessage(), quiet);
      assert SomeMessage(items) <==> item.GivesMessage() || SomeMessage(items[1..]) by {
        if SomeMessage(items[1..]) {
          var i :| 0 <= i < |items[1..]| && items[1..][i].GivesMessage();
          assert items[i + 1].GivesMessage();
        }
      }
    } else {
      assert args == tail;
    }
  }

  lemma {:induction false} ReadIsSpelled(args: seq<string>, hasMessage: bool, quiet: bool)
      returns (items: seq<CommitItem>, tail: seq<string>)
    requires CommitArgs(args, hasMessage, quiet)
    ensures Spells(items, tail, args, quiet)
    decreases |args|
  {
    hide CommitStep, Spells, CommitItem.Render, CommitItem.Ok, CommitItem.GivesMessage;
    if args == [] || args[0] == "--" {
      items, tail := [], args;
      NothingSpelled(args, quiet);
    } else {
      var item := FirstItem(args, quiet);
      var later;
      later, tail := ReadIsSpelled(args[|item.Render()|..], hasMessage || item.GivesMessage(), quiet);
      items := [item] + later;
      Prepend(item, later, tail, args, quiet);
    }
  }

  lemma NothingSpelled(args: seq<string>, quiet: bool)
    requires args == [] || args[0] == "--"
    ensures Spells([], args, args, quiet)
  {
  }

  lemma Prepend(item: CommitItem, later: seq<CommitItem>, tail: seq<string>, args: seq<string>, quiet: bool)
    requires item.Ok(quiet) && |item.Render()| <= |args| && args[..|item.Render()|] == item.Render()
    requires Spells(later, tail, args[|item.Render()|..], quiet)
    ensures Spells([item] + later, tail, args, quiet)
  {
    hide CommitItem.Render, CommitItem.Ok;
    var n := |item.Render()|;
    assert ([item] + later)[1..] == later;
    assert args == args[..n] + args[n..];
  }

  /** Commit arguments are supported exactly when they spell supported items, at least
      one of which gives the message, followed by nothing or by `--` and paths. */
  lemma SupportsExactlyTheGrammar(args: seq<string>, quiet: bool)
    ensures CommitArgs(args, false, quiet)
      <==> exists items, tail :: Spells(items, tail, args, quiet) && SomeMessage(items)
  {
    if CommitArgs(args, false, quiet) {
      var items, tail := ReadIsSpelled(args, false, quiet);
      SpelledIsRead(items, tail, args, false, quiet);
    }
    forall items, tail | Spells(items, tail, args, quiet) && SomeMessage(items) ensures CommitArgs(args, false, quiet) {
      SpelledIsRead(items, tail, args, false, quiet);
    }
  }

  /** Whatever is supported with `--quiet` refused is supported with it allowed. */
  lemma QuietOnlyAdds(args: seq<string>)
    requires CommitArgs(args, false, false)
    ensures CommitArgs(args, false, true)
  {
    SupportsExactlyTheGrammar(args, false);
    var items: seq<CommitItem>, tail :| Spells(items, tail, args, false) && SomeMessage(items);
    forall i | 0 <= i < |items| ensures items[i].Ok(true) { assert items[i].Ok(false); }
    assert Spells(items, tail, args, true);
    SupportsExactlyTheGrammar(args, true);
  }
}
