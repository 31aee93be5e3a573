/** The arguments of `git add` that src/git_evidence.rs supports: the recogniser, and the
    grammar it is proved to accept exactly. */
module AddArguments {
  import opened Wrappers
  import opened Text

  predicate IsSelectAll(a: string) { a in {"-A", "--all", "-u", "--update"} }

  predicate IsSwitch(a: string) {
    a in {"-N", "--intent-to-add", "-f", "--force", "--ignore-errors", "--ignore-missing", "--renormalize",
          "--sparse", "--pathspec-file-nul", "--chmod=+x", "--chmod=-x"}
  }

  const FROM_FILE := "--pathspec-from-file"

  /** How many arguments the first one takes, and whether it selects anything. */
  function AddStep(args: seq<string>): (r: Option<(nat, bool)>)
    requires args != []
    ensures r.Some? ==> 1 <= r.value.0 <= 2 && r.value.0 <= |args|
  {
    var a := args[0];
    if IsSelectAll(a) then Some((1, true))
    else if IsSwitch(a) then Some((1, false))
    else if a == FROM_FILE then (if |args| > 1 then Some((2, true)) else None)
    else if StartsWith(a, FROM_FILE + "=") then Some((1, true))
    else if StartsWith(a, "-") then None
    else Some((1, true))
  }

  /** Behind `--` every argument is a path and selects it. */
  function AddArgs(args: seq<string>, selects: bool): bool
    decreases |args|
  {
    if args == [] then selects
    else if args[0] == "--" then selects || |args| > 1
    else
      match AddStep(args)
      case None => false
      case Some((n, s)) => AddArgs(args[n..], selects || s)
  }

  /** `add_args_are_supported`, with its index and flags. */
  method AddArgsAreSupported(args: seq<string>) returns (supported: bool)
    ensures supported == AddArgs(args, false)
  {
    var index, selects, pathspecOnly := 0, false, false;
    assert args[0..] == args;
    while index < |args|
      invariant 0 <= index <= |args|
      invariant AddArgs(args, false)
        == if pathspecOnly then selects || index < |args| else AddArgs(args[index..], selects)
    {
      ghost var rest := args[index..];
      if pathspecOnly {
        selects, index := true, index + 1;
      } else if args[index] == "--" {
        pathspecOnly, index := true, index + 1;
      } else {
        var step := AddStep(args[index..]);
        if step.None? { return false; }
        assert rest[step.value.0..] == args[index + step.value.0..];
        index, selects := index + step.value.0, selects || step.value.1;
      }
    }
    return selects;
  }

  datatype AddItem =
    | All(name: string)
    | Switch(name: string)
    | FromFile(file: string, attached: bool)
    | Path(path: string)
  {
    predicate Ok() {
      match this
      case All(name) => name in {"-A", "--all", "-u", "--update"}
      case Switch(name) =>
        name in {"-N", "--intent-to-add", "-f", "--force", "--ignore-errors", "--ignore-missing", "--renormalize",
                 "--sparse", "--pathspec-file-nul", "--chmod=+x", "--chmod=-x"}
      case FromFile(_, _) => true
      case Path(path) => !StartsWith(path, "-")
    }

    predicate Selects() { !Switch? }

    function Render(): (r: seq<string>)
      ensures 1 <= |r| <= 2
    {
      match this
      case All(name) => [name]
      case Switch(name) => [name]
      case FromFile(file, attached) =>
        if attached then ["--pathspec-from-file=" + file] else ["--pathspec-from-file", file]
      case Path(path) => [path]
    }
  }

  predicate ItemsOk(items: seq<AddItem>) { forall i :: 0 <= i < |items| ==> items[i].Ok() }

  predicate SomeSelects(items: seq<AddItem>) { exists i :: 0 <= i < |items| && items[i].Selects() }

  function RenderItems(items: seq<AddItem>): seq<string> {
    if items == [] then [] else items[0].Render() + RenderItems(items[1..])
  }

  predicate Spells(items: seq<AddItem>, tail: seq<string>, args: seq<string>) {
    ItemsOk(items) && args == RenderItems(items) + tail && (tail == [] || tail[0] == "--")
  }

  lemma ItemIsRead(item: AddItem, rest: seq<string>)
    requires item.Ok()
    ensures item.Render()[0] != "--"
    ensures AddStep(item.Render() + rest) == Some((|item.Render()|, item.Selects()))
  {
    if item.FromFile? && item.attached {
      var a, n := FROM_FILE + "=" + item.file, |FROM_FILE|;
      assert "--pathspec-from-file=" == FROM_FILE + "=";
      assert a[..n + 1] == FROM_FILE + "=" && a[n] == '=' && a[2] == 'p';
    }
  }

  lemma FirstItem(args: seq<string>) returns (item: AddItem)
    requires args != [] && AddStep(args).Some?
    ensures item.Ok() && AddStep(args) == Some((|item.Render()|, item.Selects()))
    ensures |item.Render()| <= |args| && args[..|item.Render()|] == item.Render()
  {
    var a, n := args[0], |FROM_FILE|;
    if IsSelectAll(a) { item := All(a); }
    else if IsSwitch(a) { item := Switch(a); }
    else if a == FROM_FILE {
      item := FromFile(args[1], false);
      assert args[..2] == [args[0], args[1]];
    } else if StartsWith(a, FROM_FILE + "=") {
      item := FromFile(a[n + 1..], true);
      assert "--pathspec-from-file=" == FROM_FILE + "=";
      assert a == a[..n + 1] + a[n + 1..];
    } else { item := Path(a); }
  }

  lemma {:induction false} SpelledIsRead(items: seq<AddItem>, tail: seq<string>, args: seq<string>, selects: bool)
    requires Spells(items, tail, args)
    ensures AddArgs(args, selects) == (selects || SomeSelects(items) || |tail| > 1)
    decreases |items|
  {
    hide AddStep, AddItem.Ok, AddItem.Render, AddItem.Selects;
    if items != [] {
      var item, rest := items[0], RenderItems(items[1..]) + tail;
      assert args == item.Render() + rest;
      ItemIsRead(item, rest);
      assert args[|item.Render()|..] == rest;
      SpelledIsRead(items[1..], tail, rest, selects || item.Selects());
      assert SomeSelects(items) <==> item.Selects() || SomeSelects(items[1..]) by {
        if SomeSelects(items[1..]) {
          var i :| 0 <= i < |items[1..]| && items[1..][i].Selects();
          assert items[i + 1].Selects();
        }
      }
    } else {
      assert args == tail;
    }
  }

  lemma {:induction false} ReadIsSpelled(args: seq<string>, selects: bool)
      returns (items: seq<AddItem>, tail: seq<string>)
    requires AddArgs(args, selects)
    ensures Spells(items, tail, args)
    decreases |args|
  {
    hide AddStep, Spells, AddItem.Render, AddItem.Ok, AddItem.Selects;
    if args == [] || args[0] == "--" {
      items, tail := [], args;
      NothingSpelled(args);
    } else {
      var item := FirstItem(args);
      var later;
      later, tail := ReadIsSpelled(args[|item.Render()|..], selects || item.Selects());
      items := [item] + later;
      Prepend(item, later, tail, args);
    }
  }

  lemma NothingSpelled(args: seq<string>)
    requires args == [] || args[0] == "--"
    ensures Spells([], args, args)
  {
  }

  lemma Prepend(item: AddItem, later: seq<AddItem>, tail: seq<string>, args: seq<string>)
    requires item.Ok() && |item.Render()| <= |args| && args[..|item.Render()|] == item.Render()
    requires Spells(later, tail, args[|item.Render()|..])
    ensures Spells([item] + later, tail, args)
  {
    hide AddItem.Render, AddItem.Ok;
    var n := |item.Render()|;
    assert ([item] + later)[1..] == later;
    assert args == args[..n] + args[n..];
  }

  /** Add arguments are supported exactly when they spell supported items, followed by
      nothing or by `--` and paths, and select at least one thing. */
  lemma SupportsExactlyTheGrammar(args: seq<string>)
    ensures AddArgs(args, false)
      <==> exists items, tail :: Spells(items, tail, args) && (SomeSelects(items) || |tail| > 1)
  {
    if AddArgs(args, false) {
      var items, tail := ReadIsSpelled(args, false);
      SpelledIsRead(items, tail, args, false);
    }
    forall items, tail | Spells(items, tail, args) && (SomeSelects(items) || |tail| > 1) ensures AddArgs(args, false) {
      SpelledIsRead(items, tail, args, false);
    }
  }
}
