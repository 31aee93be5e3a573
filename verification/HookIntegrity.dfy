/** Removing this program's hooks from a settings document and counting those that are
    there (src/hook_integrity.rs). How a hook's command reads and which executables are
    allowed are parameters. */
module HookIntegrity {
  import opened Wrappers
  import opened Text
  import opened Json

  datatype Spec = Spec(event: string, subcommand: string, nested: Option<string>, host: string, matcher: Option<string>,
          timeout: Option<nat>)

  function RuntimeHost(host: string): string { if host == "codex" then "codex-cli" else "claude-code" }

  function ExpectedSpecs(host: string): seq<Spec> {
    if host == "codex" then
      [ Spec("SessionStart", "context", None, "codex-cli", None, None),
        Spec("Stop", "summarize", None, "codex-cli", None, None) ]
    else
      [ Spec("PostToolUse", "observe", None, "claude-code",
             Some("Write|Edit|NotebookEdit|Bash|Grep|Glob|Agent|Task"), Some(120)),
        Spec("PreCompact", "summarize", None, "claude-code", None, Some(120)),
        Spec("Stop", "summarize", None, "claude-code", None, Some(120)),
        Spec("SessionStart", "context", None, "claude-code", Some("startup|resume|clear|compact"), Some(15)),
        Spec("UserPromptSubmit", "session-init", None, "claude-code", None, Some(15)),
        Spec("PreToolUse", "rules", Some("eval"), "claude-code", Some("Bash"), Some(5)) ]
  }

  datatype Invocation = Invocation(executable: string, subcommand: Option<string>, nested: Option<string>,
          flagHost: Option<string>, envHost: Option<string>)

  function ResolvedHost(i: Invocation): Option<string> { if i.flagHost.Some? then i.flagHost else i.envHost }

  /** How the world reads hooks: the invocation in a hook, if it is one of this program,
      and whether an executable may stand for the expected one under a subcommand. */
  datatype Reader = Reader(parse: Json -> Option<Invocation>, allows: (string, string, string) -> bool)

  /** The array under `key`; None also where there is something else. */
  function GetArray(v: Json, key: string): Option<seq<Json>> {
    var a := Get(v, key);
    if a.Some? && a.value.Array? then Some(a.value.items) else None
  }

  predicate RunsCommand(i: Invocation, spec: Spec) { i.subcommand == Some(spec.subcommand) && i.nested == spec.nested }

  function SpecFor(specs: seq<Spec>, event: string): Option<Spec> {
    if specs == [] then None else if specs[0].event == event then Some(specs[0]) else SpecFor(specs[1..], event)
  }

  /** An installed hook without a host counts as the host's own. */
  predicate IsOwned(host: string, event: string, hook: Json, r: Reader) {
    var spec := SpecFor(ExpectedSpecs(host), event);
    && spec.Some? && r.parse(hook).Some? && RunsCommand(r.parse(hook).value, spec.value)
    && ResolvedHost(r.parse(hook).value) in {None, Some(RuntimeHost(host))}
  }

  predicate IsExpected(entry: Json, hook: Json, spec: Spec, executable: string, r: Reader) {
    && Get(entry, "matcher") == (if spec.matcher.Some? then Some(Str(spec.matcher.value)) else None)
    && (spec.timeout.Some? ==> Get(hook, "timeout") == Some(Number(Decimal(spec.timeout.value))))
    && r.parse(hook).Some? && r.allows(r.parse(hook).value.executable, executable, spec.subcommand)
    && RunsCommand(r.parse(hook).value, spec) && ResolvedHost(r.parse(hook).value) == Some(spec.host)
  }

  predicate IsStale(entry: Json, hook: Json, spec: Spec, executable: string, r: Reader) {
    r.parse(hook).Some? && RunsCommand(r.parse(hook).value, spec) && !IsExpected(entry, hook, spec, executable, r)
  }

  // ---------------------------------------------------------------- what is in a document

  function HooksIn(entry: Json): seq<Json> {
    var h := GetArray(entry, "hooks");
    if h.Some? then h.value else []
  }

  function Flat(entries: seq<Json>): seq<Json> {
    if entries == [] then [] else Flat(entries[..|entries| - 1]) + HooksIn(entries[|entries| - 1])
  }

  function EntriesOf(doc: Json, event: string): seq<Json> {
    var hooks := Get(doc, "hooks");
    if hooks.None? then [] else
      var e := GetArray(hooks.value, event);
      if e.Some? then e.value else []
  }

  /** The hooks for an event, in order, across its entries. */
  function HooksOf(doc: Json, event: string): seq<Json> { Flat(EntriesOf(doc, event)) }

  function Matches(entry: Json, hooks: seq<Json>, spec: Spec, executable: string, r: Reader): nat {
    if hooks == [] then 0
    else
      Matches(entry, hooks[..|hooks| - 1], spec, executable, r)
      + if IsExpected(entry, hooks[|hooks| - 1], spec, executable, r) then 1 else 0
  }

  function MatchesIn(entries: seq<Json>, spec: Spec, executable: string, r: Reader): nat {
    if entries == [] then 0
    else
      var last := entries[|entries| - 1];
      MatchesIn(entries[..|entries| - 1], spec, executable, r) + Matches(last, HooksIn(last), spec, executable, r)
  }

  function ExpectedMatchCount(doc: Json, spec: Spec, executable: string, r: Reader): nat {
    MatchesIn(EntriesOf(doc, spec.event), spec, executable, r)
  }

  predicate HasStale(doc: Json, spec: Spec, executable: string, r: Reader) {
    var entries := EntriesOf(doc, spec.event);
    exists i, j :: 0 <= i < |entries| && 0 <= j < |HooksIn(entries[i])|
      && IsStale(entries[i], HooksIn(entries[i])[j], spec, executable, r)
  }

  // ---------------------------------------------------------------- what removal leaves

  /** `Vec::retain` with what is not owned. */
  function Unowned(hooks: seq<Json>, host: string, event: string, r: Reader): seq<Json> {
    if hooks == [] then []
    else
      var front := Unowned(hooks[..|hooks| - 1], host, event, r);
      if IsOwned(host, event, hooks[|hooks| - 1], r) then front else front + [hooks[|hooks| - 1]]
  }

  /** An entry goes when removal emptied it, not when it was empty before. */
  function KeptEntries(entries: seq<Json>, host: string, event: string, r: Reader): seq<Json> {
    if entries == [] then []
    else
      var front, entry := KeptEntries(entries[..|entries| - 1], host, event, r), entries[|entries| - 1];
      var hooks := GetArray(entry, "hooks");
      if hooks.None? then front + [entry]
      else
        var kept := Unowned(hooks.value, host, event, r);
        if kept == [] && hooks.value != [] then front else front + [Object(entry.fields["hooks" := Array(kept)])]
  }

  type Fields = map<string, Json>

  function CleanEvent(fields: Fields, host: string, event: string, r: Reader): Fields {
    if event in fields && fields[event].Array?
    then fields[event := Array(KeptEntries(fields[event].items, host, event, r))]
    else fields
  }

  function CleanEvents(fields: Fields, host: string, specs: seq<Spec>, r: Reader): Fields {
    if specs == [] then fields
    else CleanEvent(CleanEvents(fields, host, specs[..|specs| - 1], r), host, specs[|specs| - 1].event, r)
  }

  predicate IsEmptyArray(v: Json) { v.Array? && v.items == [] }

  function Prune(fields: Fields): Fields { map k | k in fields && !IsEmptyArray(fields[k]) :: fields[k] }

  function Cleaned(doc: Json, host: string, r: Reader): Json {
    var hooks := Get(doc, "hooks");
    if hooks.None? || !hooks.value.Object? then doc
    else
      var left := Prune(CleanEvents(hooks.value.fields, host, ExpectedSpecs(host), r));
      Object(if left == map[] then doc.fields - {"hooks"} else doc.fields["hooks" := Object(left)])
  }

  function Removed(doc: Json, host: string, specs: seq<Spec>, r: Reader): nat {
    if specs == [] then 0
    else
      var event := specs[|specs| - 1].event;
      assert |Unowned(HooksOf(doc, event), host, event, r)| <= |HooksOf(doc, event)| by {
        UnownedIsShorter(HooksOf(doc, event), host, event, r);
      }
      Removed(doc, host, specs[..|specs| - 1], r)
        + |HooksOf(doc, event)| - |Unowned(HooksOf(doc, event), host, event, r)|
  }

  lemma {:induction false} UnownedIsShorter(hooks: seq<Json>, host: string, event: string, r: Reader)
    ensures |Unowned(hooks, host, event, r)| <= |hooks|
    ensures (|Unowned(hooks, host, event, r)| == |hooks| ==> Unowned(hooks, host, event, r) == hooks)
    ensures forall h :: h in Unowned(hooks, host, event, r) <==> h in hooks && !IsOwned(host, event, h, r)
  {
    hide IsOwned;
    if hooks != [] {
      UnownedIsShorter(hooks[..|hooks| - 1], host, event, r);
      assert hooks == hooks[..|hooks| - 1] + [hooks[|hooks| - 1]];
    }
  }

  lemma {:induction false} UnownedConcat(a: seq<Json>, b: seq<Json>, host: string, event: string, r: Reader)
    ensures Unowned(a + b, host, event, r) == Unowned(a, host, event, r) + Unowned(b, host, event, r)
  {
    hide IsOwned;
    if b == [] {
      assert a + b == a;
    } else {
      UnownedConcat(a, b[..|b| - 1], host, event, r);
      assert (a + b)[..|a + b| - 1] == a + b[..|b| - 1];
    }
  }

  // ---------------------------------------------------------------- the operations

  class Settings {
    var doc: Json

    constructor (doc: Json)
      ensures this.doc == doc
    {
      this.doc := doc;
    }

    method RemoveRememHooksForHost(host: string, r: Reader) returns (removed: nat)
      modifies this
      ensures doc == Cleaned(old(doc), host, r)
      ensures removed == Removed(old(doc), host, ExpectedSpecs(host), r)
    {
      hide IsOwned, Unowned, KeptEntries, ExpectedSpecs, CleanEvents, HooksOf, Removed, Distinct, HasEvent;
      removed := 0;
      var hooks := Get(doc, "hooks");
      var specs := ExpectedSpecs(host);
      EventsDiffer(host);
      if hooks.None? || !hooks.value.Object? {
        NothingToRemove(doc, host, specs, r);
        return;
      }
      var fields := hooks.value.fields;
      NothingYet(doc, fields, host, specs, r);
      for i := 0 to |specs|
        invariant doc == old(doc)
        invariant fields == CleanEvents(hooks.value.fields, host, specs[..i], r)
        invariant removed == Removed(doc, host, specs[..i], r)
      {
        var event := specs[i].event;
        OneEvent(doc, hooks.value.fields, host, specs, i, r);
        if event in fields && fields[event].Array? {
          var retained, gone := RetainUnowned(fields[event].items, host, event, r);
          removed := removed + gone;
          fields := fields[event := Array(retained)];
        }
      }
      assert specs[..|specs|] == specs;
      fields := fields - (set event | event in fields && IsEmptyArray(fields[event]));
      assert fields == Prune(CleanEvents(hooks.value.fields, host, specs, r));
      doc := Object(if fields == map[] then doc.fields - {"hooks"} else doc.fields["hooks" := Object(fields)]);
    }
  }

  lemma NothingYet(doc: Json, fields: Fields, host: string, specs: seq<Spec>, r: Reader)
    ensures specs[..0] == [] && CleanEvents(fields, host, specs[..0], r) == fields
      && Removed(doc, host, specs[..0], r) == 0
  {
  }

  /** What one more event does to the fields and to the count; earlier events left it alone. */
  lemma OneEvent(doc: Json, fields: Fields, host: string, specs: seq<Spec>, i: nat, r: Reader)
    requires i < |specs| && Distinct(specs) && Get(doc, "hooks") == Some(Object(fields))
    ensures var event, before := specs[i].event, CleanEvents(fields, host, specs[..i], r);
      && CleanEvents(fields, host, specs[..i + 1], r)
         == (if event in before && before[event].Array?
             then before[event := Array(KeptEntries(before[event].items, host, event, r))] else before)
      && Removed(doc, host, specs[..i + 1], r)
         == Removed(doc, host, specs[..i], r)
            + (if event in before && before[event].Array?
               then |Flat(before[event].items)| - |Unowned(Flat(before[event].items), host, event, r)| else 0)
  {
    hide IsOwned, Unowned, KeptEntries;
    assert specs[..i + 1][..i] == specs[..i];
    CleanEventsAt(fields, host, specs[..i], r, specs[i].event);
    assert !HasEvent(specs[..i], specs[i].event);
    Nothing(host, specs[i].event, r);
  }

  /** The entries of one event, the owned hooks taken out of each. */
  method RetainUnowned(entries: seq<Json>, host: string, event: string, r: Reader)
      returns (retained: seq<Json>, removed: nat)
    ensures retained == KeptEntries(entries, host, event, r)
    ensures removed == |Flat(entries)| - |Unowned(Flat(entries), host, event, r)|
  {
    hide IsOwned, Unowned, KeptEntries;
    retained, removed := [], 0;
    Nothing(host, event, r);
    for j := 0 to |entries|
      invariant retained == KeptEntries(entries[..j], host, event, r)
      invariant removed == |Flat(entries[..j])| - |Unowned(Flat(entries[..j]), host, event, r)|
    {
      var entry := entries[j];
      assert entries[..j + 1][..j] == entries[..j];
      KeptNext(entries[..j + 1], host, event, r);
      UnownedConcat(Flat(entries[..j]), HooksIn(entry), host, event, r);
      UnownedIsShorter(HooksIn(entry), host, event, r);
      var inner := GetArray(entry, "hooks");
      if inner.None? {
        retained := retained + [entry];
      } else {
        var kept := Unowned(inner.value, host, event, r);
        var gone := |inner.value| - |kept|;
        removed := removed + gone;
        if kept != [] || gone == 0 { retained := retained + [Object(entry.fields["hooks" := Array(kept)])]; }
      }
    }
    assert entries[..|entries|] == entries;
  }

  lemma KeptNext(entries: seq<Json>, host: string, event: string, r: Reader)
    requires entries != []
    ensures var front, entry := KeptEntries(entries[..|entries| - 1], host, event, r), entries[|entries| - 1];
      var hooks := GetArray(entry, "hooks");
      KeptEntries(entries, host, event, r) ==
        if hooks.None? then front + [entry]
        else
          var kept := Unowned(hooks.value, host, event, r);
          if kept == [] && hooks.value != [] then front else front + [Object(entry.fields["hooks" := Array(kept)])]
  {
  }

  lemma Nothing(host: string, event: string, r: Reader)
    ensures KeptEntries([], host, event, r) == [] && Unowned([], host, event, r) == [] && Flat([]) == []
  {
  }

  predicate Distinct(specs: seq<Spec>) { forall i, j :: 0 <= i < j < |specs| ==> specs[i].event != specs[j].event }

  lemma EventsDiffer(host: string)
    ensures Distinct(ExpectedSpecs(host))
    ensures forall i :: 0 <= i < |ExpectedSpecs(host)| ==> ExpectedSpecs(host)[i].host == RuntimeHost(host)
  {
  }

  predicate HasEvent(specs: seq<Spec>, event: string) { exists i :: 0 <= i < |specs| && specs[i].event == event }

  lemma {:induction false} CleanEventsAt(fields: Fields, host: string, specs: seq<Spec>, r: Reader, event: string)
    requires Distinct(specs)
    ensures event in CleanEvents(fields, host, specs, r) <==> event in fields
    ensures event in fields ==>
      CleanEvents(fields, host, specs, r)[event]
      == if HasEvent(specs, event) && fields[event].Array?
        then Array(KeptEntries(fields[event].items, host, event, r)) else fields[event]
  {
    hide KeptEntries;
    if specs != [] {
      var front, last := specs[..|specs| - 1], specs[|specs| - 1];
      assert specs == front + [last];
      CleanEventsAt(fields, host, front, r, event);
      assert event == last.event ==> !HasEvent(front, event);
      assert HasEvent(specs, event) <==> HasEvent(front, event) || event == last.event;
    }
  }

  lemma {:induction false} NothingToRemove(doc: Json, host: string, specs: seq<Spec>, r: Reader)
    requires var hooks := Get(doc, "hooks"); hooks.None? || !hooks.value.Object?
    ensures Removed(doc, host, specs, r) == 0
  {
    if specs != [] {
      NothingToRemove(doc, host, specs[..|specs| - 1], r);
      Nothing(host, specs[|specs| - 1].event, r);
    }
  }

  // ---------------------------------------------------------------- what removal promises

  lemma {:induction false} FlatKept(entries: seq<Json>, host: string, event: string, r: Reader)
    ensures Flat(KeptEntries(entries, host, event, r)) == Unowned(Flat(entries), host, event, r)
  {
    hide IsOwned, Unowned;
    Nothing(host, event, r);
    if entries != [] {
      var front, entry := entries[..|entries| - 1], entries[|entries| - 1];
      FlatKept(front, host, event, r);
      UnownedConcat(Flat(front), HooksIn(entry), host, event, r);
      var kept := KeptEntries(entries, host, event, r);
      var before := KeptEntries(front, host, event, r);
      assert kept != before ==> kept[..|kept| - 1] == before;
    }
  }

  /** The entries of an event after removal. */
  lemma EntriesAfter(doc: Json, host: string, r: Reader, event: string)
    ensures EntriesOf(Cleaned(doc, host, r), event)
      == if HasEvent(ExpectedSpecs(host), event)
        then KeptEntries(EntriesOf(doc, event), host, event, r) else EntriesOf(doc, event)
  {
    hide KeptEntries, CleanEvents, ExpectedSpecs;
    Nothing(host, event, r);
    EventsDiffer(host);
    var hooks := Get(doc, "hooks");
    if hooks.Some? && hooks.value.Object? {
      CleanEventsAt(hooks.value.fields, host, ExpectedSpecs(host), r, event);
      var all := CleanEvents(hooks.value.fields, host, ExpectedSpecs(host), r);
      assert event in Prune(all) <==> event in all && !IsEmptyArray(all[event]);
    }
  }

  /** Per event and in order exactly the hooks that are not this host's stay; hooks of other
      events and everything beside the hooks are as before. */
  lemma RemovalKeepsTheRest(doc: Json, host: string, r: Reader, event: string, key: string)
    ensures HooksOf(Cleaned(doc, host, r), event)
      == if HasEvent(ExpectedSpecs(host), event)
        then Unowned(HooksOf(doc, event), host, event, r) else HooksOf(doc, event)
    ensures key != "hooks" ==> Get(Cleaned(doc, host, r), key) == Get(doc, key)
  {
    hide KeptEntries, Unowned, ExpectedSpecs, EntriesOf, Flat, CleanEvents, Prune;
    EntriesAfter(doc, host, r, event);
    FlatKept(EntriesOf(doc, event), host, event, r);
  }

  /** The number returned is the number of hooks that went. */
  lemma {:induction false} CountsWhatWent(doc: Json, host: string, r: Reader, specs: seq<Spec>)
    requires forall i :: 0 <= i < |specs| ==> HasEvent(ExpectedSpecs(host), specs[i].event)
    ensures Removed(doc, host, specs, r) == HookCount(doc, specs) - HookCount(Cleaned(doc, host, r), specs)
  {
    hide Cleaned, HooksOf, Unowned, ExpectedSpecs, HasEvent;
    if specs != [] {
      CountsWhatWent(doc, host, r, specs[..|specs| - 1]);
      RemovalKeepsTheRest(doc, host, r, specs[|specs| - 1].event, "");
    }
  }

  function HookCount(doc: Json, specs: seq<Spec>): nat {
    if specs == [] then 0 else HookCount(doc, specs[..|specs| - 1]) + |HooksOf(doc, specs[|specs| - 1].event)|
  }

  lemma {:induction false} KeptTwice(entries: seq<Json>, host: string, event: string, r: Reader)
    ensures KeptEntries(KeptEntries(entries, host, event, r), host, event, r) == KeptEntries(entries, host, event, r)
  {
    hide IsOwned, Unowned;
    if entries != [] {
      var front, entry := entries[..|entries| - 1], entries[|entries| - 1];
      KeptTwice(front, host, event, r);
      var once, before := KeptEntries(entries, host, event, r), KeptEntries(front, host, event, r);
      if GetArray(entry, "hooks").Some? {
        var kept := Unowned(GetArray(entry, "hooks").value, host, event, r);
        UnownedTwice(GetArray(entry, "hooks").value, host, event, r);
        var entry2 := Object(entry.fields["hooks" := Array(kept)]);
        assert GetArray(entry2, "hooks") == Some(kept) && Object(entry2.fields["hooks" := Array(kept)]) == entry2;
      }
      if once != before {
        assert once[..|once| - 1] == before;
        KeptNext(once, host, event, r);
      }
    }
  }

  lemma {:induction false} UnownedTwice(hooks: seq<Json>, host: string, event: string, r: Reader)
    ensures Unowned(Unowned(hooks, host, event, r), host, event, r) == Unowned(hooks, host, event, r)
  {
    hide IsOwned;
    if hooks != [] {
      var front := Unowned(hooks[..|hooks| - 1], host, event, r);
      UnownedTwice(hooks[..|hooks| - 1], host, event, r);
      assert (front + [hooks[|hooks| - 1]])[..|front|] == front;
    }
  }

  /** Removing again changes nothing. */
  lemma RemovalIsIdempotent(doc: Json, host: string, r: Reader)
    ensures Cleaned(Cleaned(doc, host, r), host, r) == Cleaned(doc, host, r)
  {
    hide IsOwned, KeptEntries, CleanEvents, ExpectedSpecs, HasEvent;
    var hooks := Get(doc, "hooks");
    var specs := ExpectedSpecs(host);
    EventsDiffer(host);
    if hooks.Some? && hooks.value.Object? {
      var all := CleanEvents(hooks.value.fields, host, specs, r);
      var left := Prune(all);
      var again := CleanEvents(left, host, specs, r);
      forall k ensures (k in again <==> k in left) && (k in left ==> again[k] == left[k]) {
        CleanEventsAt(hooks.value.fields, host, specs, r, k);
        CleanEventsAt(left, host, specs, r, k);
        if k in left && HasEvent(specs, k) && hooks.value.fields[k].Array? {
          KeptTwice(hooks.value.fields[k].items, host, k, r);
        }
      }
      assert again == left;
      assert Prune(left) == left;
    }
  }

  // ---------------------------------------------------------------- what evaluation sees

  lemma {:induction false} SpecForIs(specs: seq<Spec>, i: nat)
    requires Distinct(specs) && i < |specs|
    ensures SpecFor(specs, specs[i].event) == Some(specs[i])
  {
    if i > 0 { SpecForIs(specs[1..], i - 1); }
  }

  /** What evaluation counts as the host's, removal takes as the host's. */
  lemma ExpectedIsOwned(host: string, i: nat, entry: Json, hook: Json, executable: string, r: Reader)
    requires i < |ExpectedSpecs(host)| && IsExpected(entry, hook, ExpectedSpecs(host)[i], executable, r)
    ensures IsOwned(host, ExpectedSpecs(host)[i].event, hook, r)
  {
    hide ExpectedSpecs, SpecFor, RunsCommand;
    EventsDiffer(host);
    SpecForIs(ExpectedSpecs(host), i);
  }

  lemma {:induction false} NoneMatch(entry: Json, hooks: seq<Json>, host: string, i: nat, executable: string, r: Reader)
    requires i < |ExpectedSpecs(host)| && forall h :: h in hooks ==> !IsOwned(host, ExpectedSpecs(host)[i].event, h, r)
    ensures Matches(entry, hooks, ExpectedSpecs(host)[i], executable, r) == 0
  {
    hide IsOwned, IsExpected, ExpectedSpecs;
    if hooks != [] {
      var last := hooks[|hooks| - 1];
      assert last in hooks;
      NoneMatch(entry, hooks[..|hooks| - 1], host, i, executable, r);
      if IsExpected(entry, last, ExpectedSpecs(host)[i], executable, r) {
        ExpectedIsOwned(host, i, entry, last, executable, r);
      }
    }
  }

  lemma {:induction false} NoneMatchIn(entries: seq<Json>, host: string, i: nat, executable: string, r: Reader)
    requires i < |ExpectedSpecs(host)|
    ensures var spec := ExpectedSpecs(host)[i];
      MatchesIn(KeptEntries(entries, host, spec.event, r), spec, executable, r) == 0
  {
    hide IsOwned, Unowned, Matches, ExpectedSpecs;
    if entries != [] {
      var spec := ExpectedSpecs(host)[i];
      var front, entry := entries[..|entries| - 1], entries[|entries| - 1];
      NoneMatchIn(front, host, i, executable, r);
      var once, before := KeptEntries(entries, host, spec.event, r), KeptEntries(front, host, spec.event, r);
      assert once != before ==> once[..|once| - 1] == before;
      UnownedIsShorter(HooksIn(entry), host, spec.event, r);
      if once != before {
        NoneMatch(once[|once| - 1], HooksIn(once[|once| - 1]), host, i, executable, r);
      }
    }
  }

  /** After removal none of the host's hooks counts as registered. */
  lemma NothingStaysRegistered(doc: Json, host: string, i: nat, executable: string, r: Reader)
    requires i < |ExpectedSpecs(host)|
    ensures ExpectedMatchCount(Cleaned(doc, host, r), ExpectedSpecs(host)[i], executable, r) == 0
  {
    hide Cleaned, KeptEntries, MatchesIn, ExpectedSpecs, EntriesOf;
    var spec := ExpectedSpecs(host)[i];
    EntriesAfter(doc, host, r, spec.event);
    NoneMatchIn(EntriesOf(doc, spec.event), host, i, executable, r);
  }

  lemma OwnedIsNotOthers(entry: Json, entry2: Json, hook: Json, host: string, event: string, spec: Spec,
          executable: string, r: Reader)
    requires Get(entry2, "matcher") == Get(entry, "matcher") && spec.host != RuntimeHost(host)
    ensures IsOwned(host, event, hook, r) ==> !IsExpected(entry, hook, spec, executable, r)
    ensures IsExpected(entry2, hook, spec, executable, r) <==> IsExpected(entry, hook, spec, executable, r)
  {
    hide ExpectedSpecs, SpecFor, RunsCommand;
  }

  lemma UnownedNext(hooks: seq<Json>, host: string, event: string, r: Reader)
    requires hooks != []
    ensures var front, last := Unowned(hooks[..|hooks| - 1], host, event, r), hooks[|hooks| - 1];
      Unowned(hooks, host, event, r) == if IsOwned(host, event, last, r) then front else front + [last]
  {
    hide IsOwned;
  }

  lemma {:induction false} OthersMatch(entry: Json, entry2: Json, hooks: seq<Json>, host: string, event: string,
          spec: Spec, executable: string, r: Reader)
    requires Get(entry2, "matcher") == Get(entry, "matcher") && spec.host != RuntimeHost(host)
    ensures Matches(entry2, Unowned(hooks, host, event, r), spec, executable, r)
      == Matches(entry, hooks, spec, executable, r)
  {
    if hooks != [] {
      var front, last := hooks[..|hooks| - 1], hooks[|hooks| - 1];
      hide IsOwned, IsExpected, Get, Unowned;
      OwnedIsNotOthers(entry, entry2, last, host, event, spec, executable, r);
      UnownedNext(hooks, host, event, r);
      OthersMatch(entry, entry2, front, host, event, spec, executable, r);
      assert (Unowned(front, host, event, r) + [last])[..|Unowned(front, host, event, r)|]
        == Unowned(front, host, event, r);
    }
  }

  lemma OthersMatchOne(entry: Json, host: string, event: string, spec: Spec, executable: string, r: Reader)
    requires spec.host != RuntimeHost(host) && GetArray(entry, "hooks").Some?
    ensures var kept := Unowned(HooksIn(entry), host, event, r);
      var entry2 := Object(entry.fields["hooks" := Array(kept)]);
      && HooksIn(entry2) == kept
      && Matches(entry2, kept, spec, executable, r) == Matches(entry, HooksIn(entry), spec, executable, r)
      && (kept == [] ==> Matches(entry, HooksIn(entry), spec, executable, r) == 0)
  {
    hide IsOwned, Unowned, IsExpected;
    var kept := Unowned(HooksIn(entry), host, event, r);
    var entry2 := Object(entry.fields["hooks" := Array(kept)]);
    OthersMatch(entry, entry2, HooksIn(entry), host, event, spec, executable, r);
  }

  lemma {:induction false} OthersMatchIn(entries: seq<Json>, host: string, event: string, spec: Spec,
          executable: string, r: Reader)
    requires spec.host != RuntimeHost(host)
    ensures MatchesIn(KeptEntries(entries, host, event, r), spec, executable, r)
      == MatchesIn(entries, spec, executable, r)
  {
    hide IsOwned, Unowned, IsExpected, KeptEntries, Matches;
    if entries == [] {
      Nothing(host, event, r);
    } else {
      var front, entry := entries[..|entries| - 1], entries[|entries| - 1];
      OthersMatchIn(front, host, event, spec, executable, r);
      KeptNext(entries, host, event, r);
      var once, before := KeptEntries(entries, host, event, r), KeptEntries(front, host, event, r);
      assert once != before ==> once[..|once| - 1] == before;
      if GetArray(entry, "hooks").Some? { OthersMatchOne(entry, host, event, spec, executable, r); }
    }
  }

  /** Removal for one host leaves the other host as registered as it was. */
  lemma OtherHostStaysRegistered(doc: Json, host: string, spec: Spec, executable: string, r: Reader)
    requires spec.host != RuntimeHost(host)
    ensures ExpectedMatchCount(Cleaned(doc, host, r), spec, executable, r)
      == ExpectedMatchCount(doc, spec, executable, r)
  {
    hide Cleaned, KeptEntries, MatchesIn, ExpectedSpecs, EntriesOf;
    EntriesAfter(doc, host, r, spec.event);
    OthersMatchIn(EntriesOf(doc, spec.event), host, spec.event, spec, executable, r);
  }

  // ---------------------------------------------------------------- the report

  datatype Report = Report(expected: nat, registered: nat, missing: seq<string>, stale: nat)

  predicate IsHealthy(report: Report) { report.registered == report.expected && report.stale == 0 }

  /** Healthy: each hook of the host is there once, and nothing else runs its command. */
  predicate InOrder(doc: Json, spec: Spec, executable: string, r: Reader) {
    ExpectedMatchCount(doc, spec, executable, r) == 1 && !HasStale(doc, spec, executable, r)
  }

  function Missing(doc: Json, specs: seq<Spec>, executable: string, r: Reader): seq<string> {
    if specs == [] then []
    else
      var last := specs[|specs| - 1];
      Missing(doc, specs[..|specs| - 1], executable, r)
      + if ExpectedMatchCount(doc, last, executable, r) == 0 then [last.event] else []
  }

  function EventsOf(specs: seq<Spec>): seq<string> {
    if specs == [] then [] else EventsOf(specs[..|specs| - 1]) + [specs[|specs| - 1].event]
  }

  lemma {:induction false} AllMissing(doc: Json, host: string, n: nat, executable: string, r: Reader)
    requires n <= |ExpectedSpecs(host)|
    ensures Missing(Cleaned(doc, host, r), ExpectedSpecs(host)[..n], executable, r)
      == EventsOf(ExpectedSpecs(host)[..n])
    ensures |EventsOf(ExpectedSpecs(host)[..n])| == n
  {
    hide Cleaned, ExpectedSpecs, ExpectedMatchCount;
    if n > 0 {
      assert ExpectedSpecs(host)[..n][..n - 1] == ExpectedSpecs(host)[..n - 1];
      AllMissing(doc, host, n - 1, executable, r);
      NothingStaysRegistered(doc, host, n - 1, executable, r);
    }
  }

  /** So evaluation after removal lists every event of the host as missing, and none of its
      hooks as registered. */
  lemma RemovedHostIsUnregistered(doc: Json, host: string, executable: string, r: Reader)
    ensures var missing := Missing(Cleaned(doc, host, r), ExpectedSpecs(host), executable, r);
      missing == EventsOf(ExpectedSpecs(host)) && |missing| == |ExpectedSpecs(host)|
  {
    hide Cleaned, ExpectedSpecs, Missing, EventsOf;
    AllMissing(doc, host, |ExpectedSpecs(host)|, executable, r);
    assert ExpectedSpecs(host)[..|ExpectedSpecs(host)|] == ExpectedSpecs(host);
  }

  /** `stale` counts the details before equal ones are merged. */
  method EvaluateHooks(doc: Json, host: string, executable: string, r: Reader) returns (report: Report)
    ensures IsHealthy(report) <==> forall spec :: spec in ExpectedSpecs(host) ==> InOrder(doc, spec, executable, r)
    ensures report.expected == |ExpectedSpecs(host)|
    ensures report.missing == Missing(doc, ExpectedSpecs(host), executable, r)
    ensures report.registered + |report.missing| == report.expected
  {
    hide IsStale, EntriesOf, MatchesIn, ExpectedSpecs, HooksIn, IsExpected;
    var specs := ExpectedSpecs(host);
    var registered, missing: seq<string>, stale := 0, [], 0;
    for i := 0 to |specs|
      invariant missing == Missing(doc, specs[..i], executable, r)
      invariant registered + |missing| == i
      invariant (missing == [] && stale == 0) <==> forall k :: 0 <= k < i ==> InOrder(doc, specs[k], executable, r)
    {
      var spec := specs[i];
      assert specs[..i + 1][..i] == specs[..i];
      var matches := ExpectedMatchCount(doc, spec, executable, r);
      if matches > 0 {
        registered := registered + 1;
        if matches > 1 { stale := stale + 1; }
      } else {
        missing := missing + [spec.event];
      }
      var found := CountStale(doc, spec, executable, r);
      stale := stale + found;
    }
    assert specs[..|specs|] == specs;
    report := Report(|specs|, registered, missing, stale);
  }

  method CountStale(doc: Json, spec: Spec, executable: string, r: Reader) returns (n: nat)
    ensures n > 0 <==> HasStale(doc, spec, executable, r)
  {
    hide IsStale, EntriesOf, HooksIn;
    n := 0;
    var entries := EntriesOf(doc, spec.event);
    for i := 0 to |entries|
      invariant n > 0
        <==> exists k, j :: 0 <= k < i && 0 <= j < |HooksIn(entries[k])|
                            && IsStale(entries[k], HooksIn(entries[k])[j], spec, executable, r)
    {
      var hooks := HooksIn(entries[i]);
      var before := n;
      for j := 0 to |hooks|
        invariant n >= before
        invariant n > before <==> exists m :: 0 <= m < j && IsStale(entries[i], hooks[m], spec, executable, r)
      {
        if IsStale(entries[i], hooks[j], spec, executable, r) { n := n + 1; }
      }
    }
  }
}
