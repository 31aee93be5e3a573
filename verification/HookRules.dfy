/** Which hooks are whose, which are in order and which are counted (src/hook_integrity.rs),
    told hook by hook. */
module HookRules {
  import opened Wrappers
  import opened Text
  import opened Json
  import opened HookIntegrity

  // ---------------------------------------------------------------- whose a hook is

  /** What a host runs on an event: subcommand and nested subcommand. */
  predicate Runs(host: string, event: string, subcommand: string, nested: Option<string>) {
    if host == "codex" then
      (event, subcommand, nested) in {("SessionStart", "context", None), ("Stop", "summarize", None)}
    else
      (event, subcommand, nested) in
        {("PostToolUse", "observe", None), ("PreCompact", "summarize", None), ("Stop", "summarize", None),
         ("SessionStart", "context", None), ("UserPromptSubmit", "session-init", None),
         ("PreToolUse", "rules", Some("eval"))}
  }

  predicate NamesHost(i: Invocation, name: string) {
    i.flagHost == Some(name) || (i.flagHost == None && i.envHost == Some(name))
  }

  function HostName(host: string): string { if host == "codex" then "codex-cli" else "claude-code" }

  /** A host owns a hook that runs its command for the event and names it, by flag or, where
      there is no flag, by environment, or names no host at all. */
  lemma OwnedExactly(host: string, event: string, hook: Json, r: Reader)
    ensures IsOwned(host, event, hook, r) <==>
      exists i: Invocation, subcommand ::
        && r.parse(hook) == Some(i) && i.subcommand == Some(subcommand) && Runs(host, event, subcommand, i.nested)
        && (NamesHost(i, HostName(host)) || (i.flagHost == None && i.envHost == None))
  {
    SpecsRun(host, event);
    hide ExpectedSpecs, SpecFor, Runs;
    if r.parse(hook).Some? && r.parse(hook).value.subcommand.Some? {
      var i := r.parse(hook).value;
      assert ResolvedHost(i) in {None, Some(RuntimeHost(host))}
        <==> NamesHost(i, HostName(host)) || (i.flagHost == None && i.envHost == None);
    }
  }

  /** Which tools or sources the hook of an event is for. */
  function MatcherOf(host: string, event: string): Option<string> {
    if host == "codex" then None
    else if event == "PostToolUse" then Some("Write|Edit|NotebookEdit|Bash|Grep|Glob|Agent|Task")
    else if event == "SessionStart" then Some("startup|resume|clear|compact")
    else if event == "PreToolUse" then Some("Bash") else None
  }

  /** How many seconds it may take. */
  function TimeoutOf(host: string, event: string): Option<nat> {
    if host == "codex" then None
    else if event in {"SessionStart", "UserPromptSubmit"} then Some(15)
    else if event == "PreToolUse" then Some(5) else Some(120)
  }

  /** The hooks expected of a host, one for each of its events. */
  lemma SpecsExactly(host: string, spec: Spec)
    ensures spec in ExpectedSpecs(host) <==>
      && Runs(host, spec.event, spec.subcommand, spec.nested) && spec.host == HostName(host)
      && spec.matcher == MatcherOf(host, spec.event) && spec.timeout == TimeoutOf(host, spec.event)
  {
  }

  lemma SpecsRun(host: string, event: string)
    ensures forall subcommand, nested :: Runs(host, event, subcommand, nested) <==>
      && SpecFor(ExpectedSpecs(host), event).Some?
      && SpecFor(ExpectedSpecs(host), event).value.subcommand == subcommand
      && SpecFor(ExpectedSpecs(host), event).value.nested == nested
  {
    var specs := ExpectedSpecs(host);
    if host == "codex" {
      TwoSpecs(specs, event);
    } else {
      SixSpecs(specs, event);
    }
  }

  lemma NextSpec(specs: seq<Spec>, k: nat, event: string)
    requires k <= |specs|
    ensures SpecFor(specs[k..], event)
      == if k == |specs| then None
         else if specs[k].event == event then Some(specs[k]) else SpecFor(specs[k + 1..], event)
  {
    if k < |specs| { assert specs[k..][1..] == specs[k + 1..]; }
  }

  lemma TwoSpecs(specs: seq<Spec>, event: string)
    requires |specs| == 2
    ensures SpecFor(specs, event)
      == if specs[0].event == event then Some(specs[0]) else if specs[1].event == event then Some(specs[1]) else None
  {
    hide SpecFor;
    assert specs[0..] == specs;
    NextSpec(specs, 0, event);
    NextSpec(specs, 1, event);
    NextSpec(specs, 2, event);
  }

  lemma SixSpecs(specs: seq<Spec>, event: string)
    requires |specs| == 6
    ensures SpecFor(specs, event)
      == if specs[0].event == event then Some(specs[0]) else if specs[1].event == event then Some(specs[1])
         else if specs[2].event == event then Some(specs[2]) else if specs[3].event == event then Some(specs[3])
         else if specs[4].event == event then Some(specs[4]) else if specs[5].event == event then Some(specs[5])
         else None
  {
    hide SpecFor;
    assert specs[0..] == specs;
    NextSpec(specs, 0, event);
    NextSpec(specs, 1, event);
    NextSpec(specs, 2, event);
    NextSpec(specs, 3, event);
    NextSpec(specs, 4, event);
    NextSpec(specs, 5, event);
    NextSpec(specs, 6, event);
  }

  // ---------------------------------------------------------------- where hooks are

  /** Entry `i` of the event has a list of hooks with `hook` at place `j`. */
  ghost predicate StandsAt(doc: Json, event: string, entries: seq<Json>, i: nat, j: nat, hook: Json) {
    && (exists hooks :: Get(doc, "hooks") == Some(hooks) && Get(hooks, event) == Some(Array(entries)))
    && i < |entries|
    && exists list :: Get(entries[i], "hooks") == Some(Array(list)) && j < |list| && list[j] == hook
  }

  lemma {:induction false} FlatHas(entries: seq<Json>, hook: Json)
    ensures hook in Flat(entries) <==> exists i :: 0 <= i < |entries| && hook in HooksIn(entries[i])
  {
    hide HooksIn;
    if entries != [] {
      var n := |entries| - 1;
      FlatHas(entries[..n], hook);
      assert forall i :: 0 <= i < n ==> entries[i] == entries[..n][i];
    }
  }

  /** The hooks of an event are those in the lists of its entries, and no others. */
  lemma HooksExactly(doc: Json, event: string, hook: Json)
    ensures hook in HooksOf(doc, event) <==> exists entries, i: nat, j: nat :: StandsAt(doc, event, entries, i, j, hook)
  {
    var entries := EntriesOf(doc, event);
    FlatHas(entries, hook);
    if hook in HooksOf(doc, event) {
      var i: nat :| i < |entries| && hook in HooksIn(entries[i]);
      var j: nat :| j < |HooksIn(entries[i])| && HooksIn(entries[i])[j] == hook;
      assert StandsAt(doc, event, entries, i, j, hook);
    }
    forall es, i: nat, j: nat | StandsAt(doc, event, es, i, j, hook) ensures hook in HooksOf(doc, event) {
      assert es == entries && hook in HooksIn(entries[i]);
    }
  }

  // ---------------------------------------------------------------- what removal leaves

  /** An entry without a list of hooks stays. One whose hooks were all the host's goes,
      unless it had none. Any other keeps the hooks that are not, and all else it holds. */
  lemma EntryExactly(entry: Json, host: string, event: string, r: Reader, key: string)
    ensures GetArray(entry, "hooks") == None ==> KeptEntries([entry], host, event, r) == [entry]
    ensures forall list :: Get(entry, "hooks") == Some(Array(list)) ==>
      var kept := KeptEntries([entry], host, event, r);
      if list != [] && forall h :: h in list ==> IsOwned(host, event, h, r) then kept == []
      else
        && |kept| == 1 && Get(kept[0], "hooks") == Some(Array(Unowned(list, host, event, r)))
        && (key != "hooks" ==> Get(kept[0], key) == Get(entry, key))
  {
    hide IsOwned, Unowned, KeptEntries;
    assert [entry][..0] == [];
    Nothing(host, event, r);
    KeptNext([entry], host, event, r);
    var hooks := GetArray(entry, "hooks");
    if hooks.Some? {
      var kept := Unowned(hooks.value, host, event, r);
      UnownedIsShorter(hooks.value, host, event, r);
      assert kept == [] <==> forall h :: h in hooks.value ==> IsOwned(host, event, h, r) by {
        if kept != [] { assert kept[0] in kept; }
      }
    }
  }

  /** Each entry is treated on its own, in order. */
  lemma {:induction false} KeptConcat(a: seq<Json>, b: seq<Json>, host: string, event: string, r: Reader)
    ensures KeptEntries(a + b, host, event, r) == KeptEntries(a, host, event, r) + KeptEntries(b, host, event, r)
  {
    hide KeptEntries, Unowned;
    if b == [] {
      assert a + b == a;
      Nothing(host, event, r);
    } else {
      var n := |b| - 1;
      KeptConcat(a, b[..n], host, event, r);
      assert (a + b)[..|a + b| - 1] == a + b[..n] && (a + b)[|a + b| - 1] == b[n];
      KeptNext(a + b, host, event, r);
      KeptNext(b, host, event, r);
    }
  }

  /** The entries of an event after removal, if it is one of the host's and a list. */
  function EntriesLeft(value: Json, host: string, event: string, r: Reader): Json {
    if HasEvent(ExpectedSpecs(host), event) && value.Array?
    then Array(KeptEntries(value.items, host, event, r)) else value
  }

  /** An event stays with the entries left to it, and goes if that is an empty list; and the
      hooks as a whole go when no event stays. */
  lemma EventsExactly(doc: Json, fields: map<string, Json>, host: string, r: Reader, event: string)
    requires Get(doc, "hooks") == Some(Object(fields))
    ensures var after := Get(Cleaned(doc, host, r), "hooks");
      && (after == None <==> forall e :: e in fields ==> EntriesLeft(fields[e], host, e, r) == Array([]))
      && (after != None ==>
            Get(after.value, event)
            == if event in fields && EntriesLeft(fields[event], host, event, r) != Array([])
               then Some(EntriesLeft(fields[event], host, event, r)) else None)
  {
    hide KeptEntries, ExpectedSpecs, CleanEvents, HasEvent;
    EventsDiffer(host);
    var all := CleanEvents(fields, host, ExpectedSpecs(host), r);
    forall e
      ensures e in all <==> e in fields
      ensures e in fields ==> all[e] == EntriesLeft(fields[e], host, e, r)
    {
      CleanEventsAt(fields, host, ExpectedSpecs(host), r, e);
    }
    var left := Prune(all);
    assert forall e :: e in left <==> e in fields && EntriesLeft(fields[e], host, e, r) != Array([]);
  }

  // ---------------------------------------------------------------- what is in order

  predicate HostDrifts(i: Invocation, spec: Spec) { !NamesHost(i, spec.host) }

  predicate MatcherDrifts(entry: Json, spec: Spec) {
    match spec.matcher
    case Some(expected) => Get(entry, "matcher") != Some(Str(expected))
    case None => Get(entry, "matcher").Some?
  }

  predicate TimeoutDrifts(hook: Json, spec: Spec) {
    spec.timeout.Some? && Get(hook, "timeout") != Some(Number(Decimal(spec.timeout.value)))
  }

  predicate ExecutableDrifts(i: Invocation, spec: Spec, executable: string, r: Reader) {
    !r.allows(i.executable, executable, spec.subcommand)
  }

  /** A hook that runs the expected command is stale exactly if its executable, host,
      matcher or timeout drifted, so a reason can always be given; and it is as expected
      exactly if none did. */
  lemma StaleHasReason(entry: Json, hook: Json, spec: Spec, executable: string, r: Reader, i: Invocation)
    requires r.parse(hook) == Some(i) && i.subcommand == Some(spec.subcommand) && i.nested == spec.nested
    ensures IsStale(entry, hook, spec, executable, r) <==>
      || ExecutableDrifts(i, spec, executable, r) || HostDrifts(i, spec)
      || MatcherDrifts(entry, spec) || TimeoutDrifts(hook, spec)
    ensures IsExpected(entry, hook, spec, executable, r) <==>
      && r.allows(i.executable, executable, spec.subcommand) && NamesHost(i, spec.host)
      && !MatcherDrifts(entry, spec) && !TimeoutDrifts(hook, spec)
  {
    hide Decimal;
  }

  /** A hook of another program, or one that runs something else, is neither. */
  lemma OthersAreNeither(entry: Json, hook: Json, spec: Spec, executable: string, r: Reader)
    requires r.parse(hook) == None
      || r.parse(hook).value.subcommand != Some(spec.subcommand) || r.parse(hook).value.nested != spec.nested
    ensures !IsStale(entry, hook, spec, executable, r) && !IsExpected(entry, hook, spec, executable, r)
  {
  }

  // ---------------------------------------------------------------- what is counted

  predicate ExpectedAt(entries: seq<Json>, spec: Spec, executable: string, r: Reader, i: int, j: int) {
    0 <= i < |entries| && 0 <= j < |HooksIn(entries[i])|
    && IsExpected(entries[i], HooksIn(entries[i])[j], spec, executable, r)
  }

  /** `places` are exactly the places with an expected hook, and `n` is how many they are. */
  ghost predicate IsCountOf(n: nat, places: set<(int, int)>, entries: seq<Json>, spec: Spec, executable: string,
                            r: Reader)
  {
    n == |places| && forall p :: p in places <==> ExpectedAt(entries, spec, executable, r, p.0, p.1)
  }

  predicate InEntry(entry: Json, i: int, hooks: seq<Json>, spec: Spec, executable: string, r: Reader, p: (int, int)) {
    p.0 == i && 0 <= p.1 < |hooks| && IsExpected(entry, hooks[p.1], spec, executable, r)
  }

  lemma {:induction false} MatchesCounts(entry: Json, i: int, hooks: seq<Json>, spec: Spec, executable: string,
          r: Reader)
      returns (places: set<(int, int)>)
    ensures Matches(entry, hooks, spec, executable, r) == |places|
    ensures forall p :: p in places <==> InEntry(entry, i, hooks, spec, executable, r, p)
  {
    hide IsExpected;
    if hooks == [] {
      places := {};
    } else {
      var n := |hooks| - 1;
      var front := MatchesCounts(entry, i, hooks[..n], spec, executable, r);
      assert forall j :: 0 <= j < n ==> hooks[j] == hooks[..n][j];
      assert (i, n) !in front;
      places := if IsExpected(entry, hooks[n], spec, executable, r) then front + {(i, n)} else front;
    }
  }

  lemma SumOfSizes(a: set<(int, int)>, b: set<(int, int)>)
    requires a !! b
    ensures |a + b| == |a| + |b|
  {
  }

  lemma {:induction false} CountsPlaces(entries: seq<Json>, spec: Spec, executable: string, r: Reader)
      returns (places: set<(int, int)>)
    ensures IsCountOf(MatchesIn(entries, spec, executable, r), places, entries, spec, executable, r)
  {
    hide IsExpected, HooksIn, Matches;
    if entries == [] {
      places := {};
    } else {
      var n := |entries| - 1;
      var front := CountsPlaces(entries[..n], spec, executable, r);
      var last := MatchesCounts(entries[n], n, HooksIn(entries[n]), spec, executable, r);
      assert forall i :: 0 <= i < n ==> entries[i] == entries[..n][i];
      SumOfSizes(front, last);
      places := front + last;
    }
  }

  /** The count of an event is the number of places, entry and hook, with an expected hook. */
  lemma CountsExactly(doc: Json, spec: Spec, executable: string, r: Reader)
    ensures exists places ::
      IsCountOf(ExpectedMatchCount(doc, spec, executable, r), places, EntriesOf(doc, spec.event), spec, executable, r)
  {
    hide IsCountOf;
    var places := CountsPlaces(EntriesOf(doc, spec.event), spec, executable, r);
    assert IsCountOf(ExpectedMatchCount(doc, spec, executable, r), places, EntriesOf(doc, spec.event), spec, executable,
        r);
  }

  /** No hook for the event of `spec` is as expected. */
  ghost predicate NowhereExpected(doc: Json, spec: Spec, executable: string, r: Reader) {
    forall i, j :: !ExpectedAt(EntriesOf(doc, spec.event), spec, executable, r, i, j)
  }

  /** Missing are exactly the events with no hook as expected. */
  lemma {:induction false} MissingExactly(doc: Json, specs: seq<Spec>, executable: string, r: Reader, event: string)
    ensures event in Missing(doc, specs, executable, r) <==>
      exists spec :: spec in specs && spec.event == event && NowhereExpected(doc, spec, executable, r)
  {
    hide ExpectedMatchCount, NowhereExpected;
    if specs != [] {
      var n := |specs| - 1;
      MissingExactly(doc, specs[..n], executable, r, event);
      NoneCounted(doc, specs[n], executable, r);
      assert specs == specs[..n] + [specs[n]];
    }
  }

  lemma NoneCounted(doc: Json, spec: Spec, executable: string, r: Reader)
    ensures ExpectedMatchCount(doc, spec, executable, r) == 0 <==> NowhereExpected(doc, spec, executable, r)
  {
    hide ExpectedAt;
    var places := CountsPlaces(EntriesOf(doc, spec.event), spec, executable, r);
    if forall i, j :: !ExpectedAt(EntriesOf(doc, spec.event), spec, executable, r, i, j) { assert places == {}; }
    forall i, j | ExpectedAt(EntriesOf(doc, spec.event), spec, executable, r, i, j) ensures |places| > 0 {
      assert (i, j) in places;
    }
  }
}
