/** Commit evidence from a Codex transcript (src/git_evidence.rs): shell calls that are one
    supported commit are paired with their outputs. Parsing JSON and asking git about a
    commit are parameters. */
module CommitEvidence {
  import opened Wrappers
  import opened Text
  import opened Json
  import ShellLexer
  import GitInvocation
  import CommitWorkdir
  import CommitCandidate

  const I32_MIN: int := -0x8000_0000
  const I32_MAX: int := 0x7FFF_FFFF
  const EXIT_PREFIX := "Process exited with code "

  // ---------------------------------------------------------------- did the command succeed

  function ScanOutput(lines: seq<string>, code: Option<int>): bool {
    if lines == [] then false
    else
      var line := Trim(lines[0]);
      if line == "Final output:" then code == Some(0)
      else if !StartsWith(line, EXIT_PREFIX) then ScanOutput(lines[1..], code)
      else
        match ParseInteger(line[|EXIT_PREFIX|..], true, I32_MIN, I32_MAX)
        case None => false
        case Some(c) => if code.Some? then false else ScanOutput(lines[1..], Some(c))
  }

  /** `codex_output_succeeded`. */
  method CodexOutputSucceeded(output: string) returns (succeeded: bool)
    ensures succeeded == ScanOutput(Lines(output), None)
  {
    var lines := Lines(output);
    var code: Option<int> := None;
    var i := 0;
    assert lines[0..] == lines;
    while i < |lines|
      invariant 0 <= i <= |lines|
      invariant ScanOutput(lines, None) == ScanOutput(lines[i..], code)
    {
      var line := Trim(lines[i]);
      assert lines[i..][1..] == lines[i + 1..];
      i := i + 1;
      if line == "Final output:" { return code == Some(0); }
      if !StartsWith(line, EXIT_PREFIX) { continue; }
      var parsed := ParseInteger(line[|EXIT_PREFIX|..], true, I32_MIN, I32_MAX);
      if parsed.None? || code.Some? { return false; }
      code := parsed;
    }
    return false;
  }

  predicate IsFinal(line: string) { Trim(line) == "Final output:" }

  predicate IsExit(line: string) { !IsFinal(line) && StartsWith(Trim(line), EXIT_PREFIX) }

  predicate ExitsWithZero(line: string) {
    IsExit(line) && ParseInteger(Trim(line)[|EXIT_PREFIX|..], true, I32_MIN, I32_MAX) == Some(0)
  }

  predicate Silent(lines: seq<string>, i: int)
    requires 0 <= i < |lines|
  {
    !IsFinal(lines[i]) && !IsExit(lines[i])
  }

  /** `final` is the first final-output line and `at` the one exit line before it. */
  predicate Reports(lines: seq<string>, final: int, at: int) {
    && 0 <= at < final < |lines| && IsFinal(lines[final]) && ExitsWithZero(lines[at])
    && forall i :: 0 <= i < final && i != at ==> Silent(lines, i)
  }

  /** With an exit code already seen, what is left decides. */
  predicate EndsQuietly(lines: seq<string>, final: int) {
    0 <= final < |lines| && IsFinal(lines[final]) && forall i :: 0 <= i < final ==> Silent(lines, i)
  }

  lemma ShiftQuiet(lines: seq<string>, f: int)
    requires lines != []
    ensures EndsQuietly(lines, f) <==>
      (if f == 0 then IsFinal(lines[0]) else Silent(lines, 0) && EndsQuietly(lines[1..], f - 1))
  {
    assert forall i :: 0 < i < |lines| ==> (Silent(lines, i) <==> Silent(lines[1..], i - 1));
    if f > 0 && Silent(lines, 0) && EndsQuietly(lines[1..], f - 1) {
      forall i | 0 <= i < f ensures Silent(lines, i) { assert i > 0 ==> Silent(lines[1..], i - 1); }
    }
    if EndsQuietly(lines, f) && f > 0 {
      forall i | 0 <= i < f - 1 ensures Silent(lines[1..], i) { assert Silent(lines, i + 1); }
    }
  }

  lemma ShiftReport(lines: seq<string>, f: int, at: int)
    requires lines != []
    ensures Reports(lines, f, at) <==>
      (if at == 0 then ExitsWithZero(lines[0]) && EndsQuietly(lines[1..], f - 1)
       else Silent(lines, 0) && Reports(lines[1..], f - 1, at - 1))
  {
    assert forall i :: 0 < i < |lines| ==> (Silent(lines, i) <==> Silent(lines[1..], i - 1));
    if Reports(lines, f, at) {
      forall i | 0 <= i < f - 1 && i != at - 1 ensures Silent(lines[1..], i) { assert Silent(lines, i + 1); }
    }
    if at == 0 && ExitsWithZero(lines[0]) && EndsQuietly(lines[1..], f - 1) {
      forall i | 0 <= i < f && i != at ensures Silent(lines, i) { assert Silent(lines[1..], i - 1); }
    }
    if at != 0 && Silent(lines, 0) && Reports(lines[1..], f - 1, at - 1) {
      forall i | 0 <= i < f && i != at ensures Silent(lines, i) { assert i > 0 ==> Silent(lines[1..], i - 1); }
    }
  }

  ghost predicate SomeQuiet(lines: seq<string>) { exists final :: EndsQuietly(lines, final) }

  ghost predicate SomeReport(lines: seq<string>) { exists final, at :: Reports(lines, final, at) }

  lemma QuietStep(lines: seq<string>)
    requires lines != []
    ensures SomeQuiet(lines) <==> IsFinal(lines[0]) || (Silent(lines, 0) && SomeQuiet(lines[1..]))
  {
    if SomeQuiet(lines) {
      var f :| EndsQuietly(lines, f);
      ShiftQuiet(lines, f);
    }
    if IsFinal(lines[0]) { assert EndsQuietly(lines, 0); }
    if Silent(lines, 0) && SomeQuiet(lines[1..]) {
      var f :| EndsQuietly(lines[1..], f);
      ShiftQuiet(lines, f + 1);
    }
  }

  lemma ReportStep(lines: seq<string>)
    requires lines != []
    ensures SomeReport(lines)
      <==> (ExitsWithZero(lines[0]) && SomeQuiet(lines[1..])) || (Silent(lines, 0) && SomeReport(lines[1..]))
  {
    hide ExitsWithZero, Silent;
    if SomeReport(lines) {
      var f, at :| Reports(lines, f, at);
      ShiftReport(lines, f, at);
    }
    if ExitsWithZero(lines[0]) && SomeQuiet(lines[1..]) {
      var f :| EndsQuietly(lines[1..], f);
      ShiftReport(lines, f + 1, 0);
    }
    if Silent(lines, 0) && SomeReport(lines[1..]) {
      var f, at :| Reports(lines[1..], f, at);
      ShiftReport(lines, f + 1, at + 1);
    }
  }

  lemma {:induction false} ScanAfterCode(lines: seq<string>, c: int)
    ensures ScanOutput(lines, Some(c)) <==> c == 0 && SomeQuiet(lines)
  {
    if lines == [] {
      assert forall f :: !EndsQuietly(lines, f);
    } else {
      hide SomeQuiet;
      ScanAfterCode(lines[1..], c);
      QuietStep(lines);
    }
  }

  /** A command succeeded exactly when its report has one exit line, for code zero, before
      the first final-output line. */
  lemma {:induction false} SucceedsExactly(lines: seq<string>)
    ensures ScanOutput(lines, None) <==> exists final, at :: Reports(lines, final, at)
  {
    assert SomeReport(lines) <==> exists final, at :: Reports(lines, final, at);
    if lines == [] {
      assert forall f, at :: !Reports(lines, f, at);
    } else {
      SucceedsExactly(lines[1..]);
      assert SomeReport(lines[1..]) <==> exists final, at :: Reports(lines[1..], final, at);
      hide SomeReport, SomeQuiet, Reports;
      ReportStep(lines);
      FirstLine(lines);
    }
  }

  lemma FirstLine(lines: seq<string>)
    requires lines != []
    ensures ScanOutput(lines, None) <==>
      (ExitsWithZero(lines[0]) && SomeQuiet(lines[1..])) || (Silent(lines, 0) && ScanOutput(lines[1..], None))
  {
    hide SomeQuiet;
    if IsExit(lines[0]) {
      var code := ParseInteger(Trim(lines[0])[|EXIT_PREFIX|..], true, I32_MIN, I32_MAX);
      if code.Some? { ScanAfterCode(lines[1..], code.value); }
    }
  }

  // ---------------------------------------------------------------- the transcript

  /** A line of the transcript: text that is no JSON, or a value. */
  datatype Line = Broken(mentionsResponse: bool) | Parsed(value: Json)

  /** What git says of a commit; `details` are everything but its SHA. */
  datatype Metadata = Metadata(sha: string, details: string)

  /** `parse` reads JSON, `resolve` asks git in a directory about a SHA. */
  datatype Git = Git(parse: string -> Option<Json>, resolve: (string, string) -> Option<Metadata>)

  /** The text under `cmd`, or under `command` where there is no `cmd` at all. */
  function CommandOf(arguments: Json): Option<string> {
    if Get(arguments, "cmd").Some? then GetText(arguments, "cmd") else GetText(arguments, "command")
  }

  /** Where the call says it starts; a blank `workdir` says nothing. */
  function BaseOf(arguments: Json, fallback: string): Option<string> {
    match GetText(arguments, "workdir")
    case None => Some(fallback)
    case Some(w) => if Trim(w) == "" then Some(fallback) else GitInvocation.ResolveLiteralWorkdir(fallback, Trim(w))
  }

  datatype Event = Call(id: string, cwd: string) | Output(id: string, text: string) | Other

  /** `parse_commit_call`; what it calls an error is passed over like anything else. */
  function CommitCall(payload: Json, fallback: string, parse: string -> Option<Json>): Event {
    var name, id, text := GetText(payload, "name"), GetText(payload, "call_id"), GetText(payload, "arguments");
    if name.None? || name.value !in {"exec_command", "shell", "shell_command"} || id.None? || text.None? then Other
    else
      match parse(text.value)
      case None => Other
      case Some(arguments) =>
        var command, base := CommandOf(arguments), BaseOf(arguments, fallback);
        if command.None? || base.None? then Other
        else
          match CommitWorkdir.Workdir(command.value, base.value, false)
          case None => Other
          case Some(cwd) => Call(id.value, cwd)
  }

  function EventOf(line: Line, fallback: string, parse: string -> Option<Json>): Event {
    if line.Broken? || GetText(line.value, "type") != Some("response_item") then Other
    else
      match Get(line.value, "payload")
      case None => Other
      case Some(payload) =>
        var kind := GetText(payload, "type");
        if kind == Some("function_call") then CommitCall(payload, fallback, parse)
        else if kind == Some("function_call_output") && GetText(payload, "call_id").Some? then
          Output(GetText(payload, "call_id").value,
                 if GetText(payload, "output").Some? then GetText(payload, "output").value else "")
        else Other
  }

  function Events(lines: seq<Line>, fallback: string, parse: string -> Option<Json>): seq<Event> {
    seq(|lines|, i requires 0 <= i < |lines| => EventOf(lines[i], fallback, parse))
  }

  /** `command`, run in `base`, is one supported commit, made in `cwd`. */
  ghost predicate CommitsIn(command: string, base: string, cwd: string) {
    match ShellLexer.Parse(command)
    case Err => false
    case Ok(p) =>
      && !p.unmodeled && (forall i :: 0 <= i < |p.separators| ==> p.separators[i] == "&&")
      && exists at :: CommitWorkdir.OneCommit(p.segments, at, base, false, cwd)
  }

  /** The command is the text `cmd`, or where there is no `cmd` at all, the text `command`. */
  ghost predicate Commands(arguments: Json, command: string) {
    || Get(arguments, "cmd") == Some(Str(command))
    || (Get(arguments, "cmd").None? && Get(arguments, "command") == Some(Str(command)))
  }

  ghost predicate NamesWorkdir(arguments: Json, dir: string) {
    dir != "" && exists w :: Get(arguments, "workdir") == Some(Str(w)) && Trim(w) == dir
  }

  /** The call starts in the directory it names, written out, or in `fallback` if it names
      none or a blank one. */
  ghost predicate StartsIn(arguments: Json, fallback: string, base: string) {
    || (base == fallback && forall dir :: !NamesWorkdir(arguments, dir))
    || exists dir ::
         && NamesWorkdir(arguments, dir) && dir[0] != '~' && '$' !in dir && '`' !in dir
         && base == GitInvocation.Join(fallback, dir)
  }

  lemma ArgumentsMean(arguments: Json, fallback: string, command: string, base: string)
    ensures CommandOf(arguments) == Some(command) <==> Commands(arguments, command)
    ensures BaseOf(arguments, fallback) == Some(base) <==> StartsIn(arguments, fallback, base)
  {
    hide Trim, GitInvocation.Join;
    if GetText(arguments, "workdir").Some? {
      var dir := Trim(GetText(arguments, "workdir").value);
      assert dir != "" <==> NamesWorkdir(arguments, dir);
      assert forall other :: NamesWorkdir(arguments, other) ==> other == dir;
    } else {
      assert forall dir :: !NamesWorkdir(arguments, dir);
    }
  }

  ghost predicate IsCommitCall(payload: Json, fallback: string, parse: string -> Option<Json>, id: string, cwd: string)
  {
    && GetText(payload, "name") in {Some("exec_command"), Some("shell"), Some("shell_command")}
    && GetText(payload, "call_id") == Some(id)
    && exists text, arguments, command, base ::
      && GetText(payload, "arguments") == Some(text) && parse(text) == Some(arguments)
      && Commands(arguments, command) && StartsIn(arguments, fallback, base)
      && CommitsIn(command, base, cwd)
  }

  /** A shell call is accepted exactly when its command line is one supported commit among
      its allowed neighbours, from the directory the call names. */
  lemma AcceptedExactly(payload: Json, fallback: string, parse: string -> Option<Json>, id: string, cwd: string)
    ensures CommitCall(payload, fallback, parse) == Call(id, cwd) <==> IsCommitCall(payload, fallback, parse, id, cwd)
  {
    hide CommitsIn, CommitWorkdir.Workdir, BaseOf, CommandOf, Commands, StartsIn;
    forall arguments, command, base
      ensures CommandOf(arguments) == Some(command) <==> Commands(arguments, command)
      ensures BaseOf(arguments, fallback) == Some(base) <==> StartsIn(arguments, fallback, base)
    {
      ArgumentsMean(arguments, fallback, command, base);
    }
    forall command, base
      ensures CommitWorkdir.Workdir(command, base, false) == Some(cwd) <==> CommitsIn(command, base, cwd)
    {
      WorkdirMeans(command, base, cwd);
    }
  }

  lemma WorkdirMeans(command: string, base: string, cwd: string)
    ensures CommitWorkdir.Workdir(command, base, false) == Some(cwd) <==> CommitsIn(command, base, cwd)
  {
    hide CommitWorkdir.Workdir, CommitWorkdir.OneCommit, ShellLexer.Parse;
    CommitWorkdir.FoundExactlyForOneCommit(command, base, false, cwd);
  }

  /** The line is a response item with a payload of this kind. */
  ghost predicate HasPayload(line: Line, kind: string, payload: Json) {
    && line.Parsed? && Get(line.value, "type") == Some(Str("response_item"))
    && Get(line.value, "payload") == Some(payload) && Get(payload, "type") == Some(Str(kind))
  }

  /** Each line gives one event: a call where it holds an accepted call, an output where it
      holds an output with a call id, with no text if it has none; and nothing otherwise. */
  lemma EventsExactly(lines: seq<Line>, fallback: string, parse: string -> Option<Json>, i: nat, id: string,
          text: string)
    requires i < |lines|
    ensures |Events(lines, fallback, parse)| == |lines|
    ensures Events(lines, fallback, parse)[i] == Call(id, text)
      <==> exists payload ::
             HasPayload(lines[i], "function_call", payload) && IsCommitCall(payload, fallback, parse, id, text)
    ensures Events(lines, fallback, parse)[i] == Output(id, text)
      <==> exists payload ::
             && HasPayload(lines[i], "function_call_output", payload)
             && Get(payload, "call_id") == Some(Str(id))
             && (Get(payload, "output") == Some(Str(text))
                 || (text == "" && forall other :: Get(payload, "output") != Some(Str(other))))
  {
    hide CommitCall, IsCommitCall;
    var line := lines[i];
    assert Events(lines, fallback, parse)[i] == EventOf(line, fallback, parse);
    forall payload, kind ensures HasPayload(line, kind, payload) <==>
      && line.Parsed? && GetText(line.value, "type") == Some("response_item")
      && Get(line.value, "payload") == Some(payload) && GetText(payload, "type") == Some(kind)
    {
    }
    if line.Parsed? && Get(line.value, "payload").Some? {
      var payload := Get(line.value, "payload").value;
      AcceptedExactly(payload, fallback, parse, id, text);
      CallsAreNoOutputs(payload, fallback, parse);
    }
  }

  lemma CallsAreNoOutputs(payload: Json, fallback: string, parse: string -> Option<Json>)
    ensures !CommitCall(payload, fallback, parse).Output?
  {
  }

  function Outcome(g: Git, cwd: string, text: string): Option<Metadata> {
    if !ScanOutput(Lines(text), None) then None
    else
      match CommitCandidate.Candidate(text)
      case None => None
      case Some(sha) => g.resolve(cwd, sha)
  }

  datatype Evidence = Evidence(metadata: Metadata, locator: string)

  function Locator(id: string): string { "codex_call:" + id }

  /** Calls waiting for their output, and the evidence by SHA. */
  datatype Books = Books(calls: map<string, string>, evidence: map<string, Evidence>)

  function Next(b: Books, event: Event, g: Git): Books {
    match event
    case Call(id, cwd) => b.(calls := b.calls[id := cwd])
    case Output(id, text) =>
      if id !in b.calls then b
      else
        var calls := b.calls - {id};
        (match Outcome(g, b.calls[id], text)
         case None => b.(calls := calls)
         case Some(m) =>
           Books(calls, if m.sha in b.evidence then b.evidence else b.evidence[m.sha := Evidence(m, Locator(id))]))
    case Other => b
  }

  function Fold(events: seq<Event>, g: Git): Books {
    if events == [] then Books(map[], map[]) else Next(Fold(events[..|events| - 1], g), events[|events| - 1], g)
  }

  // ---------------------------------------------------------------- what evidence means

  predicate Concerns(event: Event, id: string) { (event.Call? || event.Output?) && event.id == id }

  /** Call `i` is the latest event of its id before `n`. */
  predicate Waiting(events: seq<Event>, n: int, i: int) {
    0 <= i < n <= |events| && events[i].Call? && forall k :: i < k < n ==> !Concerns(events[k], events[i].id)
  }

  /** Output `j` answers call `i`. */
  predicate Answers(events: seq<Event>, j: int, i: int) {
    0 <= j < |events| && events[j].Output? && Waiting(events, j, i) && events[i].id == events[j].id
  }

  /** The text announces this commit and no other. */
  ghost predicate AnnouncesOnly(text: string, sha: string) {
    CommitCandidate.Announces(text, sha) && forall other :: CommitCandidate.Announces(text, other) ==> other == sha
  }

  /** The report in `text` is of a success, it announces one commit, and git knows that
      commit in `cwd` as `m`. */
  ghost predicate Settles(g: Git, cwd: string, text: string, m: Metadata) {
    && (exists final, at :: Reports(Lines(text), final, at))
    && exists sha :: AnnouncesOnly(text, sha) && g.resolve(cwd, sha) == Some(m)
  }

  lemma OutcomeSettles(g: Git, cwd: string, text: string, m: Metadata)
    ensures Outcome(g, cwd, text) == Some(m) <==> Settles(g, cwd, text, m)
  {
    hide Reports, ScanOutput, Lines, CommitCandidate.Announces, CommitCandidate.Candidate;
    SucceedsExactly(Lines(text));
    forall sha ensures CommitCandidate.Candidate(text) == Some(sha) <==> AnnouncesOnly(text, sha) {
      CommitCandidate.CandidateExactly(text, sha);
    }
  }

  /** Output `j` answers a call, and settles that the call's directory got `m`. */
  ghost predicate Proves(events: seq<Event>, g: Git, j: int, m: Metadata) {
    exists i :: Answers(events, j, i) && Settles(g, events[i].cwd, events[j].text, m)
  }

  /** A call backs one output and an output has one call. */
  lemma PairingIsOneToOne(events: seq<Event>, j1: int, i1: int, j2: int, i2: int)
    requires Answers(events, j1, i1) && Answers(events, j2, i2)
    ensures i1 == i2 <==> j1 == j2
  {
    if i1 == i2 { assert Concerns(events[j1], events[i1].id) && Concerns(events[j2], events[i1].id); }
    if j1 == j2 { assert Concerns(events[i1], events[i2].id) && Concerns(events[i2], events[i1].id); }
  }

  ghost predicate CallsMeanWaiting(events: seq<Event>, calls: map<string, string>) {
    && (forall id :: id in calls ==> exists i :: Waiting(events, |events|, i) && events[i] == Call(id, calls[id]))
    && (forall i :: Waiting(events, |events|, i) ==> events[i].id in calls && calls[events[i].id] == events[i].cwd)
  }

  /** Output `j` is the earliest one that resolves to this SHA. */
  ghost predicate FirstProof(events: seq<Event>, g: Git, e: Evidence, j: int) {
    && 0 <= j < |events| && events[j].Output? && e.locator == "codex_call:" + events[j].id
    && Proves(events, g, j, e.metadata)
    && forall k, m: Metadata :: k < j && Proves(events, g, k, m) ==> m.sha != e.metadata.sha
  }

  ghost predicate EvidenceMeansProof(events: seq<Event>, g: Git, evidence: map<string, Evidence>) {
    && (forall sha :: sha in evidence ==>
          evidence[sha].metadata.sha == sha && exists j :: FirstProof(events, g, evidence[sha], j))
    && (forall j, m: Metadata :: Proves(events, g, j, m) ==> m.sha in evidence)
  }

  /** One more event changes nothing about those before it. */
  lemma Extend(events: seq<Event>, g: Git, n: int)
    requires n == |events| - 1 >= 0
    ensures forall m, i :: m <= n ==> (Waiting(events, m, i) <==> Waiting(events[..n], m, i))
    ensures forall j, i :: j < n ==> (Answers(events, j, i) <==> Answers(events[..n], j, i))
    ensures forall j, m: Metadata :: j < n ==> (Proves(events, g, j, m) <==> Proves(events[..n], g, j, m))
  {
    hide Settles;
    var front := events[..n];
    forall j, m: Metadata | j < n && Proves(events, g, j, m) ensures Proves(front, g, j, m) {
      var i :| Answers(events, j, i) && Settles(g, events[i].cwd, events[j].text, m);
      assert Answers(front, j, i);
    }
    forall j, m: Metadata | j < n && Proves(front, g, j, m) ensures Proves(events, g, j, m) {
      var i :| Answers(front, j, i) && Settles(g, front[i].cwd, front[j].text, m);
      assert Answers(events, j, i);
    }
  }

  lemma WaitingStep(events: seq<Event>, n: int)
    requires n == |events| - 1 >= 0
    ensures forall i ::
      (Waiting(events, n + 1, i)
       <==> (i == n && events[n].Call?) || (Waiting(events[..n], n, i) && !Concerns(events[n], events[i].id)))
  {
    forall i ensures Waiting(events, n + 1, i)
      <==> (i == n && events[n].Call?) || (Waiting(events[..n], n, i) && !Concerns(events[n], events[i].id))
    {
    }
  }

  lemma CallsStep(events: seq<Event>, g: Git, n: int, b: Books)
    requires n == |events| - 1 >= 0 && CallsMeanWaiting(events[..n], b.calls)
    ensures CallsMeanWaiting(events, Next(b, events[n], g).calls)
  {
    hide Outcome;
    WaitingStep(events, n);
    var front, last, calls := events[..n], events[n], Next(b, events[n], g).calls;
    forall id | id in calls ensures exists i :: Waiting(events, n + 1, i) && events[i] == Call(id, calls[id]) {
      if last == Call(id, calls[id]) {
        assert Waiting(events, n + 1, n);
      } else {
        assert !Concerns(last, id) && id in b.calls;
        var i :| Waiting(front, n, i) && front[i] == Call(id, b.calls[id]);
        assert Waiting(events, n + 1, i);
      }
    }
    forall i | Waiting(events, n + 1, i) ensures events[i].id in calls && calls[events[i].id] == events[i].cwd {
      if i != n { assert Waiting(front, n, i) && !Concerns(last, front[i].id); }
    }
  }

  lemma LastProves(events: seq<Event>, g: Git, n: int, b: Books, m: Metadata)
    requires n == |events| - 1 >= 0 && CallsMeanWaiting(events[..n], b.calls)
    ensures Proves(events, g, n, m) <==>
      events[n].Output? && events[n].id in b.calls && Outcome(g, b.calls[events[n].id], events[n].text) == Some(m)
  {
    hide Outcome, Settles;
    var front, last := events[..n], events[n];
    Extend(events, g, n);
    if last.Output? && last.id in b.calls {
      OutcomeSettles(g, b.calls[last.id], last.text, m);
      var i :| Waiting(front, n, i) && front[i] == Call(last.id, b.calls[last.id]);
      assert Answers(events, n, i);
    }
    if Proves(events, g, n, m) {
      var i :| Answers(events, n, i) && Settles(g, events[i].cwd, last.text, m);
      assert Waiting(front, n, i);
    }
  }

  lemma EvidenceStep(events: seq<Event>, g: Git, n: int, b: Books)
    requires n == |events| - 1 >= 0 && CallsMeanWaiting(events[..n], b.calls)
    requires EvidenceMeansProof(events[..n], g, b.evidence)
    ensures EvidenceMeansProof(events, g, Next(b, events[n], g).evidence)
  {
    hide Outcome, Proves, CallsMeanWaiting;
    var front, last, evidence := events[..n], events[n], Next(b, events[n], g).evidence;
    Extend(events, g, n);
    forall m: Metadata ensures Proves(events, g, n, m) <==>
      last.Output? && last.id in b.calls && Outcome(g, b.calls[last.id], last.text) == Some(m)
    {
      LastProves(events, g, n, b, m);
    }
    forall sha | sha in evidence
      ensures evidence[sha].metadata.sha == sha && exists j :: FirstProof(events, g, evidence[sha], j)
    {
      if sha in b.evidence {
        var j :| FirstProof(front, g, b.evidence[sha], j);
        assert FirstProof(events, g, evidence[sha], j);
      } else {
        assert FirstProof(events, g, evidence[sha], n);
      }
    }
    forall j, m: Metadata | Proves(events, g, j, m) ensures m.sha in evidence {
      ProvesWithin(events, g, j, m);
      assert j < n ==> Proves(front, g, j, m);
    }
  }

  lemma ProvesWithin(events: seq<Event>, g: Git, j: int, m: Metadata)
    requires Proves(events, g, j, m)
    ensures 0 <= j < |events|
  {
  }

  /** The transcript fold refines this reading: there is evidence for a SHA exactly when
      some successful output answers an accepted commit call and resolves to it, and the
      evidence names the call of the earliest such output. */
  lemma {:induction false} EvidenceIsExact(events: seq<Event>, g: Git)
    ensures CallsMeanWaiting(events, Fold(events, g).calls)
    ensures EvidenceMeansProof(events, g, Fold(events, g).evidence)
  {
    if events != [] {
      var n := |events| - 1;
      EvidenceIsExact(events[..n], g);
      CallsStep(events, g, n, Fold(events[..n], g));
      EvidenceStep(events, g, n, Fold(events[..n], g));
    }
  }

  // ---------------------------------------------------------------- the loop over the transcript

  predicate Unreadable(lines: seq<Line>) { exists i :: 0 <= i < |lines| && lines[i] == Broken(true) }

  /** `from_codex_transcript`: an error for a broken response line, otherwise the evidence. */
  method FromTranscript(lines: seq<Line>, fallback: string, g: Git) returns (r: Result<map<string, Evidence>>)
    ensures r == if Unreadable(lines) then Err else Ok(Fold(Events(lines, fallback, g.parse), g).evidence)
    ensures r.Err? <==> exists i :: 0 <= i < |lines| && lines[i] == Broken(true)
    ensures r.Ok? ==> EvidenceMeansProof(Events(lines, fallback, g.parse), g, r.value)
  {
    assert Unreadable(lines) <==> exists i :: 0 <= i < |lines| && lines[i] == Broken(true);
    hide Unreadable, Fold, ScanOutput, Events, EventOf, Locator, EvidenceMeansProof, CommitCandidate.Candidate;
    EvidenceIsExact(Events(lines, fallback, g.parse), g);
    var calls: map<string, string>, evidence: map<string, Evidence> := map[], map[];
    var i := 0;
    FoldStart(lines, fallback, g);
    while i < |lines|
      invariant 0 <= i <= |lines|
      invariant !Unreadable(lines[..i])
      invariant Books(calls, evidence) == Fold(Events(lines[..i], fallback, g.parse), g)
    {
      FoldNext(lines, fallback, g, i);
      if lines[i] == Broken(true) { return Err; }
      match EventOf(lines[i], fallback, g.parse) {
        case Call(id, cwd) =>
          calls := calls[id := cwd];
        case Output(id, text) =>
          if id in calls {
            var cwd := calls[id];
            calls := calls - {id};
            var succeeded := CodexOutputSucceeded(text);
            var candidate := CommitCandidate.Candidate(text);
            if succeeded && candidate.Some? {
              var found := g.resolve(cwd, candidate.value);
              if found.Some? && found.value.sha !in evidence {
                evidence := evidence[found.value.sha := Evidence(found.value, Locator(id))];
              }
            }
          }
        case Other =>
      }
      i := i + 1;
    }
    assert lines[..i] == lines;
    return Ok(evidence);
  }

  lemma FoldStart(lines: seq<Line>, fallback: string, g: Git)
    ensures !Unreadable(lines[..0]) && Fold(Events(lines[..0], fallback, g.parse), g) == Books(map[], map[])
  {
  }

  lemma FoldNext(lines: seq<Line>, fallback: string, g: Git, i: nat)
    requires i < |lines|
    ensures Fold(Events(lines[..i + 1], fallback, g.parse), g)
         == Next(Fold(Events(lines[..i], fallback, g.parse), g), EventOf(lines[i], fallback, g.parse), g)
    ensures lines[i] == Broken(true) ==> Unreadable(lines)
    ensures Unreadable(lines[..i + 1]) <==> Unreadable(lines[..i]) || lines[i] == Broken(true)
  {
    hide Next, EventOf;
    assert lines[..i + 1][..i] == lines[..i];
    assert forall k :: 0 <= k < i ==> lines[..i + 1][k] == lines[..i][k];
    var events := Events(lines[..i + 1], fallback, g.parse);
    assert events[..i] == Events(lines[..i], fallback, g.parse);
  }
}
