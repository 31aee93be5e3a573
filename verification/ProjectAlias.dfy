/** The project alias registry (src/project_alias.rs): validating a plan, previewing it,
    applying it in one transaction, and resolving paths through it. The digest of a proof
    payload is a parameter. */
module ProjectAlias {
  import opened Wrappers
  import opened Text
  import opened Json

  const U64_MAX: int := 0xFFFF_FFFF_FFFF_FFFF

  datatype ProofKind = FilesystemCanonicalization | GitRemote | GitCommitMembership

  datatype Entry = Entry(alias_: string, canonical: string, kind: ProofKind, payload: Json, proof: string)

  datatype Project = Project(id: int, path: string)

  datatype Alias = Alias(target: int, active: bool, lastEvent: nat)

  datatype Event = Event(alias_: string, target: int, kind: ProofKind, payload: Json, proof: string, inventory: string,
                         actor: string, reason: string)

  datatype Registry = Registry(projects: seq<Project>, aliases: map<string, Alias>, events: seq<Event>)

  datatype Request = Request(inventory: string, actor: string, reason: string, entries: seq<Entry>)

  type Digest = Json -> string

  predicate IsAbsolute(path: string) { path != "" && path[0] == '/' }

  predicate IsDigest(s: string) {
    |s| == 64 && forall i :: 0 <= i < |s| ==> '0' <= s[i] <= '9' || 'a' <= s[i] <= 'f'
  }

  function IdsAt(projects: seq<Project>, path: string): seq<int> {
    if projects == [] then []
    else (if projects[0].path == path then [projects[0].id] else []) + IdsAt(projects[1..], path)
  }

  /** The one project row at a path; two rows are an error. */
  function ExactProjectId(r: Registry, path: string): Result<Option<int>> {
    var ids := IdsAt(r.projects, path);
    if ids == [] then Ok(None) else if |ids| == 1 then Ok(Some(ids[0])) else Err
  }

  function ActiveTarget(r: Registry, path: string): Option<int> {
    if path in r.aliases && r.aliases[path].active then Some(r.aliases[path].target) else None
  }

  function Field(payload: Json, name: string): Option<Json> {
    if payload.Object? && name in payload.fields then Some(payload.fields[name]) else None
  }

  predicate Supports(kind: ProofKind, payload: Json) {
    match kind
    case FilesystemCanonicalization => Field(payload, "canonicalized") == Some(Bool(true))
    case GitRemote =>
      (match Field(payload, "target_remote")
       case Some(Str(s)) => s != ""
       case _ => false)
    case GitCommitMembership =>
      (match Field(payload, "shared_commit_count")
       case Some(Number(text)) =>
         (match ParseInteger(text, false, 0, U64_MAX)
          case Some(n) => n > 0
          case None => false)
       case _ => false)
  }

  /** `validate_entry`. */
  predicate EntryIsValid(r: Registry, e: Entry, digest: Digest) {
    && IsAbsolute(e.alias_) && IsAbsolute(e.canonical) && e.alias_ != e.canonical
    && IsDigest(e.proof) && digest(e.payload) == e.proof
    && e.payload.Object?
    && Field(e.payload, "from_path") == Some(Str(e.alias_)) && Field(e.payload, "to_path") == Some(Str(e.canonical))
    && Supports(e.kind, e.payload)
    && ExactProjectId(r, e.canonical).Ok? && ExactProjectId(r, e.canonical).value.Some?
  }

  predicate IsBlank(s: string) { Trim(s) == "" }

  predicate HeaderIsValid(q: Request) {
    IsDigest(q.inventory) && !IsBlank(q.actor) && !IsBlank(q.reason) && q.entries != []
  }

  // ---------------------------------------------------------------- one entry

  datatype Verdict = Refused | Unchanged | Inserts(id: int)

  function Judge(r: Registry, e: Entry, digest: Digest): Verdict {
    if !EntryIsValid(r, e, digest) then Refused
    else
      var id := ExactProjectId(r, e.canonical).value.value;
      if ActiveTarget(r, e.canonical).Some? then Refused
      else
        match ActiveTarget(r, e.alias_)
        case Some(existing) => if existing == id then Unchanged else Refused
        case None => Inserts(id)
  }

  function Activated(r: Registry, q: Request, e: Entry, id: int): Registry {
    r.(events := r.events + [Event(e.alias_, id, e.kind, e.payload, e.proof, q.inventory, q.actor, q.reason)],
       aliases := r.aliases[e.alias_ := Alias(id, true, |r.events|)])
  }

  datatype Counts = Counts(inserted: nat, kept: nat)

  /** Entries applied one after the other, each seeing what the earlier ones did. */
  function ApplyEntries(r: Registry, q: Request, entries: seq<Entry>, c: Counts,
          digest: Digest): Result<(Registry, Counts)>
    decreases |entries|
  {
    if entries == [] then Ok((r, c))
    else
      match Judge(r, entries[0], digest)
      case Refused => Err
      case Unchanged => ApplyEntries(r, q, entries[1..], c.(kept := c.kept + 1), digest)
      case Inserts(id) =>
        ApplyEntries(Activated(r, q, entries[0], id), q, entries[1..], c.(inserted := c.inserted + 1), digest)
  }

  function ApplyPlan(r: Registry, q: Request, digest: Digest): Result<(Registry, Counts)> {
    if HeaderIsValid(q) then ApplyEntries(r, q, q.entries, Counts(0, 0), digest) else Err
  }

  /** Entries previewed, all against the registry as it is. */
  function PreviewEntries(r: Registry, entries: seq<Entry>, c: Counts, digest: Digest): Result<Counts>
    decreases |entries|
  {
    if entries == [] then Ok(c)
    else
      match Judge(r, entries[0], digest)
      case Refused => Err
      case Unchanged => PreviewEntries(r, entries[1..], c.(kept := c.kept + 1), digest)
      case Inserts(id) => PreviewEntries(r, entries[1..], c.(inserted := c.inserted + 1), digest)
  }

  function PreviewPlan(r: Registry, q: Request, digest: Digest): Result<Counts> {
    if HeaderIsValid(q) then PreviewEntries(r, q.entries, Counts(0, 0), digest) else Err
  }

  // ---------------------------------------------------------------- the answer

  datatype Resolution = Resolution(id: Option<int>, canonical: string, viaAlias: bool)

  function PathOf(projects: seq<Project>, id: int): Option<string> {
    if projects == [] then None
    else if projects[0].id == id then Some(projects[0].path)
    else PathOf(projects[1..], id)
  }

  /** `resolve_project_identity`: an active alias joined with its project, else the path's
      own project, else the path itself. */
  function Resolve(r: Registry, path: string): Result<Resolution> {
    var target := ActiveTarget(r, path);
    var joined := if target.Some? then PathOf(r.projects, target.value) else None;
    match joined
    case Some(canonical) => Ok(Resolution(target, canonical, true))
    case None =>
      match ExactProjectId(r, path)
      case Err => Err
      case Ok(id) => Ok(Resolution(id, path, false))
  }

  function AliasesOf(r: Registry, id: int): set<string> {
    set p | p in r.aliases && r.aliases[p].active && r.aliases[p].target == id
  }

  /** `ProjectAliasResolution`; the aliases are listed once each, in order. */
  datatype Listed = Listed(path: string, id: Option<int>, canonical: string, aliases: set<string>, viaAlias: bool)

  function ListedIn(r: Registry, path: string): Result<Listed> {
    match Resolve(r, path)
    case Err => Err
    case Ok(x) => Ok(Listed(path, x.id, x.canonical, if x.id.Some? then AliasesOf(r, x.id.value) else {}, x.viaAlias))
  }

  function Behind(done: seq<Listed>, rest: Result<seq<Listed>>): Result<seq<Listed>> {
    if rest.Ok? then Ok(done + rest.value) else Err
  }

  /** Each entry as it resolves once it is applied, in the order of the plan. */
  function ApplyListing(r: Registry, q: Request, entries: seq<Entry>, digest: Digest): Result<seq<Listed>>
    decreases |entries|
  {
    if entries == [] then Ok([])
    else if Judge(r, entries[0], digest).Refused? then Err
    else
      var after := AfterEntry(r, q, entries[0], digest);
      match ListedIn(after, entries[0].alias_)
      case Err => Err
      case Ok(x) => Behind([x], ApplyListing(after, q, entries[1..], digest))
  }

  function AfterEntry(r: Registry, q: Request, e: Entry, digest: Digest): Registry
    requires !Judge(r, e, digest).Refused?
  {
    if Judge(r, e, digest).Inserts? then Activated(r, q, e, Judge(r, e, digest).id) else r
  }

  /** What preview says of an entry; of a new one it says how it would resolve. */
  function Predicted(r: Registry, e: Entry, digest: Digest): Result<Listed> {
    match Judge(r, e, digest)
    case Refused => Err
    case Unchanged => ListedIn(r, e.alias_)
    case Inserts(id) => Ok(Listed(e.alias_, Some(id), e.canonical, AliasesOf(r, id) + {e.alias_}, true))
  }

  function PreviewListing(r: Registry, entries: seq<Entry>, digest: Digest): Result<seq<Listed>>
    decreases |entries|
  {
    if entries == [] then Ok([])
    else
      match Predicted(r, entries[0], digest)
      case Err => Err
      case Ok(x) => Behind([x], PreviewListing(r, entries[1..], digest))
  }

  datatype Report = Report(counts: Counts, listing: seq<Listed>)

  function ApplyReport(r: Registry, q: Request, digest: Digest): Result<(Registry, Report)> {
    var plan, listing := ApplyPlan(r, q, digest), ApplyListing(r, q, q.entries, digest);
    if plan.Ok? && listing.Ok? then Ok((plan.value.0, Report(plan.value.1, listing.value))) else Err
  }

  function PreviewReport(r: Registry, q: Request, digest: Digest): Result<Report> {
    var plan, listing := PreviewPlan(r, q, digest), PreviewListing(r, q.entries, digest);
    if plan.Ok? && listing.Ok? then Ok(Report(plan.value, listing.value)) else Err
  }

  class Database {
    var projects: seq<Project>
    var aliases: map<string, Alias>
    var events: seq<Event>

    function State(): Registry
      reads this
    {
      Registry(projects, aliases, events)
    }

    /** `apply_project_alias_plan`: all entries or none. */
    method Apply(q: Request, digest: Digest) returns (r: Result<Report>)
      modifies this
      ensures match ApplyReport(old(State()), q, digest)
        case Ok((after, report)) => State() == after && r == Ok(report)
        case Err => State() == old(State()) && r == Err
    {
      ghost var start := State();
      ReportOf(start, q, digest);
      hide Judge, ListedIn, Activated, ApplyEntries, ApplyListing, ApplyReport, Behind, HeaderIsValid;
      if !HeaderIsValid(q) { return Err; }
      var tx := State();
      var counts, listing := Counts(0, 0), [];
      var i := 0;
      assert q.entries[0..] == q.entries;
      NothingBefore(ApplyListing(tx, q, q.entries, digest));
      while i < |q.entries|
        invariant 0 <= i <= |q.entries|
        invariant State() == start
        invariant ApplyPlan(start, q, digest) == ApplyEntries(tx, q, q.entries[i..], counts, digest)
        invariant ApplyListing(start, q, q.entries, digest)
          == Behind(listing, ApplyListing(tx, q, q.entries[i..], digest))
      {
        var e := q.entries[i];
        assert q.entries[i..][1..] == q.entries[i + 1..];
        EntryApplied(tx, q, q.entries[i..], counts, digest);
        NothingBehind(listing);
        i := i + 1;
        match Judge(tx, e, digest) {
          case Refused => return Err;
          case Unchanged => counts := counts.(kept := counts.kept + 1);
          case Inserts(id) =>
            tx := Activated(tx, q, e, id);
            counts := counts.(inserted := counts.inserted + 1);
        }
        var listed := ListedIn(tx, e.alias_);
        if listed.Err? { return Err; }
        OneBefore(listing, listed.value, ApplyListing(tx, q, q.entries[i..], digest));
        listing := listing + [listed.value];
      }
      PlanEnds(tx, q, counts, listing, digest);
      assert q.entries[i..] == [];
      assert ApplyReport(start, q, digest) == Ok((tx, Report(counts, listing)));
      projects, aliases, events := tx.projects, tx.aliases, tx.events;
      assert State() == tx;
      return Ok(Report(counts, listing));
    }

    /** `preview_project_alias_plan`. */
    method Preview(q: Request, digest: Digest) returns (r: Result<Report>)
      ensures r == PreviewReport(State(), q, digest)
    {
      hide Judge, ListedIn;
      if !HeaderIsValid(q) { return Err; }
      var counts, listing := Counts(0, 0), [];
      var i := 0;
      assert q.entries[0..] == q.entries;
      NothingBefore(PreviewListing(State(), q.entries, digest));
      while i < |q.entries|
        invariant 0 <= i <= |q.entries|
        invariant PreviewPlan(State(), q, digest) == PreviewEntries(State(), q.entries[i..], counts, digest)
        invariant PreviewListing(State(), q.entries, digest)
          == Behind(listing, PreviewListing(State(), q.entries[i..], digest))
      {
        var e := q.entries[i];
        assert q.entries[i..][1..] == q.entries[i + 1..];
        i := i + 1;
        var listed := Predicted(State(), e, digest);
        match Judge(State(), e, digest) {
          case Refused => return Err;
          case Unchanged => counts := counts.(kept := counts.kept + 1);
          case Inserts(id) => counts := counts.(inserted := counts.inserted + 1);
        }
        if listed.Err? { return Err; }
        OneBefore(listing, listed.value, PreviewListing(State(), q.entries[i..], digest));
        listing := listing + [listed.value];
      }
      assert listing + [] == listing;
      return Ok(Report(counts, listing));
    }
  }

  /** What the next entry means for the registry and for the listing. */
  lemma EntryApplied(r: Registry, q: Request, entries: seq<Entry>, c: Counts, digest: Digest)
    requires entries != []
    ensures Judge(r, entries[0], digest).Refused? ==>
      ApplyEntries(r, q, entries, c, digest).Err? && ApplyListing(r, q, entries, digest).Err?
    ensures !Judge(r, entries[0], digest).Refused? ==>
      var after := AfterEntry(r, q, entries[0], digest);
      var c' := if Judge(r, entries[0], digest).Inserts?
                then c.(inserted := c.inserted + 1)
                else c.(kept := c.kept + 1);
      && ApplyEntries(r, q, entries, c, digest) == ApplyEntries(after, q, entries[1..], c', digest)
      && ApplyListing(r, q, entries, digest)
         == (match ListedIn(after, entries[0].alias_)
             case Err => Err
             case Ok(x) => Behind([x], ApplyListing(after, q, entries[1..], digest)))
  {
    hide Judge, ListedIn, Activated, Behind;
  }

  lemma ReportOf(r: Registry, q: Request, digest: Digest)
    ensures var plan, listing := ApplyPlan(r, q, digest), ApplyListing(r, q, q.entries, digest);
      ApplyReport(r, q, digest)
      == if plan.Ok? && listing.Ok? then Ok((plan.value.0, Report(plan.value.1, listing.value))) else Err
  {
    hide ApplyPlan, ApplyListing;
  }

  lemma PlanEnds(r: Registry, q: Request, c: Counts, listing: seq<Listed>, digest: Digest)
    ensures ApplyEntries(r, q, [], c, digest) == Ok((r, c))
    ensures Behind(listing, ApplyListing(r, q, [], digest)) == Ok(listing)
  {
    assert listing + [] == listing;
  }

  lemma NothingBehind(done: seq<Listed>)
    ensures Behind(done, Err).Err?
  {
  }

  lemma NothingBefore(rest: Result<seq<Listed>>)
    ensures Behind([], rest) == rest
  {
    if rest.Ok? { assert [] + rest.value == rest.value; }
  }

  lemma OneBefore(done: seq<Listed>, x: Listed, rest: Result<seq<Listed>>)
    ensures Behind(done, Behind([x], rest)) == Behind(done + [x], rest)
  {
    if rest.Ok? { assert done + ([x] + rest.value) == (done + [x]) + rest.value; }
  }

  // ---------------------------------------------------------------- preview against apply

  predicate IsNew(r: Registry, e: Entry) { ActiveTarget(r, e.alias_).None? }

  /** No entry touches a path that an earlier entry makes an alias. A caller can check this
      on the plan and the registry. */
  predicate Independent(r: Registry, entries: seq<Entry>) {
    forall i, j :: 0 <= j < i < |entries| && IsNew(r, entries[j]) ==>
      entries[i].alias_ != entries[j].alias_ && entries[i].canonical != entries[j].alias_
  }

  /** The same, read along the plan; `done` are the aliases made so far. */
  predicate IndependentOf(r: Registry, done: set<string>, entries: seq<Entry>)
    decreases |entries|
  {
    entries == [] ||
    (entries[0].alias_ !in done && entries[0].canonical !in done
     && IndependentOf(r, if IsNew(r, entries[0]) then done + {entries[0].alias_} else done, entries[1..]))
  }

  lemma {:induction false} IndependentRead(r: Registry, done: set<string>, entries: seq<Entry>)
    ensures IndependentOf(r, done, entries) <==>
      Independent(r, entries)
      && forall i :: 0 <= i < |entries| ==> entries[i].alias_ !in done && entries[i].canonical !in done
    decreases |entries|
  {
    if entries != [] {
      var e, rest := entries[0], entries[1..];
      var next := if IsNew(r, e) then done + {e.alias_} else done;
      IndependentRead(r, next, rest);
      assert forall i :: 0 < i < |entries| ==> entries[i] == rest[i - 1];
      if IndependentOf(r, done, entries) {
        forall i, j | 0 <= j < i < |entries| && IsNew(r, entries[j])
          ensures entries[i].alias_ != entries[j].alias_ && entries[i].canonical != entries[j].alias_
        {
          assert rest[i - 1].alias_ !in next && rest[i - 1].canonical !in next;
          if j > 0 { assert IsNew(r, rest[j - 1]); }
        }
      }
      if Independent(r, entries)
         && forall i :: 0 <= i < |entries| ==> entries[i].alias_ !in done && entries[i].canonical !in done
      {
        forall i, j | 0 <= j < i < |rest| && IsNew(r, rest[j])
          ensures rest[i].alias_ != rest[j].alias_ && rest[i].canonical != rest[j].alias_
        {
          assert IsNew(r, entries[j + 1]);
        }
        forall i | 0 <= i < |rest| ensures rest[i].alias_ !in next && rest[i].canonical !in next {
          assert entries[i + 1] == rest[i];
        }
      }
    }
  }

  /** `now` is `then` with the paths in `done`, none of them active before, made aliases. */
  ghost predicate Grown(was: Registry, now: Registry, done: set<string>) {
    && now.projects == was.projects
    && (forall p :: p in done ==> ActiveTarget(was, p).None? && ActiveTarget(now, p).Some?)
    && (forall p :: p !in done ==> ActiveTarget(now, p) == ActiveTarget(was, p))
  }

  lemma GrowOne(was: Registry, now: Registry, done: set<string>, q: Request, e: Entry, id: int)
    requires Grown(was, now, done) && ActiveTarget(now, e.alias_).None?
    ensures Grown(was, Activated(now, q, e, id), done + {e.alias_})
    ensures e.alias_ !in done && IsNew(was, e)
  {
  }

  lemma JudgeGrown(was: Registry, now: Registry, done: set<string>, e: Entry, digest: Digest)
    requires Grown(was, now, done)
    ensures Judge(was, e, digest).Refused? ==> Judge(now, e, digest).Refused?
    ensures e.alias_ !in done && e.canonical !in done ==> Judge(now, e, digest) == Judge(was, e, digest)
    ensures e.canonical in done ==> Judge(now, e, digest).Refused?
    ensures e.alias_ in done ==> !Judge(now, e, digest).Inserts?
    ensures e.alias_ in done && !Judge(was, e, digest).Refused? ==> Judge(was, e, digest).Inserts?
    ensures Judge(was, e, digest).Inserts? ==> IsNew(was, e)
    ensures Judge(was, e, digest).Unchanged? ==> !IsNew(was, e)
  {
    assert EntryIsValid(now, e, digest) == EntryIsValid(was, e, digest);
  }

  /** Where apply and preview stand to each other from any point of a plan on. */
  lemma {:induction false} Compare(was: Registry, now: Registry, done: set<string>, q: Request, entries: seq<Entry>,
                                   a: Counts, p: Counts, digest: Digest)
    requires Grown(was, now, done)
    ensures var applied, previewed := ApplyEntries(now, q, entries, a, digest), PreviewEntries(was, entries, p, digest);
      && (previewed.Err? ==> applied.Err?)
      && (previewed.Ok? && IndependentOf(was, done, entries) ==> applied.Ok?)
      && (previewed.Ok? && applied.Ok? ==>
            && applied.value.1.inserted + p.inserted <= previewed.value.inserted + a.inserted
            && applied.value.1.inserted + applied.value.1.kept == a.inserted + a.kept + |entries|
            && previewed.value.inserted + previewed.value.kept == p.inserted + p.kept + |entries|
            && (applied.value.1.inserted + p.inserted == previewed.value.inserted + a.inserted
                <==> IndependentOf(was, done, entries)))
    decreases |entries|
  {
    hide Judge, EntryIsValid, Grown, IsNew, Activated;
    if entries != [] {
      var e, rest := entries[0], entries[1..];
      JudgeGrown(was, now, done, e, digest);
      var a' := match Judge(now, e, digest)
        case Inserts(_) => a.(inserted := a.inserted + 1)
        case _ => a.(kept := a.kept + 1);
      var p' := match Judge(was, e, digest)
        case Inserts(_) => p.(inserted := p.inserted + 1)
        case _ => p.(kept := p.kept + 1);
      match Judge(now, e, digest)
      case Refused =>
        if !Judge(was, e, digest).Refused? { PreviewCounts(was, rest, p', digest); }
      case Unchanged => Compare(was, now, done, q, rest, a', p', digest);
      case Inserts(id) =>
        JudgedNew(now, e, digest);
        GrowOne(was, now, done, q, e, id);
        Compare(was, Activated(now, q, e, id), done + {e.alias_}, q, rest, a', p', digest);
    }
  }

  lemma JudgedNew(r: Registry, e: Entry, digest: Digest)
    ensures Judge(r, e, digest).Inserts? ==> ActiveTarget(r, e.alias_).None?
  {
  }

  lemma {:induction false} PreviewCounts(r: Registry, entries: seq<Entry>, p: Counts, digest: Digest)
    ensures PreviewEntries(r, entries, p, digest).Ok? ==>
      PreviewEntries(r, entries, p, digest).value.inserted + PreviewEntries(r, entries, p, digest).value.kept
        == p.inserted + p.kept + |entries|
    decreases |entries|
  {
    if entries != [] {
      match Judge(r, entries[0], digest)
      case Refused =>
      case Unchanged => PreviewCounts(r, entries[1..], p.(kept := p.kept + 1), digest);
      case Inserts(id) => PreviewCounts(r, entries[1..], p.(inserted := p.inserted + 1), digest);
    }
  }

  /** Preview predicts apply, and exactly when. A refused preview means a refused apply.
      After an accepted preview, apply succeeds with the same counts if and only if no
      entry touches a path that an earlier entry makes an alias. */
  lemma PreviewPredictsApply(r: Registry, q: Request, digest: Digest)
    ensures var applied, previewed := ApplyPlan(r, q, digest), PreviewPlan(r, q, digest);
      && (previewed.Err? ==> applied.Err?)
      && (previewed.Ok? ==>
            ((applied.Ok? && applied.value.1 == previewed.value) <==> Independent(r, q.entries)))
  {
    hide ApplyEntries, PreviewEntries, Independent, IndependentOf;
    Compare(r, r, {}, q, q.entries, Counts(0, 0), Counts(0, 0), digest);
    IndependentRead(r, {}, q.entries);
  }

  /** In particular for plans with distinct aliases none of which is also a target. */
  predicate PlainPlan(entries: seq<Entry>) {
    && (forall i, j :: 0 <= j < i < |entries| ==> entries[i].alias_ != entries[j].alias_)
    && (forall i, j :: 0 <= i < |entries| && 0 <= j < |entries| ==> entries[i].canonical != entries[j].alias_)
  }

  lemma PlainPlansAreIndependent(r: Registry, entries: seq<Entry>)
    requires PlainPlan(entries)
    ensures Independent(r, entries)
  {
  }

  // ---------------------------------------------------------------- after a plan

  predicate Lands(r: Registry, e: Entry) {
    ExactProjectId(r, e.canonical).Ok? && ExactProjectId(r, e.canonical).value.Some?
    && ActiveTarget(r, e.alias_) == ExactProjectId(r, e.canonical).value
  }

  predicate Landed(r: Registry, s: Registry, e: Entry, digest: Digest) {
    Lands(s, e) && EntryIsValid(s, e, digest) && ActiveTarget(r, e.canonical).None?
  }

  /** What a successful run of entries leaves: the projects, every earlier alias, and all
      the entries landed; only plan aliases are new. */
  lemma {:induction false} AfterApply(r: Registry, q: Request, entries: seq<Entry>, c: Counts, digest: Digest)
    requires ApplyEntries(r, q, entries, c, digest).Ok?
    ensures var s := ApplyEntries(r, q, entries, c, digest).value.0;
      && s.projects == r.projects
      && (forall p :: ActiveTarget(r, p).Some? ==> ActiveTarget(s, p) == ActiveTarget(r, p))
      && (forall p :: ActiveTarget(s, p).Some? && ActiveTarget(r, p).None? ==>
        exists i :: 0 <= i < |entries| && entries[i].alias_ == p)
      && (forall i :: 0 <= i < |entries| ==> Landed(r, s, entries[i], digest))
    decreases |entries|
  {
    hide EntryIsValid, ExactProjectId, ApplyEntries;
    ApplyStep(r, q, entries, c, digest);
    if entries != [] {
      var e, rest := entries[0], entries[1..];
      AppliedLands(r, q, e, c, digest);
      var (mid, c') := Applied(r, q, e, c, digest);
      AfterApply(mid, q, rest, c', digest);
      var s := ApplyEntries(r, q, entries, c, digest).value.0;
      forall i | 0 <= i < |entries|
        ensures Landed(r, s, entries[i], digest)
      {
        if i == 0 {
          SameProjects(r, s, e, digest);
        } else {
          assert entries[i] == rest[i - 1] && Landed(mid, s, rest[i - 1], digest);
        }
      }
      forall p | ActiveTarget(s, p).Some? && ActiveTarget(r, p).None?
        ensures exists i :: 0 <= i < |entries| && entries[i].alias_ == p
      {
        if p == e.alias_ {
          assert entries[0].alias_ == p;
        } else {
          var i :| 0 <= i < |rest| && rest[i].alias_ == p;
          assert entries[i + 1].alias_ == p;
        }
      }
    }
  }

  function Applied(r: Registry, q: Request, e: Entry, c: Counts, digest: Digest): (Registry, Counts)
    requires !Judge(r, e, digest).Refused?
  {
    if Judge(r, e, digest).Inserts? then (Activated(r, q, e, Judge(r, e, digest).id), c.(inserted := c.inserted + 1))
    else (r, c.(kept := c.kept + 1))
  }

  lemma AppliedLands(r: Registry, q: Request, e: Entry, c: Counts, digest: Digest)
    requires !Judge(r, e, digest).Refused?
    ensures var mid := Applied(r, q, e, c, digest).0;
      && mid.projects == r.projects && EntryIsValid(r, e, digest) && ActiveTarget(r, e.canonical).None?
      && ExactProjectId(r, e.canonical).Ok? && ExactProjectId(r, e.canonical).value.Some?
      && ActiveTarget(mid, e.alias_) == ExactProjectId(r, e.canonical).value
      && (forall p :: p != e.alias_ ==> ActiveTarget(mid, p) == ActiveTarget(r, p))
      && (ActiveTarget(r, e.alias_).Some? ==> ActiveTarget(mid, e.alias_) == ActiveTarget(r, e.alias_))
  {
  }

  lemma ApplyStep(r: Registry, q: Request, entries: seq<Entry>, c: Counts, digest: Digest)
    ensures entries == [] ==> ApplyEntries(r, q, entries, c, digest) == Ok((r, c))
    ensures entries != [] && Judge(r, entries[0], digest).Refused? ==> ApplyEntries(r, q, entries, c, digest).Err?
    ensures entries != [] && !Judge(r, entries[0], digest).Refused? ==>
      var (mid, c') := Applied(r, q, entries[0], c, digest);
      ApplyEntries(r, q, entries, c, digest) == ApplyEntries(mid, q, entries[1..], c', digest)
  {
  }

  lemma SameProjects(r: Registry, s: Registry, e: Entry, digest: Digest)
    requires r.projects == s.projects
    ensures ExactProjectId(r, e.canonical) == ExactProjectId(s, e.canonical)
    ensures EntryIsValid(r, e, digest) == EntryIsValid(s, e, digest)
  {
  }

  lemma {:induction false} AllKept(s: Registry, q: Request, entries: seq<Entry>, c: Counts, digest: Digest)
    requires forall i :: 0 <= i < |entries| ==>
      Lands(s, entries[i]) && EntryIsValid(s, entries[i], digest) && ActiveTarget(s, entries[i].canonical).None?
    ensures ApplyEntries(s, q, entries, c, digest) == Ok((s, c.(kept := c.kept + |entries|)))
    decreases |entries|
  {
    hide EntryIsValid, ExactProjectId, ApplyEntries;
    ApplyStep(s, q, entries, c, digest);
    if entries != [] {
      assert Judge(s, entries[0], digest).Unchanged?;
      AllKept(s, q, entries[1..], c.(kept := c.kept + 1), digest);
    }
  }

  lemma {:induction false} TargetIsAlias(s: Registry, q: Request, entries: seq<Entry>, c: Counts, digest: Digest,
          i: nat)
    requires i < |entries| && ActiveTarget(s, entries[i].canonical).Some?
    ensures ApplyEntries(s, q, entries, c, digest).Err?
    decreases |entries|
  {
    hide EntryIsValid, ExactProjectId, ApplyEntries;
    ApplyStep(s, q, entries, c, digest);
    if i > 0 && !Judge(s, entries[0], digest).Refused? {
      var (mid, c') := Applied(s, q, entries[0], c, digest);
      assert ActiveTarget(mid, entries[i].canonical).Some?;
      TargetIsAlias(mid, q, entries[1..], c', digest, i - 1);
    }
  }

  /** Applying a successful plan again changes and logs nothing, exactly when no target of
      the plan is one of its aliases; otherwise it is refused. */
  lemma ReapplyInsertsNothing(r: Registry, q: Request, digest: Digest)
    requires ApplyPlan(r, q, digest).Ok?
    ensures var s, n := ApplyPlan(r, q, digest).value.0, |q.entries|;
      if forall i, j :: 0 <= i < n && 0 <= j < n ==> q.entries[i].canonical != q.entries[j].alias_
      then ApplyPlan(s, q, digest) == Ok((s, Counts(0, n)))
      else ApplyPlan(s, q, digest).Err?
  {
    hide EntryIsValid, ExactProjectId, ApplyEntries;
    var s, entries := ApplyPlan(r, q, digest).value.0, q.entries;
    AfterApply(r, q, entries, Counts(0, 0), digest);
    if i, j :| 0 <= i < |entries| && 0 <= j < |entries| && entries[i].canonical == entries[j].alias_ {
      assert Landed(r, s, entries[j], digest);
      TargetIsAlias(s, q, entries, Counts(0, 0), digest, i);
    } else {
      forall i | 0 <= i < |entries|
        ensures Lands(s, entries[i]) && EntryIsValid(s, entries[i], digest)
          && ActiveTarget(s, entries[i].canonical).None?
      {
        assert Landed(r, s, entries[i], digest);
      }
      AllKept(s, q, entries, Counts(0, 0), digest);
    }
  }

  // ---------------------------------------------------------------- resolution

  /** `project_filter_values`, as a set. */
  function FilterValues(r: Registry, path: string): Result<set<string>> {
    match Resolve(r, path)
    case Err => Err
    case Ok(res) => Ok((if res.id.Some? then AliasesOf(r, res.id.value) else {}) + {res.canonical})
  }

  /** The primary key of the projects table. Paths are unique only within a workspace. */
  predicate UniqueIds(projects: seq<Project>) {
    forall i, j :: 0 <= i < j < |projects| ==> projects[i].id != projects[j].id
  }

  /** No path is a project in two workspaces. */
  predicate UniqueProjects(projects: seq<Project>) {
    forall i, j :: 0 <= i < j < |projects| ==> projects[i].path != projects[j].path && projects[i].id != projects[j].id
  }

  /** No active alias leads to a project whose own path is an active alias. */
  predicate ChainFree(r: Registry) {
    forall p :: p in r.aliases && r.aliases[p].active ==>
      PathOf(r.projects, r.aliases[p].target).Some?
      && ActiveTarget(r, PathOf(r.projects, r.aliases[p].target).value).None?
  }

  lemma {:induction false} SomeRow(projects: seq<Project>, path: string) returns (i: nat)
    requires IdsAt(projects, path) != []
    ensures i < |projects| && projects[i] == Project(IdsAt(projects, path)[0], path)
    decreases |projects|
  {
    if projects[0].path == path {
      i := 0;
    } else {
      i := SomeRow(projects[1..], path);
      i := i + 1;
    }
  }

  lemma {:induction false} IdFound(projects: seq<Project>, i: nat)
    requires UniqueIds(projects) && i < |projects|
    ensures PathOf(projects, projects[i].id) == Some(projects[i].path)
    decreases |projects|
  {
    if i > 0 {
      var rest := projects[1..];
      assert forall a :: 0 <= a < |rest| ==> rest[a] == projects[a + 1];
      IdFound(rest, i - 1);
    }
  }

  /** With unique rows, looking a path up and looking an id up undo each other. */
  lemma {:induction false} RowFound(projects: seq<Project>, i: nat)
    requires UniqueProjects(projects) && i < |projects|
    ensures IdsAt(projects, projects[i].path) == [projects[i].id]
      && PathOf(projects, projects[i].id) == Some(projects[i].path)
    decreases |projects|
  {
    var rest := projects[1..];
    assert UniqueProjects(rest) by {
      forall a, b | 0 <= a < b < |rest| ensures rest[a].path != rest[b].path && rest[a].id != rest[b].id {
        assert rest[a] == projects[a + 1] && rest[b] == projects[b + 1];
      }
    }
    if i == 0 {
      if IdsAt(rest, projects[0].path) != [] { var k := SomeRow(rest, projects[0].path); }
    } else {
      assert rest[i - 1] == projects[i];
      RowFound(rest, i - 1);
    }
  }

  lemma {:induction false} PathIsRow(projects: seq<Project>, id: int) returns (i: nat)
    requires PathOf(projects, id).Some?
    ensures i < |projects| && projects[i] == Project(id, PathOf(projects, id).value)
    decreases |projects|
  {
    if projects[0].id == id {
      i := 0;
    } else {
      i := PathIsRow(projects[1..], id);
      i := i + 1;
    }
  }

  /** How many projects have this path. */
  function RowsAt(r: Registry, path: string): nat { |IdsAt(r.projects, path)| }

  lemma {:induction false} IdListed(projects: seq<Project>, i: nat)
    requires i < |projects|
    ensures projects[i].id in IdsAt(projects, projects[i].path)
    decreases |projects|
  {
    if i > 0 {
      assert projects[i] == projects[1..][i - 1];
      IdListed(projects[1..], i - 1);
    }
  }

  /** Resolving twice is resolving once, and the canonical path filters by the same values. */
  ghost predicate Settles(r: Registry, path: string)
    requires Resolve(r, path).Ok?
  {
    var res := Resolve(r, path).value;
    && Resolve(r, res.canonical) == Ok(Resolution(res.id, res.canonical, false))
    && FilterValues(r, res.canonical) == FilterValues(r, path)
  }

  /** In a registry without chains a path resolves unless it is no alias and two workspaces
      have it, and resolution is idempotent, a path and its canonical path filtering by the
      same values, if and only if no two workspaces have the canonical path. */
  lemma ResolutionIsIdempotent(r: Registry, path: string)
    requires UniqueIds(r.projects) && ChainFree(r)
    ensures Resolve(r, path).Ok? <==> ActiveTarget(r, path).Some? || RowsAt(r, path) <= 1
    ensures Resolve(r, path).Ok? ==> (Settles(r, path) <==> RowsAt(r, Resolve(r, path).value.canonical) <= 1)
  {
    var target := ActiveTarget(r, path);
    if target.Some? {
      var i := PathIsRow(r.projects, target.value);
      IdListed(r.projects, i);
    } else if RowsAt(r, path) == 1 {
      var i := SomeRow(r.projects, path);
    }
  }

  /** An alias of a project whose path two workspaces have: it resolves, but not twice. */
  lemma TwoWorkspacesUnsettle()
    ensures var r := Registry([Project(1, "/b"), Project(2, "/b")], map["/a" := Alias(1, true, 0)], []);
      && UniqueIds(r.projects) && ChainFree(r)
      && Resolve(r, "/a") == Ok(Resolution(Some(1), "/b", true)) && Resolve(r, "/b") == Err
  {
    var projects := [Project(1, "/b"), Project(2, "/b")];
    assert projects[1..] == [Project(2, "/b")] && projects[1..][1..] == [];
    assert IdsAt(projects[1..], "/b") == [2] && IdsAt(projects, "/b") == [1, 2];
    assert "/a"[1] != "/b"[1];
  }

  /** With unique rows that is never in the way. */
  lemma UniqueRowsAt(r: Registry, path: string)
    requires UniqueProjects(r.projects)
    ensures RowsAt(r, path) <= 1
  {
    if RowsAt(r, path) > 0 {
      var i := SomeRow(r.projects, path);
      RowFound(r.projects, i);
    }
  }

  /** Some active alias leads to the project at `path`. */
  predicate IsTarget(r: Registry, path: string) {
    exists p :: p in r.aliases && r.aliases[p].active && PathOf(r.projects, r.aliases[p].target) == Some(path)
  }

  /** No new alias of the plan is a path that an alias of the registry or of the plan
      leads to. Apply itself looks only at its targets, not at this. */
  predicate AvoidsTargets(r: Registry, entries: seq<Entry>) {
    forall i :: 0 <= i < |entries| && IsNew(r, entries[i]) ==>
      !IsTarget(r, entries[i].alias_) && forall j :: 0 <= j < |entries| ==> entries[j].canonical != entries[i].alias_
  }

  lemma EntryTarget(r: Registry, s: Registry, e: Entry, digest: Digest)
    requires UniqueIds(s.projects) && Landed(r, s, e, digest)
    ensures e.alias_ in s.aliases && s.aliases[e.alias_].active
    ensures PathOf(s.projects, s.aliases[e.alias_].target) == Some(e.canonical)
  {
    var k := SomeRow(s.projects, e.canonical);
    IdFound(s.projects, k);
  }

  /** A successful plan keeps a registry free of chains exactly when it avoids targets. */
  lemma ChainsExactly(r: Registry, q: Request, digest: Digest)
    requires UniqueIds(r.projects) && ChainFree(r) && ApplyPlan(r, q, digest).Ok?
    ensures ChainFree(ApplyPlan(r, q, digest).value.0) <==> AvoidsTargets(r, q.entries)
  {
    hide EntryIsValid, ApplyEntries, PathOf;
    AfterApply(r, q, q.entries, Counts(0, 0), digest);
    var s, entries := ApplyPlan(r, q, digest).value.0, q.entries;
    forall i | 0 <= i < |entries|
      ensures Landed(r, s, entries[i], digest) && entries[i].alias_ in s.aliases && s.aliases[entries[i].alias_].active
        && PathOf(s.projects, s.aliases[entries[i].alias_].target) == Some(entries[i].canonical)
    {
      EntryTarget(r, s, entries[i], digest);
    }
    forall p | ActiveTarget(r, p).Some? ensures ActiveTarget(s, p) == ActiveTarget(r, p) {}
    if ChainFree(s) {
      forall i | 0 <= i < |entries| && IsNew(r, entries[i])
        ensures !IsTarget(r, entries[i].alias_)
          && forall j :: 0 <= j < |entries| ==> entries[j].canonical != entries[i].alias_
      {
        assert ActiveTarget(s, entries[i].alias_).Some?;
        forall p | p in r.aliases && r.aliases[p].active
          ensures PathOf(r.projects, r.aliases[p].target) != Some(entries[i].alias_)
        {
          assert ActiveTarget(s, p) == ActiveTarget(r, p);
        }
      }
    }
    if AvoidsTargets(r, entries) {
      forall p | p in s.aliases && s.aliases[p].active
        ensures PathOf(s.projects, s.aliases[p].target).Some?
          && ActiveTarget(s, PathOf(s.projects, s.aliases[p].target).value).None?
      {
        NoChainAt(r, s, entries, p, digest);
      }
    }
  }

  lemma NoChainAt(r: Registry, s: Registry, entries: seq<Entry>, p: string, digest: Digest)
    requires UniqueIds(r.projects) && s.projects == r.projects && ChainFree(r) && AvoidsTargets(r, entries)
    requires forall x :: ActiveTarget(r, x).Some? ==> ActiveTarget(s, x) == ActiveTarget(r, x)
    requires forall x :: ActiveTarget(s, x).Some? && ActiveTarget(r, x).None? ==>
      exists i :: 0 <= i < |entries| && entries[i].alias_ == x
    requires forall i :: 0 <= i < |entries| ==> Landed(r, s, entries[i], digest)
    requires p in s.aliases && s.aliases[p].active
    ensures PathOf(s.projects, s.aliases[p].target).Some?
      && ActiveTarget(s, PathOf(s.projects, s.aliases[p].target).value).None?
  {
    hide EntryIsValid, PathOf;
    if ActiveTarget(r, p).Some? {
      assert ActiveTarget(s, p) == ActiveTarget(r, p);
      assert p in r.aliases && r.aliases[p].active;
      var t := PathOf(r.projects, r.aliases[p].target).value;
      assert IsTarget(r, t);
    } else {
      var i :| 0 <= i < |entries| && entries[i].alias_ == p;
      EntryTarget(r, s, entries[i], digest);
      assert ActiveTarget(r, entries[i].canonical).None?;
    }
  }

  // ---------------------------------------------------------------- where the conditions bite

  function SomeDigest(): (d: string)
    ensures IsDigest(d)
  {
    seq(64, (i: nat) => 'a')
  }

  /** The digest yields 64 lower-case hex digits. */
  ghost predicate GoodDigest(digest: Digest) { forall payload :: IsDigest(digest(payload)) }

  /** A move the file system proves. */
  function MovedEntry(from: string, to: string, digest: Digest): Entry {
    var payload := Object(map["from_path" := Str(from), "to_path" := Str(to), "canonicalized" := Bool(true)]);
    Entry(from, to, FilesystemCanonicalization, payload, digest(payload))
  }

  function TwoMoves(first: Entry, second: Entry): Request { Request(SomeDigest(), "a", "r", [first, second]) }

  /** Projects at /b and /c, no alias yet. */
  function Fresh(): Registry { Registry([Project(1, "/b"), Project(2, "/c")], map[], []) }

  lemma TwoMovesFacts(first: Entry, second: Entry)
    ensures HeaderIsValid(TwoMoves(first, second))
    ensures IdsAt(Fresh().projects, "/b") == [1] && IdsAt(Fresh().projects, "/c") == [2]
  {
    assert LeadingRun("a", c => IsWhitespace(c)) == 0 && LeadingRun("r", c => IsWhitespace(c)) == 0;
    assert TrailingRun("a", c => IsWhitespace(c)) == 0 && TrailingRun("r", c => IsWhitespace(c)) == 0;
    assert "a"[0..] == "a" && "r"[0..] == "r";
    var p := Fresh().projects;
    assert p[1..] == [Project(2, "/c")] && p[1..][1..] == [];
    assert "/b"[1] != "/c"[1];
  }

  lemma MoveIsValid(r: Registry, from: string, to: string, id: int, digest: Digest)
    requires GoodDigest(digest)
    requires IsAbsolute(from) && IsAbsolute(to) && from != to && IdsAt(r.projects, to) == [id]
    ensures EntryIsValid(r, MovedEntry(from, to, digest), digest)
    ensures ExactProjectId(r, to) == Ok(Some(id))
  {
  }

  lemma PreviewsTwo(r: Registry, first: Entry, second: Entry, digest: Digest)
    requires Judge(r, first, digest).Inserts? && Judge(r, second, digest).Inserts?
    ensures PreviewPlan(r, TwoMoves(first, second), digest) == Ok(Counts(2, 0))
  {
    hide Judge, HeaderIsValid;
    TwoMovesFacts(first, second);
    assert [first, second][1..] == [second] && [second][1..] == [];
    assert PreviewEntries(r, [second], Counts(1, 0), digest) == Ok(Counts(2, 0));
  }

  /** What applying two entries comes to, if the first is a new alias. */
  lemma AppliesTwo(r: Registry, first: Entry, second: Entry, digest: Digest)
    requires Judge(r, first, digest).Inserts?
    ensures var q := TwoMoves(first, second);
      var mid := Activated(r, q, first, Judge(r, first, digest).id);
      ApplyPlan(r, q, digest)
      == if Judge(mid, second, digest).Refused? then Err else Ok(Applied(mid, q, second, Counts(1, 0), digest))
  {
    hide Judge, HeaderIsValid, Activated;
    TwoMovesFacts(first, second);
    var q := TwoMoves(first, second);
    var mid := Activated(r, q, first, Judge(r, first, digest).id);
    assert [first, second][1..] == [second] && [second][1..] == [];
    ApplyStep(r, q, [first, second], Counts(0, 0), digest);
    ApplyStep(mid, q, [second], Counts(1, 0), digest);
  }

  /** A preview that apply does not keep: /b moves to /c, then /a to /b. */
  lemma PreviewMisjudgesChains(digest: Digest)
    requires GoodDigest(digest)
    ensures var r, q := Fresh(), TwoMoves(MovedEntry("/b", "/c", digest), MovedEntry("/a", "/b", digest));
      PreviewPlan(r, q, digest) == Ok(Counts(2, 0)) && ApplyPlan(r, q, digest) == Err
  {
    hide EntryIsValid, IdsAt, HeaderIsValid, MovedEntry;
    var r, first, second := Fresh(), MovedEntry("/b", "/c", digest), MovedEntry("/a", "/b", digest);
    var q := TwoMoves(first, second);
    MovedPaths("/b", "/c", digest);
    MovedPaths("/a", "/b", digest);
    TwoMovesFacts(first, second);
    MoveIsValid(r, "/b", "/c", 2, digest);
    MoveIsValid(r, "/a", "/b", 1, digest);
    var mid := Activated(r, q, first, 2);
    MoveIsValid(mid, "/a", "/b", 1, digest);
    assert Judge(r, first, digest) == Inserts(2) && Judge(r, second, digest) == Inserts(1);
    assert Judge(mid, second, digest) == Refused;
    PreviewsTwo(r, first, second, digest);
    AppliesTwo(r, first, second, digest);
  }

  lemma MovedPaths(from: string, to: string, digest: Digest)
    ensures MovedEntry(from, to, digest).alias_ == from && MovedEntry(from, to, digest).canonical == to
  {
  }

  /** A plan that applies but leaves a chain, so that resolving twice goes further than
      once and the same plan is refused the second time: /a moves to /b, then /b to /c. */
  lemma AppliedPlanCanChain(digest: Digest)
    requires GoodDigest(digest)
    ensures var r, q := Fresh(), TwoMoves(MovedEntry("/a", "/b", digest), MovedEntry("/b", "/c", digest));
      && ApplyPlan(r, q, digest).Ok?
      && var s := ApplyPlan(r, q, digest).value.0;
      && ActiveTarget(s, "/a") == Some(1) && PathOf(s.projects, 1) == Some("/b") && ActiveTarget(s, "/b") == Some(2)
      && ApplyPlan(s, q, digest) == Err
  {
    hide EntryIsValid, IdsAt, HeaderIsValid, MovedEntry;
    var r, first, second := Fresh(), MovedEntry("/a", "/b", digest), MovedEntry("/b", "/c", digest);
    var q := TwoMoves(first, second);
    MovedPaths("/a", "/b", digest);
    MovedPaths("/b", "/c", digest);
    TwoMovesFacts(first, second);
    MoveIsValid(r, "/a", "/b", 1, digest);
    var mid := Activated(r, q, first, 1);
    MoveIsValid(mid, "/b", "/c", 2, digest);
    assert Judge(r, first, digest) == Inserts(1) && Judge(mid, second, digest) == Inserts(2);
    AppliesTwo(r, first, second, digest);
    var s := Activated(mid, q, second, 2);
    assert ApplyPlan(r, q, digest) == Ok((s, Counts(2, 0)));
    assert ActiveTarget(s, "/a") == Some(1) && ActiveTarget(s, "/b") == Some(2);
    assert Judge(s, first, digest) == Refused;
    ApplyStep(s, q, q.entries, Counts(0, 0), digest);
  }
}
