/** The rules of the alias registry (src/project_alias.rs), told entry by entry and path by
    path: which entries are taken, what each leaves behind, and what a path resolves to. */
module AliasRules {
  import opened Wrappers
  import opened Text
  import opened Json
  import opened ProjectAlias

  // ---------------------------------------------------------------- rows of the registry

  /** Project row `k` is the only one at `path`. */
  predicate OnlyRow(projects: seq<Project>, path: string, k: int) {
    0 <= k < |projects| && projects[k].path == path
    && forall j :: 0 <= j < |projects| && projects[j].path == path ==> j == k
  }

  /** `id` is the one project at `path`. */
  ghost predicate IsTheProject(projects: seq<Project>, path: string, id: int) {
    exists k :: OnlyRow(projects, path, k) && projects[k].id == id
  }

  ghost predicate NoProject(projects: seq<Project>, path: string) {
    forall j :: 0 <= j < |projects| ==> projects[j].path != path
  }

  predicate IsActive(r: Registry, path: string, target: int) {
    path in r.aliases && r.aliases[path].active && r.aliases[path].target == target
  }

  ghost predicate IsAlias(r: Registry, path: string) { exists target :: IsActive(r, path, target) }

  lemma {:induction false} IdsMean(projects: seq<Project>, path: string)
    ensures |IdsAt(projects, path)| == 0 <==> NoProject(projects, path)
    ensures |IdsAt(projects, path)| == 1 ==> IsTheProject(projects, path, IdsAt(projects, path)[0])
    ensures |IdsAt(projects, path)| != 1 ==> forall k :: !OnlyRow(projects, path, k)
    decreases |projects|
  {
    if projects != [] {
      var rest := projects[1..];
      IdsMean(rest, path);
      assert forall j :: 0 < j < |projects| ==> projects[j] == rest[j - 1];
      if projects[0].path == path {
        forall k | OnlyRow(projects, path, k) ensures |IdsAt(rest, path)| == 0 { assert k == 0; }
        if |IdsAt(rest, path)| == 0 { assert OnlyRow(projects, path, 0); }
      } else {
        forall k ensures OnlyRow(projects, path, k + 1) <==> OnlyRow(rest, path, k) { RowShifts(projects, path, k); }
        forall k | OnlyRow(projects, path, k) ensures OnlyRow(rest, path, k - 1) { RowShifts(projects, path, k - 1); }
        if |IdsAt(rest, path)| == 1 {
          var k :| OnlyRow(rest, path, k) && rest[k].id == IdsAt(rest, path)[0];
          assert OnlyRow(projects, path, k + 1);
        }
      }
    }
  }

  lemma RowShifts(projects: seq<Project>, path: string, k: int)
    requires projects != [] && projects[0].path != path
    ensures OnlyRow(projects, path, k + 1) <==> OnlyRow(projects[1..], path, k)
  {
    var rest := projects[1..];
    assert forall j :: 0 < j < |projects| ==> projects[j] == rest[j - 1];
    if OnlyRow(projects, path, k + 1) {
      forall j | 0 <= j < |rest| && rest[j].path == path ensures j == k { assert projects[j + 1].path == path; }
    }
  }

  lemma ExactProjectMeans(r: Registry, path: string, id: int)
    ensures ExactProjectId(r, path) == Ok(Some(id)) <==> IsTheProject(r.projects, path, id)
    ensures ExactProjectId(r, path) == Ok(None) <==> NoProject(r.projects, path)
  {
    hide IdsAt, OnlyRow;
    IdsMean(r.projects, path);
    forall k, l | OnlyRow(r.projects, path, k) && OnlyRow(r.projects, path, l) ensures k == l {
      assert k == l by { OneRow(r.projects, path, k, l); }
    }
  }

  lemma OneRow(projects: seq<Project>, path: string, k: int, l: int)
    requires OnlyRow(projects, path, k) && OnlyRow(projects, path, l)
    ensures k == l
  {
  }

  // ---------------------------------------------------------------- which entries are taken

  predicate IsHash(s: string) {
    |s| == 64 && forall i :: 0 <= i < |s| ==> s[i] in "0123456789abcdef"
  }

  /** The proof is of its payload, the payload of this move, and it proves the kind. */
  ghost predicate Proven(e: Entry, digest: Digest) {
    && IsHash(e.proof) && digest(e.payload) == e.proof
    && Get(e.payload, "from_path") == Some(Str(e.alias_)) && Get(e.payload, "to_path") == Some(Str(e.canonical))
    && match e.kind
       case FilesystemCanonicalization => Get(e.payload, "canonicalized") == Some(Bool(true))
       case GitRemote => exists remote :: Get(e.payload, "target_remote") == Some(Str(remote)) && remote != ""
       case GitCommitMembership =>
         exists count :: Get(e.payload, "shared_commit_count") == Some(Number(count)) && IsPositive(count)
  }

  predicate IsPositive(count: string) {
    exists n :: 1 <= n <= 0xFFFF_FFFF_FFFF_FFFF && ParseInteger(count, false, 0, 0xFFFF_FFFF_FFFF_FFFF) == Some(n)
  }

  /** The entry may lead to project `id`: absolute paths that differ, a proof, and a target
      that is one project and no alias. */
  ghost predicate MayLead(r: Registry, e: Entry, digest: Digest, id: int) {
    && StartsWith(e.alias_, "/") && StartsWith(e.canonical, "/") && e.alias_ != e.canonical && Proven(e, digest)
    && IsTheProject(r.projects, e.canonical, id) && !IsAlias(r, e.canonical)
  }

  lemma SupportsMeans(e: Entry, digest: Digest)
    ensures Proven(e, digest) <==>
      && IsDigest(e.proof) && digest(e.payload) == e.proof && e.payload.Object?
      && Field(e.payload, "from_path") == Some(Str(e.alias_)) && Field(e.payload, "to_path") == Some(Str(e.canonical))
      && Supports(e.kind, e.payload)
  {
    hide ParseInteger;
    HashMeans(e.proof);
    assert forall name :: Field(e.payload, name) == Get(e.payload, name);
    var field := Field(e.payload, "shared_commit_count");
    if field.Some? && field.value.Number? {
      var n := ParseInteger(field.value.text, false, 0, U64_MAX);
      assert IsPositive(field.value.text) <==> n.Some? && n.value > 0 by { PositiveMeans(field.value.text); }
    }
  }

  lemma PositiveMeans(count: string)
    ensures IsPositive(count) <==>
      ParseInteger(count, false, 0, U64_MAX).Some? && ParseInteger(count, false, 0, U64_MAX).value > 0
  {
  }

  lemma HashMeans(s: string)
    ensures IsHash(s) <==> IsDigest(s)
  {
    forall i | 0 <= i < |s| ensures s[i] in "0123456789abcdef" <==> '0' <= s[i] <= '9' || 'a' <= s[i] <= 'f' {
      HexMeans(s[i]);
    }
  }

  lemma ValidMeans(r: Registry, e: Entry, digest: Digest, id: int)
    ensures MayLead(r, e, digest, id) <==>
      EntryIsValid(r, e, digest) && ExactProjectId(r, e.canonical) == Ok(Some(id)) && ActiveTarget(r, e.canonical).None?
  {
    hide Proven, ExactProjectId, Supports, IsDigest, IsTheProject;
    SupportsMeans(e, digest);
    ExactProjectMeans(r, e.canonical, id);
    assert IsAbsolute(e.alias_) <==> StartsWith(e.alias_, "/") by { AbsoluteMeans(e.alias_); }
    assert IsAbsolute(e.canonical) <==> StartsWith(e.canonical, "/") by { AbsoluteMeans(e.canonical); }
    AliasMeans(r, e.canonical);
  }

  lemma AbsoluteMeans(path: string)
    ensures IsAbsolute(path) <==> StartsWith(path, "/")
  {
    if path != "" { assert path[..1] == [path[0]]; }
  }

  lemma AliasMeans(r: Registry, path: string)
    ensures IsAlias(r, path) <==> ActiveTarget(r, path).Some?
    ensures forall target :: IsActive(r, path, target) <==> ActiveTarget(r, path) == Some(target)
  {
    if ActiveTarget(r, path).Some? { assert IsActive(r, path, r.aliases[path].target); }
  }

  /** An entry is a new alias of `id` if it may lead there and its path is no alias yet; it
      changes nothing if its path leads there already; every other entry is refused. */
  lemma JudgedExactly(r: Registry, e: Entry, digest: Digest, id: int)
    ensures Judge(r, e, digest) == Inserts(id) <==> MayLead(r, e, digest, id) && !IsAlias(r, e.alias_)
    ensures Judge(r, e, digest) == Unchanged <==>
      exists target :: MayLead(r, e, digest, target) && IsActive(r, e.alias_, target)
  {
    hide MayLead, EntryIsValid, ExactProjectId, IsAlias, IsActive;
    forall target
      ensures MayLead(r, e, digest, target) <==>
        EntryIsValid(r, e, digest) && ExactProjectId(r, e.canonical) == Ok(Some(target))
        && ActiveTarget(r, e.canonical).None?
      ensures EntryIsValid(r, e, digest) ==>
        ExactProjectId(r, e.canonical).Ok? && ExactProjectId(r, e.canonical).value.Some?
    {
      ValidMeans(r, e, digest, target);
      ValidHasProject(r, e, digest);
    }
    AliasMeans(r, e.alias_);
  }

  lemma ValidHasProject(r: Registry, e: Entry, digest: Digest)
    ensures EntryIsValid(r, e, digest) ==>
      ExactProjectId(r, e.canonical).Ok? && ExactProjectId(r, e.canonical).value.Some?
  {
    hide ExactProjectId, Supports, IsDigest;
  }

  /** A request is looked at if it names its inventory by a digest, an actor and a reason
      that are not blank, and at least one entry. */
  lemma HeaderExactly(q: Request)
    ensures HeaderIsValid(q) <==>
      && IsHash(q.inventory) && |q.entries| >= 1
      && (exists c :: c in q.actor && !IsWhitespace(c)) && (exists c :: c in q.reason && !IsWhitespace(c))
  {
    hide IsHash, IsDigest, IsWhitespace, Trim;
    HashMeans(q.inventory);
    BlankMeans(q.actor);
    BlankMeans(q.reason);
  }

  lemma BlankMeans(s: string)
    ensures IsBlank(s) <==> forall c :: c in s ==> IsWhitespace(c)
  {
    hide IsWhitespace, Trim;
    TrimExactly(s);
    var i, j :|
      && 0 <= i <= j <= |s| && Trim(s) == s[i..j]
      && (forall k :: 0 <= k < i || j <= k < |s| ==> IsWhitespace(s[k]))
      && (i < j ==> !IsWhitespace(s[i]) && !IsWhitespace(s[j - 1]));
    assert i < j ==> s[i] in s;
  }

  /** A preview, which takes each entry against the registry as it is, fails exactly for a
      request that is not looked at or for an entry that may not lead anywhere, or whose
      path leads elsewhere. */
  lemma PreviewRefusesExactly(r: Registry, q: Request, digest: Digest)
    ensures PreviewPlan(r, q, digest).Err? <==>
      !HeaderIsValid(q) || exists i :: 0 <= i < |q.entries| && IsRefused(r, q.entries[i], digest)
  {
    hide Judge, HeaderIsValid, IsRefused;
    PreviewStops(r, q.entries, Counts(0, 0), digest);
  }

  ghost predicate IsRefused(r: Registry, e: Entry, digest: Digest) {
    forall id :: MayLead(r, e, digest, id) ==> IsAlias(r, e.alias_) && !IsActive(r, e.alias_, id)
  }

  lemma RefusedMeans(r: Registry, e: Entry, digest: Digest)
    ensures Judge(r, e, digest).Refused? <==> IsRefused(r, e, digest)
  {
    hide MayLead, IsAlias, IsActive, Judge;
    var verdict := Judge(r, e, digest);
    JudgedExactly(r, e, digest, 0);
    forall id ensures verdict == Inserts(id) <==> MayLead(r, e, digest, id) && !IsAlias(r, e.alias_) {
      JudgedExactly(r, e, digest, id);
    }
    if verdict.Inserts? { assert MayLead(r, e, digest, verdict.id); }
  }

  lemma {:induction false} PreviewStops(r: Registry, entries: seq<Entry>, c: Counts, digest: Digest)
    ensures PreviewEntries(r, entries, c, digest).Err? <==>
      exists i :: 0 <= i < |entries| && IsRefused(r, entries[i], digest)
    decreases |entries|
  {
    hide Judge, IsRefused;
    if entries != [] {
      RefusedMeans(r, entries[0], digest);
      assert forall i :: 0 < i < |entries| ==> entries[i] == entries[1..][i - 1];
      assert forall i :: 0 <= i < |entries[1..]| ==> entries[1..][i] == entries[i + 1];
      match Judge(r, entries[0], digest)
      case Refused =>
      case Unchanged => PreviewStops(r, entries[1..], c.(kept := c.kept + 1), digest);
      case Inserts(id) => PreviewStops(r, entries[1..], c.(inserted := c.inserted + 1), digest);
    }
  }

  // ---------------------------------------------------------------- what an applied plan leaves

  /** Event `k` tells of this alias: what made it, on whose word. */
  ghost predicate Tells(s: Registry, q: Request, e: Entry, k: int) {
    && 0 <= k < |s.events| && e.alias_ in s.aliases
    && s.events[k] == Event(e.alias_, s.aliases[e.alias_].target, e.kind, e.payload, e.proof, q.inventory, q.actor,
                            q.reason)
    && s.aliases[e.alias_] == Alias(s.aliases[e.alias_].target, true, k)
  }

  /** The log grows by one event for each alias inserted and keeps what it held; each new
      alias points at its event, which tells of the entry that made it; and every other
      alias row is as it was, active or not. */
  ghost predicate Logs(r: Registry, s: Registry, q: Request, entries: seq<Entry>, inserted: int) {
    && |s.events| == |r.events| + inserted && inserted >= 0 && s.events[..|r.events|] == r.events
    && (forall p :: p in s.aliases && (p !in r.aliases || s.aliases[p] != r.aliases[p]) ==>
          ActiveTarget(r, p).None?
          && s.aliases[p].lastEvent >= |r.events|
          && exists i ::
               0 <= i < |entries| && entries[i].alias_ == p && Tells(s, q, entries[i], s.aliases[p].lastEvent))
    && (forall p :: p in r.aliases ==> p in s.aliases)
  }

  lemma {:induction false} PlanIsLogged(r: Registry, q: Request, entries: seq<Entry>, c: Counts, digest: Digest)
    requires ApplyEntries(r, q, entries, c, digest).Ok?
    ensures var (s, counts) := ApplyEntries(r, q, entries, c, digest).value;
      Logs(r, s, q, entries, counts.inserted - c.inserted)
    decreases |entries|
  {
    hide Judge, Activated, Logs;
    ApplyStep(r, q, entries, c, digest);
    if entries == [] {
      NothingLogged(r, q);
    } else {
      var (mid, c') := Applied(r, q, entries[0], c, digest);
      PlanIsLogged(mid, q, entries[1..], c', digest);
      var (s, counts) := ApplyEntries(mid, q, entries[1..], c', digest).value;
      if Judge(r, entries[0], digest).Inserts? {
        JudgedNew(r, entries[0], digest);
        OneLogged(r, s, q, entries, Judge(r, entries[0], digest).id, counts.inserted - c'.inserted);
      } else {
        SameLogged(r, s, q, entries, counts.inserted - c'.inserted);
      }
    }
  }

  lemma NothingLogged(r: Registry, q: Request)
    ensures Logs(r, r, q, [], 0)
  {
  }

  lemma SameLogged(r: Registry, s: Registry, q: Request, entries: seq<Entry>, inserted: int)
    requires entries != [] && Logs(r, s, q, entries[1..], inserted)
    ensures Logs(r, s, q, entries, inserted)
  {
    hide Tells;
    var rest := entries[1..];
    forall p | p in s.aliases && (p !in r.aliases || s.aliases[p] != r.aliases[p])
      ensures exists i ::
        0 <= i < |entries| && entries[i].alias_ == p && Tells(s, q, entries[i], s.aliases[p].lastEvent)
    {
      var i :| 0 <= i < |rest| && rest[i].alias_ == p && Tells(s, q, rest[i], s.aliases[p].lastEvent);
      assert entries[i + 1] == rest[i];
    }
  }

  lemma OneLogged(r: Registry, s: Registry, q: Request, entries: seq<Entry>, id: int, inserted: int)
    requires entries != [] && ActiveTarget(r, entries[0].alias_).None?
    requires Logs(Activated(r, q, entries[0], id), s, q, entries[1..], inserted)
    ensures Logs(r, s, q, entries, inserted + 1)
  {
    var e, rest, mid := entries[0], entries[1..], Activated(r, q, entries[0], id);
    var n := |r.events|;
    assert mid.events[..n] == r.events && mid.events[n] == s.events[..n + 1][n];
    assert s.events[..n] == s.events[..n + 1][..n] == r.events;
    assert ActiveTarget(mid, e.alias_).Some?;
    assert Tells(s, q, e, n);
    hide Tells;
    forall p | p in s.aliases && (p !in r.aliases || s.aliases[p] != r.aliases[p])
      ensures ActiveTarget(r, p).None?
      ensures s.aliases[p].lastEvent >= n
      ensures exists i ::
        0 <= i < |entries| && entries[i].alias_ == p && Tells(s, q, entries[i], s.aliases[p].lastEvent)
    {
      if p == e.alias_ {
        assert entries[0].alias_ == p && Tells(s, q, entries[0], s.aliases[p].lastEvent);
      } else {
        var i :| 0 <= i < |rest| && rest[i].alias_ == p && Tells(s, q, rest[i], s.aliases[p].lastEvent);
        assert entries[i + 1] == rest[i];
      }
    }
  }

  // ---------------------------------------------------------------- what a path resolves to

  /** A path that is an active alias of a project there is resolves to it; every other path
      to itself, as the one project at it or as none, and not at all if two projects have
      it. */
  lemma ResolvesExactly(r: Registry, path: string, id: int)
    requires UniqueIds(r.projects)
    ensures forall k :: 0 <= k < |r.projects| && IsActive(r, path, r.projects[k].id) ==>
              Resolve(r, path) == Ok(Resolution(Some(r.projects[k].id), r.projects[k].path, true))
    ensures (forall k :: 0 <= k < |r.projects| ==> !IsActive(r, path, r.projects[k].id)) ==>
              && (Resolve(r, path) == Ok(Resolution(Some(id), path, false)) <==> IsTheProject(r.projects, path, id))
              && (Resolve(r, path) == Ok(Resolution(None, path, false)) <==> NoProject(r.projects, path))
              && (Resolve(r, path).Ok? ==> Resolve(r, path).value.canonical == path && !Resolve(r, path).value.viaAlias)
  {
    hide ExactProjectId, PathOf, IsTheProject, NoProject, UniqueIds;
    AliasMeans(r, path);
    ExactProjectMeans(r, path, id);
    if ActiveTarget(r, path).Some? && PathOf(r.projects, ActiveTarget(r, path).value).Some? {
      var k := PathIsRow(r.projects, ActiveTarget(r, path).value);
      assert IsActive(r, path, r.projects[k].id);
    }
    if k :| 0 <= k < |r.projects| && IsActive(r, path, r.projects[k].id) {
      IdFound(r.projects, k);
      forall l | 0 <= l < |r.projects| && IsActive(r, path, r.projects[l].id) ensures l == k {
        SameId(r.projects, k, l);
      }
    }
  }

  lemma SameId(projects: seq<Project>, k: nat, l: nat)
    requires UniqueIds(projects) && k < |projects| && l < |projects| && projects[k].id == projects[l].id
    ensures k == l
  {
  }

  /** Listed with a path, and searched for it, are the active aliases of its project; a
      search adds the path it resolves to. */
  lemma ListsAliases(r: Registry, path: string, p: string)
    requires Resolve(r, path).Ok?
    ensures var x := Resolve(r, path).value;
      && ListedIn(r, path).Ok? && FilterValues(r, path).Ok?
      && var listed := ListedIn(r, path).value;
      && listed.path == path && listed.id == x.id && listed.canonical == x.canonical && listed.viaAlias == x.viaAlias
      && (p in listed.aliases <==> exists id :: x.id == Some(id) && IsActive(r, p, id))
      && (p in FilterValues(r, path).value <==> p == x.canonical || p in listed.aliases)
  {
    hide Resolve;
  }
}
