/** The listings that preview and apply return with their counts (src/project_alias.rs),
    and when the one predicts the other. */
module AliasListings {
  import opened Wrappers
  import opened ProjectAlias

  // ---------------------------------------------------------------- a listing follows its plan

  lemma {:induction false} SomeId(projects: seq<Project>, i: nat)
    requires i < |projects|
    ensures PathOf(projects, projects[i].id).Some?
    decreases |projects|
  {
    if projects[0].id != projects[i].id {
      assert projects[i] == projects[1..][i - 1];
      SomeId(projects[1..], i - 1);
    }
  }

  function TargetId(r: Registry, e: Entry): int {
    var id := ExactProjectId(r, e.canonical);
    if id.Ok? && id.value.Some? then id.value.value else 0
  }

  /** An applied entry resolves to its project. */
  lemma EntryResolves(r: Registry, q: Request, e: Entry, digest: Digest)
    requires !Judge(r, e, digest).Refused?
    ensures var after, id := AfterEntry(r, q, e, digest), TargetId(r, e);
      && PathOf(r.projects, id).Some?
      && ListedIn(after, e.alias_)
         == Ok(Listed(e.alias_, Some(id), PathOf(r.projects, id).value, AliasesOf(after, id), true))
  {
    hide PathOf, IdsAt, Supports, IsDigest;
    var i := SomeRow(r.projects, e.canonical);
    SomeId(r.projects, i);
  }

  lemma EntryPredicted(r: Registry, q: Request, e: Entry, digest: Digest)
    ensures Predicted(r, e, digest).Err? <==> Judge(r, e, digest).Refused?
    ensures Judge(r, e, digest).Unchanged? ==> AfterEntry(r, q, e, digest) == r
  {
    if Judge(r, e, digest).Unchanged? { EntryResolves(r, q, e, digest); }
  }

  /** The listing fails exactly where the entries do. */
  lemma {:induction false} ListingFollows(r: Registry, q: Request, entries: seq<Entry>, c: Counts, digest: Digest)
    ensures ApplyListing(r, q, entries, digest).Ok? <==> ApplyEntries(r, q, entries, c, digest).Ok?
    decreases |entries|
  {
    if entries != [] {
      hide Judge, AfterEntry, ListedIn, Activated;
      EntryApplied(r, q, entries, c, digest);
      if !Judge(r, entries[0], digest).Refused? {
        EntryResolves(r, q, entries[0], digest);
        var c' := if Judge(r, entries[0], digest).Inserts?
                  then c.(inserted := c.inserted + 1)
                  else c.(kept := c.kept + 1);
        ListingFollows(AfterEntry(r, q, entries[0], digest), q, entries[1..], c', digest);
      }
    }
  }

  lemma {:induction false} PreviewListingFollows(r: Registry, q: Request, entries: seq<Entry>, c: Counts,
          digest: Digest)
    ensures PreviewListing(r, entries, digest).Ok? <==> PreviewEntries(r, entries, c, digest).Ok?
    decreases |entries|
  {
    if entries != [] {
      hide Judge, Predicted;
      EntryPredicted(r, q, entries[0], digest);
      if !Judge(r, entries[0], digest).Refused? {
        var c' := if Judge(r, entries[0], digest).Inserts?
                  then c.(inserted := c.inserted + 1)
                  else c.(kept := c.kept + 1);
        PreviewListingFollows(r, q, entries[1..], c', digest);
      }
    }
  }

  // ---------------------------------------------------------------- the two listings

  /** `now` is `was` with the aliases in `made`, none of them active before, each leading to
      the project at its path. */
  ghost predicate Made(was: Registry, now: Registry, made: map<string, string>) {
    && now.projects == was.projects
    && (forall p :: p in made ==> ActiveTarget(was, p).None? && HasProject(was, made[p]))
    && (forall p :: ActiveTarget(now, p)
                    == if p in made then ExactProjectId(was, made[p]).value else ActiveTarget(was, p))
  }

  predicate HasProject(r: Registry, path: string) {
    ExactProjectId(r, path).Ok? && ExactProjectId(r, path).value.Some?
  }

  lemma MadeIsGrown(was: Registry, now: Registry, made: map<string, string>)
    requires Made(was, now, made)
    ensures Grown(was, now, made.Keys)
  {
    hide ExactProjectId, ActiveTarget;
  }

  lemma OneProjectPerId(r: Registry, a: string, b: string)
    requires UniqueIds(r.projects) && HasProject(r, a) && HasProject(r, b)
    requires ExactProjectId(r, a) == ExactProjectId(r, b)
    ensures a == b
  {
    var i := SomeRow(r.projects, a);
    var j := SomeRow(r.projects, b);
  }

  /** The aliases of a project are those from before and those made for it. */
  lemma AliasesGrow(was: Registry, now: Registry, made: map<string, string>, path: string, id: int)
    requires UniqueIds(was.projects) && Made(was, now, made) && ExactProjectId(was, path) == Ok(Some(id))
    ensures forall p :: p in AliasesOf(now, id) <==> p in AliasesOf(was, id) || (p in made && made[p] == path)
    ensures forall p :: p in made ==> p !in AliasesOf(was, id)
  {
    hide ExactProjectId, UniqueIds;
    forall p ensures p in AliasesOf(now, id) <==> p in AliasesOf(was, id) || (p in made && made[p] == path) {
      IsAliasOf(now, p, id);
      IsAliasOf(was, p, id);
      if p in made && ExactProjectId(was, made[p]).value == Some(id) { OneProjectPerId(was, made[p], path); }
    }
  }

  lemma IsAliasOf(r: Registry, p: string, id: int)
    ensures p in AliasesOf(r, id) <==> ActiveTarget(r, p) == Some(id)
  {
  }

  predicate ApartFrom(r: Registry, made: map<string, string>, entries: seq<Entry>)
    decreases |entries|
  {
    entries == [] ||
    (entries[0].canonical !in made.Values
     && var more := if IsNew(r, entries[0]) then made[entries[0].alias_ := entries[0].canonical] else made;
        ApartFrom(r, more, entries[1..]))
  }

  /** One entry: preview says what apply will say if and only if no alias was made for the
      same project. */
  lemma EntryCompared(was: Registry, now: Registry, made: map<string, string>, q: Request, e: Entry, digest: Digest)
    requires UniqueIds(was.projects) && Made(was, now, made) && e.alias_ !in made && e.canonical !in made
    requires !Judge(was, e, digest).Refused?
    ensures Judge(now, e, digest) == Judge(was, e, digest)
    ensures var after := AfterEntry(now, q, e, digest);
      && ListedIn(after, e.alias_).Ok?
      && (ListedIn(after, e.alias_) == Predicted(was, e, digest) <==> e.canonical !in made.Values)
      && Made(was, after, if IsNew(was, e) then made[e.alias_ := e.canonical] else made)
  {
    hide Judge, ListedIn, Predicted, AfterEntry, AliasesOf, UniqueIds, ExactProjectId, Made;
    MadeIsGrown(was, now, made);
    JudgeGrown(was, now, made.Keys, e, digest);
    EntryResolves(now, q, e, digest);
    SameTarget(was, now, made, e, digest);
    AfterGrows(was, now, made, q, e, digest);
    var id := TargetId(was, e);
    AliasesGrow(was, now, made, e.canonical, id);
    PredictedIs(was, q, e, digest);
    if e.canonical in made.Values {
      var p :| p in made && made[p] == e.canonical;
      assert p in AliasesOf(now, id) && p !in AliasesOf(was, id) && p != e.alias_;
    } else {
      assert forall p :: p in made ==> made[p] in made.Values;
      assert AliasesOf(now, id) == AliasesOf(was, id);
    }
  }

  /** The target is a project row, and rows are not touched. */
  lemma SameTarget(was: Registry, now: Registry, made: map<string, string>, e: Entry, digest: Digest)
    requires UniqueIds(was.projects) && Made(was, now, made) && !Judge(was, e, digest).Refused?
    ensures TargetId(now, e) == TargetId(was, e) && ExactProjectId(was, e.canonical) == Ok(Some(TargetId(was, e)))
    ensures PathOf(now.projects, TargetId(was, e)) == Some(e.canonical)
  {
    hide Supports, IsDigest, PathOf;
    var i := SomeRow(was.projects, e.canonical);
    IdFound(was.projects, i);
  }

  lemma PredictedIs(r: Registry, q: Request, e: Entry, digest: Digest)
    requires UniqueIds(r.projects) && !Judge(r, e, digest).Refused?
    ensures var id := TargetId(r, e);
      Predicted(r, e, digest)
      == Ok(Listed(e.alias_, Some(id), e.canonical, AliasesOf(r, id) + (if IsNew(r, e) then {e.alias_} else {}), true))
  {
    hide PathOf, IdsAt, Supports, IsDigest, AliasesOf;
    var i := SomeRow(r.projects, e.canonical);
    IdFound(r.projects, i);
    assert AliasesOf(r, TargetId(r, e)) + {} == AliasesOf(r, TargetId(r, e));
  }

  lemma AfterGrows(was: Registry, now: Registry, made: map<string, string>, q: Request, e: Entry, digest: Digest)
    requires Made(was, now, made) && e.alias_ !in made
    requires !Judge(was, e, digest).Refused? && Judge(now, e, digest) == Judge(was, e, digest)
    ensures var after, id := AfterEntry(now, q, e, digest), TargetId(was, e);
      && Made(was, after, if IsNew(was, e) then made[e.alias_ := e.canonical] else made)
      && after.projects == now.projects
      && AliasesOf(after, id) == AliasesOf(now, id) + (if IsNew(was, e) then {e.alias_} else {})
  {
    hide IdsAt, Supports, IsDigest;
    assert HasProject(was, e.canonical);
  }

  lemma SameBehind(x: Listed, y: Listed, a: Result<seq<Listed>>, b: Result<seq<Listed>>)
    requires a.Ok? && b.Ok?
    ensures Behind([x], a) == Behind([y], b) <==> x == y && a == b
  {
    var left, right := [x] + a.value, [y] + b.value;
    if left == right { assert left[0] == right[0] && left[1..] == a.value && right[1..] == b.value; }
  }

  lemma {:induction false} CompareListings(was: Registry, now: Registry, made: map<string, string>, q: Request,
                                           entries: seq<Entry>, digest: Digest)
    requires UniqueIds(was.projects) && Made(was, now, made) && IndependentOf(was, made.Keys, entries)
    requires PreviewListing(was, entries, digest).Ok?
    ensures ApplyListing(now, q, entries, digest).Ok?
    ensures ApplyListing(now, q, entries, digest) == PreviewListing(was, entries, digest)
      <==> ApartFrom(was, made, entries)
    decreases |entries|
  {
    hide Judge, ListedIn, Predicted, AfterEntry, UniqueIds, Made, Behind, IsNew;
    if entries != [] {
      var e, rest := entries[0], entries[1..];
      EntryPredicted(was, q, e, digest);
      EntryCompared(was, now, made, q, e, digest);
      var after := AfterEntry(now, q, e, digest);
      var more := if IsNew(was, e) then made[e.alias_ := e.canonical] else made;
      assert more.Keys == if IsNew(was, e) then made.Keys + {e.alias_} else made.Keys;
      BehindIsOk(Predicted(was, e, digest).value, PreviewListing(was, rest, digest));
      CompareListings(was, after, more, q, rest, digest);
      BehindIsOk(ListedIn(after, e.alias_).value, ApplyListing(after, q, rest, digest));
      SameBehind(ListedIn(after, e.alias_).value, Predicted(was, e, digest).value,
                 ApplyListing(after, q, rest, digest), PreviewListing(was, rest, digest));
    }
  }

  lemma BehindIsOk(x: Listed, rest: Result<seq<Listed>>)
    ensures Behind([x], rest).Ok? <==> rest.Ok?
  {
  }

  // ---------------------------------------------------------------- when preview lists what apply lists

  /** No entry has the project of an earlier new one for its target. */
  predicate TargetsApart(r: Registry, entries: seq<Entry>) {
    forall i, j :: 0 <= j < i < |entries| && IsNew(r, entries[j]) ==> entries[i].canonical != entries[j].canonical
  }

  predicate NotMadeFor(made: map<string, string>, entries: seq<Entry>) {
    forall i :: 0 <= i < |entries| ==> entries[i].canonical !in made.Values
  }

  lemma {:induction false} TargetsRead(r: Registry, made: map<string, string>, entries: seq<Entry>)
    requires IndependentOf(r, made.Keys, entries)
    ensures ApartFrom(r, made, entries) <==> TargetsApart(r, entries) && NotMadeFor(made, entries)
    decreases |entries|
  {
    hide IsNew;
    if entries != [] {
      var e, rest := entries[0], entries[1..];
      var more := if IsNew(r, e) then made[e.alias_ := e.canonical] else made;
      assert more.Keys == if IsNew(r, e) then made.Keys + {e.alias_} else made.Keys;
      TargetsRead(r, more, rest);
      MadeValues(made, e.alias_, e.canonical);
      assert forall i :: 0 < i < |entries| ==> entries[i] == rest[i - 1];
      if TargetsApart(r, entries) && NotMadeFor(made, entries) {
        forall i, j | 0 <= j < i < |rest| && IsNew(r, rest[j]) ensures rest[i].canonical != rest[j].canonical {
          assert rest[i] == entries[i + 1] && rest[j] == entries[j + 1];
        }
        forall i | 0 <= i < |rest| ensures rest[i].canonical !in more.Values { assert rest[i] == entries[i + 1]; }
      }
      if e.canonical !in made.Values && TargetsApart(r, rest) && NotMadeFor(more, rest) {
        forall i, j | 0 <= j < i < |entries| && IsNew(r, entries[j])
          ensures entries[i].canonical != entries[j].canonical
        {
          assert entries[i] == rest[i - 1] && rest[i - 1].canonical !in more.Values;
          if j > 0 { assert entries[j] == rest[j - 1]; }
        }
        forall i | 0 <= i < |entries| ensures entries[i].canonical !in made.Values {
          if i > 0 { assert rest[i - 1].canonical !in more.Values; }
        }
      }
    }
  }

  lemma MadeValues(made: map<string, string>, alias_: string, path: string)
    requires alias_ !in made
    ensures made[alias_ := path].Values == made.Values + {path}
  {
    var more := made[alias_ := path];
    assert more[alias_] == path;
    forall v | v in made.Values ensures v in more.Values {
      var k :| k in made && made[k] == v;
      assert more[k] == v;
    }
  }

  /** After an accepted preview, apply returns the same counts and the same listing if and
      only if no entry touches a path that an earlier entry makes an alias, and none leads
      to the project of an earlier new one. */
  lemma PreviewReportsExactly(r: Registry, q: Request, digest: Digest)
    requires UniqueIds(r.projects) && PreviewReport(r, q, digest).Ok?
    ensures var applied := ApplyReport(r, q, digest);
      (applied.Ok? && applied.value.1 == PreviewReport(r, q, digest).value)
      <==> Independent(r, q.entries) && TargetsApart(r, q.entries)
  {
    hide ApplyEntries, PreviewEntries, ApplyListing, PreviewListing, Independent, IndependentOf, TargetsApart,
      ApartFrom, HeaderIsValid, UniqueIds;
    PreviewPredictsApply(r, q, digest);
    IndependentRead(r, {}, q.entries);
    ListingFollows(r, q, q.entries, Counts(0, 0), digest);
    if Independent(r, q.entries) {
      NothingMade(r);
      var none: map<string, string> := map[];
      assert none.Keys == {} && none.Values == {};
      CompareListings(r, r, none, q, q.entries, digest);
      TargetsRead(r, none, q.entries);
    }
  }

  lemma NothingMade(r: Registry)
    ensures Made(r, r, map[])
  {
  }

  /** A plan whose listing preview gets wrong though the counts agree: /a moves to /c, then
      /d to /c. */
  lemma PreviewForgetsSiblings(digest: Digest)
    requires GoodDigest(digest)
    ensures var r, q := Fresh(), TwoMoves(MovedEntry("/a", "/c", digest), MovedEntry("/d", "/c", digest));
      && ApplyReport(r, q, digest).Ok? && PreviewReport(r, q, digest).Ok?
      && ApplyReport(r, q, digest).value.1.counts == PreviewReport(r, q, digest).value.counts
      && ApplyReport(r, q, digest).value.1.listing != PreviewReport(r, q, digest).value.listing
  {
    hide EntryIsValid, IdsAt, HeaderIsValid, MovedEntry, ApplyEntries, ApplyListing, PreviewListing;
    var r, first, second := Fresh(), MovedEntry("/a", "/c", digest), MovedEntry("/d", "/c", digest);
    var q := TwoMoves(first, second);
    MovedPaths("/a", "/c", digest);
    MovedPaths("/d", "/c", digest);
    TwoMovesFacts(first, second);
    MoveIsValid(r, "/a", "/c", 2, digest);
    MoveIsValid(r, "/d", "/c", 2, digest);
    assert Judge(r, first, digest) == Inserts(2) && Judge(r, second, digest) == Inserts(2);
    PreviewsTwo(r, first, second, digest);
    PreviewListingFollows(r, q, q.entries, Counts(0, 0), digest);
    assert Independent(r, q.entries) by { assert "/a"[1] != "/d"[1] && "/a"[1] != "/c"[1]; }
    PreviewPredictsApply(r, q, digest);
    ListingFollows(r, q, q.entries, Counts(0, 0), digest);
    assert UniqueIds(r.projects) by { assert "/b"[1] != "/c"[1]; }
    assert q.entries[0] == first && q.entries[1] == second && IsNew(r, first);
    PreviewReportsExactly(r, q, digest);
  }
}
