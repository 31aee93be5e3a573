/** The alias planner (examples/project_alias_inventory.rs): it classifies the paths a
    database mentions and proposes aliases. What the live file system and `git` answer are
    parameters. Meant for ProjectAlias, which must accept every proposal. */
module AliasInventory {
  import opened Wrappers
  import opened Text
  import opened Json
  import opened StringOrder
  import opened ProjectAlias

  datatype Role = Ownership | HistoricalOwnership | ContextEvidence

  datatype Surface = Surface(table: string, column: string, role: Role, rows: int)

  datatype Observed = Observed(path: string, surfaces: seq<Surface>, remotes: set<string>, commits: set<string>)

  datatype Live = Live(exists_: bool, root: Option<string>, remote: Option<string>)

  datatype Class = Exact | Moved | Missing | Ambiguous | NonPath

  /** Why a path has its class, or why an owned path is blocked. */
  datatype Reason =
    | NotAbsolute
    | RemoteConflict
    | InPlace
    | OtherRoot
    | CommitsLead
    | RemoteLeads
    | NothingLeads
    | ManyWorktrees
    | ManyRoots
    | MovedWithoutTarget
    | TargetHasNoProject

  datatype Row = Row(path: string, class_: Class, target: Option<string>, remotes: set<string>,
          liveRemote: Option<string>,
                     targetRemote: Option<string>, commits: nat, shared: nat, reason: Reason, surfaces: seq<Surface>)

  /** `resolve` looks at a path, `contains` asks a repository for a commit, `nameOf` is
      `Path::file_name`. */
  datatype World = World(resolve: string -> Live, contains: (string, string) -> bool, nameOf: string -> Option<string>)

  const NOTHING := Live(false, None, None)

  function LiveOf(w: World, path: string): Live { if IsAbsolute(path) then w.resolve(path) else NOTHING }

  function TargetOf(w: World, path: string): string {
    match LiveOf(w, path).root
    case Some(root) => root
    case None => path
  }

  // ---------------------------------------------------------------- candidates for a missing path

  predicate SharesRemote(w: World, data: Observed, other: Observed) {
    LiveOf(w, other.path).exists_ && LiveOf(w, other.path).remote.Some?
      && LiveOf(w, other.path).remote.value in data.remotes
  }

  function SharedCommits(w: World, data: Observed, other: Observed): nat {
    if LiveOf(w, other.path).exists_ then |data.commits * other.commits| else 0
  }

  function HeldCommits(w: World, data: Observed, other: Observed): nat {
    if data.commits != {} && LiveOf(w, other.path).exists_ && w.nameOf(data.path).Some?
       && w.nameOf(TargetOf(w, other.path)) == w.nameOf(data.path)
    then |HeldBy(w, data, other)|
    else 0
  }

  function HeldBy(w: World, data: Observed, other: Observed): set<string> {
    set c | c in data.commits && w.contains(TargetOf(w, other.path), c)
  }

  predicate IsCandidate(w: World, data: Observed, other: Observed) {
    SharesRemote(w, data, other) || SharedCommits(w, data, other) > 0 || HeldCommits(w, data, other) > 0
  }

  function Candidates(w: World, data: Observed, all: seq<Observed>): set<string> {
    set i | 0 <= i < |all| && IsCandidate(w, data, all[i]) :: TargetOf(w, all[i].path)
  }

  /** The candidates that a stored remote leads to. */
  function RemoteTargets(w: World, data: Observed, all: seq<Observed>): set<string> {
    set i | 0 <= i < |all| && SharesRemote(w, data, all[i]) :: TargetOf(w, all[i].path)
  }

  function Max(a: nat, b: nat): nat { if a < b then b else a }

  /** The largest number of commits any live path vouches for. */
  function MostShared(w: World, data: Observed, all: seq<Observed>): nat {
    if all == [] then 0
    else
      var last := all[|all| - 1];
      Max(MostShared(w, data, all[..|all| - 1]), Max(SharedCommits(w, data, last), HeldCommits(w, data, last)))
  }

  /** The three scans over live paths, made one. */
  method FindCandidates(w: World, data: Observed, all: seq<Observed>)
      returns (candidates: set<string>, byRemote: set<string>, shared: nat)
    ensures candidates == Candidates(w, data, all) && shared == MostShared(w, data, all)
    ensures byRemote == RemoteTargets(w, data, all)
  {
    hide IsCandidate, SharesRemote, TargetOf, SharedCommits, HeldCommits, Candidates, RemoteTargets, MostShared;
    candidates, byRemote, shared := {}, {}, 0;
    var i := 0;
    NoCandidates(w, data, all);
    while i < |all|
      invariant 0 <= i <= |all|
      invariant candidates == Candidates(w, data, all[..i]) && shared == MostShared(w, data, all[..i])
      invariant byRemote == RemoteTargets(w, data, all[..i])
    {
      var other := all[i];
      OneCandidate(w, data, all, i);
      OneRemoteTarget(w, data, all, i);
      if SharesRemote(w, data, other) { byRemote := byRemote + {TargetOf(w, other.path)}; }
      if IsCandidate(w, data, other) { candidates := candidates + {TargetOf(w, other.path)}; }
      shared := Max(shared, Max(SharedCommits(w, data, other), HeldCommits(w, data, other)));
      i := i + 1;
    }
    assert all[..i] == all;
  }

  lemma NoCandidates(w: World, data: Observed, all: seq<Observed>)
    ensures Candidates(w, data, all[..0]) == {} && MostShared(w, data, all[..0]) == 0
    ensures RemoteTargets(w, data, all[..0]) == {}
  {
  }

  lemma OneCandidate(w: World, data: Observed, all: seq<Observed>, i: nat)
    requires i < |all|
    ensures Candidates(w, data, all[..i + 1])
      == Candidates(w, data, all[..i]) + if IsCandidate(w, data, all[i]) then {TargetOf(w, all[i].path)} else {}
    ensures MostShared(w, data, all[..i + 1])
      == Max(MostShared(w, data, all[..i]), Max(SharedCommits(w, data, all[i]), HeldCommits(w, data, all[i])))
  {
    hide IsCandidate, TargetOf, SharedCommits, HeldCommits;
    var more, some := all[..i + 1], all[..i];
    assert more[..i] == some && more == some + [all[i]];
    forall t ensures t in Candidates(w, data, more)
      <==> t in Candidates(w, data, some) || (IsCandidate(w, data, all[i]) && t == TargetOf(w, all[i].path))
    {
      if IsCandidate(w, data, all[i]) && t == TargetOf(w, all[i].path) { assert more[i] == all[i]; }
      if t in Candidates(w, data, some) {
        var k :| 0 <= k < |some| && IsCandidate(w, data, some[k]) && t == TargetOf(w, some[k].path);
        assert more[k] == some[k];
      }
    }
  }

  lemma OneRemoteTarget(w: World, data: Observed, all: seq<Observed>, i: nat)
    requires i < |all|
    ensures RemoteTargets(w, data, all[..i + 1])
      == RemoteTargets(w, data, all[..i]) + if SharesRemote(w, data, all[i]) then {TargetOf(w, all[i].path)} else {}
  {
    hide SharesRemote, TargetOf;
    var more, some := all[..i + 1], all[..i];
    assert more == some + [all[i]];
    forall t ensures t in RemoteTargets(w, data, more)
      <==> t in RemoteTargets(w, data, some) || (SharesRemote(w, data, all[i]) && t == TargetOf(w, all[i].path))
    {
      if SharesRemote(w, data, all[i]) && t == TargetOf(w, all[i].path) { assert more[i] == all[i]; }
      if t in RemoteTargets(w, data, some) {
        var k :| 0 <= k < |some| && SharesRemote(w, data, some[k]) && t == TargetOf(w, some[k].path);
        assert more[k] == some[k];
      }
    }
  }

  // ---------------------------------------------------------------- classification

  function TargetRemote(w: World, all: seq<Observed>, target: string): Option<string> {
    if all == [] then None
    else if LiveOf(w, all[0].path).root == Some(target) then LiveOf(w, all[0].path).remote
    else TargetRemote(w, all[1..], target)
  }

  datatype Finding = Finding(class_: Class, target: Option<string>, shared: nat, reason: Reason)

  /** The class of an absolute path, where it leads, and why. */
  ghost function Verdict(w: World, data: Observed, all: seq<Observed>): Finding {
    var live := LiveOf(w, data.path);
    if live.exists_ then
      if live.remote.Some? && data.remotes != {} && live.remote.value !in data.remotes
      then Finding(Ambiguous, live.root, 0, RemoteConflict)
      else if live.root == Some(data.path) then Finding(Exact, Some(data.path), 0, InPlace)
      else Finding(Moved, live.root, 0, OtherRoot)
    else
      var candidates := Candidates(w, data, all);
      var shared := MostShared(w, data, all);
      if candidates == {} then Finding(Missing, None, shared, NothingLeads)
      else if |candidates| == 1 then
        var t :| t in candidates;
        Finding(Moved, Some(t), shared, if shared > 0 then CommitsLead else RemoteLeads)
      else Finding(Ambiguous, None, shared, if |RemoteTargets(w, data, all)| > 1 then ManyWorktrees else ManyRoots)
  }

  function NotAPath(data: Observed): Row {
    Row(data.path, NonPath, None, data.remotes, None, None, |data.commits|, 0, NotAbsolute, data.surfaces)
  }

  ghost function Classify(w: World, data: Observed, all: seq<Observed>): Row {
    if !IsAbsolute(data.path) then NotAPath(data)
    else
      var found := Verdict(w, data, all);
      Row(data.path, found.class_, found.target, data.remotes, LiveOf(w, data.path).remote,
          if found.target.Some? then TargetRemote(w, all, found.target.value) else None,
          |data.commits|, found.shared, found.reason, data.surfaces)
  }

  method ClassifyOne(w: World, data: Observed, all: seq<Observed>) returns (row: Row)
    ensures row == Classify(w, data, all)
  {
    if !IsAbsolute(data.path) { return NotAPath(data); }
    var live := w.resolve(data.path);
    var class_, target, shared, reason := Ambiguous, live.root, 0, RemoteConflict;
    if live.exists_ {
      if live.remote.Some? && data.remotes != {} && live.remote.value !in data.remotes {
      } else if live.root == Some(data.path) {
        class_, target, reason := Exact, Some(data.path), InPlace;
      } else {
        class_, reason := Moved, OtherRoot;
      }
    } else {
      var candidates, byRemote;
      candidates, byRemote, shared := FindCandidates(w, data, all);
      if candidates == {} {
        class_, target, reason := Missing, None, NothingLeads;
      } else if |candidates| == 1 {
        var t :| t in candidates;
        Singleton(candidates);
        class_, target, reason := Moved, Some(t), if shared > 0 then CommitsLead else RemoteLeads;
      } else {
        target, reason := None, if |byRemote| > 1 then ManyWorktrees else ManyRoots;
      }
    }
    row := Row(data.path, class_, target, data.remotes, live.remote,
               if target.Some? then TargetRemote(w, all, target.value) else None,
               |data.commits|, shared, reason, data.surfaces);
  }

  lemma Singleton(s: set<string>)
    requires |s| == 1
    ensures forall a, b :: a in s && b in s ==> a == b
  {
    var a :| a in s;
    assert |s - {a}| == 0;
  }

  // ---------------------------------------------------------------- what a class means

  /** The observed path is live, and stands for the root `t`. */
  ghost predicate LivesAt(w: World, other: Observed, t: string) {
    && IsAbsolute(other.path) && w.resolve(other.path).exists_
    && (w.resolve(other.path).root == Some(t) || (w.resolve(other.path).root.None? && t == other.path))
  }

  /** Its remote is one of those stored for the missing path. */
  ghost predicate RemoteLeadsTo(w: World, data: Observed, other: Observed, t: string) {
    LivesAt(w, other, t) && exists remote :: remote in data.remotes && w.resolve(other.path).remote == Some(remote)
  }

  /** The two file names are the same, and the missing path has one. */
  ghost predicate SameName(w: World, path: string, t: string) {
    w.nameOf(path).Some? && w.nameOf(t) == w.nameOf(path)
  }

  /** A commit of the missing path is one of the live path too, or is in a repository of
      the missing path's name. */
  ghost predicate CommitLeadsTo(w: World, data: Observed, other: Observed, t: string) {
    && LivesAt(w, other, t)
    && exists c :: c in data.commits && (c in other.commits || (SameName(w, data.path, t) && w.contains(t, c)))
  }

  ghost predicate LedByRemote(w: World, data: Observed, all: seq<Observed>, t: string) {
    exists i :: 0 <= i < |all| && RemoteLeadsTo(w, data, all[i], t)
  }

  ghost predicate LedByCommit(w: World, data: Observed, all: seq<Observed>, t: string) {
    exists i :: 0 <= i < |all| && CommitLeadsTo(w, data, all[i], t)
  }

  /** Some evidence leads from the missing path to `t`. */
  ghost predicate Leads(w: World, data: Observed, all: seq<Observed>, t: string) {
    LedByRemote(w, data, all, t) || LedByCommit(w, data, all, t)
  }

  ghost predicate OnlyRoot(w: World, data: Observed, all: seq<Observed>, t: string) {
    Leads(w, data, all, t) && forall u :: Leads(w, data, all, u) ==> u == t
  }

  ghost predicate NoRoot(w: World, data: Observed, all: seq<Observed>) { forall t :: !Leads(w, data, all, t) }

  ghost predicate TwoRoots(w: World, data: Observed, all: seq<Observed>) {
    exists t, u :: t != u && Leads(w, data, all, t) && Leads(w, data, all, u)
  }

  ghost predicate SomeByCommit(w: World, data: Observed, all: seq<Observed>) {
    exists t :: LedByCommit(w, data, all, t)
  }

  ghost predicate TwoByRemote(w: World, data: Observed, all: seq<Observed>) {
    exists t, u :: t != u && LedByRemote(w, data, all, t) && LedByRemote(w, data, all, u)
  }

  /** `n` commits of the missing path are the live path's too, or are in its repository. */
  ghost predicate Vouches(w: World, data: Observed, other: Observed, n: int) {
    exists t :: LivesAt(w, other, t)
      && (n == |data.commits * other.commits|
          || (SameName(w, data.path, t) && n == |set c | c in data.commits && w.contains(t, c)|))
  }

  /** `n` is the most any live path vouches for, or zero if none does for any. */
  ghost predicate MostVouched(w: World, data: Observed, all: seq<Observed>, n: nat) {
    && (forall i, m :: 0 <= i < |all| && Vouches(w, data, all[i], m) ==> m <= n)
    && (n > 0 ==> exists i :: 0 <= i < |all| && Vouches(w, data, all[i], n))
  }

  /** A path that is there: a stored remote that is not the live one makes it ambiguous,
      and otherwise it is in place or belongs under its root. */
  ghost predicate PlacesLive(live: Live, data: Observed, row: Row) {
    var conflict := exists remote :: live.remote == Some(remote) && remote !in data.remotes && data.remotes != {};
    && row.target == live.root && row.shared == 0
    && (row.class_ == Ambiguous <==> conflict) && (row.reason == RemoteConflict <==> conflict)
    && (row.class_ == Exact <==> !conflict && live.root == Some(data.path))
    && (row.class_ == Moved <==> !conflict && live.root != Some(data.path))
    && (row.reason == InPlace <==> row.class_ == Exact) && (row.reason == OtherRoot <==> row.class_ == Moved)
  }

  /** A path that is not: it moved where all evidence leads, if that is one root; without
      evidence it is missing, and with evidence for two roots ambiguous. */
  ghost predicate PlacesMissing(w: World, data: Observed, all: seq<Observed>, row: Row) {
    && (forall t :: row.class_ == Moved && row.target == Some(t) <==> OnlyRoot(w, data, all, t))
    && (row.class_ == Missing <==> NoRoot(w, data, all))
    && (row.class_ == Ambiguous <==> TwoRoots(w, data, all))
    && (row.class_ == Moved || row.target == None) && row.class_ != Exact && row.class_ != NonPath
    && MostVouched(w, data, all, row.shared)
    && (row.reason == NothingLeads <==> row.class_ == Missing)
    && (row.reason == CommitsLead <==> row.class_ == Moved && SomeByCommit(w, data, all))
    && (row.reason == RemoteLeads <==> row.class_ == Moved && !SomeByCommit(w, data, all))
    && (row.reason == ManyWorktrees <==> TwoByRemote(w, data, all))
    && (row.reason == ManyRoots <==> row.class_ == Ambiguous && !TwoByRemote(w, data, all))
  }

  /** The remote of the first observed path whose root is the target. */
  ghost predicate FirstRemote(w: World, all: seq<Observed>, target: Option<string>, remote: Option<string>) {
    if exists i :: 0 <= i < |all| && target.Some? && HasRoot(w, all[i], target.value)
    then
      exists i ::
        && 0 <= i < |all| && HasRoot(w, all[i], target.value) && remote == w.resolve(all[i].path).remote
        && forall k :: 0 <= k < i ==> !HasRoot(w, all[k], target.value)
    else remote == None
  }

  ghost predicate HasRoot(w: World, other: Observed, root: string) {
    IsAbsolute(other.path) && w.resolve(other.path).root == Some(root)
  }

  /** What the row of an observed path says. */
  ghost predicate Explains(w: World, data: Observed, all: seq<Observed>, row: Row) {
    && row.path == data.path && row.remotes == data.remotes && row.commits == |data.commits|
    && row.surfaces == data.surfaces
    && if !StartsWith(data.path, "/") then
         row.class_ == NonPath && row.reason == NotAbsolute && row.shared == 0
         && row.target == None && row.liveRemote == None && row.targetRemote == None
       else
         && row.liveRemote == w.resolve(data.path).remote && FirstRemote(w, all, row.target, row.targetRemote)
         && if w.resolve(data.path).exists_ then PlacesLive(w.resolve(data.path), data, row)
            else PlacesMissing(w, data, all, row)
  }

  lemma SharesRemoteMeans(w: World, data: Observed, other: Observed, t: string)
    ensures SharesRemote(w, data, other) && t == TargetOf(w, other.path) <==> RemoteLeadsTo(w, data, other, t)
  {
  }

  lemma LivesAtTarget(w: World, other: Observed, t: string)
    ensures LivesAt(w, other, t) <==> LiveOf(w, other.path).exists_ && t == TargetOf(w, other.path)
  {
  }

  lemma SomeMember<T>(s: set<T>)
    ensures |s| > 0 <==> exists x :: x in s
  {
    if s == {} { assert |s| == 0; }
  }

  lemma CommitsMean(w: World, data: Observed, other: Observed, t: string)
    ensures (SharedCommits(w, data, other) > 0 || HeldCommits(w, data, other) > 0) && t == TargetOf(w, other.path)
      <==> CommitLeadsTo(w, data, other, t)
  {
    hide LiveOf, TargetOf, LivesAt;
    LivesAtTarget(w, other, t);
    SomeMember(data.commits * other.commits);
    SomeMember(HeldBy(w, data, other));
    assert forall c :: c in data.commits * other.commits <==> c in data.commits && c in other.commits;
  }

  lemma VouchedFor(w: World, data: Observed, other: Observed)
    ensures Vouches(w, data, other, SharedCommits(w, data, other)) || SharedCommits(w, data, other) == 0
    ensures Vouches(w, data, other, HeldCommits(w, data, other)) || HeldCommits(w, data, other) == 0
    ensures forall n ::
      Vouches(w, data, other, n) ==> n <= Max(SharedCommits(w, data, other), HeldCommits(w, data, other))
  {
    hide LiveOf, TargetOf, LivesAt;
    forall t ensures LivesAt(w, other, t) <==> LiveOf(w, other.path).exists_ && t == TargetOf(w, other.path) {
      LivesAtTarget(w, other, t);
    }
    var t := TargetOf(w, other.path);
    assert HeldBy(w, data, other) == set c | c in data.commits && w.contains(t, c);
    assert data.commits == {} ==> HeldBy(w, data, other) == {};
    assert LiveOf(w, other.path).exists_ ==> LivesAt(w, other, t);
  }

  lemma {:induction false} MostSharedMeans(w: World, data: Observed, all: seq<Observed>)
    ensures MostVouched(w, data, all, MostShared(w, data, all))
  {
    hide Vouches, SharedCommits, HeldCommits;
    if all != [] {
      var n := |all| - 1;
      var front, last := all[..n], all[n];
      MostSharedMeans(w, data, front);
      VouchedFor(w, data, last);
      var most := MostShared(w, data, all);
      forall i, m | 0 <= i < |all| && Vouches(w, data, all[i], m) ensures m <= most {
        if i < n { assert front[i] == all[i]; }
      }
      if most > 0 && most == MostShared(w, data, front) {
        var i :| 0 <= i < n && Vouches(w, data, front[i], most);
        assert all[i] == front[i];
      }
    }
  }

  lemma CandidatesLead(w: World, data: Observed, all: seq<Observed>, t: string)
    ensures t in Candidates(w, data, all) <==> Leads(w, data, all, t)
    ensures t in RemoteTargets(w, data, all) <==> LedByRemote(w, data, all, t)
  {
    hide SharesRemote, SharedCommits, HeldCommits, TargetOf, RemoteLeadsTo, CommitLeadsTo;
    forall i | 0 <= i < |all|
      ensures SharesRemote(w, data, all[i]) && t == TargetOf(w, all[i].path) <==> RemoteLeadsTo(w, data, all[i], t)
      ensures IsCandidate(w, data, all[i]) && t == TargetOf(w, all[i].path)
        <==> RemoteLeadsTo(w, data, all[i], t) || CommitLeadsTo(w, data, all[i], t)
    {
      SharesRemoteMeans(w, data, all[i], t);
      CommitsMean(w, data, all[i], t);
    }
  }

  /** Some live path vouches for a commit exactly when a commit leads somewhere. */
  lemma VouchedMeansLed(w: World, data: Observed, all: seq<Observed>, n: nat)
    requires MostVouched(w, data, all, n)
    ensures n > 0 <==> SomeByCommit(w, data, all)
  {
    hide LivesAt, SameName;
    if n > 0 {
      var i :| 0 <= i < |all| && Vouches(w, data, all[i], n);
      LeadsWhereVouched(w, data, all[i], n);
      var t :| CommitLeadsTo(w, data, all[i], t);
      assert LedByCommit(w, data, all, t);
    }
    forall t | LedByCommit(w, data, all, t) ensures n > 0 {
      var i :| 0 <= i < |all| && CommitLeadsTo(w, data, all[i], t);
      VouchesWhereLed(w, data, all[i], t);
    }
  }

  lemma LeadsWhereVouched(w: World, data: Observed, other: Observed, n: nat)
    requires Vouches(w, data, other, n) && n > 0
    ensures exists t :: CommitLeadsTo(w, data, other, t)
  {
    hide LivesAt, SameName;
    var t :| LivesAt(w, other, t)
      && (n == |data.commits * other.commits|
          || (SameName(w, data.path, t) && n == |set c | c in data.commits && w.contains(t, c)|));
    SomeMember(data.commits * other.commits);
    SomeMember(set c | c in data.commits && w.contains(t, c));
    assert CommitLeadsTo(w, data, other, t);
  }

  lemma VouchesWhereLed(w: World, data: Observed, other: Observed, t: string)
    requires CommitLeadsTo(w, data, other, t)
    ensures exists n: nat :: n > 0 && Vouches(w, data, other, n)
  {
    hide LivesAt, SameName;
    var shared, held := data.commits * other.commits, set c | c in data.commits && w.contains(t, c);
    SomeMember(shared);
    SomeMember(held);
    var c :| c in data.commits && (c in other.commits || (SameName(w, data.path, t) && w.contains(t, c)));
    assert c in shared || (SameName(w, data.path, t) && c in held);
    assert Vouches(w, data, other, |shared|);
    assert SameName(w, data.path, t) ==> Vouches(w, data, other, |held|);
  }

  lemma {:induction false} TargetRemoteIsFirst(w: World, all: seq<Observed>, target: string)
    ensures FirstRemote(w, all, Some(target), TargetRemote(w, all, target))
  {
    if all != [] {
      hide HasRoot;
      var rest := all[1..];
      TargetRemoteIsFirst(w, rest, target);
      RootOf(w, all[0], target);
      assert forall i :: 0 < i < |all| ==> all[i] == rest[i - 1];
      if !HasRoot(w, all[0], target) {
        if k :| 0 <= k < |rest| && HasRoot(w, rest[k], target) {
          var i :| 0 <= i < |rest| && HasRoot(w, rest[i], target)
            && TargetRemote(w, rest, target) == w.resolve(rest[i].path).remote
            && forall k :: 0 <= k < i ==> !HasRoot(w, rest[k], target);
          assert HasRoot(w, all[i + 1], target);
        }
      } else {
        RootOf(w, all[0], target);
      }
    }
  }

  lemma RootOf(w: World, other: Observed, root: string)
    ensures HasRoot(w, other, root) <==> LiveOf(w, other.path).root == Some(root)
    ensures HasRoot(w, other, root) ==> LiveOf(w, other.path).remote == w.resolve(other.path).remote
  {
  }

  lemma Sizes(s: set<string>)
    ensures |s| == 0 <==> s == {}
    ensures |s| == 1 <==> exists t :: t in s && forall u :: u in s ==> u == t
    ensures |s| > 1 <==> exists t, u :: t != u && t in s && u in s
  {
    if |s| == 1 { Singleton(s); }
    if s != {} {
      var t :| t in s;
      SomeMember(s - {t});
      assert s == {t} + (s - {t});
      if u :| u in s - {t} { assert t != u && t in s && u in s; }
    }
  }

  lemma VerdictOnMissing(w: World, data: Observed, all: seq<Observed>)
    requires IsAbsolute(data.path) && !w.resolve(data.path).exists_
    ensures PlacesMissing(w, data, all, Classify(w, data, all))
  {
    hide Candidates, RemoteTargets, MostShared, TargetRemote, Leads, LedByRemote, LedByCommit, MostVouched, Classify;
    var candidates := Candidates(w, data, all);
    hide OnlyRoot, TwoByRemote, NoRoot, TwoRoots, SomeByCommit;
    VerdictBySets(w, data, all);
    SetMeansRoots(w, data, all);
    SetMeansRemotes(w, data, all);
    RemotesAreRoots(w, data, all);
    MostSharedMeans(w, data, all);
    VouchedMeansLed(w, data, all, MostShared(w, data, all));
    var row := Classify(w, data, all);
    forall t ensures row.class_ == Moved && row.target == Some(t) <==> OnlyRoot(w, data, all, t) {
      SetMeansOnly(w, data, all, t);
      if candidates == {t} { assert |candidates| == 1; }
    }
  }

  lemma SetMeansOnly(w: World, data: Observed, all: seq<Observed>, t: string)
    ensures OnlyRoot(w, data, all, t) <==> Candidates(w, data, all) == {t}
  {
    hide Candidates, Leads;
    forall u ensures u in Candidates(w, data, all) <==> Leads(w, data, all, u) { CandidatesLead(w, data, all, u); }
  }

  lemma SetMeansRoots(w: World, data: Observed, all: seq<Observed>)
    ensures Candidates(w, data, all) == {} <==> NoRoot(w, data, all)
    ensures |Candidates(w, data, all)| > 1 <==> TwoRoots(w, data, all)
  {
    hide Candidates, Leads;
    forall u ensures u in Candidates(w, data, all) <==> Leads(w, data, all, u) { CandidatesLead(w, data, all, u); }
    Sizes(Candidates(w, data, all));
  }

  lemma SetMeansRemotes(w: World, data: Observed, all: seq<Observed>)
    ensures |RemoteTargets(w, data, all)| > 1 <==> TwoByRemote(w, data, all)
  {
    hide RemoteTargets, LedByRemote, LedByCommit;
    forall u ensures u in RemoteTargets(w, data, all) <==> LedByRemote(w, data, all, u) {
      CandidatesLead(w, data, all, u);
    }
    Sizes(RemoteTargets(w, data, all));
  }

  lemma RemotesAreRoots(w: World, data: Observed, all: seq<Observed>)
    ensures TwoByRemote(w, data, all) ==> TwoRoots(w, data, all)
  {
    hide LedByRemote, LedByCommit;
    if TwoByRemote(w, data, all) {
      var t, u :| t != u && LedByRemote(w, data, all, t) && LedByRemote(w, data, all, u);
      assert Leads(w, data, all, t) && Leads(w, data, all, u);
    }
  }

  lemma VerdictBySets(w: World, data: Observed, all: seq<Observed>)
    requires IsAbsolute(data.path) && !w.resolve(data.path).exists_
    ensures var row, candidates := Classify(w, data, all), Candidates(w, data, all);
      && row.shared == MostShared(w, data, all)
      && (candidates == {} ==> row.class_ == Missing && row.target == None && row.reason == NothingLeads)
      && (|candidates| > 1 ==>
            && row.class_ == Ambiguous && row.target == None
            && row.reason == if |RemoteTargets(w, data, all)| > 1 then ManyWorktrees else ManyRoots)
      && (|candidates| == 1 ==>
            && row.class_ == Moved && row.target.Some? && candidates == {row.target.value}
            && row.reason == if row.shared > 0 then CommitsLead else RemoteLeads)
  {
    hide Candidates, RemoteTargets, MostShared, TargetRemote;
    if |Candidates(w, data, all)| == 1 { Singleton(Candidates(w, data, all)); }
  }

  /** Every row says what it should: what it is classed as, where it leads, how many
      commits vouch for it, and why. */
  lemma RowsExplain(w: World, data: Observed, all: seq<Observed>)
    ensures Explains(w, data, all, Classify(w, data, all))
  {
    hide PlacesMissing, MostShared, Candidates, RemoteTargets, TargetRemote, FirstRemote;
    var row := Classify(w, data, all);
    if IsAbsolute(data.path) {
      if row.target.Some? { TargetRemoteIsFirst(w, all, row.target.value); } else { NoRemote(w, all); }
      if !w.resolve(data.path).exists_ { VerdictOnMissing(w, data, all); }
    }
  }

  lemma NoRemote(w: World, all: seq<Observed>)
    ensures FirstRemote(w, all, None, None)
  {
  }

  /** `classify_paths`: one row for each observed path, in the same order. */
  method ClassifyPaths(w: World, all: seq<Observed>) returns (rows: seq<Row>)
    ensures |rows| == |all| && forall i :: 0 <= i < |all| ==> rows[i] == Classify(w, all[i], all)
    ensures forall i :: 0 <= i < |all| ==> Explains(w, all[i], all, rows[i])
  {
    hide Classify, Explains;
    rows := [];
    var i := 0;
    while i < |all|
      invariant 0 <= i <= |all| && |rows| == i
      invariant forall k :: 0 <= k < i ==> rows[k] == Classify(w, all[k], all) && Explains(w, all[k], all, rows[k])
    {
      var row := ClassifyOne(w, all[i], all);
      RowsExplain(w, all[i], all);
      rows := rows + [row];
      i := i + 1;
    }
  }

  // ---------------------------------------------------------------- the plan

  predicate IsProjectSurface(s: Surface) { s.table == "projects" && s.column == "project_path" }

  predicate IsProjectRow(row: Row) { exists i :: 0 <= i < |row.surfaces| && IsProjectSurface(row.surfaces[i]) }

  function ProjectPaths(rows: seq<Row>): set<string> {
    set i | 0 <= i < |rows| && IsProjectRow(rows[i]) :: rows[i].path
  }

  /** `ownership_row_counts`. */
  function OwnershipRows(surfaces: seq<Surface>): int {
    if surfaces == [] then 0
    else (if surfaces[0].role.ContextEvidence? then 0 else surfaces[0].rows) + OwnershipRows(surfaces[1..])
  }

  function ContextRows(surfaces: seq<Surface>): int {
    if surfaces == [] then 0
    else (if surfaces[0].role.ContextEvidence? then surfaces[0].rows else 0) + ContextRows(surfaces[1..])
  }

  /** Rows of context evidence are counted apart, all others as owned. */
  lemma {:induction false} RowsAddUp(before: seq<Surface>, s: Surface)
    ensures OwnershipRows([]) == 0 == ContextRows([])
    ensures s.role != ContextEvidence ==>
              OwnershipRows(before + [s]) == OwnershipRows(before) + s.rows
              && ContextRows(before + [s]) == ContextRows(before)
    ensures s.role == ContextEvidence ==>
              OwnershipRows(before + [s]) == OwnershipRows(before)
              && ContextRows(before + [s]) == ContextRows(before) + s.rows
  {
    if before == [] {
      assert [] + [s] == [s] && [s][1..] == [];
    } else {
      assert (before + [s])[1..] == before[1..] + [s];
      RowsAddUp(before[1..], s);
    }
  }

  function KindOf(row: Row): ProofKind {
    if row.shared > 0 then GitCommitMembership
    else if row.targetRemote.Some? && row.targetRemote.value in row.remotes then GitRemote
    else FilesystemCanonicalization
  }

  function PayloadOf(row: Row, target: string): Json {
    Object(map[
      "from_path" := Str(row.path),
      "to_path" := Str(target),
      "target_remote" := (if row.targetRemote.Some? then Str(row.targetRemote.value) else Null),
      "shared_commit_count" := Number(Decimal(row.shared)),
      "canonicalized" := Bool(KindOf(row).FilesystemCanonicalization?),
      "ownership_rows" := Number(SignedDecimal(OwnershipRows(row.surfaces))),
      "context_evidence_rows" := Number(SignedDecimal(ContextRows(row.surfaces)))])
  }

  function Propose(row: Row, target: string, digest: Digest): Entry {
    var payload := PayloadOf(row, target);
    Entry(row.path, target, KindOf(row), payload, digest(payload))
  }

  predicate Proposes(row: Row, projects: set<string>) {
    OwnershipRows(row.surfaces) != 0 && row.class_.Moved? && row.target.Some? && row.target.value in projects
  }

  /** Owned paths that get no alias, and the class they are reported under. */
  predicate Blocks(row: Row, projects: set<string>) {
    OwnershipRows(row.surfaces) != 0 && !Proposes(row, projects)
    && (row.class_.Moved? || row.class_.Missing? || row.class_.Ambiguous?)
  }

  function Proposals(rows: seq<Row>, projects: set<string>, digest: Digest): seq<Entry> {
    if rows == [] then []
    else
      var last := rows[|rows| - 1];
      Proposals(rows[..|rows| - 1], projects, digest)
        + if Proposes(last, projects) then [Propose(last, last.target.value, digest)] else []
  }

  datatype Blocked = Blocked(path: string, class_: Class, owned: int, reason: Reason)

  /** A moved path that cannot be proposed counts as ambiguous. */
  function BlockOf(row: Row): Blocked {
    var owned := OwnershipRows(row.surfaces);
    if !row.class_.Moved? then Blocked(row.path, row.class_, owned, row.reason)
    else Blocked(row.path, Ambiguous, owned, if row.target.None? then MovedWithoutTarget else TargetHasNoProject)
  }

  function BlockedPaths(rows: seq<Row>, projects: set<string>): seq<Blocked> {
    if rows == [] then []
    else
      var last := rows[|rows| - 1];
      BlockedPaths(rows[..|rows| - 1], projects) + if Blocks(last, projects) then [BlockOf(last)] else []
  }

  /** `build_alias_plan`. The rows come in path order, so its final sorts move nothing. */
  method BuildAliasPlan(rows: seq<Row>, digest: Digest) returns (proposals: seq<Entry>, blocked: seq<Blocked>)
    ensures proposals == Proposals(rows, ProjectPaths(rows), digest)
    ensures blocked == BlockedPaths(rows, ProjectPaths(rows))
  {
    proposals, blocked := [], [];
    var projects := ProjectPaths(rows);
    var i := 0;
    while i < |rows|
      invariant 0 <= i <= |rows|
      invariant proposals == Proposals(rows[..i], projects, digest) && blocked == BlockedPaths(rows[..i], projects)
    {
      var row := rows[i];
      assert rows[..i + 1][..i] == rows[..i];
      i := i + 1;
      var owned := OwnershipRows(row.surfaces);
      if owned == 0 { continue; }
      match row.class_ {
        case Moved =>
          if row.target.None? {
            blocked := blocked + [Blocked(row.path, Ambiguous, owned, MovedWithoutTarget)];
          } else if row.target.value !in projects {
            blocked := blocked + [Blocked(row.path, Ambiguous, owned, TargetHasNoProject)];
          } else {
            proposals := proposals + [Propose(row, row.target.value, digest)];
          }
        case Missing => blocked := blocked + [Blocked(row.path, row.class_, owned, row.reason)];
        case Ambiguous => blocked := blocked + [Blocked(row.path, row.class_, owned, row.reason)];
        case Exact =>
        case NonPath =>
      }
    }
    assert rows[..i] == rows;
  }

  /** A project path is one that a `projects` row has. */
  lemma ProjectPathsExactly(rows: seq<Row>, path: string)
    ensures path in ProjectPaths(rows) <==>
      exists i, k ::
        && 0 <= i < |rows| && 0 <= k < |rows[i].surfaces| && rows[i].path == path
        && rows[i].surfaces[k].table == "projects" && rows[i].surfaces[k].column == "project_path"
  {
    if path in ProjectPaths(rows) {
      var i :| 0 <= i < |rows| && IsProjectRow(rows[i]) && rows[i].path == path;
      var k :| 0 <= k < |rows[i].surfaces| && IsProjectSurface(rows[i].surfaces[k]);
      assert rows[i].surfaces[k].table == "projects";
    }
    if i, k
      :| && 0 <= i < |rows| && 0 <= k < |rows[i].surfaces| && rows[i].path == path
         && rows[i].surfaces[k].table == "projects" && rows[i].surfaces[k].column == "project_path"
    {
      assert IsProjectSurface(rows[i].surfaces[k]) && IsProjectRow(rows[i]);
    }
  }

  /** Proposed are exactly the owned paths that moved to a project, under that project. */
  lemma {:induction false} ProposedExactly(rows: seq<Row>, projects: set<string>, digest: Digest, e: Entry)
    ensures e in Proposals(rows, projects, digest) <==>
      exists i, t ::
        && 0 <= i < |rows| && OwnershipRows(rows[i].surfaces) != 0 && rows[i].class_ == Moved
        && rows[i].target == Some(t) && t in projects && e == Propose(rows[i], t, digest)
  {
    hide OwnershipRows, Propose;
    if rows != [] {
      var n := |rows| - 1;
      ProposedExactly(rows[..n], projects, digest, e);
      assert forall i :: 0 <= i < n ==> rows[i] == rows[..n][i];
      assert Proposals(rows, projects, digest)
          == Proposals(rows[..n], projects, digest)
             + if Proposes(rows[n], projects) then [Propose(rows[n], rows[n].target.value, digest)] else [];
    }
  }

  /** Why an owned path is blocked, and the class it is reported under. */
  ghost predicate IsBlocked(row: Row, projects: set<string>, b: Blocked) {
    && OwnershipRows(row.surfaces) != 0 && b.path == row.path && b.owned == OwnershipRows(row.surfaces)
    && match b.reason
       case MovedWithoutTarget => row.class_ == Moved && b.class_ == Ambiguous && row.target == None
       case TargetHasNoProject =>
         row.class_ == Moved && b.class_ == Ambiguous && row.target.Some? && row.target.value !in projects
       case _ => (row.class_ == Missing || row.class_ == Ambiguous) && b.class_ == row.class_ && b.reason == row.reason
  }

  /** Blocked are exactly the owned paths that are missing or ambiguous, for the reason of
      their rows, and those that moved to no project. */
  lemma {:induction false} BlockedExactly(rows: seq<Row>, projects: set<string>, b: Blocked)
    requires forall i :: 0 <= i < |rows| ==>
      rows[i].reason != MovedWithoutTarget && rows[i].reason != TargetHasNoProject
    ensures b in BlockedPaths(rows, projects) <==> exists i :: 0 <= i < |rows| && IsBlocked(rows[i], projects, b)
  {
    hide OwnershipRows;
    if rows != [] {
      var n := |rows| - 1;
      BlockedExactly(rows[..n], projects, b);
      assert forall i :: 0 <= i < n ==> rows[i] == rows[..n][i];
      OneBlocked(rows[n], projects, b);
      hide IsBlocked, BlockOf, Blocks;
      assert BlockedPaths(rows, projects)
          == BlockedPaths(rows[..n], projects) + if Blocks(rows[n], projects) then [BlockOf(rows[n])] else [];
    }
  }

  lemma OneBlocked(row: Row, projects: set<string>, b: Blocked)
    requires row.reason != MovedWithoutTarget && row.reason != TargetHasNoProject
    ensures Blocks(row, projects) && b == BlockOf(row) <==> IsBlocked(row, projects, b)
  {
    hide OwnershipRows;
  }

  /** Rows that own something and are not plainly in place. */
  predicate NeedsSettling(row: Row) {
    OwnershipRows(row.surfaces) != 0 && (row.class_.Moved? || row.class_.Missing? || row.class_.Ambiguous?)
  }

  function Unsettled(rows: seq<Row>): seq<string> {
    if rows == [] then []
    else Unsettled(rows[..|rows| - 1]) + if NeedsSettling(rows[|rows| - 1]) then [rows[|rows| - 1].path] else []
  }

  function AliasPaths(entries: seq<Entry>): seq<string> {
    seq(|entries|, i requires 0 <= i < |entries| => entries[i].alias_)
  }

  function PathsOf(blocked: seq<Blocked>): seq<string> {
    seq(|blocked|, i requires 0 <= i < |blocked| => blocked[i].path)
  }

  /** The plan loses no owned path and names none twice over: each that needs settling is
      either proposed or reported as blocked. */
  lemma {:induction false} PlanSettlesOwnedPaths(rows: seq<Row>, projects: set<string>, digest: Digest)
    ensures multiset(AliasPaths(Proposals(rows, projects, digest))) + multiset(PathsOf(BlockedPaths(rows, projects)))
         == multiset(Unsettled(rows))
  {
    hide Propose, Proposes, Blocks, NeedsSettling, AliasPaths, PathsOf;
    if rows == [] {
      assert AliasPaths([]) == [] && PathsOf([]) == [] by { NoPaths(); }
    } else {
      var front, last := rows[..|rows| - 1], rows[|rows| - 1];
      PlanSettlesOwnedPaths(front, projects, digest);
      EitherWay(last, projects);
      var p, b, u := Proposals(front, projects, digest), BlockedPaths(front, projects), Unsettled(front);
      assert p + [] == p && b + [] == b && u + [] == u;
      OneMorePath(AliasPaths(p), PathsOf(b), u, last.path);
      if Proposes(last, projects) { OneMoreAlias(p, last, digest); }
      if Blocks(last, projects) { OneMoreBlocked(b, BlockOf(last)); }
    }
  }

  lemma NoPaths()
    ensures AliasPaths([]) == [] && PathsOf([]) == []
  {
  }

  lemma OneMorePath(a: seq<string>, b: seq<string>, u: seq<string>, x: string)
    requires multiset(a) + multiset(b) == multiset(u)
    ensures multiset(a + [x]) + multiset(b) == multiset(u + [x]) == multiset(a) + multiset(b + [x])
  {
  }

  lemma EitherWay(row: Row, projects: set<string>)
    ensures NeedsSettling(row) <==> Proposes(row, projects) || Blocks(row, projects)
    ensures !(Proposes(row, projects) && Blocks(row, projects))
    ensures Proposes(row, projects) ==> row.target.Some?
  {
  }

  lemma OneMoreAlias(entries: seq<Entry>, row: Row, digest: Digest)
    requires row.target.Some?
    ensures AliasPaths(entries + [Propose(row, row.target.value, digest)]) == AliasPaths(entries) + [row.path]
  {
  }

  lemma OneMoreBlocked(blocked: seq<Blocked>, b: Blocked)
    ensures PathsOf(blocked + [b]) == PathsOf(blocked) + [b.path]
  {
  }

  datatype Summary = Summary(observed: nat, exact: nat, moved: nat, missing: nat, ambiguous: nat, nonPath: nat)

  function CountOf(rows: seq<Row>, c: Class): nat {
    if rows == [] then 0 else CountOf(rows[..|rows| - 1], c) + if rows[|rows| - 1].class_ == c then 1 else 0
  }

  lemma {:induction false} CountExactly(rows: seq<Row>, c: Class) returns (of: set<int>)
    ensures CountOf(rows, c) == |of| && forall i :: i in of <==> 0 <= i < |rows| && rows[i].class_ == c
  {
    if rows == [] {
      of := {};
    } else {
      var n := |rows| - 1;
      var front := CountExactly(rows[..n], c);
      assert forall i :: 0 <= i < n ==> rows[i] == rows[..n][i];
      of := if rows[n].class_ == c then front + {n} else front;
    }
  }

  /** `summarize`, without the two sizes it is handed. */
  method Summarize(rows: seq<Row>) returns (s: Summary)
    ensures s == Summary(|rows|, CountOf(rows, Exact), CountOf(rows, Moved), CountOf(rows, Missing),
      CountOf(rows, Ambiguous), CountOf(rows, NonPath))
    ensures s.exact + s.moved + s.missing + s.ambiguous + s.nonPath == s.observed
  {
    s := Summary(|rows|, 0, 0, 0, 0, 0);
    for i := 0 to |rows|
      invariant s == Summary(|rows|, CountOf(rows[..i], Exact), CountOf(rows[..i], Moved), CountOf(rows[..i], Missing),
                             CountOf(rows[..i], Ambiguous), CountOf(rows[..i], NonPath))
      invariant s.exact + s.moved + s.missing + s.ambiguous + s.nonPath == i
    {
      assert rows[..i + 1][..i] == rows[..i];
      match rows[i].class_ {
        case Exact => s := s.(exact := s.exact + 1);
        case Moved => s := s.(moved := s.moved + 1);
        case Missing => s := s.(missing := s.missing + 1);
        case Ambiguous => s := s.(ambiguous := s.ambiguous + 1);
        case NonPath => s := s.(nonPath := s.nonPath + 1);
      }
    }
    assert rows[..|rows|] == rows;
  }

  // ---------------------------------------------------------------- the planner meets the registry

  /** A resolver answers with absolute roots that exist and are their own roots. */
  ghost predicate GoodResolver(w: World) {
    forall p :: w.resolve(p).exists_ ==> w.resolve(p).root.Some? && IsRoot(w, w.resolve(p).root.value)
  }

  predicate IsRoot(w: World, t: string) { IsAbsolute(t) && w.resolve(t).exists_ && w.resolve(t).root == Some(t) }

  predicate AscendingPaths(all: seq<Observed>) { forall i, j :: 0 <= i < j < |all| ==> Less(all[i].path, all[j].path) }

  /** What loading from the database guarantees: a project surface comes from a project
      row, remotes are never empty, commit counts fit the machine. */
  predicate LoadedFrom(all: seq<Observed>, projects: seq<Project>) {
    forall i :: 0 <= i < |all| ==>
      && (IsProject(all[i]) ==> exists k :: 0 <= k < |projects| && projects[k].path == all[i].path)
      && "" !in all[i].remotes && |all[i].commits| <= U64_MAX
  }

  predicate IsProject(o: Observed) { exists k :: 0 <= k < |o.surfaces| && IsProjectSurface(o.surfaces[k]) }

  lemma CandidateIsRoot(w: World, data: Observed, all: seq<Observed>, t: string)
    requires GoodResolver(w) && t in Candidates(w, data, all)
    ensures IsRoot(w, t)
  {
    var i :| 0 <= i < |all| && IsCandidate(w, data, all[i]) && t == TargetOf(w, all[i].path);
    assert LiveOf(w, all[i].path).exists_;
  }

  /** A moved path is absolute and leads to a root other than itself. */
  lemma MovedLeadsToRoot(w: World, data: Observed, all: seq<Observed>)
    requires GoodResolver(w)
    ensures var row := Classify(w, data, all);
      row.class_.Moved? ==>
        IsAbsolute(data.path) && row.target.Some? && IsRoot(w, row.target.value) && row.target.value != data.path
  {
    hide Candidates, MostShared, TargetRemote;
    if IsAbsolute(data.path) && !w.resolve(data.path).exists_ {
      forall t | t in Candidates(w, data, all) ensures IsRoot(w, t) { CandidateIsRoot(w, data, all, t); }
    }
  }

  lemma RootIsNotMoved(w: World, data: Observed, all: seq<Observed>)
    requires IsRoot(w, data.path)
    ensures !Classify(w, data, all).class_.Moved?
  {
  }

  lemma {:induction false} SharedIsBounded(w: World, data: Observed, all: seq<Observed>)
    ensures MostShared(w, data, all) <= |data.commits|
  {
    if all != [] {
      var last := all[|all| - 1];
      SharedIsBounded(w, data, all[..|all| - 1]);
      SubsetSize(data.commits * last.commits, data.commits);
      SubsetSize(HeldBy(w, data, last), data.commits);
    }
  }

  lemma {:induction false} SubsetSize(a: set<string>, b: set<string>)
    requires a <= b
    ensures |a| <= |b|
  {
    if a != {} {
      var x :| x in a;
      SubsetSize(a - {x}, b - {x});
    }
  }

  lemma ClassifiedShared(w: World, data: Observed, all: seq<Observed>)
    ensures Classify(w, data, all).shared <= |data.commits|
  {
    SharedIsBounded(w, data, all);
    hide MostShared, Candidates, TargetRemote;
  }

  lemma PayloadSupportsKind(row: Row, target: string)
    requires "" !in row.remotes && row.shared <= U64_MAX
    ensures Supports(KindOf(row), PayloadOf(row, target))
  {
    DecimalRoundTrip(row.shared);
    assert Decimal(row.shared)[0] != '+' by { assert AllDigits(Decimal(row.shared)); }
    var fields := PayloadOf(row, target).fields;
    assert fields["shared_commit_count"] == Number(Decimal(row.shared));
    assert fields["canonicalized"] == Bool(KindOf(row).FilesystemCanonicalization?);
    assert fields["target_remote"] == if row.targetRemote.Some? then Str(row.targetRemote.value) else Null;
  }

  /** A proposal passes the applier's validation if and only if its target is the project of
      one workspace alone. */
  lemma ProposalIsValid(w: World, data: Observed, all: seq<Observed>, r: Registry, digest: Digest)
    requires GoodResolver(w) && GoodDigest(digest)
    requires "" !in data.remotes && |data.commits| <= U64_MAX
    requires var row := Classify(w, data, all);
      row.class_.Moved? && row.target.Some?
      && exists k :: 0 <= k < |r.projects| && r.projects[k].path == row.target.value
    ensures var row := Classify(w, data, all);
      EntryIsValid(r, Propose(row, row.target.value, digest), digest) <==> RowsAt(r, row.target.value) == 1
  {
    hide Classify, KindOf, Supports, PayloadOf, IdsAt;
    var row := Classify(w, data, all);
    var t := row.target.value;
    MovedLeadsToRoot(w, data, all);
    ClassifiedShared(w, data, all);
    ClassifyKeepsPath(w, data, all);
    var k :| 0 <= k < |r.projects| && r.projects[k].path == t;
    IdListed(r.projects, k);
    PayloadSupportsKind(row, t);
    PayloadNamesPaths(row, t);
    assert IsDigest(digest(PayloadOf(row, t)));
  }

  lemma PayloadNamesPaths(row: Row, target: string)
    ensures var payload := PayloadOf(row, target);
      && payload.Object? && Field(payload, "from_path") == Some(Str(row.path))
      && Field(payload, "to_path") == Some(Str(target))
      && Field(payload, "ownership_rows") == Some(Number(SignedDecimal(OwnershipRows(row.surfaces))))
      && Field(payload, "context_evidence_rows") == Some(Number(SignedDecimal(ContextRows(row.surfaces))))
  {
    var fields := PayloadOf(row, target).fields;
    assert fields["from_path"] == Str(row.path) && fields["to_path"] == Str(target);
    assert fields["ownership_rows"] == Number(SignedDecimal(OwnershipRows(row.surfaces)));
    assert fields["context_evidence_rows"] == Number(SignedDecimal(ContextRows(row.surfaces)));
  }

  /** What a moved path is proposed on: a commit where one leads from a missing path; else
      the remote where the one at its target is stored; else its place in the file system. */
  lemma KindExactly(w: World, data: Observed, all: seq<Observed>)
    requires Classify(w, data, all).class_ == Moved
    ensures var row := Classify(w, data, all);
      && (KindOf(row) == GitCommitMembership <==> !w.resolve(data.path).exists_ && SomeByCommit(w, data, all))
      && (KindOf(row) == GitRemote
          <==> KindOf(row) != GitCommitMembership
               && exists remote :: remote in data.remotes && row.targetRemote == Some(remote))
  {
    hide Classify, SomeByCommit, PlacesMissing, PlacesLive, FirstRemote;
    RowsExplain(w, data, all);
    PlacedBy(w, data, all, Classify(w, data, all));
  }

  lemma PlacedBy(w: World, data: Observed, all: seq<Observed>, row: Row)
    ensures PlacesLive(w.resolve(data.path), data, row) ==> row.shared == 0
    ensures PlacesMissing(w, data, all, row) ==> MostVouched(w, data, all, row.shared)
    ensures MostVouched(w, data, all, row.shared) ==> (row.shared > 0 <==> SomeByCommit(w, data, all))
  {
    hide SomeByCommit, MostVouched, OnlyRoot, NoRoot, TwoRoots, TwoByRemote;
    if MostVouched(w, data, all, row.shared) { VouchedMeansLed(w, data, all, row.shared); }
  }

  /** The same root answers with the same remote. */
  ghost predicate OneRemotePerRoot(w: World) {
    forall p, q ::
      w.resolve(p).root.Some? && w.resolve(p).root == w.resolve(q).root ==> w.resolve(p).remote == w.resolve(q).remote
  }

  /** A path that is not there is never proposed on its place in the file system: git, by a
      commit or a remote, vouches for where it went. */
  lemma MissingNeedsGit(w: World, data: Observed, all: seq<Observed>)
    requires GoodResolver(w) && OneRemotePerRoot(w)
    requires Classify(w, data, all).class_ == Moved && !w.resolve(data.path).exists_
    ensures KindOf(Classify(w, data, all)) != FilesystemCanonicalization
  {
    hide Classify, SomeByCommit, KindOf, MostVouched, NoRoot, TwoRoots, TwoByRemote;
    var row := Classify(w, data, all);
    RowsExplain(w, data, all);
    KindExactly(w, data, all);
    MovedLeadsToRoot(w, data, all);
    var t := row.target.value;
    assert OnlyRoot(w, data, all, t);
    if KindOf(row) != GitCommitMembership {
      LedMeansSome(w, data, all, t);
      RemoteAtTarget(w, data, all, t, row.targetRemote);
    }
  }

  lemma LedMeansSome(w: World, data: Observed, all: seq<Observed>, t: string)
    ensures LedByCommit(w, data, all, t) ==> SomeByCommit(w, data, all)
  {
  }

  lemma RemoteAtTarget(w: World, data: Observed, all: seq<Observed>, t: string, remote: Option<string>)
    requires GoodResolver(w) && OneRemotePerRoot(w)
    requires LedByRemote(w, data, all, t) && FirstRemote(w, all, Some(t), remote)
    ensures exists r :: r in data.remotes && remote == Some(r)
  {
    var i :| 0 <= i < |all| && RemoteLeadsTo(w, data, all[i], t);
    assert HasRoot(w, all[i], t);
    var k :| 0 <= k < |all| && HasRoot(w, all[k], t) && remote == w.resolve(all[k].path).remote;
    assert w.resolve(all[i].path).remote == w.resolve(all[k].path).remote;
  }

  lemma ClassifyKeepsPath(w: World, data: Observed, all: seq<Observed>)
    ensures Classify(w, data, all).path == data.path && Classify(w, data, all).remotes == data.remotes
    ensures Classify(w, data, all).surfaces == data.surfaces
  {
  }

  ghost predicate RowsOf(w: World, all: seq<Observed>, rows: seq<Row>) {
    |rows| == |all| && forall i :: 0 <= i < |all| ==> rows[i] == Classify(w, all[i], all)
  }

  /** Where each proposal comes from; proposals keep the order of the rows. */
  lemma {:induction false} ProposalSource(rows: seq<Row>, projects: set<string>, digest: Digest, k: nat)
      returns (i: nat)
    requires k < |Proposals(rows, projects, digest)|
    ensures i < |rows| && Proposes(rows[i], projects)
    ensures Proposals(rows, projects, digest)[k] == Propose(rows[i], rows[i].target.value, digest)
    ensures k == |Proposals(rows[..i], projects, digest)|
  {
    var n := |rows| - 1;
    var front := Proposals(rows[..n], projects, digest);
    if k < |front| {
      i := ProposalSource(rows[..n], projects, digest, k);
      assert rows[..n][..i] == rows[..i];
    } else {
      i := n;
    }
  }

  lemma ProposalsDistinct(rows: seq<Row>, projects: set<string>, digest: Digest, k: nat, l: nat)
    requires k < l < |Proposals(rows, projects, digest)|
    requires forall i, j :: 0 <= i < j < |rows| ==> rows[i].path != rows[j].path
    ensures Proposals(rows, projects, digest)[k].alias_ != Proposals(rows, projects, digest)[l].alias_
  {
    var i := ProposalSource(rows, projects, digest, k);
    var j := ProposalSource(rows, projects, digest, l);
    assert i != j;
  }

  /** What is known about each proposal. */
  lemma ProposalFacts(w: World, all: seq<Observed>, rows: seq<Row>, r: Registry, digest: Digest, k: nat)
      returns (i: nat)
    requires GoodResolver(w) && GoodDigest(digest) && LoadedFrom(all, r.projects) && RowsOf(w, all, rows)
    requires k < |Proposals(rows, ProjectPaths(rows), digest)|
    ensures var e := Proposals(rows, ProjectPaths(rows), digest)[k];
      && i < |all| && e.alias_ == all[i].path && rows[i].class_.Moved?
      && IsRoot(w, e.canonical) && (EntryIsValid(r, e, digest) <==> RowsAt(r, e.canonical) == 1)
  {
    i := ProposalSource(rows, ProjectPaths(rows), digest, k);
    var row := rows[i];
    assert row == Classify(w, all[i], all);
    MovedLeadsToRoot(w, all[i], all);
    ClassifyKeepsPath(w, all[i], all);
    var t := row.target.value;
    var m :| 0 <= m < |rows| && IsProjectRow(rows[m]) && rows[m].path == t;
    assert rows[m] == Classify(w, all[m], all);
    ClassifyKeepsPath(w, all[m], all);
    hide Classify, EntryIsValid, Propose;
    assert IsProject(all[m]);
    ProposalIsValid(w, all[i], all, r, digest);
    ProposeFields(row, t, digest);
  }

  lemma ProposeFields(row: Row, t: string, digest: Digest)
    ensures Propose(row, t, digest).alias_ == row.path && Propose(row, t, digest).canonical == t
  {
  }

  lemma {:induction false} AllInsert(r: Registry, entries: seq<Entry>, c: Counts, digest: Digest)
    requires forall i :: 0 <= i < |entries| ==> EntryIsValid(r, entries[i], digest)
    requires forall p :: ActiveTarget(r, p).None?
    ensures PreviewEntries(r, entries, c, digest) == Ok(c.(inserted := c.inserted + |entries|))
    decreases |entries|
  {
    hide EntryIsValid, ExactProjectId;
    if entries != [] {
      assert EntryIsValid(r, entries[0], digest);
      AllInsert(r, entries[1..], c.(inserted := c.inserted + 1), digest);
    }
  }

  lemma ProposalsArePlain(w: World, all: seq<Observed>, rows: seq<Row>, r: Registry, digest: Digest)
    requires GoodResolver(w) && GoodDigest(digest) && LoadedFrom(all, r.projects) && RowsOf(w, all, rows)
    requires AscendingPaths(all)
    ensures PlainPlan(Proposals(rows, ProjectPaths(rows), digest))
  {
    hide Classify, EntryIsValid, LoadedFrom;
    var plan := Proposals(rows, ProjectPaths(rows), digest);
    forall i, j | 0 <= i < j < |rows| ensures rows[i].path != rows[j].path {
      ClassifyKeepsPath(w, all[i], all);
      ClassifyKeepsPath(w, all[j], all);
      assert Less(all[i].path, all[j].path);
      LessIrreflexive(all[i].path);
    }
    forall i, j | 0 <= j < i < |plan| ensures plan[i].alias_ != plan[j].alias_ {
      ProposalsDistinct(rows, ProjectPaths(rows), digest, j, i);
    }
    forall i, j | 0 <= i < |plan| && 0 <= j < |plan| ensures plan[i].canonical != plan[j].alias_ {
      var a := ProposalFacts(w, all, rows, r, digest, i);
      var b := ProposalFacts(w, all, rows, r, digest, j);
      if plan[i].canonical == plan[j].alias_ { RootIsNotMoved(w, all[b], all); }
    }
  }

  lemma {:induction false} InvalidIsRefused(r: Registry, entries: seq<Entry>, c: Counts, digest: Digest, k: nat)
    requires k < |entries| && !EntryIsValid(r, entries[k], digest)
    ensures PreviewEntries(r, entries, c, digest).Err?
    decreases |entries|
  {
    hide EntryIsValid, ExactProjectId;
    if k == 0 {
      assert Judge(r, entries[0], digest).Refused?;
    } else {
      InvalidIsRefused(r, entries[1..], c.(inserted := c.inserted + 1), digest, k - 1);
      InvalidIsRefused(r, entries[1..], c.(kept := c.kept + 1), digest, k - 1);
    }
  }

  /** No target of the plan is a project in two workspaces. */
  predicate TargetsAreOne(r: Registry, entries: seq<Entry>) {
    forall k :: 0 <= k < |entries| ==> RowsAt(r, entries[k].canonical) == 1
  }

  /** What the planner emits, the applier accepts: with a good resolver and no active alias,
      the whole plan applies, inserting every proposal, if and only if no target is a
      project in two workspaces. And then every path that resolves does so for good, and
      it and its canonical path filter by the same values. */
  lemma PlannerOutputIsAccepted(w: World, all: seq<Observed>, rows: seq<Row>, r: Registry, q: Request, digest: Digest)
    requires GoodResolver(w) && GoodDigest(digest) && UniqueIds(r.projects) && LoadedFrom(all, r.projects)
      && RowsOf(w, all, rows)
    requires AscendingPaths(all) && forall p :: ActiveTarget(r, p).None?
    requires HeaderIsValid(q) && q.entries == Proposals(rows, ProjectPaths(rows), digest)
    ensures ApplyPlan(r, q, digest).Ok? <==> TargetsAreOne(r, q.entries)
    ensures ApplyPlan(r, q, digest).Ok? ==>
      var (s, counts) := ApplyPlan(r, q, digest).value;
      && counts == Counts(|q.entries|, 0) && ChainFree(s)
      && forall path ::
           && (Resolve(s, path).Ok? <==> ActiveTarget(s, path).Some? || RowsAt(s, path) <= 1)
           && (Resolve(s, path).Ok? ==> Settles(s, path))
  {
    hide Classify, EntryIsValid, LoadedFrom, ApplyEntries, PreviewEntries, ChainFree, Proposals, ExactProjectId,
      Resolve, Settles, RowsAt;
    forall k | 0 <= k < |q.entries|
      ensures EntryIsValid(r, q.entries[k], digest) <==> RowsAt(r, q.entries[k].canonical) == 1
    {
      var i := ProposalFacts(w, all, rows, r, digest, k);
    }
    ProposalsArePlain(w, all, rows, r, digest);
    PlainPlansAreIndependent(r, q.entries);
    PreviewPredictsApply(r, q, digest);
    if TargetsAreOne(r, q.entries) {
      AllInsert(r, q.entries, Counts(0, 0), digest);
      PlainPlanSettles(r, q, digest);
    } else {
      var k :| 0 <= k < |q.entries| && RowsAt(r, q.entries[k].canonical) != 1;
      InvalidIsRefused(r, q.entries, Counts(0, 0), digest, k);
    }
  }

  lemma PlainPlanSettles(r: Registry, q: Request, digest: Digest)
    requires UniqueIds(r.projects) && PlainPlan(q.entries) && forall p :: ActiveTarget(r, p).None?
    requires ApplyPlan(r, q, digest).Ok?
    ensures var s := ApplyPlan(r, q, digest).value.0;
      && ChainFree(s)
      && forall path ::
           && (Resolve(s, path).Ok? <==> ActiveTarget(s, path).Some? || RowsAt(s, path) <= 1)
           && (Resolve(s, path).Ok? ==> Settles(s, path))
  {
    hide EntryIsValid, ApplyEntries, ChainFree, Resolve, Settles, RowsAt;
    PlainPlanLeavesNoChains(r, q, digest);
    var s := ApplyPlan(r, q, digest).value.0;
    forall path
      ensures Resolve(s, path).Ok? <==> ActiveTarget(s, path).Some? || RowsAt(s, path) <= 1
      ensures Resolve(s, path).Ok? ==> Settles(s, path)
    {
      ResolutionIsIdempotent(s, path);
      if ActiveTarget(s, path).Some? {
        AliasHasOneRow(r, q, digest, path);
      } else {
        ResolvesToItself(s, path);
      }
    }
  }

  lemma ResolvesToItself(r: Registry, path: string)
    requires ActiveTarget(r, path).None?
    ensures Resolve(r, path).Ok? ==> Resolve(r, path).value.canonical == path
  {
    hide ExactProjectId;
  }

  /** Every alias is of the plan, and leads to a project of one workspace. */
  lemma AliasHasOneRow(r: Registry, q: Request, digest: Digest, path: string)
    requires UniqueIds(r.projects) && ApplyPlan(r, q, digest).Ok? && forall p :: ActiveTarget(r, p).None?
    requires ActiveTarget(ApplyPlan(r, q, digest).value.0, path).Some?
    ensures var s := ApplyPlan(r, q, digest).value.0;
      Resolve(s, path).Ok? && RowsAt(s, Resolve(s, path).value.canonical) <= 1
  {
    hide EntryIsValid, ApplyEntries;
    AfterApply(r, q, q.entries, Counts(0, 0), digest);
    var s := ApplyPlan(r, q, digest).value.0;
    var i :| 0 <= i < |q.entries| && q.entries[i].alias_ == path;
    var e := q.entries[i];
    assert Landed(r, s, e, digest);
    EntryTarget(r, s, e, digest);
  }

  lemma PlainPlanLeavesNoChains(r: Registry, q: Request, digest: Digest)
    requires UniqueIds(r.projects) && PlainPlan(q.entries) && forall p :: ActiveTarget(r, p).None?
    requires ApplyPlan(r, q, digest).Ok?
    ensures var s := ApplyPlan(r, q, digest).value.0; s.projects == r.projects && ChainFree(s)
  {
    hide EntryIsValid, ApplyEntries;
    AfterApply(r, q, q.entries, Counts(0, 0), digest);
    var s := ApplyPlan(r, q, digest).value.0;
    forall p | p in s.aliases && s.aliases[p].active
      ensures PathOf(s.projects, s.aliases[p].target).Some?
        && ActiveTarget(s, PathOf(s.projects, s.aliases[p].target).value).None?
    {
      assert ActiveTarget(s, p).Some? && ActiveTarget(r, p).None?;
      var i :| 0 <= i < |q.entries| && q.entries[i].alias_ == p;
      var e := q.entries[i];
      assert Landed(r, s, e, digest);
      EntryTarget(r, s, e, digest);
      assert ActiveTarget(r, e.canonical).None?;
    }
  }
}
