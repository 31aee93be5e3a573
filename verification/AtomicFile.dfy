/** The crash-atomic file write of src/atomic_file.rs (Unix), step by step on a disk whose
    every operation may succeed, fail, or be the last. */
module AtomicFile {
  import opened Wrappers
  import opened CrashDisk

  const MAX_HOPS := 32

  const ATTEMPTS := 16

  // ---------------------------------------------------------------- paths

  function FileName(p: Path): string
    requires p != []
  {
    p[|p| - 1]
  }

  predicate HasFileName(p: Path) { p != [] && FileName(p) != ".." }

  function TempName(name: string, suffix: string): string { "." + name + ".tmp." + suffix }

  function TempPath(p: Path, suffix: string): Path
    requires p != []
  {
    Parent(p) + [TempName(FileName(p), suffix)]
  }

  function JoinTarget(current: Path, target: Target): Path {
    if target.absolute then target.names else Parent(current) + target.names
  }

  /** Following symbolic links, at most `hops` looks. */
  function Follow(e: Entries, path: Path, hops: nat): Option<Path>
    decreases hops
  {
    if hops == 0 then None
    else if path in e && e[path].Link? then Follow(e, JoinTarget(path, e[path].target), hops - 1)
    else Some(path)
  }

  lemma {:induction false} FollowedIsNoLink(e: Entries, path: Path, hops: nat)
    requires Follow(e, path, hops).Some?
    ensures var p := Follow(e, path, hops).value; p in e ==> !e[p].Link?
    decreases hops
  {
    if path in e && e[path].Link? { FollowedIsNoLink(e, JoinTarget(path, e[path].target), hops - 1); }
  }

  /** A link leads to its target: an absolute one as it stands, a relative one from the
      directory the link is in. */
  ghost predicate LeadsTo(e: Entries, from: Path, to: Path) {
    && from in e && e[from].Link?
    && if e[from].target.absolute then to == e[from].target.names
       else exists dir, name :: from == dir + [name] && to == dir + e[from].target.names
  }

  /** Paths each of which leads to the next, up to one that is no link. */
  ghost predicate IsChain(e: Entries, chain: seq<Path>, path: Path, last: Path) {
    && chain != [] && chain[0] == path && chain[|chain| - 1] == last && !(last in e && e[last].Link?)
    && forall i :: 0 <= i < |chain| - 1 ==> LeadsTo(e, chain[i], chain[i + 1])
  }

  lemma LeadsExactly(e: Entries, from: Path, to: Path)
    requires [] !in e
    ensures LeadsTo(e, from, to) <==> from in e && e[from].Link? && to == JoinTarget(from, e[from].target)
  {
    if from != [] { assert from == Parent(from) + [from[|from| - 1]]; }
    forall dir, name | from == dir + [name] ensures dir == Parent(from) { assert from[..|from| - 1] == dir; }
  }

  lemma {:induction false} ChainOf(e: Entries, path: Path, hops: nat) returns (chain: seq<Path>)
    requires [] !in e && Follow(e, path, hops).Some?
    ensures |chain| <= hops && IsChain(e, chain, path, Follow(e, path, hops).value)
    decreases hops
  {
    hide LeadsTo, JoinTarget;
    if path in e && e[path].Link? {
      var next := JoinTarget(path, e[path].target);
      LeadsExactly(e, path, next);
      var rest := ChainOf(e, next, hops - 1);
      chain := [path] + rest;
      assert forall i :: 0 < i < |chain| - 1 ==> chain[i] == rest[i - 1] && chain[i + 1] == rest[i];
    } else {
      chain := [path];
    }
  }

  lemma {:induction false} ChainFollowed(e: Entries, path: Path, hops: nat, chain: seq<Path>, last: Path)
    requires [] !in e && |chain| <= hops && IsChain(e, chain, path, last)
    ensures Follow(e, path, hops) == Some(last)
    decreases hops
  {
    hide LeadsTo, JoinTarget;
    if |chain| > 1 {
      LeadsExactly(e, path, chain[1]);
      assert LeadsTo(e, chain[0], chain[1]);
      var rest := chain[1..];
      forall i | 0 <= i < |rest| - 1 ensures LeadsTo(e, rest[i], rest[i + 1]) {
        assert rest[i] == chain[i + 1] && rest[i + 1] == chain[i + 2];
      }
      ChainFollowed(e, chain[1], hops - 1, rest, last);
    }
  }

  /** The path found ends the chain of links from the path asked for; none is found where
      the chain is longer than thirty-two paths. */
  lemma FollowsExactly(e: Entries, path: Path, last: Path)
    requires [] !in e
    ensures Follow(e, path, MAX_HOPS) == Some(last) <==> exists chain :: |chain| <= 32 && IsChain(e, chain, path, last)
  {
    hide Follow, IsChain;
    if Follow(e, path, MAX_HOPS) == Some(last) { var chain := ChainOf(e, path, MAX_HOPS); }
    forall chain | |chain| <= 32 && IsChain(e, chain, path, last) ensures Follow(e, path, MAX_HOPS) == Some(last) {
      ChainFollowed(e, path, MAX_HOPS, chain, last);
    }
  }

  // ---------------------------------------------------------------- the disk

  /** What becomes of one operation; a write that breaks off has written `done` bytes. */
  datatype Fate = Works | Breaks(done: nat) | Dies(done: nat)

  /** `script` is what happens to the coming operations, all well once it is used up. */
  class Disk {
    var store: Store
    var script: seq<Fate>

    constructor (store: Store, script: seq<Fate>)
      ensures this.store == store && this.script == script
    {
      this.store := store;
      this.script := script;
    }

    method NextFate() returns (f: Fate)
      modifies this`script
      ensures old(script) == [] ==> f.Works? && script == []
    {
      if script == [] {
        f := Works;
      } else {
        f := script[0];
        script := script[1..];
      }
    }
  }

  /** `Unsynced` is the error of the last step alone; `Died` is a crash on the way. */
  datatype Outcome = Written | Unsynced | Failed | Died

  datatype Step = Done | Refused | Crashed

  // ---------------------------------------------------------------- what the write touches

  /** A directory on the way to the target that is not there yet. */
  predicate Made(s0: Store, target: Path, p: Path) { 0 < |p| < |target| && p == target[..|p|] && p !in Listing(s0) }

  /** The names the write may leave changed besides its target: unused temporary names. */
  predicate Spare(s0: Store, target: Path, suffixes: seq<string>, p: Path) {
    target != [] && p !in Listing(s0) && exists k :: 0 <= k < |suffixes| && p == TempPath(target, suffixes[k])
  }

  /** The changes the write makes; the rename comes with `moved`. */
  predicate Ours(s0: Store, target: Path, temp: Option<string>, inode: nat, moved: bool, c: Change)
    requires target != []
  {
    || (c.Put? && c.node.Dir? && Made(s0, target, c.dir + [c.name]))
    || (temp.Some? && c.dir == Parent(target)
        && (|| c == Put(c.dir, temp.value, File(inode)) || c == Drop(c.dir, temp.value)
            || (moved && c == Move(c.dir, temp.value, FileName(target), File(inode)))))
  }

  function Extra(s0: Store, s: Store): seq<Change>
    requires |s0.pending| <= |s.pending|
  {
    s.pending[|s0.pending|..]
  }

  /** Nothing was synced and only ours was added to what was there; after the rename the
      new bytes are safe and the old target was no directory. */
  ghost predicate Beside(s0: Store, s: Store, target: Path, temp: Option<string>, inode: nat, moved: bool,
          contents: Bytes)
  {
    && target != [] && s0.pending <= s.pending && s.durable == s0.durable
    && (forall c :: c in Extra(s0, s) ==> Ours(s0, target, temp, inode, moved, c))
    && s0.next <= s.next && s0.next <= inode
    && (forall i: nat :: i < s0.next ==> (i in s.synced <==> i in s0.synced) && BytesNow(s, i) == BytesNow(s0, i))
    && (forall i :: i in s.synced ==> i < s.next)
    && (temp.Some? ==>
          temp.value != FileName(target) && Parent(target) + [temp.value] !in Listing(s0) && inode < s.next)
    && (moved ==> temp.Some? && inode in s.synced && BytesNow(s, inode) == contents && !IsDir(Listing(s0), target))
  }

  /** `keep0` is a crash before the write that explains this one after it: every path but
      the write's own shows the same, the target shows the same or the new contents, and a
      directory that was made is there or is not. */
  ghost predicate Explains(s0: Store, keep0: seq<bool>, s: Store, keep: seq<bool>, lost: nat -> Bytes, target: Path,
                           suffixes: seq<string>, contents: Bytes) {
    && Possible(s0, keep0) && Possible(s, keep)
    && (forall p :: p != target && !Made(s0, target, p) && !Spare(s0, target, suffixes, p) ==>
          AfterCrash(s, keep, lost, p) == AfterCrash(s0, keep0, lost, p))
    && AfterCrash(s, keep, lost, target) in {AfterCrash(s0, keep0, lost, target), Contents(contents)}
    && (forall p :: Made(s0, target, p) ==>
          AfterCrash(s, keep, lost, p) in {AfterCrash(s0, keep0, lost, p), IsDirectory})
  }

  ghost predicate Explained(s0: Store, s: Store, keep: seq<bool>, lost: nat -> Bytes, target: Path,
          suffixes: seq<string>, contents: Bytes)
  {
    exists keep0 :: Explains(s0, keep0, s, keep, lost, target, suffixes, contents)
  }

  ghost predicate ExplainedAsOld(s0: Store, s: Store, keep: seq<bool>, lost: nat -> Bytes, target: Path,
          suffixes: seq<string>, contents: Bytes)
  {
    exists keep0 :: Explains(s0, keep0, s, keep, lost, target, suffixes, contents)
                    && AfterCrash(s, keep, lost, target) == AfterCrash(s0, keep0, lost, target)
  }

  /** With no temporary name left. */
  ghost predicate ExplainedAsNew(s0: Store, s: Store, keep: seq<bool>, lost: nat -> Bytes, target: Path,
          contents: Bytes)
  {
    exists keep0 :: Explains(s0, keep0, s, keep, lost, target, [], contents)
                    && AfterCrash(s, keep, lost, target)
                       == if Reached(Survives(s, keep), target) then Contents(contents) else Absent
  }

  /** Crashing now is like crashing before, but for the target, whole, old or new. */
  ghost predicate CrashSafe(s0: Store, s: Store, target: Path, suffixes: seq<string>, contents: Bytes) {
    forall keep, lost :: Possible(s, keep) ==> Explained(s0, s, keep, lost, target, suffixes, contents)
  }

  /** The same, and the target is old. */
  ghost predicate Untouched(s0: Store, s: Store, target: Path, suffixes: seq<string>, contents: Bytes) {
    && Now(s, target) == Now(s0, target)
    && forall keep, lost :: Possible(s, keep) ==> ExplainedAsOld(s0, s, keep, lost, target, suffixes, contents)
  }

  /** The same, and the target is new wherever the way to it survives. */
  ghost predicate Replaced(s0: Store, s: Store, target: Path, contents: Bytes) {
    && Now(s, target) == Contents(contents)
    && forall keep, lost :: Possible(s, keep) ==> ExplainedAsNew(s0, s, keep, lost, target, contents)
  }

  /** The directory is there after every crash. */
  ghost predicate DurableDir(s: Store, p: Path) {
    IsDir(s.durable, p) && forall c :: c in s.pending && Names(c, p) ==> NodeAfter(c, p) == Some(Dir)
  }

  /** Every crash leaves the new contents. */
  ghost predicate IsDurable(s: Store, target: Path, contents: Bytes) {
    forall keep, lost :: Possible(s, keep) ==> ShowsNew(s, keep, lost, target, contents)
  }

  ghost predicate ShowsNew(s: Store, keep: seq<bool>, lost: nat -> Bytes, target: Path, contents: Bytes)
    requires Possible(s, keep)
  {
    AfterCrash(s, keep, lost, target) == Contents(contents)
  }

  // ---------------------------------------------------------------- names after a crash

  /** What our changes leave at a path. */
  lemma {:induction false} OursAt(s0: Store, target: Path, temp: Option<string>, inode: nat, moved: bool, e: Entries,
          cs: seq<Change>, p: Path)
    requires target != [] && (temp.Some? ==> temp.value != FileName(target))
    requires forall c :: c in cs ==> Ours(s0, target, temp, inode, moved, c)
    ensures var now := At(Replay(e, cs), p);
      || now == At(e, p) || (Made(s0, target, p) && now == Some(Dir))
        || (moved && p == target && now == Some(File(inode)))
      || (temp.Some? && p == Parent(target) + [temp.value])
  {
    hide Changed, Names, NodeAfter, Made;
    if cs != [] {
      var front, last := cs[..|cs| - 1], cs[|cs| - 1];
      OursAt(s0, target, temp, inode, moved, e, front, p);
      ChangedAt(Replay(e, front), last, p);
      if Names(last, p) { OneOfOurs(s0, target, temp, inode, moved, last, p); }
    }
  }

  lemma OneOfOurs(s0: Store, target: Path, temp: Option<string>, inode: nat, moved: bool, c: Change, p: Path)
    requires target != [] && Ours(s0, target, temp, inode, moved, c) && Names(c, p)
    ensures || (Made(s0, target, p) && NodeAfter(c, p) == Some(Dir))
      || (moved && p == target && NodeAfter(c, p) == Some(File(inode)))
            || (temp.Some? && p == Parent(target) + [temp.value])
  {
    hide Made;
    assert target == Parent(target) + [FileName(target)];
  }

  /** What survives lies in directories that are there before the write. */
  lemma SurvivorsLieInFolders(s: Store, keep: seq<bool>, p: Path)
    requires Sound(s) && Possible(s, keep) && p in Survives(s, keep)
    ensures p != [] && IsFolder(Listing(s), Parent(p)) && Allocated(s.next, Survives(s, keep)[p])
  {
    hide Changed, Replay, Names, NodeAfter, IsFolder;
    ReplayComesFrom(s.durable, Kept(s.pending, keep), p);
    if !(p in s.durable && Survives(s, keep)[p] == s.durable[p]) {
      var c :| c in Kept(s.pending, keep) && Names(c, p) && NodeAfter(c, p) == Some(Survives(s, keep)[p]);
      NamesLieIn(c, p);
      NodeOf(c, p);
    }
  }

  lemma NodeOf(c: Change, p: Path)
    requires Names(c, p) && NodeAfter(c, p).Some?
    ensures !c.Drop? && NodeAfter(c, p) == Some(c.node)
  {
  }

  /** The disk of a crash in the middle of the write, cut at where the write began. */
  lemma CrashSplits(s0: Store, s: Store, keep: seq<bool>)
    requires s0.pending <= s.pending && s.durable == s0.durable && Possible(s, keep)
    ensures Possible(s0, keep[..|s0.pending|])
    ensures Survives(s, keep)
         == Replay(Survives(s0, keep[..|s0.pending|]), Kept(Extra(s0, s), keep[|s0.pending|..]))
  {
    hide Replay, Kept;
    assert s.pending == s0.pending + Extra(s0, s);
    KeptConcat(s0.pending, Extra(s0, s), keep);
    ReplayConcat(s0.durable, Kept(s0.pending, keep[..|s0.pending|]), Kept(Extra(s0, s), keep[|s0.pending|..]));
  }

  /** One path after a crash, against the crash before the write. */
  lemma PathAfter(s0: Store, s: Store, target: Path, temp: Option<string>, inode: nat, moved: bool, contents: Bytes,
          keep: seq<bool>, p: Path)
    requires Beside(s0, s, target, temp, inode, moved, contents) && Possible(s, keep)
    ensures Possible(s0, keep[..|s0.pending|])
    ensures var was, now := At(Survives(s0, keep[..|s0.pending|]), p), At(Survives(s, keep), p);
      || now == was || (Made(s0, target, p) && now == Some(Dir)) || (moved && p == target && now == Some(File(inode)))
      || (temp.Some? && p == Parent(target) + [temp.value])
  {
    hide Replay, Kept, Survives, Made, Ours;
    CrashSplits(s0, s, keep);
    OursAt(s0, target, temp, inode, moved, Survives(s0, keep[..|s0.pending|]), Kept(Extra(s0, s), keep[|s0.pending|..]),
        p);
  }

  /** The way to what was there before survives as it would have. */
  lemma SameWay(s0: Store, s: Store, target: Path, temp: Option<string>, inode: nat, moved: bool, contents: Bytes,
          keep: seq<bool>, p: Path)
    requires Beside(s0, s, target, temp, inode, moved, contents) && Possible(s, keep) && Sound(s0)
    requires p in Survives(s0, keep[..|s0.pending|])
    ensures Reached(Survives(s, keep), p) <==> Reached(Survives(s0, keep[..|s0.pending|]), p)
  {
    hide Replay, Kept, Survives, Ours, Listing, Sound;
    var mid, after := Survives(s0, keep[..|s0.pending|]), Survives(s, keep);
    SurvivorsLieInFolders(s0, keep[..|s0.pending|], p);
    forall k | 0 < k < |p| ensures IsDir(after, p[..k]) <==> IsDir(mid, p[..k]) {
      FolderOnTheWay(Listing(s0), p, k);
      PathAfter(s0, s, target, temp, inode, moved, contents, keep, p[..k]);
    }
  }

  lemma FolderOnTheWay(e: Entries, p: Path, k: nat)
    requires p != [] && IsFolder(e, Parent(p)) && 0 < k < |p|
    ensures IsDir(e, p[..k])
  {
    var up := Parent(p);
    assert k < |up| ==> up[..k] == p[..k];
    assert k == |up| ==> up == p[..k];
  }

  lemma SameBytes(s0: Store, s: Store, target: Path, temp: Option<string>, inode: nat, moved: bool, contents: Bytes,
          lost: nat -> Bytes, i: nat)
    requires Beside(s0, s, target, temp, inode, moved, contents) && i < s0.next
    ensures BytesLater(s, lost, i) == BytesLater(s0, lost, i)
  {
    hide Ours, Listing, BytesNow;
  }

  lemma SameLook(e0: Entries, e: Entries, b0: nat -> Bytes, b: nat -> Bytes, p: Path)
    requires At(e, p) == At(e0, p) && (p in e0 ==> (Reached(e, p) <==> Reached(e0, p)))
    requires p in e0 && e0[p].File? ==> b(e0[p].inode) == b0(e0[p].inode)
    ensures Look(e, b, p) == Look(e0, b0, p)
  {
    hide Reached;
  }

  /** A path the write left as it was shows the same. */
  lemma OldLook(s0: Store, s: Store, target: Path, temp: Option<string>, inode: nat, moved: bool, contents: Bytes,
          keep: seq<bool>, lost: nat -> Bytes, p: Path)
    requires Beside(s0, s, target, temp, inode, moved, contents) && Possible(s, keep) && Sound(s0)
    requires Possible(s0, keep[..|s0.pending|]) && At(Survives(s, keep), p) == At(Survives(s0, keep[..|s0.pending|]), p)
    ensures AfterCrash(s, keep, lost, p) == AfterCrash(s0, keep[..|s0.pending|], lost, p)
  {
    hide Replay, Kept, Survives, Ours, Listing, Reached, Look, BytesLater, Sound;
    var keep0 := keep[..|s0.pending|];
    var mid, after := Survives(s0, keep0), Survives(s, keep);
    var b0, b := (i: nat) => BytesLater(s0, lost, i), (i: nat) => BytesLater(s, lost, i);
    if p in mid {
      SurvivorsLieInFolders(s0, keep0, p);
      SameWay(s0, s, target, temp, inode, moved, contents, keep, p);
      if mid[p].File? { SameBytes(s0, s, target, temp, inode, moved, contents, lost, mid[p].inode); }
    }
    SameLook(mid, after, b0, b, p);
  }

  // ---------------------------------------------------------------- every path explained

  /** A path whose way is cut was cut off before the write too. */
  lemma CutOff(s0: Store, s: Store, target: Path, temp: Option<string>, inode: nat, moved: bool, contents: Bytes,
          keep: seq<bool>, lost: nat -> Bytes, p: Path)
    requires Beside(s0, s, target, temp, inode, moved, contents) && Possible(s, keep) && Sound(s0)
    requires p != [] && !Reached(Survives(s, keep), p)
    ensures Possible(s0, keep[..|s0.pending|])
    ensures AfterCrash(s, keep, lost, p) == Absent == AfterCrash(s0, keep[..|s0.pending|], lost, p)
  {
    hide Replay, Kept, Survives, Ours, Listing, Reached, BytesLater, Sound;
    assert s0.pending <= s.pending;
    if p in Survives(s0, keep[..|s0.pending|]) { SameWay(s0, s, target, temp, inode, moved, contents, keep, p); }
  }

  lemma PathExplained(s0: Store, s: Store, target: Path, temp: Option<string>, inode: nat, moved: bool, contents: Bytes,
          keep: seq<bool>, lost: nat -> Bytes, p: Path)
    requires Beside(s0, s, target, temp, inode, moved, contents) && Possible(s, keep) && Sound(s0)
    requires temp.Some? ==> p != Parent(target) + [temp.value]
    ensures Possible(s0, keep[..|s0.pending|])
    ensures var was, now := AfterCrash(s0, keep[..|s0.pending|], lost, p), AfterCrash(s, keep, lost, p);
      || now == was || (Made(s0, target, p) && now == IsDirectory)
        || (moved && p == target && now == Contents(contents))
  {
    hide Replay, Kept, Survives, Made, Ours, Listing, Sound, Reached, BytesLater;
    PathAfter(s0, s, target, temp, inode, moved, contents, keep, p);
    if At(Survives(s, keep), p) == At(Survives(s0, keep[..|s0.pending|]), p) {
      OldLook(s0, s, target, temp, inode, moved, contents, keep, lost, p);
    } else if p == [] {
    } else if !Reached(Survives(s, keep), p) {
      CutOff(s0, s, target, temp, inode, moved, contents, keep, lost, p);
    } else if moved && p == target {
      NewBytes(s0, s, target, temp, inode, contents, lost);
    }
  }

  lemma NewBytes(s0: Store, s: Store, target: Path, temp: Option<string>, inode: nat, contents: Bytes,
          lost: nat -> Bytes)
    requires Beside(s0, s, target, temp, inode, true, contents)
    ensures BytesLater(s, lost, inode) == contents
  {
  }

  lemma TempIsSpare(s0: Store, target: Path, suffixes: seq<string>, k: nat)
    requires target != [] && k < |suffixes| && TempPath(target, suffixes[k]) !in Listing(s0)
    ensures Spare(s0, target, suffixes, Parent(target) + [TempName(FileName(target), suffixes[k])])
    ensures TempName(FileName(target), suffixes[k]) != FileName(target)
  {
    assert |TempName(FileName(target), suffixes[k])| > |FileName(target)|;
  }

  lemma ExplainUnsynced(s0: Store, s: Store, target: Path, temp: Option<string>, inode: nat, moved: bool,
          contents: Bytes, suffixes: seq<string>, keep: seq<bool>, lost: nat -> Bytes)
    requires Beside(s0, s, target, temp, inode, moved, contents) && Possible(s, keep) && Sound(s0)
    requires temp.Some? ==> Spare(s0, target, suffixes, Parent(target) + [temp.value])
    ensures Possible(s0, keep[..|s0.pending|])
    ensures Explains(s0, keep[..|s0.pending|], s, keep, lost, target, suffixes, contents)
    ensures !moved ==> AfterCrash(s, keep, lost, target) == AfterCrash(s0, keep[..|s0.pending|], lost, target)
  {
    TargetIsApart(s0, s, target, temp, inode, moved, contents);
    hide Made, Spare, AfterCrash, Beside, Sound;
    assert Possible(s0, keep[..|s0.pending|]) by {
      PathExplained(s0, s, target, temp, inode, moved, contents, keep, lost, target);
    }
    forall p | temp.None? || p != Parent(target) + [temp.value]
      ensures var was, now := AfterCrash(s0, keep[..|s0.pending|], lost, p), AfterCrash(s, keep, lost, p);
        || now == was || (Made(s0, target, p) && now == IsDirectory)
          || (moved && p == target && now == Contents(contents))
    {
      PathExplained(s0, s, target, temp, inode, moved, contents, keep, lost, p);
    }
  }

  lemma TargetIsApart(s0: Store, s: Store, target: Path, temp: Option<string>, inode: nat, moved: bool, contents: Bytes)
    requires Beside(s0, s, target, temp, inode, moved, contents)
    ensures temp.Some? ==> target != Parent(target) + [temp.value] && !Made(s0, target, Parent(target) + [temp.value])
    ensures !Made(s0, target, target) && s0.pending <= s.pending
  {
    hide Ours;
    if temp.Some? { SamePath(Parent(target), FileName(target), Parent(target), temp.value); }
    assert target == Parent(target) + [FileName(target)];
  }

  // ---------------------------------------------------------------- after the directory is synced

  /** The renamed file stands in its directory; `s` is `t` with that directory synced. */
  ghost predicate Renamed(s0: Store, t: Store, target: Path, temp: string, inode: nat, contents: Bytes) {
    && Beside(s0, t, target, Some(temp), inode, true, contents)
    && At(Listing(t), target) == Some(File(inode)) && At(Listing(t), Parent(target) + [temp]) == None
  }

  /** A crash after the sync as one before it. */
  lemma SyncedCrash(t: Store, dir: Path, keep: seq<bool>, lost: nat -> Bytes) returns (before: seq<bool>)
    requires Possible(DoSyncDirectory(t, dir), keep)
    ensures Possible(t, before) && forall i :: 0 <= i < |before| && t.pending[i].dir == dir ==> before[i]
    ensures Survives(DoSyncDirectory(t, dir), keep) == Survives(t, before)
    ensures forall p :: AfterCrash(DoSyncDirectory(t, dir), keep, lost, p) == AfterCrash(t, before, lost, p)
  {
    hide Replay, Kept, Own, Others, Look;
    var s := DoSyncDirectory(t, dir);
    before := SyncKeepsAll(t.durable, t.pending, dir, keep);
    forall p ensures AfterCrash(s, keep, lost, p) == AfterCrash(t, before, lost, p) {
      SameLookEverywhere(Survives(t, before), (i: nat) => BytesLater(s, lost, i), (i: nat) => BytesLater(t, lost, i),
          p);
    }
  }

  lemma SameLookEverywhere(e: Entries, a: nat -> Bytes, b: nat -> Bytes, p: Path)
    requires forall i :: a(i) == b(i)
    ensures Look(e, a, p) == Look(e, b, p)
  {
  }

  lemma ExplainSynced(s0: Store, t: Store, target: Path, temp: string, inode: nat, contents: Bytes, keep: seq<bool>,
          lost: nat -> Bytes)
    requires Sound(s0) && Renamed(s0, t, target, temp, inode, contents)
      && Possible(DoSyncDirectory(t, Parent(target)), keep)
    ensures ExplainedAsNew(s0, DoSyncDirectory(t, Parent(target)), keep, lost, target, contents)
  {
    hide Replay, Kept, Own, Others, Listing, Survives, Made, Spare, AfterCrash, Sound, Ours, DoSyncDirectory;
    var dir, s := Parent(target), DoSyncDirectory(t, Parent(target));
    var before := SyncedCrash(t, dir, keep, lost);
    var keep0 := before[..|s0.pending|];
    TargetIsApart(s0, t, target, Some(temp), inode, true, contents);
    SyncedNames(s0, t, target, temp, inode, contents, before);
    OldLook(s0, t, target, Some(temp), inode, true, contents, before, lost, dir + [temp]);
    forall p ensures var was, now := AfterCrash(s0, keep0, lost, p), AfterCrash(s, keep, lost, p);
      || now == was || (Made(s0, target, p) && now == IsDirectory) || (p == target && now == Contents(contents))
    {
      if p != dir + [temp] { PathExplained(s0, t, target, Some(temp), inode, true, contents, before, lost, p); }
    }
    NewLook(s0, t, target, temp, inode, contents, before, lost);
    assert Explains(s0, keep0, s, keep, lost, target, [], contents);
  }

  /** With its whole directory kept, the target is the new file and the temporary name is
      not there. */
  lemma SyncedNames(s0: Store, t: Store, target: Path, temp: string, inode: nat, contents: Bytes, before: seq<bool>)
    requires Renamed(s0, t, target, temp, inode, contents) && Possible(t, before)
    requires forall i :: 0 <= i < |before| && t.pending[i].dir == Parent(target) ==> before[i]
    ensures Possible(s0, before[..|s0.pending|])
    ensures At(Survives(t, before), target) == Some(File(inode))
    ensures At(Survives(t, before), Parent(target) + [temp]) == None
      == At(Survives(s0, before[..|s0.pending|]), Parent(target) + [temp])
  {
    hide Replay, Kept, Ours, Names;
    var tp := Parent(target) + [temp];
    assert Parent(tp) == Parent(target);
    WholeDirectoryKept(t.durable, t.pending, before, target);
    WholeDirectoryKept(t.durable, t.pending, before, tp);
    assert forall i :: 0 <= i < |s0.pending| ==> s0.pending[i] == t.pending[i];
    WholeDirectoryKept(s0.durable, s0.pending, before[..|s0.pending|], tp);
  }

  lemma NewLook(s0: Store, t: Store, target: Path, temp: string, inode: nat, contents: Bytes, before: seq<bool>,
          lost: nat -> Bytes)
    requires Beside(s0, t, target, Some(temp), inode, true, contents) && Possible(t, before)
    requires At(Survives(t, before), target) == Some(File(inode))
    ensures AfterCrash(t, before, lost, target)
      == if Reached(Survives(t, before), target) then Contents(contents) else Absent
  {
    hide Survives, Reached, Ours, Listing;
    NewBytes(s0, t, target, Some(temp), inode, contents, lost);
  }

  // ---------------------------------------------------------------- how durable success is

  /** A directory the write did not have to make, whose own entry was safe before, is there
      after every crash. */
  lemma WayIsSafe(s0: Store, t: Store, target: Path, temp: string, inode: nat, contents: Bytes, before: seq<bool>,
          k: nat)
    requires Beside(s0, t, target, Some(temp), inode, true, contents) && Possible(t, before)
    requires 0 < k < |target| && DurableDir(s0, target[..k])
    ensures IsDir(Survives(t, before), target[..k])
  {
    hide Replay, Kept, Listing, Changed;
    var a := target[..k];
    forall c | c in Kept(t.pending, before) && Names(c, a) ensures NodeAfter(c, a) == Some(Dir) {
      assert t.pending == s0.pending + Extra(s0, t);
      NamesLieIn(c, a);
      assert c.dir != Parent(target);
    }
    StaysDir(t.durable, Kept(t.pending, before), a);
  }

  /** Where a directory on the way is not safe, some crash loses the target. */
  lemma WayCanVanish(s0: Store, t: Store, target: Path, temp: string, inode: nat, contents: Bytes, k: nat)
      returns (keep: seq<bool>)
    requires Beside(s0, t, target, Some(temp), inode, true, contents)
    requires 0 < k < |target| && !DurableDir(s0, target[..k])
    ensures Possible(DoSyncDirectory(t, Parent(target)), keep)
    ensures !IsDir(Survives(DoSyncDirectory(t, Parent(target)), keep), target[..k])
  {
    hide Replay, Kept, Listing, Changed, Ours, Own, Others;
    var s, a := DoSyncDirectory(t, Parent(target)), target[..k];
    forall c | c in Own(t.pending, Parent(target)) ensures !Names(c, a) {
      if Names(c, a) { NamesLieIn(c, a); }
    }
    ReplayElsewhere(t.durable, Own(t.pending, Parent(target)), a);
    if !IsDir(s0.durable, a) {
      keep := seq(|s.pending|, i => false);
      KeptNone(s.pending, keep);
      NothingReplayed(s.durable);
    } else {
      var c :| c in s0.pending && Names(c, a) && NodeAfter(c, a) != Some(Dir);
      NamesLieIn(c, a);
      assert c in t.pending && c.dir != Parent(target);
      var j :| 0 <= j < |s.pending| && s.pending[j] == c;
      keep := seq(|s.pending|, i => i == j);
      KeptOnly(s.pending, keep, j);
      NothingReplayed(s.durable);
      ReplayOne(s.durable, [], c);
      ChangedAt(s.durable, c, a);
      assert [] + [c] == [c];
    }
  }

  lemma NothingReplayed(e: Entries)
    ensures Replay(e, []) == e
  {
  }

  /** A successful write is durable if and only if every directory on the way was there and
      safe before it: the write syncs the target's directory and none above it. */
  lemma DurableExactly(s0: Store, t: Store, target: Path, temp: string, inode: nat, contents: Bytes)
    requires Sound(s0) && Renamed(s0, t, target, temp, inode, contents)
    ensures IsDurable(DoSyncDirectory(t, Parent(target)), target, contents)
      <==> forall k :: 0 < k < |target| ==> DurableDir(s0, target[..k])
  {
    hide Replay, Kept, Own, Others, Listing, Survives, AfterCrash, Sound, Ours, DurableDir, DoSyncDirectory;
    var s := DoSyncDirectory(t, Parent(target));
    if forall k :: 0 < k < |target| ==> DurableDir(s0, target[..k]) {
      forall keep, lost | Possible(s, keep) ensures ShowsNew(s, keep, lost, target, contents) {
        var before := SyncedCrash(t, Parent(target), keep, lost);
        SyncedNames(s0, t, target, temp, inode, contents, before);
        NewLook(s0, t, target, temp, inode, contents, before, lost);
        forall k | 0 < k < |target| ensures IsDir(Survives(t, before), target[..k]) {
          WayIsSafe(s0, t, target, temp, inode, contents, before, k);
        }
      }
    } else {
      var k :| 0 < k < |target| && !DurableDir(s0, target[..k]);
      var keep := WayCanVanish(s0, t, target, temp, inode, contents, k);
      var lost := (i: nat) => [];
      var before := SyncedCrash(t, Parent(target), keep, lost);
      SyncedNames(s0, t, target, temp, inode, contents, before);
      NewLook(s0, t, target, temp, inode, contents, before, lost);
      assert !ShowsNew(s, keep, lost, target, contents);
    }
  }

  // ---------------------------------------------------------------- what is seen at once

  /** Every path but the write's own shows what it showed. */
  ghost predicate SeenAsBefore(s0: Store, s: Store, target: Path, suffixes: seq<string>) {
    && (forall p :: p != target && !Made(s0, target, p) && !Spare(s0, target, suffixes, p) ==> Now(s, p) == Now(s0, p))
    && (forall p :: Made(s0, target, p) ==> Now(s, p) in {Now(s0, p), IsDirectory})
  }

  /** What is seen now is a crash that keeps everything. */
  lemma NowIsACrash(s0: Store, s: Store, target: Path, temp: Option<string>, inode: nat, moved: bool, contents: Bytes,
          p: Path)
    requires Beside(s0, s, target, temp, inode, moved, contents) && Sound(s0)
    ensures var keep, lost := seq(|s.pending|, i => true), (i: nat) => BytesNow(s, i);
      && Now(s, p) == AfterCrash(s, keep, lost, p)
      && |s0.pending| <= |keep| && Now(s0, p) == AfterCrash(s0, keep[..|s0.pending|], lost, p)
  {
    hide Replay, Kept, Ours, Reached, Sound, BytesNow;
    var keep, lost := seq(|s.pending|, i => true), (i: nat) => BytesNow(s, i);
    var keep0 := keep[..|s0.pending|];
    KeptAll(s.pending, keep);
    KeptAll(s0.pending, keep0);
    if p in Listing(s0) { SurvivorsLieInFolders(s0, keep0, p); }
    SameLook(Listing(s0), Listing(s0), (i: nat) => BytesNow(s0, i), (i: nat) => BytesLater(s0, lost, i), p);
  }

  lemma SeeNow(s0: Store, s: Store, target: Path, temp: Option<string>, inode: nat, moved: bool, contents: Bytes,
          suffixes: seq<string>)
    requires Beside(s0, s, target, temp, inode, moved, contents) && Sound(s0)
    requires temp.Some? ==> Spare(s0, target, suffixes, Parent(target) + [temp.value])
    ensures SeenAsBefore(s0, s, target, suffixes)
    ensures !moved ==> Now(s, target) == Now(s0, target)
  {
    hide Spare, Made, AfterCrash, Beside, Sound, Now;
    forall p
      ensures p != target && !Made(s0, target, p) && !Spare(s0, target, suffixes, p) ==> Now(s, p) == Now(s0, p)
      ensures Made(s0, target, p) ==> Now(s, p) in {Now(s0, p), IsDirectory}
      ensures !moved ==> Now(s, target) == Now(s0, target)
    {
      var keep, lost := seq(|s.pending|, i => true), (i: nat) => BytesNow(s, i);
      NowIsACrash(s0, s, target, temp, inode, moved, contents, p);
      NowIsACrash(s0, s, target, temp, inode, moved, contents, target);
      ExplainUnsynced(s0, s, target, temp, inode, moved, contents, suffixes, keep, lost);
    }
  }

  // ---------------------------------------------------------------- soundness is kept

  lemma FolderStays(e: Entries, c: Change, p: Path)
    requires IsFolder(e, p) && forall a :: Names(c, a) && IsDir(e, a) ==> NodeAfter(c, a) == Some(Dir)
    ensures IsFolder(Changed(e, c), p)
  {
    hide Changed, Names, NodeAfter;
    forall a | IsDir(e, a) ensures IsDir(Changed(e, c), a) { ChangedAt(e, c, a); }
  }

  lemma SoundStep(s: Store, s': Store, c: Change)
    requires Sound(s) && s'.durable == s.durable && s'.pending == s.pending + [c] && s.next <= s'.next
    requires forall i :: i in s'.synced ==> i < s'.next
    requires IsFolder(Listing(s), c.dir) && (!c.Drop? ==> Allocated(s'.next, c.node))
    requires forall a :: Names(c, a) && IsDir(Listing(s), a) ==> NodeAfter(c, a) == Some(Dir)
    ensures Sound(s')
  {
    hide Changed, Names, NodeAfter, IsFolder, Replay;
    ReplayOne(s.durable, s.pending, c);
    forall p | IsFolder(Listing(s), p) ensures IsFolder(Listing(s'), p) { FolderStays(Listing(s), c, p); }
  }

  lemma SoundSync(s: Store, dir: Path)
    requires Sound(s)
    ensures Sound(DoSyncDirectory(s, dir))
  {
    hide Changed, Names, NodeAfter, IsFolder, Replay, Own, Others;
    SyncShowsNothing(s, dir);
    var durable := DoSyncDirectory(s, dir).durable;
    forall p | p in durable ensures p != [] && IsFolder(Listing(s), Parent(p)) && Allocated(s.next, durable[p]) {
      ReplayComesFrom(s.durable, Own(s.pending, dir), p);
      if !(p in s.durable && durable[p] == s.durable[p]) {
        var c :| c in Own(s.pending, dir) && Names(c, p) && NodeAfter(c, p) == Some(durable[p]);
        NamesLieIn(c, p);
        NodeOf(c, p);
      }
    }
  }

  // ---------------------------------------------------------------- one operation at a time

  lemma NothingDone(s: Store, target: Path, contents: Bytes)
    requires Sound(s) && target != []
    ensures Beside(s, s, target, None, s.next, false, contents)
  {
    hide Listing, Ours;
  }

  lemma OneMore(s0: Store, s: Store, s': Store, target: Path, temp: Option<string>, inode: nat, moved: bool,
          contents: Bytes, c: Change)
    requires Beside(s0, s, target, temp, inode, moved, contents) && Ours(s0, target, temp, inode, moved, c)
    requires s' == s.(pending := s.pending + [c])
    ensures Beside(s0, s', target, temp, inode, moved, contents)
  {
    hide Ours, Listing;
    assert Extra(s0, s') == Extra(s0, s) + [c];
  }

  lemma MakeOne(s0: Store, s: Store, target: Path, contents: Bytes, k: nat)
    requires Sound(s0) && Sound(s) && Beside(s0, s, target, None, s0.next, false, contents) && k + 1 < |target|
    requires target[..k + 1] !in Listing(s) && IsFolder(Listing(s), target[..k])
    ensures var s' := DoPut(s, target[..k], target[k], Dir);
      Sound(s') && Beside(s0, s', target, None, s0.next, false, contents) && IsFolder(Listing(s'), target[..k + 1])
  {
    var c, s' := Put(target[..k], target[k], Dir), DoPut(s, target[..k], target[k], Dir);
    assert target[..k] + [target[k]] == target[..k + 1];
    hide Replay, Kept, Reached, Changed;
    NotMadeYet(s0, s, target, contents, target[..k + 1]);
    OneMore(s0, s, s', target, None, s0.next, false, contents, c);
    SoundStep(s, s', c);
    ReplayOne(s.durable, s.pending, c);
    ChangedAt(Listing(s), c, target[..k + 1]);
    FolderStays(Listing(s), c, target[..k]);
    NowFolder(Listing(s'), target[..k], target[k]);
  }

  lemma NowFolder(e: Entries, dir: Path, name: string)
    requires IsFolder(e, dir) && IsDir(e, dir + [name])
    ensures IsFolder(e, dir + [name])
  {
    var p := dir + [name];
    forall k | 0 < k < |p| ensures IsDir(e, p[..k]) {
      assert p[..k] == dir[..k];
      assert k == |dir| ==> dir[..k] == dir;
    }
  }

  /** While only directories were made, what is not there was not there. */
  lemma NotMadeYet(s0: Store, s: Store, target: Path, contents: Bytes, p: Path)
    requires Beside(s0, s, target, None, s0.next, false, contents)
    ensures p !in Listing(s) ==> p !in Listing(s0)
    ensures At(Listing(s), p) == At(Listing(s0), p) || (Made(s0, target, p) && At(Listing(s), p) == Some(Dir))
  {
    hide Replay, Changed, Names, NodeAfter, Made, Ours;
    assert s.pending == s0.pending + Extra(s0, s);
    ReplayConcat(s0.durable, s0.pending, Extra(s0, s));
    OursAt(s0, target, None, s0.next, false, Listing(s0), Extra(s0, s), p);
  }

  lemma CreateOne(s0: Store, s: Store, target: Path, temp: string, contents: Bytes)
    requires Sound(s) && Beside(s0, s, target, None, s0.next, false, contents) && s.next == s0.next
    requires IsFolder(Listing(s), Parent(target)) && Parent(target) + [temp] !in Listing(s) && temp != FileName(target)
    ensures var s' := DoCreate(s, Parent(target), temp);
      && Sound(s') && Beside(s0, s', target, Some(temp), s.next, false, contents)
      && At(Listing(s'), Parent(target) + [temp]) == Some(File(s.next))
  {
    var s' := DoCreate(s, Parent(target), temp);
    var c := Put(Parent(target), temp, File(s.next));
    hide Replay, Kept, Changed, IsFolder, Made;
    NotMadeYet(s0, s, target, contents, Parent(target) + [temp]);
    SoundStep(s, s', c);
    ReplayOne(s.durable, s.pending, c);
    ChangedAt(Listing(s), c, Parent(target) + [temp]);
    assert Extra(s0, s') == Extra(s0, s) + [c];
    assert forall i: nat :: i < s0.next ==> BytesNow(s', i) == BytesNow(s, i);
    forall d | d in Extra(s0, s') ensures Ours(s0, target, Some(temp), s.next, false, d) {
      assert d in Extra(s0, s) ==> Ours(s0, target, None, s0.next, false, d);
    }
  }

  lemma WriteOne(s0: Store, s: Store, target: Path, temp: string, inode: nat, contents: Bytes, bytes: Bytes)
    requires Sound(s) && Beside(s0, s, target, Some(temp), inode, false, contents)
    ensures var s' := DoWrite(s, inode, bytes); Sound(s') && Beside(s0, s', target, Some(temp), inode, false, contents)
  {
    hide Replay, Ours, IsFolder;
    var s' := DoWrite(s, inode, bytes);
    assert Extra(s0, s') == Extra(s0, s) && Listing(s') == Listing(s);
  }

  lemma SyncOne(s0: Store, s: Store, target: Path, temp: string, inode: nat, contents: Bytes)
    requires Sound(s) && Beside(s0, s, target, Some(temp), inode, false, contents)
    ensures var s' := DoSyncFile(s, inode); Sound(s') && Beside(s0, s', target, Some(temp), inode, false, contents)
  {
    hide Replay, Ours, IsFolder;
    var s' := DoSyncFile(s, inode);
    assert Extra(s0, s') == Extra(s0, s) && Listing(s') == Listing(s);
  }

  /** Before the rename the target is as it was. */
  lemma TargetWaits(s0: Store, s: Store, target: Path, temp: string, inode: nat, contents: Bytes)
    requires Beside(s0, s, target, Some(temp), inode, false, contents)
    ensures At(Listing(s), target) == At(Listing(s0), target)
  {
    hide Replay, Changed, Names, NodeAfter, Ours;
    TargetIsApart(s0, s, target, Some(temp), inode, false, contents);
    assert s.pending == s0.pending + Extra(s0, s);
    ReplayConcat(s0.durable, s0.pending, Extra(s0, s));
    OursAt(s0, target, Some(temp), inode, false, Listing(s0), Extra(s0, s), target);
  }

  lemma RenameOne(s0: Store, s: Store, target: Path, temp: string, inode: nat, contents: Bytes)
    requires Sound(s) && Beside(s0, s, target, Some(temp), inode, false, contents)
    requires At(Listing(s), Parent(target) + [temp]) == Some(File(inode)) && !IsDir(Listing(s), target)
    requires inode in s.synced && BytesNow(s, inode) == contents && IsFolder(Listing(s), Parent(target))
    ensures Parent(target) + [temp] in Listing(s)
    ensures var s' := DoRename(s, Parent(target), temp, FileName(target));
      Sound(s') && Renamed(s0, s', target, temp, inode, contents) && Now(s', target) == Contents(contents)
  {
    var s' := DoRename(s, Parent(target), temp, FileName(target));
    var c := Move(Parent(target), temp, FileName(target), File(inode));
    hide Replay, Kept, Changed, Made, Ours, IsFolder, Reached, Beside, Sound;
    RenameStaysBeside(s0, s, target, temp, inode, contents);
    RenameStaysSound(s, target, temp, inode);
    ReplayOne(s.durable, s.pending, c);
    ChangedAt(Listing(s), c, target);
    ChangedAt(Listing(s), c, Parent(target) + [temp]);
    FolderMeansReached(Listing(s'), target);
  }

  lemma RenameStaysSound(s: Store, target: Path, temp: string, inode: nat)
    requires Sound(s) && target != [] && IsFolder(Listing(s), Parent(target)) && !IsDir(Listing(s), target)
    requires At(Listing(s), Parent(target) + [temp]) == Some(File(inode)) && inode < s.next
    ensures var s' := s.(pending := s.pending + [Move(Parent(target), temp, FileName(target), File(inode))]);
      Sound(s') && IsFolder(Listing(s'), Parent(target))
  {
    hide Replay, Changed, IsFolder;
    var c := Move(Parent(target), temp, FileName(target), File(inode));
    assert target == Parent(target) + [FileName(target)];
    SoundStep(s, s.(pending := s.pending + [c]), c);
    ReplayOne(s.durable, s.pending, c);
    FolderStays(Listing(s), c, Parent(target));
  }

  lemma RenameStaysBeside(s0: Store, s: Store, target: Path, temp: string, inode: nat, contents: Bytes)
    requires Beside(s0, s, target, Some(temp), inode, false, contents) && !IsDir(Listing(s), target)
    requires inode in s.synced && BytesNow(s, inode) == contents
    ensures var c := Move(Parent(target), temp, FileName(target), File(inode));
      && Beside(s0, s.(pending := s.pending + [c]), target, Some(temp), inode, true, contents)
      && inode < s.next && target == Parent(target) + [FileName(target)] && target != Parent(target) + [temp]
  {
    hide Replay, Made;
    var c := Move(Parent(target), temp, FileName(target), File(inode));
    var s' := s.(pending := s.pending + [c]);
    TargetWaits(s0, s, target, temp, inode, contents);
    TargetIsApart(s0, s, target, Some(temp), inode, false, contents);
    assert Extra(s0, s') == Extra(s0, s) + [c];
    forall d | d in Extra(s0, s') ensures Ours(s0, target, Some(temp), inode, true, d) {
      assert d in Extra(s0, s) ==> Ours(s0, target, Some(temp), inode, false, d);
    }
  }

  lemma FolderMeansReached(e: Entries, p: Path)
    requires p != [] && IsFolder(e, Parent(p))
    ensures Reached(e, p)
  {
    forall k | 0 < k < |p| ensures IsDir(e, p[..k]) { FolderOnTheWay(e, p, k); }
  }

  lemma RemoveOne(s0: Store, s: Store, target: Path, temp: string, inode: nat, moved: bool, contents: Bytes)
    requires Sound(s) && Beside(s0, s, target, Some(temp), inode, moved, contents)
    requires IsFolder(Listing(s), Parent(target)) && !IsDir(Listing(s), Parent(target) + [temp])
    ensures var s' := DoRemove(s, Parent(target), temp);
      && Sound(s') && Beside(s0, s', target, Some(temp), inode, moved, contents)
      && (moved ==> Now(s', target) == Now(s, target))
  {
    var s', c := DoRemove(s, Parent(target), temp), Drop(Parent(target), temp);
    if Parent(target) + [temp] in Listing(s) {
      hide Replay, Kept, Changed, Made, IsFolder;
      SoundStep(s, s', c);
      OneMore(s0, s, s', target, Some(temp), inode, moved, contents, c);
      TargetIsApart(s0, s, target, Some(temp), inode, moved, contents);
      ReplayOne(s.durable, s.pending, c);
      ChangedAt(Listing(s), c, target);
      FolderStays(Listing(s), c, Parent(target));
      FolderMeansReached(Listing(s), target);
      FolderMeansReached(Listing(s'), target);
      hide Reached;
    }
  }

  // ---------------------------------------------------------------- the write

  /** Looks at one path after another until one is no link. */
  method ResolveFinalPath(disk: Disk, path: Path) returns (r: Step, resolved: Path)
    modifies disk`script
    ensures r.Done? ==> Follow(Listing(disk.store), path, MAX_HOPS) == Some(resolved)
    ensures old(disk.script) == [] ==>
      disk.script == [] && (r.Done? <==> Follow(Listing(disk.store), path, MAX_HOPS).Some?)
  {
    hide Replay;
    resolved := path;
    var seen := Listing(disk.store);
    for hop := 0 to MAX_HOPS
      invariant seen == Listing(disk.store)
      invariant Follow(seen, path, MAX_HOPS) == Follow(seen, resolved, MAX_HOPS - hop)
      invariant old(disk.script) == [] ==> disk.script == []
    {
      var fate := disk.NextFate();
      if fate.Dies? { return Crashed, resolved; }
      if fate.Breaks? { return Refused, resolved; }
      if resolved in seen && seen[resolved].Link? {
        resolved := JoinTarget(resolved, seen[resolved].target);
      } else {
        return Done, resolved;
      }
    }
    return Refused, resolved;
  }

  /** Nothing but directories stands on the way. */
  predicate CanMake(e: Entries, target: Path) {
    forall k :: 0 < k < |target| ==> target[..k] !in e || IsDir(e, target[..k])
  }

  /** `create_dir_all` for the directory of the target, from the top down. */
  method MakeDirectories(disk: Disk, target: Path, ghost contents: Bytes) returns (r: Step)
    requires Sound(disk.store) && target != []
    modifies disk
    ensures Sound(disk.store) && disk.store.next == old(disk.store.next)
    ensures Beside(old(disk.store), disk.store, target, None, old(disk.store.next), false, contents)
    ensures r.Done? ==> IsFolder(Listing(disk.store), Parent(target))
    ensures old(disk.script) == [] ==> disk.script == [] && (r.Done? <==> CanMake(Listing(old(disk.store)), target))
  {
    hide Sound, Beside, Replay, IsFolder;
    ghost var s0 := disk.store;
    NothingDone(s0, target, contents);
    RootIsFolder(Listing(s0));
    assert target[..0] == [];
    for k := 0 to |target| - 1
      invariant Sound(disk.store) && disk.store.next == s0.next
      invariant Beside(s0, disk.store, target, None, s0.next, false, contents)
      invariant IsFolder(Listing(disk.store), target[..k])
      invariant forall j :: 0 < j <= k ==> target[..j] !in Listing(s0) || IsDir(Listing(s0), target[..j])
      invariant old(disk.script) == [] ==> disk.script == []
    {
      var fate := disk.NextFate();
      if fate.Dies? { return Crashed; }
      if fate.Breaks? { return Refused; }
      var p, seen := target[..k + 1], Listing(disk.store);
      assert p == target[..k] + [target[k]];
      NotMadeYet(s0, disk.store, target, contents, p);
      if p !in seen {
        MakeOne(s0, disk.store, target, contents, k);
        disk.store := DoPut(disk.store, target[..k], target[k], Dir);
      } else if seen[p].Dir? {
        NowFolder(seen, target[..k], target[k]);
      } else {
        return Refused;
      }
    }
    return Done;
  }

  lemma RootIsFolder(e: Entries)
    ensures IsFolder(e, [])
  {
  }

  predicate Free(e: Entries, target: Path, suffix: string)
    requires target != []
  {
    TempPath(target, suffix) !in e
  }

  predicate AnyFree(e: Entries, target: Path, suffixes: seq<string>)
    requires target != []
  {
    exists k :: 0 <= k < |suffixes| && Free(e, target, suffixes[k])
  }

  lemma NoneFree(e: Entries, target: Path)
    requires target != []
    ensures !AnyFree(e, target, [])
  {
  }

  lemma AnyFreeUpTo(e: Entries, target: Path, suffixes: seq<string>, i: nat)
    requires target != [] && i < |suffixes|
    ensures AnyFree(e, target, suffixes[..i + 1])
      <==> AnyFree(e, target, suffixes[..i]) || Free(e, target, suffixes[i])
    ensures AnyFree(e, target, suffixes[..i + 1]) ==> AnyFree(e, target, suffixes)
    ensures suffixes[..|suffixes|] == suffixes
  {
    hide Free;
    if AnyFree(e, target, suffixes[..i]) {
      var k :| 0 <= k < i && Free(e, target, suffixes[..i][k]);
      assert suffixes[..i + 1][k] == suffixes[k];
    }
    if Free(e, target, suffixes[i]) { assert suffixes[..i + 1][i] == suffixes[i]; }
    if AnyFree(e, target, suffixes[..i + 1]) {
      var k :| 0 <= k < i + 1 && Free(e, target, suffixes[..i + 1][k]);
      assert k < i ==> suffixes[..i][k] == suffixes[k];
    }
  }

  /** A dot, the name of the target, and one of the suffixes behind `.tmp.`. */
  predicate IsTempName(temp: string, target: Path, suffixes: seq<string>)
    requires target != []
  {
    exists k :: 0 <= k < |suffixes| && temp == "." + target[|target| - 1] + ".tmp." + suffixes[k]
  }

  /** The temporary file is the one thing new on the disk, at a path nothing was at. */
  ghost predicate TempIsThere(s0: Store, s: Store, target: Path, suffixes: seq<string>, temp: string, inode: nat,
          contents: Bytes)
    requires target != []
  {
    && Spare(s0, target, suffixes, Parent(target) + [temp]) && IsFolder(Listing(s), Parent(target))
    && Beside(s0, s, target, Some(temp), inode, false, contents)
    && At(Listing(s), Parent(target) + [temp]) == Some(File(inode))
  }

  lemma TempIsMade(s0: Store, s: Store, target: Path, suffixes: seq<string>, i: nat, contents: Bytes)
    requires target != [] && i < |suffixes| && Free(Listing(s0), target, suffixes[i])
    requires Sound(s) && Beside(s0, s, target, None, s0.next, false, contents) && s.next == s0.next
    requires IsFolder(Listing(s), Parent(target))
    requires Parent(target) + [TempName(FileName(target), suffixes[i])] !in Listing(s)
    ensures var temp := TempName(FileName(target), suffixes[i]);
      var s' := DoCreate(s, Parent(target), temp);
      && Sound(s') && IsTempName(temp, target, suffixes)
      && TempIsThere(s0, s', target, suffixes, temp, s.next, contents)
  {
    hide Sound, Beside, Listing, IsFolder, Spare, TempName, IsTempName, Parent, DoCreate;
    var temp := TempName(FileName(target), suffixes[i]);
    TempIsSpare(s0, target, suffixes, i);
    CreateOne(s0, s, target, temp, contents);
    StillFolder(s0, DoCreate(s, Parent(target), temp), target, temp, s.next, contents);
    TempNamed(target, suffixes, i);
  }

  /** Tries one temporary name after another, never one in use. */
  method CreateTempFile(disk: Disk, ghost s0: Store, target: Path, suffixes: seq<string>, ghost contents: Bytes)
    returns (r: Step, temp: string, inode: nat)
    requires Sound(s0) && Sound(disk.store) && disk.store.next == s0.next && |suffixes| == ATTEMPTS
    requires Beside(s0, disk.store, target, None, s0.next, false, contents)
    requires IsFolder(Listing(disk.store), Parent(target))
    modifies disk
    ensures Sound(disk.store)
    ensures !r.Done? ==> disk.store == old(disk.store)
    ensures r.Done? ==>
      IsTempName(temp, target, suffixes) && TempIsThere(s0, disk.store, target, suffixes, temp, inode, contents)
    ensures old(disk.script) == [] ==> disk.script == []
    ensures old(disk.script) == [] ==>
      (r.Done? <==> HasFileName(target) && AnyFree(Listing(s0), target, suffixes))
  {
    assert target != [];
    hide Sound, Beside, Listing, IsFolder, HasFileName, TempName, IsTempName, TempIsThere, Free, AnyFree,
      Parent, DoCreate;
    temp, inode := "", 0;
    if !HasFileName(target) { return Refused, temp, inode; }
    assert !AnyFree(Listing(s0), target, suffixes[..0]) by { NoneFree(Listing(s0), target); }
    for i := 0 to ATTEMPTS
      invariant disk.store == old(disk.store)
      invariant old(disk.script) == [] ==> disk.script == []
      invariant !AnyFree(Listing(s0), target, suffixes[..i])
    {
      temp := TempName(FileName(target), suffixes[i]);
      var fate := disk.NextFate();
      if fate.Dies? { return Crashed, temp, inode; }
      if fate.Breaks? { return Refused, temp, inode; }
      TempNotMade(s0, disk.store, target, contents, suffixes[i]);
      AnyFreeUpTo(Listing(s0), target, suffixes, i);
      if Parent(target) + [temp] !in Listing(disk.store) {
        TempIsMade(s0, disk.store, target, suffixes, i, contents);
        inode := disk.store.next;
        disk.store := DoCreate(disk.store, Parent(target), temp);
        return Done, temp, inode;
      }
    }
    return Refused, temp, inode;
  }

  lemma TempNamed(target: Path, suffixes: seq<string>, i: nat)
    requires target != [] && i < |suffixes|
    ensures IsTempName(TempName(FileName(target), suffixes[i]), target, suffixes)
  {
    assert TempName(FileName(target), suffixes[i]) == "." + target[|target| - 1] + ".tmp." + suffixes[i];
  }

  lemma TempNotMade(s0: Store, s: Store, target: Path, contents: Bytes, suffix: string)
    requires target != [] && Beside(s0, s, target, None, s0.next, false, contents)
    ensures Free(Listing(s0), target, suffix) <==> Parent(target) + [TempName(FileName(target), suffix)] !in Listing(s)
  {
    hide Replay, Beside;
    NotMadeYet(s0, s, target, contents, TempPath(target, suffix));
  }

  /** The directory of a file just created is there. */
  lemma StillFolder(s0: Store, s: Store, target: Path, temp: string, inode: nat, contents: Bytes)
    requires Sound(s) && Beside(s0, s, target, Some(temp), inode, false, contents)
    requires At(Listing(s), Parent(target) + [temp]) == Some(File(inode))
    ensures IsFolder(Listing(s), Parent(target))
  {
    hide Replay, Kept, IsFolder;
    var keep := seq(|s.pending|, i => true);
    KeptAll(s.pending, keep);
    SurvivorsLieInFolders(s, keep, Parent(target) + [temp]);
    assert Parent(Parent(target) + [temp]) == Parent(target);
  }

  /** Where the write stands when it ends with `o`; `t` is the disk before the last sync. */
  ghost predicate Stands(s0: Store, s: Store, target: Path, temp: string, inode: nat, contents: Bytes, o: Outcome,
          t: Store)
  {
    match o
    case Failed => Beside(s0, s, target, Some(temp), inode, false, contents)
    case Died => exists moved :: Beside(s0, s, target, Some(temp), inode, moved, contents)
    case Unsynced => Beside(s0, s, target, Some(temp), inode, true, contents) && Now(s, target) == Contents(contents)
    case Written => Renamed(s0, t, target, temp, inode, contents) && Now(t, target) == Contents(contents)
                    && s == DoSyncDirectory(t, Parent(target))
  }

  /** Writes, copies permissions, syncs, renames, and syncs the directory. */
  method WriteViaTemp(disk: Disk, ghost s0: Store, target: Path, temp: string, inode: nat, contents: Bytes)
    returns (o: Outcome, ghost t: Store)
    requires target != [] && Sound(disk.store) && Beside(s0, disk.store, target, Some(temp), inode, false, contents)
    requires At(Listing(disk.store), Parent(target) + [temp]) == Some(File(inode))
      && IsFolder(Listing(disk.store), Parent(target))
    modifies disk
    ensures Sound(disk.store) && Stands(s0, disk.store, target, temp, inode, contents, o, t)
    ensures o in {Failed, Unsynced} ==>
      IsFolder(Listing(disk.store), Parent(target)) && !IsDir(Listing(disk.store), Parent(target) + [temp])
    ensures old(disk.script) == [] ==> disk.script == [] && (o.Written? <==> !IsDir(Listing(s0), target))
  {
    hide Sound, Beside, Replay, IsFolder, Made, Renamed, Now;
    t := disk.store;
    TargetWaits(s0, disk.store, target, temp, inode, contents);
    var fate := disk.NextFate();
    var reach := if fate.Works? then |contents| else if fate.done < |contents| then fate.done else |contents|;
    WriteOne(s0, disk.store, target, temp, inode, contents, contents[..reach]);
    disk.store := DoWrite(disk.store, inode, contents[..reach]);
    if fate.Dies? { return Died, t; }
    if fate.Breaks? { return Failed, t; }
    assert contents[..reach] == contents;

    fate := disk.NextFate();
    if fate.Dies? { return Died, t; }
    if fate.Breaks? { return Failed, t; }

    fate := disk.NextFate();
    if fate.Dies? { return Died, t; }
    if fate.Breaks? { return Failed, t; }
    SyncOne(s0, disk.store, target, temp, inode, contents);
    disk.store := DoSyncFile(disk.store, inode);

    fate := disk.NextFate();
    if fate.Dies? { return Died, t; }
    if fate.Breaks? || IsDir(Listing(disk.store), target) { return Failed, t; }
    RenameOne(s0, disk.store, target, temp, inode, contents);
    disk.store := DoRename(disk.store, Parent(target), temp, FileName(target));
    RenamedIsBeside(s0, disk.store, target, temp, inode, contents);
    t := disk.store;

    fate := disk.NextFate();
    if fate.Dies? { return Died, t; }
    if fate.Breaks? { return Unsynced, t; }
    SoundSync(disk.store, Parent(target));
    disk.store := DoSyncDirectory(disk.store, Parent(target));
    return Written, t;
  }

  lemma RenamedIsBeside(s0: Store, t: Store, target: Path, temp: string, inode: nat, contents: Bytes)
    requires Renamed(s0, t, target, temp, inode, contents) && Sound(t)
    ensures Beside(s0, t, target, Some(temp), inode, true, contents)
    ensures IsFolder(Listing(t), Parent(target)) && !IsDir(Listing(t), Parent(target) + [temp])
  {
    hide Replay, Kept, IsFolder, Ours;
    var keep := seq(|t.pending|, i => true);
    KeptAll(t.pending, keep);
    SurvivorsLieInFolders(t, keep, target);
  }

  /** From where the write stands to what a reader finds. */
  lemma Promise(s0: Store, s: Store, target: Path, temp: string, inode: nat, contents: Bytes, suffixes: seq<string>,
          o: Outcome, t: Store)
    requires Sound(s0) && Stands(s0, s, target, temp, inode, contents, o, t)
    requires target != [] && Spare(s0, target, suffixes, Parent(target) + [temp])
    ensures SeenAsBefore(s0, s, target, suffixes) && CrashSafe(s0, s, target, suffixes, contents)
    ensures o.Failed? ==> Untouched(s0, s, target, suffixes, contents)
    ensures o.Unsynced? ==> Now(s, target) == Contents(contents)
    ensures o.Written? ==> Replaced(s0, s, target, contents)
    ensures o.Written? ==>
      (IsDurable(s, target, contents) <==> forall k :: 0 < k < |target| ==> DurableDir(s0, target[..k]))
  {
    hide Beside, Sound, Spare, Renamed, Now, DurableDir, IsDurable, DoSyncDirectory, AfterCrash;
    if o.Written? {
      DurableExactly(s0, t, target, temp, inode, contents);
      RenamedBeside(s0, t, target, temp, inode, contents);
      SyncedNow(s0, t, target, suffixes);
      SeeNow(s0, t, target, Some(temp), inode, true, contents, suffixes);
      forall keep, lost | Possible(s, keep) ensures ExplainedAsNew(s0, s, keep, lost, target, contents) {
        ExplainSynced(s0, t, target, temp, inode, contents, keep, lost);
      }
      forall keep, lost | Possible(s, keep) ensures Explained(s0, s, keep, lost, target, suffixes, contents) {
        FewerSpares(s0, s, keep, lost, target, suffixes, contents);
      }
    } else {
      var moved :| Beside(s0, s, target, Some(temp), inode, moved, contents) && (o.Failed? ==> !moved);
      SeeNow(s0, s, target, Some(temp), inode, moved, contents, suffixes);
      forall keep, lost | Possible(s, keep)
        ensures Explained(s0, s, keep, lost, target, suffixes, contents)
        ensures o.Failed? ==> ExplainedAsOld(s0, s, keep, lost, target, suffixes, contents)
      {
        TargetIsApart(s0, s, target, Some(temp), inode, moved, contents);
        ExplainUnsynced(s0, s, target, Some(temp), inode, moved, contents, suffixes, keep, lost);
        assert Explains(s0, keep[..|s0.pending|], s, keep, lost, target, suffixes, contents);
      }
    }
  }

  lemma RenamedBeside(s0: Store, t: Store, target: Path, temp: string, inode: nat, contents: Bytes)
    requires Renamed(s0, t, target, temp, inode, contents)
    ensures Beside(s0, t, target, Some(temp), inode, true, contents)
  {
  }

  lemma SyncedNow(s0: Store, t: Store, target: Path, suffixes: seq<string>)
    ensures forall p :: Now(DoSyncDirectory(t, Parent(target)), p) == Now(t, p)
    ensures SeenAsBefore(s0, t, target, suffixes) ==>
      SeenAsBefore(s0, DoSyncDirectory(t, Parent(target)), target, suffixes)
  {
    hide Listing, Look, Made, Spare;
    var s := DoSyncDirectory(t, Parent(target));
    SyncShowsNothing(t, Parent(target));
    forall p ensures Now(s, p) == Now(t, p) {
      SameLookEverywhere(Listing(t), (i: nat) => BytesNow(s, i), (i: nat) => BytesNow(t, i), p);
    }
    hide Now;
  }

  lemma FewerSpares(s0: Store, s: Store, keep: seq<bool>, lost: nat -> Bytes, target: Path, suffixes: seq<string>,
          contents: Bytes)
    requires ExplainedAsNew(s0, s, keep, lost, target, contents)
    ensures Explained(s0, s, keep, lost, target, suffixes, contents)
  {
    hide AfterCrash, Made;
    var keep0 :| Explains(s0, keep0, s, keep, lost, target, [], contents);
    assert forall p :: !Spare(s0, target, [], p);
    assert Explains(s0, keep0, s, keep, lost, target, suffixes, contents);
  }

  /** A write that made at most directories before it stopped. */
  lemma OnlyMade(s0: Store, s: Store, target: Path, contents: Bytes, suffixes: seq<string>)
    requires Sound(s0) && Beside(s0, s, target, None, s0.next, false, contents)
    ensures SeenAsBefore(s0, s, target, suffixes) && CrashSafe(s0, s, target, suffixes, contents)
    ensures Untouched(s0, s, target, suffixes, contents)
  {
    hide Beside, Sound, Spare, Now, AfterCrash;
    SeeNow(s0, s, target, None, s0.next, false, contents, suffixes);
    forall keep, lost | Possible(s, keep)
      ensures Explained(s0, s, keep, lost, target, suffixes, contents)
      ensures ExplainedAsOld(s0, s, keep, lost, target, suffixes, contents)
    {
      TargetIsApart(s0, s, target, None, s0.next, false, contents);
      ExplainUnsynced(s0, s, target, None, s0.next, false, contents, suffixes, keep, lost);
      assert Explains(s0, keep[..|s0.pending|], s, keep, lost, target, suffixes, contents);
    }
  }

  /** The write from any disk, whatever was still unsynced on it. */
  method WriteAtomic(disk: Disk, path: Path, contents: Bytes, suffixes: seq<string>) returns (o: Outcome)
    requires Sound(disk.store) && |suffixes| == ATTEMPTS
    modifies disk
    ensures Sound(disk.store)
    ensures Follow(Listing(old(disk.store)), path, MAX_HOPS) in {None, Some([])} ==>
      disk.store == old(disk.store) && o in {Failed, Died}
    ensures Follow(Listing(old(disk.store)), path, MAX_HOPS) !in {None, Some([])} ==>
      var s0, s, target := old(disk.store), disk.store, Follow(Listing(old(disk.store)), path, MAX_HOPS).value;
      && SeenAsBefore(s0, s, target, suffixes) && CrashSafe(s0, s, target, suffixes, contents)
      && (o.Failed? ==> Untouched(s0, s, target, suffixes, contents))
      && (o.Unsynced? ==> Now(s, target) == Contents(contents))
      && (o.Written? ==> Replaced(s0, s, target, contents))
      && (o.Written? ==>
            (IsDurable(s, target, contents) <==> forall k :: 0 < k < |target| ==> DurableDir(s0, target[..k])))
    ensures old(disk.script) == [] ==>
      (o.Written? <==>
        && Follow(Listing(old(disk.store)), path, MAX_HOPS).Some?
        && var s0, target := old(disk.store), Follow(Listing(old(disk.store)), path, MAX_HOPS).value;
           HasFileName(target) && CanMake(Listing(s0), target) && !IsDir(Listing(s0), target)
           && AnyFree(Listing(s0), target, suffixes))
  {
    hide Sound, Beside, Stands, SeenAsBefore, CrashSafe, Untouched, Replaced, IsDurable, DurableDir, Now, Follow,
      Replay, IsFolder;
    ghost var s0 := disk.store;
    var r, target := ResolveFinalPath(disk, path);
    if r.Done? && target == [] { return Failed; }
    if Follow(Listing(s0), path, MAX_HOPS) !in {None, Some([])} {
      NothingDone(s0, Follow(Listing(s0), path, MAX_HOPS).value, contents);
      OnlyMade(s0, s0, Follow(Listing(s0), path, MAX_HOPS).value, contents, suffixes);
    }
    if !r.Done? { return if r.Refused? then Failed else Died; }

    r := MakeDirectories(disk, target, contents);
    OnlyMade(s0, disk.store, target, contents, suffixes);
    if !r.Done? { return if r.Refused? then Failed else Died; }

    var temp, inode;
    r, temp, inode := CreateTempFile(disk, s0, target, suffixes, contents);
    if !r.Done? { return if r.Refused? then Failed else Died; }
    ghost var t;
    o, t := WriteViaTemp(disk, s0, target, temp, inode, contents);
    if o in {Failed, Unsynced} {
      var fate := disk.NextFate();
      if fate.Works? {
        RemoveStands(s0, disk.store, target, temp, inode, contents, o, t);
        disk.store := DoRemove(disk.store, Parent(target), temp);
      }
    }
    Promise(s0, disk.store, target, temp, inode, contents, suffixes, o, t);
  }

  lemma RemoveStands(s0: Store, s: Store, target: Path, temp: string, inode: nat, contents: Bytes, o: Outcome, t: Store)
    requires Sound(s) && Stands(s0, s, target, temp, inode, contents, o, t) && o in {Failed, Unsynced} && target != []
    requires IsFolder(Listing(s), Parent(target)) && !IsDir(Listing(s), Parent(target) + [temp])
    ensures var s' := DoRemove(s, Parent(target), temp);
      Sound(s') && Stands(s0, s', target, temp, inode, contents, o, t)
  {
    hide Sound, Beside, Now, Replay, IsFolder, DoRemove;
    RemoveOne(s0, s, target, temp, inode, o.Unsynced?, contents);
  }

  // ---------------------------------------------------------------- what a caller may rely on

  /** Where nothing that waits to be synced concerns a path, every crash leaves it as it is
      seen now. */
  lemma SettledSurvives(s: Store, keep: seq<bool>, lost: nat -> Bytes, p: Path)
    requires Sound(s) && Possible(s, keep)
    requires forall k :: 0 < k < |p| ==> DurableDir(s, p[..k])
    requires forall c :: c in s.pending ==> !Names(c, p)
    requires p in s.durable && s.durable[p].File? ==> s.durable[p].inode in s.synced
    ensures AfterCrash(s, keep, lost, p) == Now(s, p)
  {
    hide Replay, Changed, Names, NodeAfter, Kept, Sound;
    ReplayElsewhere(s.durable, s.pending, p);
    ReplayElsewhere(s.durable, Kept(s.pending, keep), p);
    forall k | 0 < k < |p| ensures IsDir(Survives(s, keep), p[..k]) && IsDir(Listing(s), p[..k]) {
      assert DurableDir(s, p[..k]);
      StaysDir(s.durable, s.pending, p[..k]);
      StaysDir(s.durable, Kept(s.pending, keep), p[..k]);
    }
    SameLook(Listing(s), Survives(s, keep), (i: nat) => BytesNow(s, i), (i: nat) => BytesLater(s, lost, i), p);
  }

  /** A success that a crash undoes: the target's directory was missing, the write made it,
      and nothing synced the directory above. */
  lemma MadeDirectoryCanVanish(bytes: Bytes, temp: string, lost: nat -> Bytes)
    requires temp != "f"
    ensures var empty, dir := Store(map[], [], map[], {}, 0), ["d"];
      var made := DoSyncFile(DoWrite(DoCreate(DoPut(empty, [], "d", Dir), dir, temp), 0, bytes), 0);
      && dir + [temp] in Listing(made)
      && var s := DoSyncDirectory(DoRename(made, dir, temp, "f"), dir);
      && Now(s, dir + ["f"]) == Contents(bytes)
      && Possible(s, [false]) && AfterCrash(s, [false], lost, dir + ["f"]) == Absent
  {
    hide Changed, Replay, Own, Others, Kept, Look;
    var dir := ["d"];
    var c1, c2, c3 := Put([], "d", Dir), Put(dir, temp, File(0)), Move(dir, temp, "f", File(0));
    var empty := Store(map[], [], map[], {}, 0);
    var made := DoSyncFile(DoWrite(DoCreate(DoPut(empty, [], "d", Dir), dir, temp), 0, bytes), 0);
    assert made.pending == [c1] + [c2];
    FirstListing(temp);
    var renamed := DoRename(made, dir, temp, "f");
    assert renamed.pending == [c1] + [c2] + [c3];
    var s := DoSyncDirectory(renamed, dir);
    LastListing(temp);
    SyncShowsNothing(renamed, dir);
    SplitLast([c1] + [c2] + [c3], dir);
    SplitLast([c1] + [c2], dir);
    SplitLast([c1], dir);
    assert ([c1] + [c2] + [c3])[..2] == [c1] + [c2] && ([c1] + [c2])[..1] == [c1] && [c1][..0] == [];
    OwnOfNothing(dir);
    assert s.pending == [c1];
    KeptNone([c1], [false]);
    LookAtNew(s, bytes);
    LookAtLost(s, temp, lost);
  }

  lemma OwnOfNothing(dir: Path)
    ensures Own([], dir) == [] && Others([], dir) == []
  {
  }

  lemma FirstListing(temp: string)
    ensures var e := Replay(map[], [Put([], "d", Dir)] + [Put(["d"], temp, File(0))]);
      At(e, ["d"]) == Some(Dir) && At(e, ["d"] + [temp]) == Some(File(0))
  {
    hide Replay, Changed;
    var c1, c2 := Put([], "d", Dir), Put(["d"], temp, File(0));
    NothingReplayed(map[]);
    ReplayOne(map[], [], c1);
    ReplayOne(map[], [c1], c2);
    assert [] + [c1] == [c1] && [] + ["d"] == ["d"];
    ChangedAt(map[], c1, ["d"]);
    ChangedAt(Replay(map[], [c1]), c2, ["d"]);
    ChangedAt(Replay(map[], [c1]), c2, ["d"] + [temp]);
  }

  lemma LastListing(temp: string)
    requires temp != "f"
    ensures var cs := [Put([], "d", Dir)] + [Put(["d"], temp, File(0))];
      var e := Replay(map[], cs + [Move(["d"], temp, "f", File(0))]);
      At(e, ["d"]) == Some(Dir) && At(e, ["d"] + ["f"]) == Some(File(0))
  {
    hide Replay, Changed;
    var cs, c3 := [Put([], "d", Dir)] + [Put(["d"], temp, File(0))], Move(["d"], temp, "f", File(0));
    FirstListing(temp);
    ReplayOne(map[], cs, c3);
    ChangedAt(Replay(map[], cs), c3, ["d"]);
    ChangedAt(Replay(map[], cs), c3, ["d"] + ["f"]);
  }

  lemma LookAtNew(s: Store, bytes: Bytes)
    requires At(Listing(s), ["d"]) == Some(Dir) && At(Listing(s), ["d"] + ["f"]) == Some(File(0))
      && BytesNow(s, 0) == bytes
    ensures Now(s, ["d"] + ["f"]) == Contents(bytes)
  {
    hide Listing, BytesNow;
    var p := ["d"] + ["f"];
    assert p[..1] == ["d"];
  }

  /** The durable root directory holds nothing yet. */
  lemma LookAtLost(s: Store, temp: string, lost: nat -> Bytes)
    requires s.durable == Replay(map[], Own(s.pending + [Put(["d"], temp, File(0))]
      + [Move(["d"], temp, "f", File(0))], ["d"]))
    requires s.pending == [Put([], "d", Dir)] && Kept(s.pending, [false]) == []
    ensures AfterCrash(s, [false], lost, ["d"] + ["f"]) == Absent
  {
    hide Replay, Changed, Own, Names;
    var own := Own(s.pending + [Put(["d"], temp, File(0))] + [Move(["d"], temp, "f", File(0))], ["d"]);
    forall c | c in own ensures !Names(c, ["d"]) {
      if Names(c, ["d"]) { NamesLieIn(c, ["d"]); }
    }
    ReplayElsewhere(map[], own, ["d"]);
    NothingReplayed(s.durable);
    assert (["d"] + ["f"])[..1] == ["d"];
  }
}
