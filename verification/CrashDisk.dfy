/** A disk under crashes, as src/atomic_file.rs needs it: what programs see, and what a
    crash leaves of it. A change of a directory is safe once that directory was synced, the
    bytes of a file once the file was. */
module CrashDisk {
  import opened Wrappers

  type Bytes = seq<int>

  /** The components of an absolute path; the root is []. */
  type Path = seq<string>

  datatype Node = File(inode: nat) | Link(target: Target) | Dir

  /** The text of a symbolic link. */
  datatype Target = Target(absolute: bool, names: Path)

  type Entries = map<Path, Node>

  /** A change of one directory that a crash may or may not keep. */
  datatype Change =
    | Put(dir: Path, name: string, node: Node)
    | Drop(dir: Path, name: string)
    | Move(dir: Path, from: string, to: string, node: Node)

  /** `durable` is what every crash keeps of the directories and `pending` what changed
      since, in order; the bytes of `synced` files survive. */
  datatype Store = Store(durable: Entries, pending: seq<Change>, data: map<nat, Bytes>, synced: set<nat>, next: nat)

  datatype View = Absent | Contents(bytes: Bytes) | LinkTo(target: Target) | IsDirectory

  predicate Names(c: Change, p: Path) {
    match c
    case Put(dir, name, _) => p == dir + [name]
    case Drop(dir, name) => p == dir + [name]
    case Move(dir, from, to, _) => p == dir + [from] || p == dir + [to]
  }

  /** What a change leaves at a path it names. */
  function NodeAfter(c: Change, p: Path): Option<Node> {
    match c
    case Put(_, _, node) => Some(node)
    case Drop(_, _) => None
    case Move(dir, _, to, node) => if p == dir + [to] then Some(node) else None
  }

  function Changed(e: Entries, c: Change): Entries {
    match c
    case Put(dir, name, node) => e[dir + [name] := node]
    case Drop(dir, name) => e - {dir + [name]}
    case Move(dir, from, to, node) => (e - {dir + [from]})[dir + [to] := node]
  }

  function At(e: Entries, p: Path): Option<Node> { if p in e then Some(e[p]) else None }

  function Replay(e: Entries, cs: seq<Change>): Entries {
    if cs == [] then e else Changed(Replay(e, cs[..|cs| - 1]), cs[|cs| - 1])
  }

  /** The changes marked in `keep`. */
  function Kept(cs: seq<Change>, keep: seq<bool>): (k: seq<Change>)
    requires |keep| == |cs|
    ensures forall c :: c in k ==> c in cs
  {
    if cs == [] then []
    else
      var front, last := Kept(cs[..|cs| - 1], keep[..|cs| - 1]), |cs| - 1;
      if keep[last] then front + [cs[last]] else front
  }

  /** What programs see. */
  function Listing(s: Store): Entries { Replay(s.durable, s.pending) }

  ghost predicate Possible(s: Store, keep: seq<bool>) { |keep| == |s.pending| }

  /** The directories after a crash that kept the changes marked in `keep`. */
  function Survives(s: Store, keep: seq<bool>): Entries
    requires |keep| == |s.pending|
  {
    Replay(s.durable, Kept(s.pending, keep))
  }

  /** All directories on the way to `p` are there. */
  predicate Reached(e: Entries, p: Path) { forall k :: 0 < k < |p| ==> IsDir(e, p[..k]) }

  predicate IsDir(e: Entries, p: Path) { p in e && e[p].Dir? }

  predicate IsFolder(e: Entries, p: Path) { Reached(e, p) && (p == [] || IsDir(e, p)) }

  function Look(e: Entries, bytesOf: nat -> Bytes, p: Path): View {
    if p == [] then IsDirectory
    else if !Reached(e, p) || p !in e then Absent
    else
      match e[p]
      case File(i) => Contents(bytesOf(i))
      case Link(t) => LinkTo(t)
      case Dir => IsDirectory
  }

  function BytesNow(s: Store, i: nat): Bytes { if i in s.data then s.data[i] else [] }

  function Now(s: Store, p: Path): View { Look(Listing(s), (i: nat) => BytesNow(s, i), p) }

  function BytesLater(s: Store, lost: nat -> Bytes, i: nat): Bytes { if i in s.synced then BytesNow(s, i) else lost(i) }

  /** What a path shows after a crash: `lost` is whatever unsynced files turned into. */
  function AfterCrash(s: Store, keep: seq<bool>, lost: nat -> Bytes, p: Path): View
    requires |keep| == |s.pending|
  {
    Look(Survives(s, keep), (i: nat) => BytesLater(s, lost, i), p)
  }

  function Parent(p: Path): Path { if p == [] then [] else p[..|p| - 1] }

  predicate Allocated(next: nat, node: Node) { node.File? ==> node.inode < next }

  /** Whatever was ever named lies in a directory that is there, no directory having been
      removed, and no file number is handed out twice. */
  ghost predicate Sound(s: Store) {
    && (forall p :: p in s.durable ==> p != [] && IsFolder(Listing(s), Parent(p)) && Allocated(s.next, s.durable[p]))
    && (forall c :: c in s.pending ==> IsFolder(Listing(s), c.dir) && (!c.Drop? ==> Allocated(s.next, c.node)))
    && (forall i :: i in s.synced ==> i < s.next)
  }

  // ---------------------------------------------------------------- the operations

  function DoPut(s: Store, dir: Path, name: string, node: Node): Store {
    s.(pending := s.pending + [Put(dir, name, node)])
  }

  function DoCreate(s: Store, dir: Path, name: string): Store {
    DoPut(s, dir, name, File(s.next)).(data := s.data[s.next := []], synced := s.synced - {s.next}, next := s.next + 1)
  }

  function DoWrite(s: Store, inode: nat, bytes: Bytes): Store {
    s.(data := s.data[inode := bytes], synced := s.synced - {inode})
  }

  function DoSyncFile(s: Store, inode: nat): Store { s.(synced := s.synced + {inode}) }

  function DoRename(s: Store, dir: Path, from: string, to: string): Store
    requires dir + [from] in Listing(s)
  {
    s.(pending := s.pending + [Move(dir, from, to, Listing(s)[dir + [from]])])
  }

  function DoRemove(s: Store, dir: Path, name: string): Store {
    if dir + [name] in Listing(s) then s.(pending := s.pending + [Drop(dir, name)]) else s
  }

  /** The changes of directory `dir` alone become durable; not those of the directories
      that hold it. */
  function DoSyncDirectory(s: Store, dir: Path): Store {
    s.(durable := Replay(s.durable, Own(s.pending, dir)), pending := Others(s.pending, dir))
  }

  function Own(cs: seq<Change>, dir: Path): (r: seq<Change>)
    ensures forall c :: c in r <==> c in cs && c.dir == dir
  {
    if cs == [] then []
    else
      assert cs == cs[..|cs| - 1] + [cs[|cs| - 1]];
      Own(cs[..|cs| - 1], dir) + if cs[|cs| - 1].dir == dir then [cs[|cs| - 1]] else []
  }

  function Others(cs: seq<Change>, dir: Path): (r: seq<Change>)
    ensures forall c :: c in r <==> c in cs && c.dir != dir
  {
    if cs == [] then []
    else
      assert cs == cs[..|cs| - 1] + [cs[|cs| - 1]];
      Others(cs[..|cs| - 1], dir) + if cs[|cs| - 1].dir != dir then [cs[|cs| - 1]] else []
  }

  // ---------------------------------------------------------------- replaying

  lemma SamePath(d1: Path, n1: string, d2: Path, n2: string)
    ensures d1 + [n1] == d2 + [n2] <==> d1 == d2 && n1 == n2
  {
    assert (d1 + [n1])[..|d1|] == d1 && (d2 + [n2])[..|d2|] == d2;
    assert (d1 + [n1])[|d1|] == n1 && (d2 + [n2])[|d2|] == n2;
  }

  lemma ChangedAt(e: Entries, c: Change, p: Path)
    ensures At(Changed(e, c), p) == if Names(c, p) then NodeAfter(c, p) else At(e, p)
  {
  }

  lemma NamesLieIn(c: Change, p: Path)
    requires Names(c, p)
    ensures p != [] && Parent(p) == c.dir
  {
    var name := if c.Move? then (if p == c.dir + [c.from] then c.from else c.to) else c.name;
    assert p == c.dir + [name];
    assert p[..|p| - 1] == c.dir;
  }

  lemma {:induction false} ReplayConcat(e: Entries, a: seq<Change>, b: seq<Change>)
    ensures Replay(e, a + b) == Replay(Replay(e, a), b)
  {
    hide Changed;
    if b == [] {
      assert a + b == a;
    } else {
      ReplayConcat(e, a, b[..|b| - 1]);
      assert (a + b)[..|a + b| - 1] == a + b[..|b| - 1];
    }
  }

  lemma ReplayOne(e: Entries, cs: seq<Change>, c: Change)
    ensures Replay(e, cs + [c]) == Changed(Replay(e, cs), c)
  {
    assert (cs + [c])[..|cs|] == cs;
  }

  lemma {:induction false} KeptConcat(a: seq<Change>, b: seq<Change>, keep: seq<bool>)
    requires |keep| == |a| + |b|
    ensures Kept(a + b, keep) == Kept(a, keep[..|a|]) + Kept(b, keep[|a|..])
  {
    if b == [] {
      assert a + b == a && keep[..|a|] == keep;
    } else {
      var n := |a + b| - 1;
      KeptConcat(a, b[..|b| - 1], keep[..n]);
      assert (a + b)[..n] == a + b[..|b| - 1];
      assert keep[..n][..|a|] == keep[..|a|] && keep[..n][|a|..] == keep[|a|..][..|b| - 1];
    }
  }

  /** A path that no change names stays as it was. */
  lemma {:induction false} ReplayElsewhere(e: Entries, cs: seq<Change>, p: Path)
    requires forall c :: c in cs ==> !Names(c, p)
    ensures At(Replay(e, cs), p) == At(e, p)
  {
    hide Changed, Names;
    if cs != [] {
      ReplayElsewhere(e, cs[..|cs| - 1], p);
      ChangedAt(Replay(e, cs[..|cs| - 1]), cs[|cs| - 1], p);
    }
  }

  /** What replaying leaves at a path was there before or was put there. */
  lemma {:induction false} ReplayComesFrom(e: Entries, cs: seq<Change>, p: Path)
    requires p in Replay(e, cs)
    ensures (p in e && Replay(e, cs)[p] == e[p])
         || exists c :: c in cs && Names(c, p) && NodeAfter(c, p) == Some(Replay(e, cs)[p])
  {
    hide Changed, Names, NodeAfter;
    if cs != [] {
      var front, last := cs[..|cs| - 1], cs[|cs| - 1];
      ChangedAt(Replay(e, front), last, p);
      if !Names(last, p) { ReplayComesFrom(e, front, p); }
    }
  }

  /** A directory that every change naming it leaves a directory stays one. */
  lemma {:induction false} StaysDir(e: Entries, cs: seq<Change>, p: Path)
    requires IsDir(e, p) && forall c :: c in cs && Names(c, p) ==> NodeAfter(c, p) == Some(Dir)
    ensures IsDir(Replay(e, cs), p)
  {
    hide Changed, Names, NodeAfter;
    if cs != [] {
      StaysDir(e, cs[..|cs| - 1], p);
      ChangedAt(Replay(e, cs[..|cs| - 1]), cs[|cs| - 1], p);
    }
  }

  /** Where all changes of its directory are kept, a path shows what it shows now. */
  lemma {:induction false} WholeDirectoryKept(e: Entries, cs: seq<Change>, keep: seq<bool>, p: Path)
    requires |keep| == |cs| && forall i :: 0 <= i < |cs| && cs[i].dir == Parent(p) ==> keep[i]
    ensures At(Replay(e, Kept(cs, keep)), p) == At(Replay(e, cs), p)
  {
    hide Changed, Names, NodeAfter, Parent;
    if cs != [] {
      var n := |cs| - 1;
      var front, last := cs[..n], cs[n];
      WholeDirectoryKept(e, front, keep[..n], p);
      if Names(last, p) { NamesLieIn(last, p); }
      ChangedAt(Replay(e, front), last, p);
      if keep[n] {
        ReplayOne(e, Kept(front, keep[..n]), last);
        ChangedAt(Replay(e, Kept(front, keep[..n])), last, p);
      }
    }
  }

  // ---------------------------------------------------------------- syncing a directory

  lemma Commute(e: Entries, c: Change, d: Change)
    requires c.dir != d.dir
    ensures Changed(Changed(e, c), d) == Changed(Changed(e, d), c)
  {
    var l, r := Changed(Changed(e, c), d), Changed(Changed(e, d), c);
    forall p ensures At(l, p) == At(r, p) {
      ChangedAt(e, c, p);
      ChangedAt(e, d, p);
      ChangedAt(Changed(e, c), d, p);
      ChangedAt(Changed(e, d), c, p);
      if Names(c, p) { NamesLieIn(c, p); }
      if Names(d, p) { NamesLieIn(d, p); }
    }
    SameEntries(l, r);
  }

  lemma SameEntries(a: Entries, b: Entries)
    requires forall p :: At(a, p) == At(b, p)
    ensures a == b
  {
    forall p ensures (p in a <==> p in b) && (p in a ==> a[p] == b[p]) { assert At(a, p) == At(b, p); }
  }

  lemma {:induction false} CommuteAll(e: Entries, c: Change, cs: seq<Change>)
    requires forall d :: d in cs ==> d.dir != c.dir
    ensures Replay(Changed(e, c), cs) == Changed(Replay(e, cs), c)
  {
    hide Changed;
    if cs != [] {
      CommuteAll(e, c, cs[..|cs| - 1]);
      Commute(Replay(e, cs[..|cs| - 1]), c, cs[|cs| - 1]);
    }
  }

  /** A crash after syncing `dir` is a crash before that kept all changes of `dir`. */
  lemma {:induction false} SyncKeepsAll(e: Entries, cs: seq<Change>, dir: Path, keep: seq<bool>)
      returns (before: seq<bool>)
    requires |keep| == |Others(cs, dir)|
    ensures |before| == |cs| && forall i :: 0 <= i < |cs| && cs[i].dir == dir ==> before[i]
    ensures Replay(Replay(e, Own(cs, dir)), Kept(Others(cs, dir), keep)) == Replay(e, Kept(cs, before))
    ensures (forall i :: 0 <= i < |keep| ==> keep[i]) ==> forall i :: 0 <= i < |before| ==> before[i]
    decreases |cs|
  {
    hide Changed, Replay, Kept, Own, Others;
    if cs == [] {
      before := [];
      NothingToSync(e, dir, keep);
    } else {
      var n := |cs| - 1;
      var front, last := cs[..n], cs[n];
      SplitLast(cs, dir);
      if last.dir == dir {
        var b := SyncKeepsAll(e, front, dir, keep);
        before := b + [true];
        OwnLast(e, front, last, dir, keep, b);
      } else {
        var k := |keep| - 1;
        var b := SyncKeepsAll(e, front, dir, keep[..k]);
        before := b + [keep[k]];
        OtherLast(e, front, last, dir, keep, b);
      }
    }
  }

  lemma NothingToSync(e: Entries, dir: Path, keep: seq<bool>)
    requires |keep| == |Others([], dir)|
    ensures Replay(Replay(e, Own([], dir)), Kept(Others([], dir), keep)) == Replay(e, Kept([], []))
  {
  }

  lemma SplitLast(cs: seq<Change>, dir: Path)
    requires cs != []
    ensures cs == cs[..|cs| - 1] + [cs[|cs| - 1]]
    ensures var front, last := cs[..|cs| - 1], cs[|cs| - 1];
      if last.dir == dir then Own(cs, dir) == Own(front, dir) + [last] && Others(cs, dir) == Others(front, dir)
      else Own(cs, dir) == Own(front, dir) && Others(cs, dir) == Others(front, dir) + [last]
  {
  }

  lemma KeptLast(cs: seq<Change>, keep: seq<bool>, last: Change, kept: bool)
    requires |keep| == |cs|
    ensures Kept(cs + [last], keep + [kept]) == Kept(cs, keep) + if kept then [last] else []
  {
    assert (cs + [last])[..|cs|] == cs && (keep + [kept])[..|keep|] == keep;
  }

  lemma OwnLast(e: Entries, front: seq<Change>, last: Change, dir: Path, keep: seq<bool>, b: seq<bool>)
    requires |keep| == |Others(front, dir)| && |b| == |front| && last.dir == dir
    requires Replay(Replay(e, Own(front, dir)), Kept(Others(front, dir), keep)) == Replay(e, Kept(front, b))
    ensures Replay(Replay(e, Own(front, dir) + [last]), Kept(Others(front, dir), keep))
      == Replay(e, Kept(front + [last], b + [true]))
  {
    hide Changed, Replay, Kept, Own, Others;
    var own, kept := Own(front, dir), Kept(Others(front, dir), keep);
    ReplayOne(e, own, last);
    CommuteAll(Replay(e, own), last, kept);
    KeptLast(front, b, last, true);
    ReplayOne(e, Kept(front, b), last);
  }

  lemma OtherLast(e: Entries, front: seq<Change>, last: Change, dir: Path, keep: seq<bool>, b: seq<bool>)
    requires |keep| == |Others(front, dir)| + 1 && |b| == |front|
    requires Replay(Replay(e, Own(front, dir)), Kept(Others(front, dir), keep[..|keep| - 1]))
      == Replay(e, Kept(front, b))
    ensures Replay(Replay(e, Own(front, dir)), Kept(Others(front, dir) + [last], keep))
         == Replay(e, Kept(front + [last], b + [keep[|keep| - 1]]))
  {
    hide Changed, Replay, Kept, Own, Others;
    var k := |keep| - 1;
    var base, kept := Replay(e, Own(front, dir)), Kept(Others(front, dir), keep[..k]);
    assert keep == keep[..k] + [keep[k]];
    KeptLast(Others(front, dir), keep[..k], last, keep[k]);
    KeptLast(front, b, last, keep[k]);
    ReplayOne(base, kept, last);
    ReplayOne(e, Kept(front, b), last);
    assert kept + [] == kept && Kept(front, b) + [] == Kept(front, b);
  }

  lemma {:induction false} KeptAll(cs: seq<Change>, keep: seq<bool>)
    requires |keep| == |cs| && forall i :: 0 <= i < |keep| ==> keep[i]
    ensures Kept(cs, keep) == cs
  {
    if cs != [] {
      KeptAll(cs[..|cs| - 1], keep[..|cs| - 1]);
      assert cs == cs[..|cs| - 1] + [cs[|cs| - 1]];
    }
  }

  lemma {:induction false} KeptNone(cs: seq<Change>, keep: seq<bool>)
    requires |keep| == |cs| && forall i :: 0 <= i < |keep| ==> !keep[i]
    ensures Kept(cs, keep) == []
  {
    if cs != [] { KeptNone(cs[..|cs| - 1], keep[..|cs| - 1]); }
  }

  lemma {:induction false} KeptOnly(cs: seq<Change>, keep: seq<bool>, j: nat)
    requires |keep| == |cs| && j < |cs| && forall i :: 0 <= i < |keep| ==> (keep[i] <==> i == j)
    ensures Kept(cs, keep) == [cs[j]]
  {
    var n := |cs| - 1;
    if j == n { KeptNone(cs[..n], keep[..n]); } else { KeptOnly(cs[..n], keep[..n], j); }
  }

  /** Syncing shows nothing new. */
  lemma SyncShowsNothing(s: Store, dir: Path)
    ensures Listing(DoSyncDirectory(s, dir)) == Listing(s)
  {
    var others := Others(s.pending, dir);
    var keep := seq(|others|, i => true);
    var before := SyncKeepsAll(s.durable, s.pending, dir, keep);
    KeptAll(others, keep);
    KeptAll(s.pending, before);
  }
}
