/** The spill queue's own methods (src/spill_queue.rs) on one directory, run by a process
    that may die before any step. Each is proved to take exactly the steps of
    SpillProtocol, cut off where the process dies; the closed forms of the uninterrupted
    runs are proved beside them. */
module SpillQueue {
  import opened Wrappers
  import opened SpillPaths
  import opened SpillProtocol

  /** What at most `n` steps of one process do when nobody else moves. */
  ghost function Solo(q: Queue, stale: string -> bool, files: Files, pc: Pc, n: nat): (Files, Pc)
    decreases n
  {
    if n == 0 || pc.Idle? then (files, pc)
    else
      var (files', pc') := Advance(q, stale, files, pc);
      Solo(q, stale, files', pc', n - 1)
  }

  const NEVER: string -> bool := _ => false

  lemma SoloStep(q: Queue, stale: string -> bool, files: Files, pc: Pc, n: nat)
    requires n > 0 && !pc.Idle?
    ensures Solo(q, stale, files, pc, n)
         == Solo(q, stale, Advance(q, stale, files, pc).0, Advance(q, stale, files, pc).1, n - 1)
  {
  }

  /** Appending a file to the active file and removing it. */
  function Merged(q: Queue, files: Files, name: string): Files
    requires name in files
  {
    Removed(Appended(files, q.active, files[name]), name)
  }

  function FinishedFiles(q: Queue, files: Files, c: string): Files {
    Removed(if FailedName(c) in files then Merged(q, files, FailedName(c)) else files, c)
  }

  function RestoredFiles(q: Queue, files: Files, c: string): Files {
    if c in files then Removed(Merged(q, files, c), FailedName(c))
    else if FailedName(c) in files then Merged(q, files, FailedName(c))
    else files
  }

  function RecoveredFiles(q: Queue, stale: string -> bool, files: Files, entries: seq<string>): Files
    decreases |entries|
  {
    if entries == [] then files
    else
      var e := entries[0];
      if !q.IsClaim(e) || !stale(e) then RecoveredFiles(q, stale, files, entries[1..])
      else if e !in files then files
      else RecoveredFiles(q, stale, Removed(Merged(q, files, e), FailedName(e)), entries[1..])
  }

  lemma SoloFinishes(q: Queue, stale: string -> bool, files: Files, c: string, n: nat)
    requires n >= 4
    ensures Solo(q, stale, files, FinishStart(c), n) == (FinishedFiles(q, files, c), Idle)
  {
    hide Queue.IsClaim, FailedName, Content;
    SoloStep(q, stale, files, FinishStart(c), n);
    if FailedName(c) in files {
      var merged := Appended(files, q.active, files[FailedName(c)]);
      SoloStep(q, stale, files, FinishLock(c), n - 1);
      SoloStep(q, stale, merged, FinishMerged(c), n - 2);
      SoloStep(q, stale, Removed(merged, FailedName(c)), FinishRemove(c), n - 3);
    } else {
      SoloStep(q, stale, files, FinishRemove(c), n - 1);
    }
  }

  lemma SoloRestores(q: Queue, stale: string -> bool, files: Files, c: string, n: nat)
    requires n >= 4
    ensures Solo(q, stale, files, RestoreStart(c), n) == (RestoredFiles(q, files, c), Idle)
  {
    hide Queue.IsClaim, FailedName, Content, Merged;
    SoloStep(q, stale, files, RestoreStart(c), n);
    if c in files {
      SoloRestoresClaim(q, stale, files, c, n - 1);
    } else if FailedName(c) in files {
      SoloRestoresFailed(q, stale, files, c, n - 1);
    }
  }

  lemma SoloRestoresClaim(q: Queue, stale: string -> bool, files: Files, c: string, n: nat)
    requires n >= 3 && c in files
    ensures Solo(q, stale, files, RestoreLock(c), n) == (Removed(Merged(q, files, c), FailedName(c)), Idle)
  {
    hide Queue.IsClaim, FailedName, Content;
    var merged := Appended(files, q.active, files[c]);
    SoloStep(q, stale, files, RestoreLock(c), n);
    SoloStep(q, stale, merged, RestoreMerged(c), n - 1);
    SoloStep(q, stale, Removed(merged, c), RestoreRemoved(c), n - 2);
  }

  lemma SoloRestoresFailed(q: Queue, stale: string -> bool, files: Files, c: string, n: nat)
    requires n >= 2 && FailedName(c) in files
    ensures Solo(q, stale, files, RestoreFailedLock(c), n) == (Merged(q, files, FailedName(c)), Idle)
  {
    hide Queue.IsClaim, FailedName, Content;
    SoloStep(q, stale, files, RestoreFailedLock(c), n);
    SoloStep(q, stale, Appended(files, q.active, files[FailedName(c)]), RestoreFailedMerged(c), n - 1);
  }

  /** Taking one orphan over: three steps. */
  lemma SoloTakesOver(q: Queue, stale: string -> bool, files: Files, e: string, rest: seq<string>, n: nat)
    requires n >= 3 && q.IsClaim(e) && stale(e) && e in files
    ensures Solo(q, stale, files, Scanning([e] + rest), n)
         == Solo(q, stale, Removed(Merged(q, files, e), FailedName(e)), Scanning(rest), n - 3)
    ensures RecoveredFiles(q, stale, files, [e] + rest)
         == RecoveredFiles(q, stale, Removed(Merged(q, files, e), FailedName(e)), rest)
  {
    hide Queue.IsClaim, FailedName, Content;
    var merged := Appended(files, q.active, files[e]);
    assert ([e] + rest)[1..] == rest;
    SoloStep(q, stale, files, Scanning([e] + rest), n);
    SoloStep(q, stale, merged, OrphanMerged(e, rest), n - 1);
    SoloStep(q, stale, Removed(merged, e), OrphanRemoved(e, rest), n - 2);
  }

  lemma SoloSkips(q: Queue, stale: string -> bool, files: Files, e: string, rest: seq<string>, n: nat)
    requires n >= 1 && (!q.IsClaim(e) || !stale(e))
    ensures Solo(q, stale, files, Scanning([e] + rest), n) == Solo(q, stale, files, Scanning(rest), n - 1)
    ensures RecoveredFiles(q, stale, files, [e] + rest) == RecoveredFiles(q, stale, files, rest)
  {
    hide Queue.IsClaim, FailedName, Content;
    assert ([e] + rest)[1..] == rest;
    SoloStep(q, stale, files, Scanning([e] + rest), n);
  }

  /** A recovery pass that lives long enough ends in `RecoveredFiles`. */
  lemma {:induction false} SoloRecovers(q: Queue, stale: string -> bool, files: Files, entries: seq<string>, n: nat)
    requires n >= 3 * |entries| + 1
    ensures Solo(q, stale, files, Scanning(entries), n) == (RecoveredFiles(q, stale, files, entries), Idle)
    decreases |entries|
  {
    hide Queue.IsClaim, FailedName, Content;
    if entries == [] {
    } else {
      var e, rest := entries[0], entries[1..];
      assert entries == [e] + rest;
      if !q.IsClaim(e) || !stale(e) {
        SoloSkips(q, stale, files, e, rest, n);
        SoloRecovers(q, stale, files, rest, n - 1);
      } else if e in files {
        SoloTakesOver(q, stale, files, e, rest, n);
        SoloRecovers(q, stale, Removed(Merged(q, files, e), FailedName(e)), rest, n - 3);
      } else {
        SoloStep(q, stale, files, Scanning(entries), n);
      }
    }
  }

  lemma {:induction false} SoloStays(q: Queue, stale: string -> bool, files: Files, pc: Pc, n: nat, m: nat)
    requires n <= m && Solo(q, stale, files, pc, n).1.Idle?
    ensures Solo(q, stale, files, pc, m) == Solo(q, stale, files, pc, n)
    decreases n
  {
    hide Advance;
    if n > 0 && !pc.Idle? {
      var (files', pc') := Advance(q, stale, files, pc);
      SoloStays(q, stale, files', pc', n - 1, m - 1);
    }
  }

  /** A recovery pass that came to its end did all of it. */
  lemma EndedPass(q: Queue, stale: string -> bool, files: Files, entries: seq<string>, n: nat)
    requires Solo(q, stale, files, Scanning(entries), n).1.Idle?
    ensures Solo(q, stale, files, Scanning(entries), n).0 == RecoveredFiles(q, stale, files, entries)
  {
    hide Solo, RecoveredFiles;
    var m := 3 * |entries| + 1;
    if n >= m {
      SoloRecovers(q, stale, files, entries, n);
    } else {
      SoloRecovers(q, stale, files, entries, m);
      SoloStays(q, stale, files, Scanning(entries), n, m);
    }
  }

  /** A stale claim of the listing has gone by its turn, and the pass stops with an error. */
  predicate MissesClaim(q: Queue, stale: string -> bool, files: Files, entries: seq<string>)
    decreases |entries|
  {
    entries != [] &&
    var e := entries[0];
    if !q.IsClaim(e) || !stale(e) then MissesClaim(q, stale, files, entries[1..])
    else e !in files || MissesClaim(q, stale, Removed(Merged(q, files, e), FailedName(e)), entries[1..])
  }

  /** The claims a recovery pass puts back, in the order of the listing. */
  function Orphans(q: Queue, stale: string -> bool, files: Files, entries: seq<string>): seq<string>
    decreases |entries|
  {
    if entries == [] then []
    else
      var e := entries[0];
      if !q.IsClaim(e) || !stale(e) then Orphans(q, stale, files, entries[1..])
      else if e !in files then []
      else [e] + Orphans(q, stale, Removed(Merged(q, files, e), FailedName(e)), entries[1..])
  }

  function StaleClaims(q: Queue, stale: string -> bool, entries: seq<string>): seq<string> {
    if entries == [] then []
    else (if q.IsClaim(entries[0]) && stale(entries[0]) then [entries[0]] else []) + StaleClaims(q, stale, entries[1..])
  }

  /** Each name once, and the stale claims among them there. */
  predicate IsListing(q: Queue, stale: string -> bool, files: Files, entries: seq<string>) {
    && (forall i, j :: 0 <= i < j < |entries| ==> entries[i] != entries[j])
    && forall i :: 0 <= i < |entries| && q.IsClaim(entries[i]) && stale(entries[i]) ==> entries[i] in files
  }

  function Joined(files: Files, names: seq<string>): seq<Record> {
    if names == [] then [] else Content(files, names[0]) + Joined(files, names[1..])
  }

  predicate Gone(names: seq<string>, n: string) {
    exists i :: 0 <= i < |names| && (n == names[i] || n == FailedName(names[i]))
  }

  lemma {:induction false} StaleClaimsAre(q: Queue, stale: string -> bool, entries: seq<string>)
    ensures forall c :: c in StaleClaims(q, stale, entries) <==> c in entries && q.IsClaim(c) && stale(c)
  {
    if entries != [] {
      StaleClaimsAre(q, stale, entries[1..]);
      assert entries == [entries[0]] + entries[1..];
    }
  }

  lemma {:induction false} JoinedSame(files: Files, after: Files, names: seq<string>)
    requires forall n :: n in names ==> Content(files, n) == Content(after, n)
    ensures Joined(files, names) == Joined(after, names)
  {
    if names != [] { JoinedSame(files, after, names[1..]); }
  }

  lemma ListingShrinks(q: Queue, stale: string -> bool, files: Files, next: Files, e: string, rest: seq<string>)
    requires IsListing(q, stale, files, [e] + rest) && q.IsClaim(e) && stale(e)
    requires !q.IsClaim(FailedName(e)) && !q.IsClaim(q.active)
    requires forall n :: n in files && n != q.active && n != e && n != FailedName(e) ==> n in next
    ensures e in files && IsListing(q, stale, next, rest) && e !in rest
  {
    hide Queue.IsClaim, FailedName;
    var all := [e] + rest;
    assert all[0] == e && forall i :: 0 <= i < |rest| ==> rest[i] == all[i + 1];
  }

  lemma OtherStep(q: Queue, stale: string -> bool, files: Files, e: string, rest: seq<string>)
    requires IsListing(q, stale, files, [e] + rest)
    ensures IsListing(q, stale, files, rest)
  {
    hide Queue.IsClaim;
    assert forall i :: 0 <= i < |rest| ==> rest[i] == ([e] + rest)[i + 1];
  }

  lemma {:induction false} PresentClaims(q: Queue, stale: string -> bool, files: Files, entries: seq<string>)
    requires !MissesClaim(q, stale, files, entries)
    ensures forall c :: c in StaleClaims(q, stale, entries) ==> c in files && q.IsClaim(c)
    decreases |entries|
  {
    hide Queue.IsClaim, FailedName, Merged;
    if entries != [] {
      var e, rest := entries[0], entries[1..];
      assert entries == [e] + rest;
      if q.IsClaim(e) && stale(e) {
        PresentClaims(q, stale, Removed(Merged(q, files, e), FailedName(e)), rest);
        TakenOver(q, files, e);
        ActiveIsNoClaim(q);
      } else {
        PresentClaims(q, stale, files, rest);
      }
    }
  }

  /** Taking over one orphan: its records are at the end of the active file, it and its
      failed file have gone, and nothing else changed. */
  lemma TakenOver(q: Queue, files: Files, e: string)
    requires q.IsClaim(e) && e in files
    ensures var next := Removed(Merged(q, files, e), FailedName(e));
      && Content(next, q.active) == Content(files, q.active) + files[e]
      && forall n :: n != q.active ==>
           (n in next <==> n in files && n != e && n != FailedName(e)) && (n in next ==> next[n] == files[n])
  {
    hide Queue.IsClaim, FailedName;
    NamesApart(q, e);
  }

  /** A recovery pass that misses no claim puts back exactly the stale claims it was shown:
      their records go to the end of the active file, in order, the claims and their failed
      files go, and nothing else changes. */
  lemma {:induction false} RecoveryPutsBack(q: Queue, stale: string -> bool, files: Files, entries: seq<string>)
    requires !MissesClaim(q, stale, files, entries)
    ensures Orphans(q, stale, files, entries) == StaleClaims(q, stale, entries)
    ensures PutsBack(q, files, RecoveredFiles(q, stale, files, entries), StaleClaims(q, stale, entries))
    decreases |entries|
  {
    hide Queue.IsClaim, FailedName, Merged, PutsBack;
    if entries == [] {
      PutsBackNothing(q, files);
    } else {
      var e, rest := entries[0], entries[1..];
      assert entries == [e] + rest;
      var more := StaleClaims(q, stale, rest);
      if q.IsClaim(e) && stale(e) {
        var next := Removed(Merged(q, files, e), FailedName(e));
        TakenOver(q, files, e);
        RecoveryPutsBack(q, stale, next, rest);
        PresentClaims(q, stale, next, rest);
        ActiveIsNoClaim(q);
        JoinedSame(files, next, more);
        PutsBackOneMore(q, files, next, RecoveredFiles(q, stale, next, rest), e, more);
      } else {
        RecoveryPutsBack(q, stale, files, rest);
      }
    }
  }

  lemma {:induction false} ListingMissesNothing(q: Queue, stale: string -> bool, files: Files, entries: seq<string>)
    requires IsListing(q, stale, files, entries)
    ensures !MissesClaim(q, stale, files, entries)
    decreases |entries|
  {
    hide Queue.IsClaim, FailedName, IsListing, Merged;
    if entries != [] {
      var e, rest := entries[0], entries[1..];
      assert entries == [e] + rest;
      if q.IsClaim(e) && stale(e) {
        FirstIsThere(q, stale, files, e, rest);
        TakenOver(q, files, e);
        FailedIsNoClaim(q, e);
        ActiveIsNoClaim(q);
        var next := Removed(Merged(q, files, e), FailedName(e));
        ListingShrinks(q, stale, files, next, e, rest);
        ListingMissesNothing(q, stale, next, rest);
      } else {
        OtherStep(q, stale, files, e, rest);
        ListingMissesNothing(q, stale, files, rest);
      }
    }
  }

  lemma FirstIsThere(q: Queue, stale: string -> bool, files: Files, e: string, rest: seq<string>)
    requires IsListing(q, stale, files, [e] + rest) && q.IsClaim(e) && stale(e)
    ensures e in files
  {
    hide Queue.IsClaim;
    assert ([e] + rest)[0] == e;
  }

  /** Recovery from a listing puts back exactly its stale claims: their records go to the
      end of the active file, in order, the claims and their failed files go, and nothing
      else changes. */
  lemma RecoveryPutsBackOrphans(q: Queue, stale: string -> bool, files: Files, entries: seq<string>)
    requires IsListing(q, stale, files, entries)
    ensures !MissesClaim(q, stale, files, entries)
    ensures Orphans(q, stale, files, entries) == StaleClaims(q, stale, entries)
    ensures PutsBack(q, files, RecoveredFiles(q, stale, files, entries), StaleClaims(q, stale, entries))
  {
    hide IsListing, MissesClaim, PutsBack, Orphans, StaleClaims, RecoveredFiles;
    ListingMissesNothing(q, stale, files, entries);
    RecoveryPutsBack(q, stale, files, entries);
  }

  /** `after` is `files` with these claims put back. */
  ghost predicate PutsBack(q: Queue, files: Files, after: Files, orphans: seq<string>) {
    Content(after, q.active) == Content(files, q.active) + Joined(files, orphans) && Drops(q, files, after, orphans)
  }

  /** Beside the active file only these claims and their failed files are gone. */
  ghost predicate Drops(q: Queue, files: Files, after: Files, orphans: seq<string>) {
    forall n :: n != q.active ==>
      (n in after <==> n in files && !Gone(orphans, n)) && (n in after ==> after[n] == files[n])
  }

  lemma PutsBackNothing(q: Queue, files: Files)
    ensures PutsBack(q, files, files, [])
  {
  }

  lemma PutsBackOneMore(q: Queue, files: Files, next: Files, after: Files, e: string, more: seq<string>)
    requires e in files && PutsBack(q, next, after, more) && Joined(next, more) == Joined(files, more)
    requires Content(next, q.active) == Content(files, q.active) + files[e]
    requires forall n :: n != q.active ==>
      (n in next <==> n in files && n != e && n != FailedName(e)) && (n in next ==> next[n] == files[n])
    ensures PutsBack(q, files, after, [e] + more)
  {
    hide FailedName, Gone, Drops, Joined, Content;
    DropsOneMore(q, files, next, after, e, more);
    JoinedOneMore(files, e, more);
    Regroup(Content(files, q.active), files[e], Joined(files, more));
  }

  lemma JoinedOneMore(files: Files, e: string, more: seq<string>)
    requires e in files
    ensures Joined(files, [e] + more) == files[e] + Joined(files, more)
  {
    assert ([e] + more)[1..] == more;
  }

  lemma Regroup(a: seq<Record>, b: seq<Record>, c: seq<Record>)
    ensures (a + b) + c == a + (b + c)
  {
  }

  lemma DropsOneMore(q: Queue, files: Files, next: Files, after: Files, e: string, more: seq<string>)
    requires Drops(q, next, after, more)
    requires forall n :: n != q.active ==>
      (n in next <==> n in files && n != e && n != FailedName(e)) && (n in next ==> next[n] == files[n])
    ensures Drops(q, files, after, [e] + more)
  {
    hide FailedName, Gone;
    GoneStep(e, more);
  }

  lemma GoneStep(e: string, more: seq<string>)
    ensures forall n :: Gone([e] + more, n) <==> n == e || n == FailedName(e) || Gone(more, n)
  {
    forall n ensures Gone([e] + more, n) <==> n == e || n == FailedName(e) || Gone(more, n) {
      if Gone(more, n) {
        var i :| 0 <= i < |more| && (n == more[i] || n == FailedName(more[i]));
        assert ([e] + more)[i + 1] == more[i];
      }
      assert ([e] + more)[0] == e;
    }
  }

  // ---------------------------------------------------------------- which claims come back

  /** The records of `c` are in the active file, together, behind those that were there. */
  ghost predicate Returned(q: Queue, files: Files, after: Files, c: string) {
    exists front, back :: Content(after, q.active) == Content(files, q.active) + front + Content(files, c) + back
  }

  /** Each claim of the listing came back if it was due, its failed file with it, and
      otherwise is as it was. */
  ghost predicate Settled(q: Queue, files: Files, after: Files, entries: seq<string>, minAge: nat, now: nat,
                          alive: int -> bool)
  {
    forall c :: c in entries && q.IsClaim(c) ==>
      if IsDue(q, c, minAge, now, alive) then c !in after && FailedName(c) !in after && Returned(q, files, after, c)
      else (c in after <==> c in files) && Content(after, c) == Content(files, c)
  }

  lemma {:induction false} JoinedHolds(files: Files, names: seq<string>, c: string)
      returns (front: seq<Record>, back: seq<Record>)
    requires c in names
    ensures Joined(files, names) == front + Content(files, c) + back
  {
    hide Content;
    if names[0] == c {
      front, back := [], Joined(files, names[1..]);
    } else {
      var f, b := JoinedHolds(files, names[1..], c);
      front, back := Content(files, names[0]) + f, b;
    }
  }

  lemma ReturnedWith(q: Queue, files: Files, after: Files, orphans: seq<string>, c: string)
    requires PutsBack(q, files, after, orphans) && c in orphans
    ensures Returned(q, files, after, c) && Gone(orphans, c) && Gone(orphans, FailedName(c))
  {
    hide Content, Drops, FailedName, Joined;
    var front, back := JoinedHolds(files, orphans, c);
    var before, piece := Content(files, q.active), Content(files, c);
    assert before + (front + piece + back) == before + front + piece + back;
    var i :| 0 <= i < |orphans| && orphans[i] == c;
  }

  lemma ClaimIsNotGone(q: Queue, orphans: seq<string>, c: string)
    requires q.IsClaim(c) && c !in orphans && forall o :: o in orphans ==> q.IsClaim(o)
    ensures !Gone(orphans, c) && c != q.active
  {
    hide FailedName, Queue.IsClaim;
    ActiveIsNoClaim(q);
    forall o | o in orphans ensures !q.IsClaim(FailedName(o)) { FailedIsNoClaim(q, o); }
  }

  lemma FailedIsNotActive(q: Queue, c: string)
    requires q.IsClaim(c)
    ensures FailedName(c) != q.active && c != q.active
  {
    hide FailedName, Queue.IsClaim;
    FailedIsApart(q, c);
    ActiveIsNoClaim(q);
  }

  /** Recovery that misses no claim of its listing puts back exactly those that are due. */
  lemma RecoverySettles(q: Queue, files: Files, entries: seq<string>, minAge: nat, now: nat, alive: int -> bool)
    requires !MissesClaim(q, q.Staleness(minAge, now, alive), files, entries)
    ensures Settled(q, files, RecoveredFiles(q, q.Staleness(minAge, now, alive), files, entries), entries, minAge, now,
              alive)
  {
    hide Queue.IsClaim, Queue.IsStale, FailedName, Content, Gone, StaleClaims, RecoveredFiles, MissesClaim, Orphans,
      Returned, IsDue;
    var stale := q.Staleness(minAge, now, alive);
    var orphans, after := StaleClaims(q, stale, entries), RecoveredFiles(q, stale, files, entries);
    RecoveryPutsBack(q, stale, files, entries);
    StaleClaimsAre(q, stale, entries);
    forall c | c in entries && q.IsClaim(c)
      ensures if IsDue(q, c, minAge, now, alive)
        then c !in after && FailedName(c) !in after && Returned(q, files, after, c)
        else (c in after <==> c in files) && Content(after, c) == Content(files, c)
    {
      StaleExactly(q, c, minAge, now, alive);
      FailedIsNotActive(q, c);
      if c in orphans {
        ReturnedWith(q, files, after, orphans, c);
      } else {
        ClaimIsNotGone(q, orphans, c);
        SameContent(files, after, c);
      }
    }
  }

  lemma SameContent(files: Files, after: Files, n: string)
    ensures (n in after <==> n in files) && (n in after ==> after[n] == files[n]) ==>
              Content(after, n) == Content(files, n)
  {
  }

  /** For every pid, time and number: recovery at `now` from a listing of the directory
      puts the claim that they name back if and only if its owner does not run and it was
      made `minAge` or longer ago; otherwise the claim stays as it is. At age zero every
      claim comes back. */
  lemma DeadClaimsComeBack(q: Queue, files: Files, entries: seq<string>, minAge: nat, now: nat, alive: int -> bool,
          pid: nat, nanos: nat, sequence: nat)
    requires pid <= U32_MAX && nanos < U128_LIMIT
    requires forall i, j :: 0 <= i < j < |entries| ==> entries[i] != entries[j]
    requires forall e :: e in entries ==> e in files
    requires q.ClaimName(pid, nanos, sequence) in entries
    ensures var c := q.ClaimName(pid, nanos, sequence);
      var after := RecoveredFiles(q, q.Staleness(minAge, now, alive), files, entries);
      if minAge == 0 || (!(1 <= pid <= 0x7FFF_FFFF && alive(pid)) && nanos + minAge <= now)
      then c !in after && FailedName(c) !in after && Returned(q, files, after, c)
      else c in after && after[c] == files[c]
  {
    hide Queue.IsClaim, Queue.IsStale, Queue.ClaimName, FailedName, RecoveredFiles, MissesClaim, Returned, IsDue;
    var stale := q.Staleness(minAge, now, alive);
    assert IsListing(q, stale, files, entries);
    ListingMissesNothing(q, stale, files, entries);
    RecoverySettles(q, files, entries, minAge, now, alive);
    ClaimNameIsClaim(q, pid, nanos, sequence);
    ClaimIsDue(q, pid, nanos, sequence, minAge, now, alive);
  }

  /** The directory, and how many steps the process will still live. */
  class Directory {
    var files: Files
    var life: nat

    constructor (files: Files, life: nat)
      ensures this.files == files && this.life == life
    {
      this.files := files;
      this.life := life;
    }

    method Step() returns (alive: bool)
      modifies this`life
      ensures alive <==> old(life) > 0
      ensures life == if alive then old(life) - 1 else 0
    {
      alive := life > 0;
      if alive { life := life - 1; }
    }

    method AppendTo(target: string, records: seq<Record>)
      modifies this`files
      ensures files == Appended(old(files), target, records)
    {
      files := files[target := (if target in files then files[target] else []) + records];
    }

    /** `remove_file_if_exists`. */
    method Remove(name: string)
      modifies this`files
      ensures files == Removed(old(files), name)
    {
      files := map n | n in files && n != name :: files[n];
    }
  }

  class SpillClaim {
    const queue: Queue
    const claimed: string
    const failed: string
    const dir: Directory
    var settled: bool

    ghost predicate Valid() { queue.IsClaim(claimed) && failed == FailedName(claimed) }

    constructor (queue: Queue, claimed: string, dir: Directory)
      requires queue.IsClaim(claimed)
      ensures Valid() && !settled
      ensures this.queue == queue && this.claimed == claimed && this.dir == dir
    {
      this.queue := queue;
      this.claimed := claimed;
      this.failed := FailedName(claimed);
      this.dir := dir;
      settled := false;
    }

    /** `append_file_then_remove`, under the lock: the two steps from `lock` through
        `merged` to `after`, or an error, and the step to `absent`, when the file has gone. */
    method AppendFileThenRemove(name: string, ghost lock: Pc, ghost merged: Pc, ghost after: Pc, ghost absent: Pc)
        returns (done: bool, ok: bool, ghost end: Pc)
      requires !lock.Idle? && !merged.Idle?
      requires name in dir.files ==>
        var appended := Appended(dir.files, queue.active, dir.files[name]);
        && Advance(queue, NEVER, dir.files, lock) == (appended, merged)
        && Advance(queue, NEVER, appended, merged) == (Removed(appended, name), after)
      requires name !in dir.files ==> Advance(queue, NEVER, dir.files, lock) == (dir.files, absent)
      modifies dir
      ensures Solo(queue, NEVER, old(dir.files), lock, old(dir.life)) == Solo(queue, NEVER, dir.files, end, dir.life)
      ensures done ==> (ok <==> name in old(dir.files))
      ensures done && ok ==> end == after && dir.files == Merged(queue, old(dir.files), name)
      ensures done && !ok ==> end == absent && dir.files == old(dir.files)
      ensures !done ==> dir.life == 0 && (end == lock || end == merged)
    {
      hide Queue.IsClaim, Queue.IsStale, FailedName, Content;
      end, ok := lock, name in dir.files;
      ghost var goal := Solo(queue, NEVER, dir.files, end, dir.life);
      done := dir.Step();
      if !done { return; }
      if !ok {
        end := absent;
        return;
      }
      dir.AppendTo(queue.active, dir.files[name]);
      end := merged;
      assert goal == Solo(queue, NEVER, dir.files, end, dir.life);
      done := dir.Step();
      if !done { return; }
      dir.Remove(name);
      end := after;
    }

    /** One removing step from `at` to `after`. */
    method RemoveIfExists(name: string, ghost at: Pc, ghost after: Pc) returns (done: bool, ghost end: Pc)
      requires !at.Idle? && Advance(queue, NEVER, dir.files, at) == (Removed(dir.files, name), after)
      modifies dir
      ensures Solo(queue, NEVER, old(dir.files), at, old(dir.life)) == Solo(queue, NEVER, dir.files, end, dir.life)
      ensures done ==> end == after && dir.files == Removed(old(dir.files), name)
      ensures !done ==> dir.life == 0 && end == at
    {
      end := at;
      done := dir.Step();
      if !done { return; }
      SoloStep(queue, NEVER, dir.files, at, dir.life + 1);
      dir.Remove(name);
      end := after;
    }

    /** Merge the failed file into the active file, then drop the claim. `done` is false
        when the process died; `end` is then the protocol state it died in. */
    method Finish() returns (done: bool, ghost end: Pc)
      requires Valid()
      modifies dir, this`settled
      ensures (dir.files, end) == Solo(queue, NEVER, old(dir.files), FinishStart(claimed), old(dir.life))
      ensures done <==> end.Idle?
      ensures settled == (old(settled) || done)
    {
      hide Queue.IsClaim, Queue.IsStale, FailedName, Content;
      end := FinishStart(claimed);
      done := dir.Step();
      if !done { return; }
      SoloStep(queue, NEVER, dir.files, end, dir.life + 1);
      if failed in dir.files {
        var ok;
        done, ok, end := AppendFileThenRemove(failed, FinishLock(claimed), FinishMerged(claimed), FinishRemove(claimed),
          RestoreStart(claimed));
        if !done || !ok { return; }
      }
      done, end := RemoveIfExists(claimed, FinishRemove(claimed), Idle);
      settled := settled || done;
    }

    /** `restore` when the claim file was seen. */
    method RestoreClaimFile() returns (done: bool, ghost end: Pc)
      requires Valid() && claimed in dir.files
      modifies dir
      ensures Solo(queue, NEVER, old(dir.files), RestoreLock(claimed), old(dir.life)) == (dir.files, end)
      ensures done <==> end.Idle?
    {
      hide Queue.IsClaim, Queue.IsStale, FailedName, Content;
      var ok;
      done, ok, end := AppendFileThenRemove(claimed, RestoreLock(claimed), RestoreMerged(claimed),
          RestoreRemoved(claimed), Idle);
      if !done || !ok { return; }
      done, end := RemoveIfExists(failed, RestoreRemoved(claimed), Idle);
    }

    /** `restore` when only the failed file was seen. */
    method RestoreFailedFile() returns (done: bool, ghost end: Pc)
      requires Valid() && failed in dir.files
      modifies dir
      ensures Solo(queue, NEVER, old(dir.files), RestoreFailedLock(claimed), old(dir.life)) == (dir.files, end)
      ensures done <==> end.Idle?
    {
      hide Queue.IsClaim, Queue.IsStale, FailedName, Content;
      var ok;
      done, ok, end := AppendFileThenRemove(failed, RestoreFailedLock(claimed), RestoreFailedMerged(claimed), Idle,
          Idle);
    }

    /** Put the whole claim back into the active file, or the failed file when the claim
        is gone. */
    method Restore() returns (done: bool, ghost end: Pc)
      requires Valid()
      modifies dir, this`settled
      ensures (dir.files, end) == Solo(queue, NEVER, old(dir.files), RestoreStart(claimed), old(dir.life))
      ensures done <==> end.Idle?
      ensures settled == (old(settled) || done)
    {
      end := RestoreStart(claimed);
      done := dir.Step();
      if !done { return; }
      SoloStep(queue, NEVER, dir.files, end, dir.life + 1);
      if claimed in dir.files {
        done, end := RestoreClaimFile();
      } else if failed in dir.files {
        done, end := RestoreFailedFile();
      } else {
        end := Idle;
      }
      settled := settled || done;
    }

    /** Dropping a claim restores it unless it was settled. */
    method Drop() returns (ghost end: Pc)
      requires Valid()
      modifies dir, this`settled
      ensures old(settled) ==> end.Idle? && dir.files == old(dir.files)
      ensures !old(settled) ==>
        (dir.files, end) == Solo(queue, NEVER, old(dir.files), RestoreStart(claimed), old(dir.life))
    {
      end := Idle;
      if settled { return; }
      var done;
      done, end := Restore();
    }
  }

  /** One stale claim: its records are appended, it goes, and its failed file goes. */
  method PutBack(q: Queue, dir: Directory, e: string, ghost rest: seq<string>, ghost stale: string -> bool)
      returns (done: bool, ghost end: Pc)
    requires e in dir.files
    modifies dir
    ensures Solo(q, stale, Appended(old(dir.files), q.active, old(dir.files)[e]), OrphanMerged(e, rest), old(dir.life))
         == Solo(q, stale, dir.files, end, dir.life)
    ensures done ==> end == Scanning(rest)
    ensures done ==>
      dir.files == Removed(Removed(Appended(old(dir.files), q.active, old(dir.files)[e]), e), FailedName(e))
    ensures !done ==> Solo(q, stale, dir.files, end, dir.life) == (dir.files, end) && !end.Idle?
  {
    hide Queue.IsClaim, FailedName, Content, Solo, Appended, Removed;
    dir.AppendTo(q.active, dir.files[e]);
    end := OrphanMerged(e, rest);
    SoloEnds(q, stale, dir.files, end);
    if dir.life > 0 { SoloStep(q, stale, dir.files, end, dir.life); }
    done := dir.Step();
    if !done { return; }
    dir.Remove(e);
    end := OrphanRemoved(e, rest);
    SoloEnds(q, stale, dir.files, end);
    if dir.life > 0 { SoloStep(q, stale, dir.files, end, dir.life); }
    done := dir.Step();
    if !done { return; }
    dir.Remove(FailedName(e));
    end := Scanning(rest);
  }

  /** `restore_orphaned_claims`: `entries` is the directory listing, `life` steps remain.
      Returns how many claims were put back, or the error for one that has gone. */
  method RestoreOrphanedClaims(q: Queue, dir: Directory, entries: seq<string>, minAge: nat, now: nat,
                               alive: int -> bool)
      returns (restored: Option<nat>, done: bool, ghost end: Pc)
    modifies dir
    ensures (dir.files, end)
         == Solo(q, q.Staleness(minAge, now, alive), old(dir.files), Scanning(entries), old(dir.life))
    ensures done <==> end.Idle?
    ensures done ==>
      var stale := q.Staleness(minAge, now, alive);
      restored == if MissesClaim(q, stale, old(dir.files), entries) then None
                  else Some(|Orphans(q, stale, old(dir.files), entries)|)
    ensures done && restored.Some? ==> Settled(q, old(dir.files), dir.files, entries, minAge, now, alive)
  {
    hide Queue.IsClaim, Queue.IsStale, FailedName, Content, Solo, Orphans, MissesClaim, Merged, Appended, Removed,
      Settled, RecoveredFiles;
    var count := 0;
    restored := None;
    var i := 0;
    ghost var stale := q.Staleness(minAge, now, alive);
    ghost var goal := Solo(q, stale, dir.files, Scanning(entries), dir.life);
    end := Scanning(entries);
    done := true;
    assert entries[0..] == entries;
    while i < |entries|
      invariant 0 <= i <= |entries| && done
      invariant end == Scanning(entries[i..])
      invariant Solo(q, stale, dir.files, end, dir.life) == goal
      invariant |Orphans(q, stale, old(dir.files), entries)| == count + |Orphans(q, stale, dir.files, entries[i..])|
      invariant MissesClaim(q, stale, old(dir.files), entries) == MissesClaim(q, stale, dir.files, entries[i..])
    {
      var e := entries[i];
      ghost var rest := entries[i + 1..];
      assert entries[i..] == [e] + rest;
      SoloEnds(q, stale, dir.files, end);
      ScanStep(q, stale, dir.files, e, rest, dir.life);
      done := dir.Step();
      if !done { return; }
      if !q.IsClaim(e) || !q.IsStale(e, minAge, now, alive) {
        i := i + 1;
        end := Scanning(entries[i..]);
        continue;
      }
      if e !in dir.files {
        end := Idle;
        return;
      }
      done, end := PutBack(q, dir, e, rest, stale);
      if !done { return; }
      count := count + 1;
      i := i + 1;
      end := Scanning(entries[i..]);
    }
    SoloEnds(q, stale, dir.files, end);
    ScanEnd(q, stale, dir.files, entries[i..], dir.life);
    done := dir.Step();
    if done {
      end, restored := Idle, Some(count);
      EndedPass(q, stale, old(dir.files), entries, old(dir.life));
      RecoverySettles(q, old(dir.files), entries, minAge, now, alive);
    }
  }

  /** A process that dies stops where it is. */
  lemma SoloEnds(q: Queue, stale: string -> bool, files: Files, pc: Pc)
    ensures Solo(q, stale, files, pc, 0) == (files, pc)
  {
  }

  lemma ScanEnd(q: Queue, stale: string -> bool, files: Files, entries: seq<string>, n: nat)
    requires entries == []
    ensures n > 0 ==> Solo(q, stale, files, Scanning(entries), n) == (files, Idle)
    ensures Orphans(q, stale, files, entries) == [] && !MissesClaim(q, stale, files, entries)
  {
    hide Queue.IsClaim, FailedName, Content;
  }

  /** The next entry of a listing: passed over, gone, or merged. */
  lemma ScanStep(q: Queue, stale: string -> bool, files: Files, e: string, rest: seq<string>, n: nat)
    ensures var skipped := !q.IsClaim(e) || !stale(e);
      && (skipped ==> Orphans(q, stale, files, [e] + rest) == Orphans(q, stale, files, rest))
      && (skipped ==> MissesClaim(q, stale, files, [e] + rest) == MissesClaim(q, stale, files, rest))
      && (skipped && n > 0 ==>
        Solo(q, stale, files, Scanning([e] + rest), n) == Solo(q, stale, files, Scanning(rest), n - 1))
      && (!skipped && e !in files ==> MissesClaim(q, stale, files, [e] + rest))
      && (!skipped && e !in files && n > 0 ==> Solo(q, stale, files, Scanning([e] + rest), n) == (files, Idle))
      && (!skipped && e in files ==>
            Orphans(q, stale, files, [e] + rest)
            == [e] + Orphans(q, stale, Removed(Removed(Appended(files, q.active, files[e]), e), FailedName(e)), rest)
            && MissesClaim(q, stale, files, [e] + rest)
            == MissesClaim(q, stale, Removed(Removed(Appended(files, q.active, files[e]), e), FailedName(e)), rest))
      && (!skipped && e in files && n > 0 ==>
            Solo(q, stale, files, Scanning([e] + rest), n)
            == Solo(q, stale, Appended(files, q.active, files[e]), OrphanMerged(e, rest), n - 1))
  {
    hide Queue.IsClaim, FailedName, Content;
    assert ([e] + rest)[1..] == rest;
    if n > 0 { SoloStep(q, stale, files, Scanning([e] + rest), n); }
  }

  /** `append_bytes`: nothing is written for empty contents. */
  method AppendBytes(q: Queue, dir: Directory, records: seq<Record>) returns (done: bool)
    modifies dir
    ensures dir.files == if done && records != [] then Appended(old(dir.files), q.active, records) else old(dir.files)
    ensures records == [] || old(dir.life) > 0 ==> done
  {
    if records == [] { return true; }
    done := dir.Step();
    if !done { return; }
    dir.AppendTo(q.active, records);
  }

  /** `claim`: recover orphans first, then rename the active file to a claim name, unless
      recovery ended in an error. `swept` is the directory between the two. */
  method ClaimActive(q: Queue, dir: Directory, entries: seq<string>, minAge: nat, now: nat, alive: int -> bool,
                     pid: nat, nanos: nat, sequence: nat)
      returns (claim: SpillClaim?, done: bool, ok: bool, ghost swept: Files)
    modifies dir
    ensures swept == Solo(q, q.Staleness(minAge, now, alive), old(dir.files), Scanning(entries), old(dir.life)).0
    ensures claim != null ==>
      && fresh(claim) && claim.Valid() && !claim.settled && claim.queue == q && claim.dir == dir
      && claim.claimed == q.ClaimName(pid, nanos, sequence) && q.active in swept
      && dir.files == Removed(swept, q.active)[claim.claimed := swept[q.active]]
    ensures claim == null ==> dir.files == swept && (done && ok ==> q.active !in swept)
    ensures done ==> (ok <==> !MissesClaim(q, q.Staleness(minAge, now, alive), old(dir.files), entries))
    ensures !ok ==> claim == null
  {
    claim, ok := null, true;
    var restored;
    ghost var end;
    restored, done, end := RestoreOrphanedClaims(q, dir, entries, minAge, now, alive);
    swept := dir.files;
    if !done { return; }
    ok := restored.Some?;
    if !ok { return; }
    done := dir.Step();
    if !done || q.active !in dir.files { return; }
    var name := q.ClaimName(pid, nanos, sequence);
    ClaimNameIsClaim(q, pid, nanos, sequence);
    var records := dir.files[q.active];
    dir.Remove(q.active);
    dir.files := dir.files[name := records];
    claim := new SpillClaim(q, name, dir);
  }
}
