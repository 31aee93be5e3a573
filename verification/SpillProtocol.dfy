/** The spill queue protocol (src/spill_queue.rs) as a state machine: several
    processes share one directory, every step performs at most one file operation,
    steps of different processes interleave, and a process may die between any two
    steps. A file holds whole records, in order. */
module SpillProtocol {
  import opened SpillPaths

  type Record = string
  type Files = map<string, seq<Record>>

  /** Where one process stands. A process works on one claim or one recovery pass. */
  datatype Pc =
    | Idle
    | Scanning(entries: seq<string>)                      // recovery: directory entries left
    | OrphanMerged(orphan: string, rest: seq<string>)     // orphan appended to the active file
    | OrphanRemoved(orphan: string, rest: seq<string>)    // orphan removed, failed file next
    | Claimed(claim: string)                              // renamed, not read yet
    | Consuming(claim: string, todo: seq<Record>)         // lines not yet handled
    | FinishStart(claim: string)
    | FinishLock(claim: string)                           // a failed file was seen
    | FinishMerged(claim: string)                         // failed file appended to the active file
    | FinishRemove(claim: string)
    | RestoreStart(claim: string)
    | RestoreLock(claim: string)                          // the claim file was seen
    | RestoreMerged(claim: string)                        // claim appended to the active file
    | RestoreRemoved(claim: string)                       // claim removed, failed file next
    | RestoreFailedLock(claim: string)                    // only the failed file was seen
    | RestoreFailedMerged(claim: string)
  {
    /** The queue lock is held in exactly these states. */
    predicate HoldsLock() {
      Scanning? || OrphanMerged? || OrphanRemoved? || FinishMerged? || RestoreMerged?
      || RestoreFailedMerged?
    }

    /** The process is about to remove this claim file, its records being safe elsewhere. */
    predicate Dooms(c: string) {
      || (OrphanMerged? && orphan == c)
      || ((FinishMerged? || FinishRemove? || RestoreMerged?) && claim == c)
    }

    /** The process found this claim file gone, or removed it. */
    predicate KnowsGone(c: string) {
      || (OrphanRemoved? && orphan == c)
      || ((RestoreRemoved? || RestoreFailedLock? || RestoreFailedMerged?) && claim == c)
    }

    /** A file was just appended to the active file; the next step removes a file. */
    predicate Merging() { OrphanMerged? || FinishMerged? || RestoreMerged? || RestoreFailedMerged? }

    predicate Removing() { Merging() || OrphanRemoved? || FinishRemove? || RestoreRemoved? }

    predicate HasClaim() { !Idle? && !Scanning? && !OrphanMerged? && !OrphanRemoved? }
  }

  function Content(files: Files, name: string): seq<Record> {
    if name in files then files[name] else []
  }

  /** Appending creates the file when it is missing. */
  function Appended(files: Files, name: string, records: seq<Record>): Files {
    files[name := Content(files, name) + records]
  }

  function Removed(files: Files, name: string): Files { files - {name} }

  /** One step of the code after a claim was made: file effect and next state.
      `stale` answers `is_stale_claim` for the entry at hand. */
  function Advance(q: Queue, stale: string -> bool, files: Files, pc: Pc): (Files, Pc) {
    match pc
    case Scanning(entries) =>
      if entries == [] then (files, Idle)
      else
        var e := entries[0];
        if !q.IsClaim(e) || !stale(e) then (files, Scanning(entries[1..]))
        else if e !in files then (files, Idle)
        else (Appended(files, q.active, files[e]), OrphanMerged(e, entries[1..]))
    case OrphanMerged(e, rest) => (Removed(files, e), OrphanRemoved(e, rest))
    case OrphanRemoved(e, rest) => (Removed(files, FailedName(e)), Scanning(rest))
    case FinishStart(c) => (files, if FailedName(c) in files then FinishLock(c) else FinishRemove(c))
    case FinishLock(c) =>
      if FailedName(c) in files
      then (Appended(files, q.active, files[FailedName(c)]), FinishMerged(c))
      else (files, RestoreStart(c))
    case FinishMerged(c) => (Removed(files, FailedName(c)), FinishRemove(c))
    case FinishRemove(c) => (Removed(files, c), Idle)
    case RestoreStart(c) =>
      (files,
       if c in files then RestoreLock(c)
       else if FailedName(c) in files then RestoreFailedLock(c)
       else Idle)
    case RestoreLock(c) =>
      if c in files then (Appended(files, q.active, files[c]), RestoreMerged(c)) else (files, Idle)
    case RestoreMerged(c) => (Removed(files, c), RestoreRemoved(c))
    case RestoreRemoved(c) => (Removed(files, FailedName(c)), Idle)
    case RestoreFailedLock(c) =>
      if FailedName(c) in files
      then (Appended(files, q.active, files[FailedName(c)]), RestoreFailedMerged(c))
      else (files, Idle)
    case RestoreFailedMerged(c) => (Removed(files, FailedName(c)), Idle)
    case _ => (files, pc)
  }

  datatype World = World(
    files: Files,
    procs: map<nat, Pc>,
    appended: set<Record>,       // every record ever given to append
    delivered: set<Record>,      // every record a consumer replayed
    used: set<string>)           // every claim name ever handed out
  {
    function At(p: nat): Pc { if p in procs then procs[p] else Idle }

    predicate LockFreeFor(p: nat) { forall o :: o in procs && o != p ==> !procs[o].HoldsLock() }

    function Move(p: nat, pc: Pc): World { this.(procs := procs[p := pc]) }
  }

  datatype Action =
    | Append(p: nat, records: seq<Record>)
    | Recover(p: nat, entries: seq<string>)
    | Claim(p: nat, claim: string)
    | Read(p: nat)
    | Deliver(p: nat)
    | Fail(p: nat)
    | DeadLetter(p: nat)
    | BeginFinish(p: nat)
    | BeginRestore(p: nat)                                 // explicit, on an error, or by drop
    | Run(p: nat, stale: string -> bool)
    | Crash(p: nat)

  /** The source's own guards: the lock, a fresh claim name, `finish` only after every
      line was handled. */
  predicate Enabled(q: Queue, w: World, a: Action) {
    var pc := w.At(a.p);
    match a
    case Append(p, records) => !pc.HoldsLock() && w.LockFreeFor(p)
    case Recover(p, entries) => pc.Idle? && w.LockFreeFor(p)
    case Claim(p, c) =>
      pc.Idle? && w.LockFreeFor(p) && q.active in w.files
      && q.IsClaim(c) && c !in w.used && c !in w.files && FailedName(c) !in w.files
    case Read(p) => pc.Claimed? && pc.claim in w.files
    case Deliver(p) => pc.Consuming? && pc.todo != []
    case Fail(p) => pc.Consuming? && pc.todo != []
    case DeadLetter(p) => pc.Consuming? && pc.todo != []
    case BeginFinish(p) => pc.Consuming? && pc.todo == []
    case BeginRestore(p) => pc.HasClaim()
    case Run(p, stale) =>
      var (_, next) := Advance(q, stale, w.files, pc);
      next.HoldsLock() ==> w.LockFreeFor(p)
    case Crash(p) => true
  }

  function Apply(q: Queue, w: World, a: Action): World
    requires Enabled(q, w, a)
  {
    var pc := w.At(a.p);
    match a
    case Append(p, records) =>
      if records == [] then w
      else
        w.(files := Appended(w.files, q.active, records),
           appended := w.appended + (set r | r in records))
    case Recover(p, entries) => w.Move(p, Scanning(entries))
    case Claim(p, c) =>
      w.(files := Removed(w.files, q.active)[c := w.files[q.active]], used := w.used + {c})
       .Move(p, Claimed(c))
    case Read(p) => w.Move(p, Consuming(pc.claim, w.files[pc.claim]))
    case Deliver(p) =>
      w.(delivered := w.delivered + {pc.todo[0]}).Move(p, Consuming(pc.claim, pc.todo[1..]))
    case Fail(p) =>
      w.(files := Appended(w.files, FailedName(pc.claim), [pc.todo[0]]))
       .Move(p, Consuming(pc.claim, pc.todo[1..]))
    case DeadLetter(p) =>
      w.(files := Appended(w.files, q.Dead(), [pc.todo[0]]))
       .Move(p, Consuming(pc.claim, pc.todo[1..]))
    case BeginFinish(p) => w.Move(p, FinishStart(pc.claim))
    case BeginRestore(p) => w.Move(p, RestoreStart(pc.claim))
    case Run(p, stale) =>
      var (files, next) := Advance(q, stale, w.files, pc);
      w.(files := files).Move(p, next)
    case Crash(p) => w.Move(p, Idle)
  }

  /** A run: any interleaving of enabled actions. */
  ghost predicate ValidRun(q: Queue, w: World, run: seq<Action>)
    decreases |run|
  {
    run != [] ==> Enabled(q, w, run[0]) && ValidRun(q, Apply(q, w, run[0]), run[1..])
  }

  ghost function After(q: Queue, w: World, run: seq<Action>): World
    requires ValidRun(q, w, run)
    decreases |run|
  {
    if run == [] then w else After(q, Apply(q, w, run[0]), run[1..])
  }

  const EMPTY := World(map[], map[], {}, {}, {})

  // ---------------------------------------------------------------- safety

  predicate InFile(w: World, name: string, r: Record) { name in w.files && r in w.files[name] }

  /** What the documentation promises: the record was delivered, dead-lettered, or waits
      in the active file or in some claim file. */
  predicate Safe(q: Queue, w: World, r: Record) {
    r in w.delivered || InFile(w, q.Dead(), r) || InFile(w, q.active, r)
    || exists c :: c in w.files && q.IsClaim(c) && r in w.files[c]
  }

  predicate Doomed(w: World, c: string) { exists p :: p in w.procs && w.procs[p].Dooms(c) }

  /** Safe without counting a claim file that somebody is about to remove. */
  predicate Kept(q: Queue, w: World, r: Record) {
    r in w.delivered || InFile(w, q.Dead(), r) || InFile(w, q.active, r)
    || exists c :: c in w.files && q.IsClaim(c) && r in w.files[c] && !Doomed(w, c)
  }

  predicate Handled(q: Queue, w: World, c: string, todo: seq<Record>, r: Record) {
    r in todo || r in w.delivered || InFile(w, q.Dead(), r) || InFile(w, FailedName(c), r)
  }

  ghost predicate PcInv(q: Queue, w: World, pc: Pc) {
    && (pc.HasClaim() ==> q.IsClaim(pc.claim) && pc.claim in w.used)
    && (pc.OrphanMerged? || pc.OrphanRemoved? ==> q.IsClaim(pc.orphan) && pc.orphan in w.used)
    && (forall c :: pc.KnowsGone(c) ==> c !in w.files)
    && (pc.Consuming? ==> Accounted(q, w, pc.claim, pc.todo))
    && (pc.FinishStart? || pc.FinishLock? ==> Accounted(q, w, pc.claim, []))
  }

  /** While the claim file exists, each of its lines is still to do or was handled. */
  ghost predicate Accounted(q: Queue, w: World, c: string, todo: seq<Record>) {
    c in w.files ==> forall r :: r in w.files[c] ==> Handled(q, w, c, todo, r)
  }

  ghost predicate ClaimsUsed(q: Queue, w: World) {
    forall c :: c in w.files && q.IsClaim(c) ==> c in w.used
  }

  predicate DifferentClaims(a: Pc, b: Pc) { a.HasClaim() && b.HasClaim() ==> a.claim != b.claim }

  ghost predicate OneOwner(w: World) {
    forall p, o :: p in w.procs && o in w.procs && p != o ==> DifferentClaims(w.procs[p], w.procs[o])
  }

  ghost predicate PcsOk(q: Queue, w: World) {
    forall p :: p in w.procs ==> PcInv(q, w, w.procs[p])
  }

  ghost predicate AllKept(q: Queue, w: World) { forall r :: r in w.appended ==> Kept(q, w, r) }

  ghost predicate Inv(q: Queue, w: World) {
    ClaimsUsed(q, w) && OneOwner(w) && PcsOk(q, w) && AllKept(q, w)
  }

  // ---------------------------------------------------------------- preservation

  lemma NameFacts(q: Queue)
    ensures !q.IsClaim(q.Dead()) && !q.IsClaim(q.active) && q.Dead() != q.active
    ensures forall c {:trigger FailedName(c)} :: q.IsClaim(c) ==>
      (!q.IsClaim(FailedName(c)) && FailedName(c) != q.active && FailedName(c) != q.Dead())
    ensures forall c, d {:trigger FailedName(c), FailedName(d)} ::
      q.IsClaim(c) && q.IsClaim(d) && FailedName(c) == FailedName(d) ==> c == d
  {
    ClaimNameIsClaim(q, 0, 0, 0);
    NamesApart(q, q.ClaimName(0, 0, 0));
    forall c | q.IsClaim(c)
      ensures !q.IsClaim(FailedName(c)) && FailedName(c) != q.active && FailedName(c) != q.Dead()
    {
      NamesApart(q, c);
    }
    forall c, d | q.IsClaim(c) && q.IsClaim(d) && FailedName(c) == FailedName(d) ensures c == d {
      FailedNameInjective(q, c, d);
    }
  }

  ghost predicate Grows(w: World, w': World, name: string) {
    forall r :: InFile(w, name, r) ==> InFile(w', name, r)
  }

  /** What a step must show so that nothing kept before it is lost by it. */
  lemma KeptStep(q: Queue, w: World, w': World)
    requires AllKept(q, w)
    requires w.delivered <= w'.delivered && Grows(w, w', q.Dead())
    requires forall r :: InFile(w, q.active, r) ==> Kept(q, w', r)
    requires forall c, r :: q.IsClaim(c) && InFile(w, c, r) && !Doomed(w, c) ==> Kept(q, w', r)
    requires forall r :: r in w'.appended ==> r in w.appended || Kept(q, w', r)
    ensures AllKept(q, w')
  {
    hide Queue.IsClaim, Queue.Dead, FailedName;
    forall r | r in w.appended ensures Kept(q, w', r) {
      if !(r in w.delivered || InFile(w, q.Dead(), r) || InFile(w, q.active, r)) {
        var c :| c in w.files && q.IsClaim(c) && r in w.files[c] && !Doomed(w, c);
        assert InFile(w, c, r);
      }
    }
  }

  /** What a step must show about a process that does not take it. */
  lemma PcStep(q: Queue, w: World, w': World, pc: Pc)
    requires PcInv(q, w, pc)
    requires w.used <= w'.used && w.delivered <= w'.delivered && Grows(w, w', q.Dead())
    requires pc.HasClaim() ==> SameClaim(w, w', pc.claim)
    requires pc.OrphanMerged? || pc.OrphanRemoved? ==> SameClaim(w, w', pc.orphan)
    requires pc.Consuming? || pc.FinishStart? || pc.FinishLock? ==>
      pc.claim !in w'.files || Grows(w, w', FailedName(pc.claim))
    ensures PcInv(q, w', pc)
  {
    hide Queue.IsClaim, Queue.Dead, FailedName;
    if pc.Consuming? || pc.FinishStart? || pc.FinishLock? {
      var todo := if pc.Consuming? then pc.todo else [];
      assert Accounted(q, w, pc.claim, todo);
      if pc.claim in w'.files {
        forall r | r in w'.files[pc.claim] ensures Handled(q, w', pc.claim, todo, r) {
          assert Handled(q, w, pc.claim, todo, r);
        }
      }
    }
  }

  /** The claim file was not written: it is as before or gone. */
  ghost predicate SameClaim(w: World, w': World, c: string) {
    c in w'.files ==> c in w.files && w'.files[c] == w.files[c]
  }

  lemma StillDoomed(w: World, p: nat, pc: Pc, files: Files, c: string)
    requires Doomed(w.(files := files).Move(p, pc), c)
    ensures pc.Dooms(c) || Doomed(w, c)
  {
    var w' := w.(files := files).Move(p, pc);
    var o :| o in w'.procs && w'.procs[o].Dooms(c);
    assert o != p ==> w.procs[o].Dooms(c);
  }

  /** A step of `p` that writes no claim file and removes only a doomed one: nothing but
      the new state of `p`, and what it newly dooms, needs a reason. */
  lemma QuietStep(q: Queue, w: World, p: nat, files: Files, pc: Pc)
    requires Inv(q, w)
    requires pc.HasClaim() ==> w.At(p).HasClaim() && w.At(p).claim == pc.claim
    requires var w' := w.(files := files).Move(p, pc);
      && PcInv(q, w', pc)
      && (forall c :: q.IsClaim(c) ==> SameClaim(w, w', c))
      && (forall c :: q.IsClaim(c) && c in w.files && c !in files ==> Doomed(w, c))
      && Grows(w, w', q.active) && Grows(w, w', q.Dead())
      && (forall o :: o in w.procs && o != p && w.procs[o].HasClaim() ==>
            w.procs[o].claim !in files || Grows(w, w', FailedName(w.procs[o].claim)))
      && (forall c, r :: pc.Dooms(c) && !Doomed(w, c) && InFile(w, c, r) ==>
            r in w.delivered || InFile(w', q.Dead(), r) || InFile(w', q.active, r))
    ensures Inv(q, w.(files := files).Move(p, pc))
  {
    hide Queue.IsClaim, Queue.Dead, FailedName;
    var w' := w.(files := files).Move(p, pc);
    forall o | o in w'.procs ensures PcInv(q, w', w'.procs[o]) {
      if o != p {
        assert PcInv(q, w, w.procs[o]);
        PcStep(q, w, w', w.procs[o]);
      }
    }
    forall c, r | q.IsClaim(c) && InFile(w, c, r) && !Doomed(w, c) ensures Kept(q, w', r) {
      if Doomed(w', c) { StillDoomed(w, p, pc, files, c); }
    }
    KeptStep(q, w, w');
  }

  lemma AppendKeeps(q: Queue, w: World, p: nat, records: seq<Record>)
    requires Inv(q, w) && Enabled(q, w, Append(p, records))
    ensures Inv(q, Apply(q, w, Append(p, records)))
  {
    hide Queue.IsClaim, Queue.Dead, FailedName;
    NameFacts(q);
    var w' := Apply(q, w, Append(p, records));
    forall o | o in w'.procs ensures PcInv(q, w', w'.procs[o]) {
      assert PcInv(q, w, w.procs[o]);
      PcStep(q, w, w', w.procs[o]);
    }
    assert forall c :: Doomed(w', c) ==> Doomed(w, c);
    KeptStep(q, w, w');
  }

  lemma MoveKeeps(q: Queue, w: World, p: nat, pc: Pc)
    requires Inv(q, w) && PcInv(q, w, pc)
    requires pc.HasClaim() ==> w.At(p).HasClaim() && w.At(p).claim == pc.claim
    requires forall c, r :: pc.Dooms(c) && InFile(w, c, r) ==>
      r in w.delivered || InFile(w, q.Dead(), r) || InFile(w, q.active, r)
    ensures Inv(q, w.Move(p, pc))
  {
    hide Queue.IsClaim, Queue.Dead, FailedName;
    var w' := w.(files := w.files).Move(p, pc);
    PcStep(q, w, w', pc);
    QuietStep(q, w, p, w.files, pc);
  }

  lemma ClaimKeepsPcs(q: Queue, w: World, p: nat, c: string)
    requires Inv(q, w) && Enabled(q, w, Claim(p, c))
    ensures PcsOk(q, Apply(q, w, Claim(p, c)))
  {
    hide Queue.IsClaim, Queue.Dead, FailedName;
    NameFacts(q);
    var w' := Apply(q, w, Claim(p, c));
    forall o | o in w'.procs ensures PcInv(q, w', w'.procs[o]) {
      if o != p {
        assert PcInv(q, w, w.procs[o]);
        PcStep(q, w, w', w.procs[o]);
      }
    }
  }

  lemma ClaimKeeps(q: Queue, w: World, p: nat, c: string)
    requires Inv(q, w) && Enabled(q, w, Claim(p, c))
    ensures Inv(q, Apply(q, w, Claim(p, c)))
  {
    hide Queue.IsClaim, Queue.Dead, FailedName;
    NameFacts(q);
    ClaimKeepsPcs(q, w, p, c);
    var w' := Apply(q, w, Claim(p, c));
    forall d | Doomed(w', d) ensures Doomed(w, d) && d != c {
      var o :| o in w'.procs && w'.procs[o].Dooms(d);
      assert o != p && w.procs[o].Dooms(d);
      assert PcInv(q, w, w.procs[o]);
    }
    forall o | o in w.procs && w.procs[o].HasClaim() ensures w.procs[o].claim != c {
      assert PcInv(q, w, w.procs[o]);
    }
    forall r | InFile(w, q.active, r) ensures Kept(q, w', r) { assert InFile(w', c, r); }
    KeptStep(q, w, w');
  }

  /** Delivering, failing or dead-lettering the first line still to do. */
  lemma HandleAccounts(q: Queue, w: World, w': World, c: string, todo: seq<Record>)
    requires Accounted(q, w, c, todo) && todo != [] && SameClaim(w, w', c)
    requires w.delivered <= w'.delivered && Grows(w, w', q.Dead()) && Grows(w, w', FailedName(c))
    requires Handled(q, w', c, [], todo[0])
    ensures Accounted(q, w', c, todo[1..])
  {
    if c in w'.files {
      forall r | r in w'.files[c] ensures Handled(q, w', c, todo[1..], r) {
        assert Handled(q, w, c, todo, r);
      }
    }
  }

  lemma DeliverKeeps(q: Queue, w: World, p: nat)
    requires Inv(q, w) && Enabled(q, w, Deliver(p))
    ensures Inv(q, Apply(q, w, Deliver(p)))
  {
    hide Queue.IsClaim, Queue.Dead, FailedName;
    var w' := Apply(q, w, Deliver(p));
    var pc := w.At(p);
    assert PcInv(q, w, pc);
    HandleAccounts(q, w, w', pc.claim, pc.todo);
    forall o | o in w'.procs ensures PcInv(q, w', w'.procs[o]) {
      if o != p {
        assert PcInv(q, w, w.procs[o]);
        PcStep(q, w, w', w.procs[o]);
      }
    }
    forall d | Doomed(w', d) ensures Doomed(w, d) {
      var o :| o in w'.procs && w'.procs[o].Dooms(d);
      assert o != p && w.procs[o].Dooms(d);
    }
    KeptStep(q, w, w');
  }

  lemma SetAsideKeeps(q: Queue, w: World, a: Action)
    requires a.Fail? || a.DeadLetter?
    requires Inv(q, w) && Enabled(q, w, a)
    ensures Inv(q, Apply(q, w, a))
  {
    hide Queue.IsClaim, Queue.Dead, FailedName;
    NameFacts(q);
    var pc := w.At(a.p);
    assert PcInv(q, w, pc);
    var target := if a.Fail? then FailedName(pc.claim) else q.Dead();
    var files := Appended(w.files, target, [pc.todo[0]]);
    var w' := w.(files := files).Move(a.p, Consuming(pc.claim, pc.todo[1..]));
    assert InFile(w', target, pc.todo[0]);
    HandleAccounts(q, w, w', pc.claim, pc.todo);
    QuietStep(q, w, a.p, files, Consuming(pc.claim, pc.todo[1..]));
  }

  /** Appending a file to the active file, then dooming the file if it is a claim. */
  lemma MergeKeeps(q: Queue, w: World, p: nat, from: string, pc: Pc)
    requires Inv(q, w) && from in w.files && PcInv(q, w, pc)
    requires pc.HasClaim() ==> w.At(p).HasClaim() && w.At(p).claim == pc.claim
    requires forall c, r :: pc.Dooms(c) && InFile(w, c, r) ==>
      r in w.files[from] || r in w.delivered || InFile(w, q.Dead(), r)
    requires !pc.Consuming? && !pc.FinishStart? && !pc.FinishLock?
    ensures Inv(q, w.(files := Appended(w.files, q.active, w.files[from])).Move(p, pc))
  {
    hide Queue.IsClaim, Queue.Dead, FailedName;
    NameFacts(q);
    var files := Appended(w.files, q.active, w.files[from]);
    PcStep(q, w, w.(files := files).Move(p, pc), pc);
    QuietStep(q, w, p, files, pc);
  }

  /** Removing a claim this process has doomed. */
  lemma RemoveClaimKeeps(q: Queue, w: World, p: nat, c: string, pc: Pc)
    requires Inv(q, w) && p in w.procs && w.procs[p].Dooms(c)
    requires pc == Idle || (pc.OrphanRemoved? && pc.orphan == c) || pc == RestoreRemoved(c)
    requires pc.HasClaim() ==> w.procs[p].HasClaim()
    ensures Inv(q, w.(files := Removed(w.files, c)).Move(p, pc))
  {
    hide Queue.IsClaim, Queue.Dead, FailedName;
    NameFacts(q);
    assert PcInv(q, w, w.procs[p]);
    QuietStep(q, w, p, Removed(w.files, c), pc);
  }

  /** Removing the failed file of a claim that is gone, or that this process has doomed. */
  lemma RemoveFailedKeeps(q: Queue, w: World, p: nat, c: string, pc: Pc)
    requires Inv(q, w) && p in w.procs && q.IsClaim(c)
    requires w.procs[p].KnowsGone(c) || w.procs[p] == FinishMerged(c)
    requires pc == Idle || pc.Scanning? || (pc == FinishRemove(c) && w.procs[p] == FinishMerged(c))
    ensures Inv(q, w.(files := Removed(w.files, FailedName(c))).Move(p, pc))
  {
    hide Queue.IsClaim, Queue.Dead, FailedName;
    var files := Removed(w.files, FailedName(c));
    var w' := w.(files := files).Move(p, pc);
    assert PcInv(q, w, w.procs[p]);
    NameFacts(q);
    FailedSeenByOthers(q, w, w', p, c);
    assert w.procs[p] == FinishMerged(c) ==> Doomed(w, c);
    QuietStep(q, w, p, files, pc);
  }

  lemma FailedSeenByOthers(q: Queue, w: World, w': World, p: nat, c: string)
    requires Inv(q, w) && p in w.procs && q.IsClaim(c)
    requires w.procs[p].KnowsGone(c) || w.procs[p] == FinishMerged(c)
    requires w'.files == Removed(w.files, FailedName(c))
    ensures forall o :: o in w.procs && o != p && w.procs[o].HasClaim() ==>
      w.procs[o].claim !in w'.files || Grows(w, w', FailedName(w.procs[o].claim))
  {
    hide Queue.IsClaim, Queue.Dead, FailedName;
    assert PcInv(q, w, w.procs[p]);
    forall o | o in w.procs && o != p && w.procs[o].HasClaim() && w.procs[o].claim in w'.files
      ensures Grows(w, w', FailedName(w.procs[o].claim))
    {
      assert PcInv(q, w, w.procs[o]);
      var d := w.procs[o].claim;
      assert DifferentClaims(w.procs[o], w.procs[p]);
      assert c != d;
      if FailedName(c) == FailedName(d) { FailedNameInjective(q, c, d); }
    }
  }

  /** A step of `Advance` that writes no file. */
  lemma LookKeeps(q: Queue, w: World, p: nat, stale: string -> bool)
    requires Inv(q, w) && Advance(q, stale, w.files, w.At(p)).0 == w.files
    requires !w.At(p).Removing() && !Advance(q, stale, w.files, w.At(p)).1.Merging()
    ensures Inv(q, w.Move(p, Advance(q, stale, w.files, w.At(p)).1))
  {
    hide Queue.IsClaim, Queue.Dead, FailedName;
    var pc := w.At(p);
    assert p in w.procs ==> PcInv(q, w, pc);
    var next := Advance(q, stale, w.files, pc).1;
    if next.FinishRemove? {
      forall r | InFile(w, next.claim, r) ensures r in w.delivered || InFile(w, q.Dead(), r) {
        assert Handled(q, w, next.claim, [], r);
      }
    }
    MoveKeeps(q, w, p, next);
  }

  lemma MergeStepKeeps(q: Queue, w: World, p: nat, stale: string -> bool)
    requires Inv(q, w)
    requires !w.At(p).Merging() && Advance(q, stale, w.files, w.At(p)).1.Merging()
    ensures var (files, next) := Advance(q, stale, w.files, w.At(p)); Inv(q, w.(files := files).Move(p, next))
  {
    hide Queue.IsClaim, Queue.Dead, FailedName;
    var pc := w.At(p);
    var next := Advance(q, stale, w.files, pc).1;
    assert p in w.procs && PcInv(q, w, pc);
    if pc.FinishLock? {
      forall r | InFile(w, pc.claim, r)
        ensures r in w.files[FailedName(pc.claim)] || r in w.delivered || InFile(w, q.Dead(), r)
      {
        assert Handled(q, w, pc.claim, [], r);
      }
      MergeKeeps(q, w, p, FailedName(pc.claim), next);
    } else if pc.RestoreLock? {
      MergeKeeps(q, w, p, pc.claim, next);
    } else if pc.RestoreFailedLock? {
      MergeKeeps(q, w, p, FailedName(pc.claim), next);
    } else {
      assert pc.Scanning?;
      MergeKeeps(q, w, p, pc.entries[0], next);
    }
  }

  lemma RemoveStepKeeps(q: Queue, w: World, p: nat, stale: string -> bool)
    requires Inv(q, w)
    requires w.At(p).Removing()
    ensures var (files, next) := Advance(q, stale, w.files, w.At(p)); Inv(q, w.(files := files).Move(p, next))
  {
    hide Queue.IsClaim, Queue.Dead, FailedName;
    var pc := w.At(p);
    var next := Advance(q, stale, w.files, pc).1;
    assert PcInv(q, w, pc);
    match pc
    case OrphanMerged(e, rest) => RemoveClaimKeeps(q, w, p, e, next);
    case OrphanRemoved(e, rest) => RemoveFailedKeeps(q, w, p, e, next);
    case FinishMerged(c) => RemoveFailedKeeps(q, w, p, c, next);
    case FinishRemove(c) => RemoveClaimKeeps(q, w, p, c, next);
    case RestoreMerged(c) => RemoveClaimKeeps(q, w, p, c, next);
    case RestoreRemoved(c) => RemoveFailedKeeps(q, w, p, c, next);
    case RestoreFailedMerged(c) => RemoveFailedKeeps(q, w, p, c, next);
  }

  lemma RunKeeps(q: Queue, w: World, p: nat, stale: string -> bool)
    requires Inv(q, w) && Enabled(q, w, Run(p, stale))
    ensures Inv(q, Apply(q, w, Run(p, stale)))
  {
    var pc := w.At(p);
    var next := Advance(q, stale, w.files, pc).1;
    if pc.Removing() {
      RemoveStepKeeps(q, w, p, stale);
    } else if next.Merging() {
      MergeStepKeeps(q, w, p, stale);
    } else {
      LookKeeps(q, w, p, stale);
      assert w.(files := w.files) == w;
    }
  }

  lemma StepKeeps(q: Queue, w: World, a: Action)
    requires Inv(q, w) && Enabled(q, w, a)
    ensures Inv(q, Apply(q, w, a))
  {
    hide Queue.IsClaim, Queue.Dead, FailedName;
    assert a.p in w.procs ==> PcInv(q, w, w.procs[a.p]);
    match a
    case Append(p, records) => AppendKeeps(q, w, p, records);
    case Claim(p, c) => ClaimKeeps(q, w, p, c);
    case Deliver(p) => DeliverKeeps(q, w, p);
    case Fail(p) => SetAsideKeeps(q, w, a);
    case DeadLetter(p) => SetAsideKeeps(q, w, a);
    case Run(p, stale) => RunKeeps(q, w, p, stale);
    case Recover(p, entries) => MoveKeeps(q, w, p, Scanning(entries));
    case Read(p) => MoveKeeps(q, w, p, Consuming(w.At(p).claim, w.files[w.At(p).claim]));
    case BeginFinish(p) => MoveKeeps(q, w, p, FinishStart(w.At(p).claim));
    case BeginRestore(p) => MoveKeeps(q, w, p, RestoreStart(w.At(p).claim));
    case Crash(p) => MoveKeeps(q, w, p, Idle);
  }

  lemma {:induction false} RunKeepsInv(q: Queue, w: World, run: seq<Action>)
    requires Inv(q, w) && ValidRun(q, w, run)
    ensures Inv(q, After(q, w, run))
    decreases |run|
  {
    if run != [] {
      StepKeeps(q, w, run[0]);
      RunKeepsInv(q, Apply(q, w, run[0]), run[1..]);
    }
  }

  /** No record is ever lost: over every interleaving of any number of processes, each
      dying at any point, with claims taken over at any age, an appended record was
      delivered, dead-lettered, or is in the active file or in a claim file. */
  lemma NoRecordIsLost(q: Queue, run: seq<Action>, r: Record)
    requires ValidRun(q, EMPTY, run) && r in After(q, EMPTY, run).appended
    ensures Safe(q, After(q, EMPTY, run), r)
  {
    RunKeepsInv(q, EMPTY, run);
    assert Kept(q, After(q, EMPTY, run), r);
  }

  // ---------------------------------------------------------------- exclusion and origin

  ghost predicate OneHolder(w: World) {
    forall p, o :: p in w.procs && o in w.procs && p != o ==>
      !(w.procs[p].HoldsLock() && w.procs[o].HoldsLock())
  }

  predicate FromAppend(w: World, records: seq<Record>) { forall r :: r in records ==> r in w.appended }

  /** Every record anywhere was appended by somebody. */
  ghost predicate NothingInvented(w: World) {
    && w.delivered <= w.appended
    && (forall name :: name in w.files ==> FromAppend(w, w.files[name]))
    && (forall p :: p in w.procs && w.procs[p].Consuming? ==> FromAppend(w, w.procs[p].todo))
  }

  lemma StepExcludes(q: Queue, w: World, a: Action)
    requires OneHolder(w) && Enabled(q, w, a)
    ensures OneHolder(Apply(q, w, a))
  {
  }

  lemma StepInventsNothing(q: Queue, w: World, a: Action)
    requires NothingInvented(w) && Enabled(q, w, a)
    ensures NothingInvented(Apply(q, w, a))
  {
    hide Queue.IsClaim, Queue.Dead, FailedName;
    var w' := Apply(q, w, a);
    var pc := w.At(a.p);
    if a.Append? {
      forall p | p in w'.procs && w'.procs[p].Consuming? ensures FromAppend(w', w'.procs[p].todo) {
        assert FromAppend(w, w.procs[p].todo);
      }
    }
    forall name | name in w'.files ensures FromAppend(w', w'.files[name]) {
      assert name in w.files ==> FromAppend(w, w.files[name]);
    }
  }

  /** Over every run no file and no delivery ever holds a record that was not appended. The
      queue lock has at most one holder, as the guards of the steps have it. */
  lemma {:induction false} RunsExcludeAndInventNothing(q: Queue, w: World, run: seq<Action>)
    requires OneHolder(w) && NothingInvented(w) && ValidRun(q, w, run)
    ensures OneHolder(After(q, w, run)) && NothingInvented(After(q, w, run))
    decreases |run|
  {
    if run != [] {
      StepExcludes(q, w, run[0]);
      StepInventsNothing(q, w, run[0]);
      RunsExcludeAndInventNothing(q, Apply(q, w, run[0]), run[1..]);
    }
  }
}
