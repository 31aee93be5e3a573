/** Exact bookkeeping of the spill queue (src/spill_queue.rs) over the runs of SpillProtocol
    in which nobody dies: a process takes claims under its own pid, gives one back only
    before it handled a line, and recovery asks for a positive age. */
module SpillConservation {
  import opened SpillPaths
  import opened SpillProtocol

  const PID_MAX := 0x7FFF_FFFF

  /** The name `next_claim_path` makes for process `p`. */
  ghost predicate NamedBy(q: Queue, p: nat, c: string) {
    exists nanos: nat, sequence: nat :: IsNameOf(q, p, c, nanos, sequence)
  }

  predicate IsNameOf(q: Queue, p: nat, c: string, nanos: nat, sequence: nat) {
    0 < p <= PID_MAX && nanos < U128_LIMIT && c == q.ClaimName(p, nanos, sequence)
  }

  /** `stale` is what `is_stale_claim` answers for some positive age while every process
      with a claim runs. */
  ghost predicate Honest(q: Queue, w: World, stale: string -> bool) {
    exists minAge: nat, now: nat, alive: int -> bool :: AnswersFor(q, w, stale, minAge, now, alive)
  }

  ghost predicate AnswersFor(q: Queue, w: World, stale: string -> bool, minAge: nat, now: nat, alive: int -> bool) {
    && minAge > 0
    && (forall o :: o in w.procs && w.procs[o].HasClaim() ==> alive(o))
    && forall n :: stale(n) == q.IsStale(n, minAge, now, alive)
  }

  ghost predicate Orderly(q: Queue, w: World, a: Action) {
    match a
    case Claim(p, c) => NamedBy(q, p, c)
    case BeginRestore(p) => w.At(p).Claimed? || (w.At(p).Consuming? && w.At(p).todo == Content(w.files, w.At(p).claim))
    case Run(p, stale) => w.At(p).Scanning? ==> Honest(q, w, stale)
    case Crash(p) => false
    case _ => true
  }

  ghost predicate OrderlyRun(q: Queue, w: World, run: seq<Action>)
    requires ValidRun(q, w, run)
    decreases |run|
  {
    run != [] ==> Orderly(q, w, run[0]) && OrderlyRun(q, Apply(q, w, run[0]), run[1..])
  }

  // ---------------------------------------------------------------- what came in and went out

  function Appends(a: Action): multiset<Record> { if a.Append? then multiset(a.records) else multiset{} }

  function Delivers(w: World, a: Action): multiset<Record> {
    if a.Deliver? && w.At(a.p).Consuming? && w.At(a.p).todo != [] then multiset{w.At(a.p).todo[0]} else multiset{}
  }

  /** Everything the run appended. */
  function AllAppended(run: seq<Action>): multiset<Record> {
    if run == [] then multiset{} else Appends(run[0]) + AllAppended(run[1..])
  }

  /** Every delivery of the run, each as often as it happened. */
  ghost function AllDelivered(q: Queue, w: World, run: seq<Action>): multiset<Record>
    requires ValidRun(q, w, run)
    decreases |run|
  {
    if run == [] then multiset{} else Delivers(w, run[0]) + AllDelivered(q, Apply(q, w, run[0]), run[1..])
  }

  // ---------------------------------------------------------------- what a process still owes

  /** The records a process is answerable for: those of its claim nobody handled, and those
      it set aside as failed, until they are back in the active file. */
  function Owes(files: Files, pc: Pc): multiset<Record> {
    match pc
    case Claimed(c) => multiset(Content(files, c))
    case RestoreStart(c) => multiset(Content(files, c))
    case RestoreLock(c) => multiset(Content(files, c))
    case Consuming(c, todo) => multiset(todo) + multiset(Content(files, FailedName(c)))
    case FinishStart(c) => multiset(Content(files, FailedName(c)))
    case FinishLock(c) => multiset(Content(files, FailedName(c)))
    case _ => multiset{}
  }

  function OwedBy(w: World): map<nat, multiset<Record>> { map p | p in w.procs :: Owes(w.files, w.procs[p]) }

  ghost function Sum(m: map<nat, multiset<Record>>): multiset<Record>
    decreases |m.Keys|
  {
    if m == map[] then multiset{}
    else
      var p :| p in m;
      assert (m - {p}).Keys == m.Keys - {p};
      m[p] + Sum(m - {p})
  }

  /** Where every record is that was not delivered. */
  ghost function Total(q: Queue, w: World): multiset<Record> {
    multiset(Content(w.files, q.active)) + Sum(OwedBy(w)) + multiset(Content(w.files, q.Dead()))
  }

  lemma {:induction false} SumSplit(m: map<nat, multiset<Record>>, p: nat)
    requires p in m
    ensures Sum(m) == m[p] + Sum(m - {p})
    decreases |m.Keys|
  {
    var d :| d in m && Sum(m) == m[d] + Sum(m - {d});
    if d != p {
      assert (m - {d}).Keys == m.Keys - {d} && (m - {p}).Keys == m.Keys - {p};
      SumSplit(m - {d}, p);
      SumSplit(m - {p}, d);
      assert m - {d} - {p} == m - {p} - {d};
    }
  }

  lemma SumUpdate(m: map<nat, multiset<Record>>, p: nat, v: multiset<Record>)
    ensures Sum(m[p := v]) + (if p in m then m[p] else multiset{}) == Sum(m) + v
  {
    SumSplit(m[p := v], p);
    if p in m {
      SumSplit(m, p);
      assert m[p := v] - {p} == m - {p};
    } else {
      assert m[p := v] - {p} == m;
    }
  }

  // ---------------------------------------------------------------- the invariant

  predicate HasFile(pc: Pc) {
    pc.Claimed? || pc.Consuming? || pc.FinishStart? || pc.FinishLock? || pc.FinishMerged? || pc.FinishRemove?
    || pc.RestoreStart? || pc.RestoreLock? || pc.RestoreMerged?
  }

  predicate MayHaveFailed(pc: Pc) { pc.Consuming? || pc.FinishStart? || pc.FinishLock? || pc.FinishMerged? }

  predicate Owner(q: Queue, c: string, p: nat) {
    q.IsClaim(c) && q.ClaimFields(c).Some? && q.ClaimFields(c).value.0 == p && 0 < p <= PID_MAX
  }

  /** One process: its claim is its own, is there while it works on it, and has a failed
      file only after a line was set aside. */
  predicate PcOk(q: Queue, files: Files, p: nat, pc: Pc) {
    && (pc.Idle? || pc.Scanning? || HasFile(pc) || pc.RestoreRemoved?)
    && (pc.HasClaim() ==> Owner(q, pc.claim, p))
    && (HasFile(pc) ==> pc.claim in files)
    && (pc.FinishLock? ==> FailedName(pc.claim) in files)
    && (pc.Consuming? ==> |pc.todo| <= |files[pc.claim]|)
    && (pc.Consuming? && |pc.todo| == |files[pc.claim]| ==> FailedName(pc.claim) !in files)
  }

  predicate HeldFile(q: Queue, w: World, c: string) {
    exists p: nat :: p in w.procs && HasFile(w.procs[p]) && w.procs[p].claim == c
  }

  predicate HeldFailed(q: Queue, w: World, c: string) {
    exists p: nat :: p in w.procs && MayHaveFailed(w.procs[p]) && w.procs[p].claim == c
  }

  /** Every claim file and every failed file is some process's work under way. */
  ghost predicate Structure(q: Queue, w: World) {
    && (forall p :: p in w.procs ==> PcOk(q, w.files, p, w.procs[p]))
    && (forall c :: c in w.files && q.IsClaim(c) ==> HeldFile(q, w, c))
    && (forall c {:trigger FailedName(c)} :: q.IsClaim(c) && FailedName(c) in w.files ==> HeldFailed(q, w, c))
  }

  lemma OwnNameHasOwner(q: Queue, p: nat, c: string)
    requires NamedBy(q, p, c)
    ensures Owner(q, c, p)
  {
    hide Queue.ClaimName, Queue.ClaimFields, Queue.IsClaim;
    var nanos: nat, sequence: nat :| IsNameOf(q, p, c, nanos, sequence);
    ClaimNameRoundTrip(q, p, nanos, sequence);
  }

  /** A claim whose owner runs is not stale at any positive age. */
  lemma LiveClaimsAreNotStale(q: Queue, w: World, stale: string -> bool, c: string)
    requires Structure(q, w) && Honest(q, w, stale) && c in w.files && q.IsClaim(c)
    ensures !stale(c)
  {
    hide Queue.ClaimFields, Queue.IsClaim, FailedName;
    var minAge: nat, now: nat, alive: int -> bool :| AnswersFor(q, w, stale, minAge, now, alive);
    assert HeldFile(q, w, c);
    var p: nat :| p in w.procs && HasFile(w.procs[p]) && w.procs[p].claim == c;
    assert PcOk(q, w.files, p, w.procs[p]) && alive(p);
    assert q.IsStale(c, minAge, now, alive) == stale(c);
  }

  // ---------------------------------------------------------------- one process moves

  /** Only the active file, the dead-letter file and the files of claim `c` may differ. */
  ghost predicate Only(q: Queue, files: Files, files': Files, c: string) {
    forall n :: n != q.active && n != q.Dead() && n != c && n != FailedName(c) ==>
      (n in files' <==> n in files) && (n in files' ==> files'[n] == files[n])
  }

  /** A process that works on `c`, or stops working, or starts. */
  predicate WorksOn(pc: Pc, c: string) { pc.HasClaim() ==> pc.claim == c }

  lemma ClaimsApart(q: Queue, c: string, p: nat, d: string, o: nat)
    requires Owner(q, c, p) && Owner(q, d, o) && p != o
    ensures d != c && d != FailedName(c) && d != q.active && d != q.Dead()
    ensures FailedName(d) != c && FailedName(d) != FailedName(c) && FailedName(d) != q.active
      && FailedName(d) != q.Dead()
  {
    hide Queue.ClaimFields, Queue.IsClaim, Queue.Dead, FailedName;
    NamesApart(q, c);
    NamesApart(q, d);
    if FailedName(c) == FailedName(d) { FailedNameInjective(q, c, d); }
  }

  /** The other processes see none of it. */
  lemma OthersKeep(q: Queue, w: World, p: nat, c: string, files': Files, o: nat)
    requires Structure(q, w) && Owner(q, c, p) && Only(q, w.files, files', c) && o in w.procs && o != p
    ensures PcOk(q, files', o, w.procs[o]) && Owes(files', w.procs[o]) == Owes(w.files, w.procs[o])
  {
    hide Queue.ClaimFields, Queue.IsClaim, Queue.Dead, FailedName;
    assert PcOk(q, w.files, o, w.procs[o]);
    if w.procs[o].HasClaim() { ClaimsApart(q, c, p, w.procs[o].claim, o); }
  }

  lemma OwnerIsClaim(q: Queue, c: string, p: nat)
    requires Owner(q, c, p)
    ensures q.IsClaim(c)
  {
  }

  lemma StillHeld(q: Queue, w: World, w': World, p: nat, c: string, d: string)
    requires HeldFile(q, w, d) && w'.procs == w.procs[p := w'.At(p)] && WorksOn(w.At(p), c) && d != c
    ensures HeldFile(q, w', d)
  {
    var o: nat :| o in w.procs && HasFile(w.procs[o]) && w.procs[o].claim == d;
    assert o in w'.procs && HasFile(w'.procs[o]) && w'.procs[o].claim == d;
  }

  lemma StillFailing(q: Queue, w: World, w': World, p: nat, c: string, d: string)
    requires HeldFailed(q, w, d) && w'.procs == w.procs[p := w'.At(p)] && WorksOn(w.At(p), c) && d != c
    ensures HeldFailed(q, w', d)
  {
    var o: nat :| o in w.procs && MayHaveFailed(w.procs[o]) && w.procs[o].claim == d;
    assert o in w'.procs && MayHaveFailed(w'.procs[o]) && w'.procs[o].claim == d;
  }

  /** The step of process `p` on claim `c` keeps the invariant. */
  lemma StructureStep(q: Queue, w: World, w': World, p: nat, c: string, pc: Pc)
    requires Structure(q, w) && Owner(q, c, p) && Only(q, w.files, w'.files, c) && w'.procs == w.procs[p := pc]
    requires WorksOn(w.At(p), c) && WorksOn(pc, c) && PcOk(q, w'.files, p, pc)
    requires c in w'.files ==> HasFile(pc)
    requires FailedName(c) in w'.files ==> MayHaveFailed(pc)
    ensures Structure(q, w')
  {
    hide Queue.ClaimFields, Queue.IsClaim, Queue.Dead, FailedName, Owes, Owner, HasFile, MayHaveFailed, PcOk;
    NameFacts(q);
    OwnerIsClaim(q, c, p);
    forall o | o in w'.procs ensures PcOk(q, w'.files, o, w'.procs[o]) {
      if o != p { OthersKeep(q, w, p, c, w'.files, o); }
    }
    forall d | d in w'.files && q.IsClaim(d) ensures HeldFile(q, w', d) {
      if d == c {
        HasFileIsClaim(pc);
        assert p in w'.procs && HasFile(w'.procs[p]) && w'.procs[p].claim == d;
      } else {
        assert d in w.files;
        StillHeld(q, w, w', p, c, d);
      }
    }
    forall d {:trigger FailedName(d)} | q.IsClaim(d) && FailedName(d) in w'.files ensures HeldFailed(q, w', d) {
      if d == c {
        HasFileIsClaim(pc);
        assert p in w'.procs && MayHaveFailed(w'.procs[p]) && w'.procs[p].claim == d;
      } else {
        assert FailedName(d) in w.files;
        StillFailing(q, w, w', p, c, d);
      }
    }
  }

  lemma HasFileIsClaim(pc: Pc)
    ensures HasFile(pc) || MayHaveFailed(pc) ==> pc.HasClaim()
  {
  }

  /** What the step changes of the whole is what it changes of its own part. */
  lemma TotalStep(q: Queue, w: World, w': World, p: nat, c: string, pc: Pc)
    requires Structure(q, w) && Owner(q, c, p) && Only(q, w.files, w'.files, c) && w'.procs == w.procs[p := pc]
    ensures Sum(OwedBy(w')) + Owes(w.files, w.At(p)) == Sum(OwedBy(w)) + Owes(w'.files, pc)
  {
    hide Queue.ClaimFields, Queue.IsClaim, Queue.Dead, FailedName, Owes, Owner, Only, Structure, Sum;
    forall o | o in w.procs && o != p ensures Owes(w'.files, w.procs[o]) == Owes(w.files, w.procs[o]) {
      OthersKeep(q, w, p, c, w'.files, o);
    }
    assert OwedBy(w') == OwedBy(w)[p := Owes(w'.files, pc)];
    SumUpdate(OwedBy(w), p, Owes(w'.files, pc));
    IdleOwesNothing(w.files);
  }

  lemma IdleOwesNothing(files: Files)
    ensures Owes(files, Idle) == multiset{}
  {
  }

  /** The part of one process: what is in the shared files and what it owes. */
  function Part(q: Queue, files: Files, pc: Pc): multiset<Record> {
    multiset(Content(files, q.active)) + Owes(files, pc) + multiset(Content(files, q.Dead()))
  }

  /** One step, seen from the process that takes it. */
  ghost predicate OwnPart(q: Queue, w: World, a: Action, w': World, c: string, pc: Pc) {
    && Owner(q, c, a.p) && Only(q, w.files, w'.files, c) && w'.procs == w.procs[a.p := pc]
    && WorksOn(w.At(a.p), c) && WorksOn(pc, c) && PcOk(q, w'.files, a.p, pc)
    && (c in w'.files ==> HasFile(pc)) && (FailedName(c) in w'.files ==> MayHaveFailed(pc))
    && Part(q, w.files, w.At(a.p)) + Appends(a) == Part(q, w'.files, pc) + Delivers(w, a)
  }

  ghost predicate Balances(q: Queue, w: World, a: Action, w': World) {
    Structure(q, w') && Total(q, w) + Appends(a) == Total(q, w') + Delivers(w, a)
  }

  lemma OwnPartIsEnough(q: Queue, w: World, a: Action, w': World, c: string, pc: Pc)
    requires Structure(q, w) && OwnPart(q, w, a, w', c, pc)
    ensures Balances(q, w, a, w')
  {
    hide Queue.ClaimFields, Queue.IsClaim, Queue.Dead, FailedName, Owes, Owner, Only, Structure, Sum, Content, PcOk,
      OwedBy, Appends, Delivers;
    StructureStep(q, w, w', a.p, c, pc);
    TotalStep(q, w, w', a.p, c, pc);
    Cancel(multiset(Content(w.files, q.active)), multiset(Content(w'.files, q.active)), Sum(OwedBy(w)), Sum(OwedBy(w')),
           Owes(w.files, w.At(a.p)), Owes(w'.files, pc),
           multiset(Content(w.files, q.Dead())), multiset(Content(w'.files, q.Dead())), Appends(a), Delivers(w, a));
  }

  lemma Cancel(a: multiset<Record>, a': multiset<Record>, s: multiset<Record>, s': multiset<Record>,
          o: multiset<Record>, o': multiset<Record>, d: multiset<Record>, d': multiset<Record>,
          came: multiset<Record>, went: multiset<Record>)
    requires s' + o == s + o' && a + o + d + came == a' + o' + d' + went
    ensures a + s + d + came == a' + s' + d' + went
  {
    forall r ensures (a + s + d + came)[r] == (a' + s' + d' + went)[r] {
      assert (s' + o)[r] == (s + o')[r] && (a + o + d + came)[r] == (a' + o' + d' + went)[r];
    }
  }

  // ---------------------------------------------------------------- every step balances

  /** What the invariant says of a process with a claim. */
  lemma OwnFacts(q: Queue, w: World, p: nat)
    requires Structure(q, w) && w.At(p).HasClaim()
    ensures p in w.procs && PcOk(q, w.files, p, w.At(p)) && Owner(q, w.At(p).claim, p)
    ensures FailedName(w.At(p).claim) in w.files ==> MayHaveFailed(w.At(p))
    ensures w.At(p).claim in w.files ==> HasFile(w.At(p))
  {
    hide Queue.ClaimFields, Queue.IsClaim, FailedName;
    var c := w.At(p).claim;
    assert PcOk(q, w.files, p, w.procs[p]);
    OwnerIsClaim(q, c, p);
    if FailedName(c) in w.files {
      assert HeldFailed(q, w, c);
      var o: nat :| o in w.procs && MayHaveFailed(w.procs[o]) && w.procs[o].claim == c;
      assert PcOk(q, w.files, o, w.procs[o]);
    }
    if c in w.files {
      assert HeldFile(q, w, c);
      var o: nat :| o in w.procs && HasFile(w.procs[o]) && w.procs[o].claim == c;
      assert PcOk(q, w.files, o, w.procs[o]);
    }
  }

  /** The active file becomes the claim. */
  lemma ClaimPc(q: Queue, w: World, p: nat, c: string)
    requires Enabled(q, w, Claim(p, c)) && Owner(q, c, p)
    ensures var files := Apply(q, w, Claim(p, c)).files;
      && Only(q, w.files, files, c) && PcOk(q, files, p, Claimed(c)) && FailedName(c) !in files
      && Content(files, q.active) == [] && Content(files, c) == Content(w.files, q.active)
      && Content(files, q.Dead()) == Content(w.files, q.Dead())
  {
    hide Queue.ClaimFields, Queue.IsClaim, Queue.Dead, Queue.ClaimName, FailedName, Owner;
    Apart(q, c, p);
  }

  lemma ClaimPart(q: Queue, w: World, p: nat, c: string)
    requires Enabled(q, w, Claim(p, c)) && Owner(q, c, p)
    ensures Part(q, w.files, w.At(p)) == Part(q, Apply(q, w, Claim(p, c)).files, Claimed(c))
  {
    assert w.At(p).Idle?;
    hide Queue.Dead, FailedName, Owner, Apply, Content, Enabled, PcOk, Only;
    ClaimPc(q, w, p, c);
    assert multiset(Content(w.files, q.active)) + multiset{} == multiset([]) + multiset(Content(w.files, q.active));
  }

  lemma ClaimBalances(q: Queue, w: World, p: nat, c: string)
    requires Structure(q, w) && Enabled(q, w, Claim(p, c)) && NamedBy(q, p, c)
    ensures Balances(q, w, Claim(p, c), Apply(q, w, Claim(p, c)))
  {
    hide Queue.ClaimFields, Queue.IsClaim, Queue.Dead, Queue.ClaimName, FailedName, Structure, Owner, NamedBy,
      Balances, Part, Only, PcOk;
    OwnNameHasOwner(q, p, c);
    ClaimPc(q, w, p, c);
    ClaimPart(q, w, p, c);
    var a := Claim(p, c);
    assert Part(q, w.files, w.At(p)) + multiset{} == Part(q, w.files, w.At(p));
    assert OwnPart(q, w, a, Apply(q, w, a), c, Claimed(c));
    OwnPartIsEnough(q, w, a, Apply(q, w, a), c, Claimed(c));
  }

  lemma Apart(q: Queue, c: string, p: nat)
    requires Owner(q, c, p)
    ensures c != q.active && c != q.Dead() && FailedName(c) != c && FailedName(c) != q.active
      && FailedName(c) != q.Dead()
    ensures q.active != q.Dead()
  {
    hide Queue.ClaimFields, Queue.Dead, FailedName;
    NamesApart(q, c);
    hide Queue.IsClaim;
  }

  /** What the invariant needs of the process that moved and of its files. */
  ghost predicate KeepsOwn(q: Queue, w: World, a: Action, w': World, c: string) {
    && a.p in w'.procs && Only(q, w.files, w'.files, c) && w'.procs == w.procs[a.p := w'.procs[a.p]]
    && WorksOn(w'.procs[a.p], c) && PcOk(q, w'.files, a.p, w'.procs[a.p])
    && (c in w'.files ==> HasFile(w'.procs[a.p]))
    && (FailedName(c) in w'.files ==> MayHaveFailed(w'.procs[a.p]))
  }

  lemma PcOwner(q: Queue, files: Files, p: nat, pc: Pc)
    requires PcOk(q, files, p, pc) && pc.HasClaim()
    ensures Owner(q, pc.claim, p)
  {
  }

  lemma PartIsEnough(q: Queue, w: World, a: Action, w': World)
    requires Structure(q, w) && w.At(a.p).HasClaim() && Owner(q, w.At(a.p).claim, a.p) && !a.Append?
    requires KeepsOwn(q, w, a, w', w.At(a.p).claim)
    requires Part(q, w.files, w.At(a.p)) == Part(q, w'.files, w'.procs[a.p]) + Delivers(w, a)
    ensures Balances(q, w, a, w')
  {
    hide FailedName, Structure, Owner, Balances, Part, PcOk, Only, Delivers, HasFile, MayHaveFailed;
    var c := w.At(a.p).claim;
    assert OwnPart(q, w, a, w', c, w'.procs[a.p]);
    OwnPartIsEnough(q, w, a, w', c, w'.procs[a.p]);
  }

  /** Reading, starting to finish, starting to restore: nothing is written. */
  lemma TurnBalances(q: Queue, w: World, a: Action)
    requires a.Read? || a.BeginFinish? || a.BeginRestore?
    requires Structure(q, w) && Enabled(q, w, a) && Orderly(q, w, a)
    ensures Balances(q, w, a, Apply(q, w, a))
  {
    hide Queue.Dead, Queue.IsClaim, FailedName, Structure, Owner, Balances, Part, PcOk, Apply, KeepsOwn, Orderly;
    OwnFacts(q, w, a.p);
    PcOwner(q, w.files, a.p, w.At(a.p));
    TurnPc(q, w, a);
    TurnPart(q, w, a);
    SamePart(q, w.files, w.At(a.p), w.files, Apply(q, w, a).procs[a.p]);
    PartIsEnough(q, w, a, Apply(q, w, a));
  }

  lemma SamePart(q: Queue, files: Files, pc: Pc, files': Files, pc': Pc)
    requires Owes(files, pc) == Owes(files', pc') && Content(files, q.active) == Content(files', q.active)
    requires Content(files, q.Dead()) == Content(files', q.Dead())
    ensures Part(q, files, pc) == Part(q, files', pc')
  {
  }

  lemma TurnPc(q: Queue, w: World, a: Action)
    requires a.Read? || a.BeginFinish? || a.BeginRestore?
    requires Enabled(q, w, a) && Orderly(q, w, a) && PcOk(q, w.files, a.p, w.At(a.p))
    requires FailedName(w.At(a.p).claim) in w.files ==> MayHaveFailed(w.At(a.p))
    ensures Apply(q, w, a).files == w.files && KeepsOwn(q, w, a, Apply(q, w, a), w.At(a.p).claim)
  {
    hide Queue.ClaimFields, Queue.IsClaim, Queue.Dead, FailedName, Owner, Delivers, Part;
  }

  lemma TurnPart(q: Queue, w: World, a: Action)
    requires a.Read? || a.BeginFinish? || a.BeginRestore?
    requires Enabled(q, w, a) && Orderly(q, w, a) && PcOk(q, w.files, a.p, w.At(a.p))
    requires FailedName(w.At(a.p).claim) in w.files ==> MayHaveFailed(w.At(a.p))
    ensures a.p in Apply(q, w, a).procs && Owes(w.files, w.At(a.p)) == Owes(w.files, Apply(q, w, a).procs[a.p])
  {
    hide Queue.ClaimFields, Queue.IsClaim, Queue.Dead, FailedName, Owner, Delivers, Part;
    var failed := Content(w.files, FailedName(w.At(a.p).claim));
    if a.BeginFinish? {
      assert multiset([]) + multiset(failed) == multiset(failed);
    } else {
      assert failed == [];
      var lines := Content(w.files, w.At(a.p).claim);
      assert multiset(lines) + multiset(failed) == multiset(lines);
    }
  }

  /** The first line moves out, to the failed file, or to the dead-letter file. */
  lemma LineMoves(active: seq<Record>, todo: seq<Record>, failed: seq<Record>, dead: seq<Record>)
    requires todo != []
    ensures Pieces(active, todo, failed, dead) == Pieces(active, todo[1..], failed, dead) + multiset{todo[0]}
    ensures Pieces(active, todo, failed, dead) == Pieces(active, todo[1..], failed + [todo[0]], dead) + multiset{}
    ensures Pieces(active, todo, failed, dead) == Pieces(active, todo[1..], failed, dead + [todo[0]]) + multiset{}
  {
    assert todo == [todo[0]] + todo[1..];
  }

  function Pieces(active: seq<Record>, todo: seq<Record>, failed: seq<Record>, dead: seq<Record>): multiset<Record> {
    multiset(active) + (multiset(todo) + multiset(failed)) + multiset(dead)
  }

  lemma PartInPieces(q: Queue, files: Files, c: string, todo: seq<Record>)
    ensures Part(q, files, Consuming(c, todo))
      == Pieces(Content(files, q.active), todo, Content(files, FailedName(c)), Content(files, q.Dead()))
  {
  }

  lemma HandleContents(q: Queue, w: World, a: Action)
    requires a.Deliver? || a.Fail? || a.DeadLetter?
    requires Enabled(q, w, a) && Owner(q, w.At(a.p).claim, a.p)
    ensures var w', pc := Apply(q, w, a), w.At(a.p);
      && w'.procs == w.procs[a.p := Consuming(pc.claim, pc.todo[1..])]
      && Content(w'.files, q.active) == Content(w.files, q.active)
      && Content(w'.files, FailedName(pc.claim))
         == Content(w.files, FailedName(pc.claim)) + (if a.Fail? then [pc.todo[0]] else [])
      && Content(w'.files, q.Dead()) == Content(w.files, q.Dead()) + (if a.DeadLetter? then [pc.todo[0]] else [])
  {
    hide Queue.ClaimFields, Queue.IsClaim, Queue.Dead, FailedName, Owner;
    Apart(q, w.At(a.p).claim, a.p);
  }

  lemma HandlePart(q: Queue, w: World, a: Action)
    requires a.Deliver? || a.Fail? || a.DeadLetter?
    requires Enabled(q, w, a) && Owner(q, w.At(a.p).claim, a.p)
    ensures var w' := Apply(q, w, a);
      && a.p in w'.procs
      && Part(q, w.files, w.At(a.p)) == Part(q, w'.files, w'.procs[a.p]) + Delivers(w, a)
  {
    hide Queue.Dead, FailedName, Owner, Content, Apply, Pieces, Part, Owes;
    var c, todo, files := w.At(a.p).claim, w.At(a.p).todo, Apply(q, w, a).files;
    HandleContents(q, w, a);
    PartInPieces(q, w.files, c, todo);
    PartInPieces(q, files, c, todo[1..]);
    var active, failed, dead := Content(w.files, q.active), Content(w.files, FailedName(c)), Content(w.files, q.Dead());
    LineMoves(active, todo, failed, dead);
    if a.Deliver? {
      assert failed + [] == failed && dead + [] == dead;
    } else if a.Fail? {
      assert dead + [] == dead;
    } else {
      assert failed + [] == failed;
    }
  }

  lemma HandlePc(q: Queue, w: World, a: Action)
    requires a.Deliver? || a.Fail? || a.DeadLetter?
    requires Enabled(q, w, a) && PcOk(q, w.files, a.p, w.At(a.p))
    ensures KeepsOwn(q, w, a, Apply(q, w, a), w.At(a.p).claim)
  {
    hide Queue.ClaimFields, Queue.IsClaim, Queue.Dead, FailedName, Owner;
    Apart(q, w.At(a.p).claim, a.p);
  }

  /** The first line still to do is delivered, set aside, or dead-lettered. */
  lemma HandleBalances(q: Queue, w: World, a: Action)
    requires a.Deliver? || a.Fail? || a.DeadLetter?
    requires Structure(q, w) && Enabled(q, w, a)
    ensures Balances(q, w, a, Apply(q, w, a))
  {
    hide Queue.Dead, FailedName, Structure, Owner, Balances, Part, PcOk, Apply, Appends, Delivers, KeepsOwn;
    OwnFacts(q, w, a.p);
    PcOwner(q, w.files, a.p, w.At(a.p));
    HandlePart(q, w, a);
    HandlePc(q, w, a);
    PartIsEnough(q, w, a, Apply(q, w, a));
  }

  /** A file is merged into the active file: the failed file of a claim being finished, or
      the claim being given back. */
  lemma MergeContents(q: Queue, w: World, a: Action, merged: seq<Record>)
    requires a.Run? && Enabled(q, w, a) && PcOk(q, w.files, a.p, w.At(a.p))
    requires (w.At(a.p).FinishLock? && merged == Content(w.files, FailedName(w.At(a.p).claim)))
          || (w.At(a.p).RestoreLock? && merged == Content(w.files, w.At(a.p).claim))
    ensures var w' := Apply(q, w, a);
      && Content(w'.files, q.active) == Content(w.files, q.active) + merged
      && Content(w'.files, q.Dead()) == Content(w.files, q.Dead())
      && a.p in w'.procs && (w'.procs[a.p].FinishMerged? || w'.procs[a.p].RestoreMerged?)
  {
    hide Queue.ClaimFields, Queue.IsClaim, Queue.Dead, FailedName, Owner, Owes;
    Apart(q, w.At(a.p).claim, a.p);
  }

  lemma MergePart(q: Queue, w: World, a: Action)
    requires a.Run? && (w.At(a.p).FinishLock? || w.At(a.p).RestoreLock?)
    requires Enabled(q, w, a) && PcOk(q, w.files, a.p, w.At(a.p))
    ensures var w' := Apply(q, w, a);
      && a.p in w'.procs
      && Part(q, w.files, w.At(a.p)) == Part(q, w'.files, w'.procs[a.p])
  {
    hide Queue.Dead, FailedName, Owner, Content, Apply, PcOk, Enabled, Advance;
    var pc := w.At(a.p);
    var merged := Content(w.files, if pc.FinishLock? then FailedName(pc.claim) else pc.claim);
    var active, dead := Content(w.files, q.active), Content(w.files, q.Dead());
    MergeContents(q, w, a, merged);
    assert multiset(active) + multiset(merged) + multiset(dead)
      == multiset(active + merged) + multiset{} + multiset(dead);
  }

  /** Every other step of finishing or restoring leaves the shared files and the debt. */
  lemma SettleOwes(q: Queue, w: World, a: Action)
    requires a.Run? && w.At(a.p).HasClaim() && !w.At(a.p).FinishLock? && !w.At(a.p).RestoreLock?
    requires Enabled(q, w, a) && PcOk(q, w.files, a.p, w.At(a.p))
    ensures var w' := Apply(q, w, a);
      && a.p in w'.procs
      && Owes(w.files, w.At(a.p)) == Owes(w'.files, w'.procs[a.p])
  {
    hide Queue.ClaimFields, Queue.IsClaim, Queue.Dead, FailedName, Owner, Owes;
    var pc := w.At(a.p);
    var (files, next) := Advance(q, a.stale, w.files, pc);
    if pc.FinishStart? || pc.RestoreStart? {
      LookOwes(w.files, pc, next);
    } else if !pc.Claimed? && !pc.Consuming? {
      SettledOwes(w.files, files, pc, next);
    }
  }

  lemma LookOwes(files: Files, pc: Pc, next: Pc)
    requires pc.FinishStart? || (pc.RestoreStart? && next == RestoreLock(pc.claim))
    requires pc.FinishStart? ==>
      next == if FailedName(pc.claim) in files then FinishLock(pc.claim) else FinishRemove(pc.claim)
    ensures Owes(files, pc) == Owes(files, next)
  {
    hide FailedName;
  }

  lemma SettledOwes(files: Files, files': Files, pc: Pc, next: Pc)
    requires pc.FinishMerged? || pc.FinishRemove? || pc.RestoreMerged? || pc.RestoreRemoved?
    requires next.FinishRemove? || next.RestoreRemoved? || next.Idle?
    ensures Owes(files, pc) == Owes(files', next)
  {
  }

  lemma SettleShared(q: Queue, w: World, a: Action)
    requires a.Run? && w.At(a.p).HasClaim() && !w.At(a.p).FinishLock? && !w.At(a.p).RestoreLock?
    requires Enabled(q, w, a) && PcOk(q, w.files, a.p, w.At(a.p))
    ensures var files := Apply(q, w, a).files;
      Content(files, q.active) == Content(w.files, q.active) && Content(files, q.Dead()) == Content(w.files, q.Dead())
  {
    hide Queue.ClaimFields, Queue.IsClaim, Queue.Dead, FailedName, Owner, Owes;
    Apart(q, w.At(a.p).claim, a.p);
  }

  lemma SettlePart(q: Queue, w: World, a: Action)
    requires a.Run? && w.At(a.p).HasClaim() && Enabled(q, w, a) && PcOk(q, w.files, a.p, w.At(a.p))
    ensures var w' := Apply(q, w, a);
      && a.p in w'.procs
      && Part(q, w.files, w.At(a.p)) == Part(q, w'.files, w'.procs[a.p])
  {
    hide Apply, PcOk, Enabled, Part;
    if w.At(a.p).FinishLock? || w.At(a.p).RestoreLock? {
      MergePart(q, w, a);
    } else {
      SettleOwes(q, w, a);
      SettleShared(q, w, a);
      SamePart(q, w.files, w.At(a.p), Apply(q, w, a).files, Apply(q, w, a).procs[a.p]);
    }
  }

  lemma SettlePc(q: Queue, w: World, a: Action)
    requires a.Run? && w.At(a.p).HasClaim() && Enabled(q, w, a) && PcOk(q, w.files, a.p, w.At(a.p))
    requires FailedName(w.At(a.p).claim) in w.files ==> MayHaveFailed(w.At(a.p))
    requires w.At(a.p).claim in w.files ==> HasFile(w.At(a.p))
    ensures KeepsOwn(q, w, a, Apply(q, w, a), w.At(a.p).claim)
  {
    hide Queue.ClaimFields, Queue.IsClaim, Queue.Dead, FailedName, Owner;
    Apart(q, w.At(a.p).claim, a.p);
  }

  /** A step of finishing or restoring. */
  lemma SettleBalances(q: Queue, w: World, a: Action)
    requires a.Run? && w.At(a.p).HasClaim() && Structure(q, w) && Enabled(q, w, a)
    ensures Balances(q, w, a, Apply(q, w, a))
  {
    hide Queue.Dead, FailedName, Structure, Owner, Balances, Part, PcOk, Apply, KeepsOwn, Enabled, Advance;
    OwnFacts(q, w, a.p);
    PcOwner(q, w.files, a.p, w.At(a.p));
    SettlePart(q, w, a);
    SettlePc(q, w, a);
    PartIsEnough(q, w, a, Apply(q, w, a));
  }

  lemma KnownPc(q: Queue, w: World, p: nat)
    requires Structure(q, w) && !w.At(p).HasClaim()
    ensures w.At(p).Idle? || w.At(p).Scanning?
  {
    hide Queue.ClaimFields, Queue.IsClaim, FailedName;
  }

  /** Nothing but the active file was written. */
  ghost predicate OnlyActive(q: Queue, files: Files, files': Files) {
    forall n :: n != q.active ==> (n in files' <==> n in files) && (n in files' ==> files'[n] == files[n])
  }

  /** At most a process without a claim moved, and it took none. */
  ghost predicate Bystander(w: World, p: nat, procs: map<nat, Pc>) {
    procs == w.procs
    || (!w.At(p).HasClaim() && p in procs && (procs[p].Idle? || procs[p].Scanning?) && procs == w.procs[p := procs[p]])
  }

  lemma SameOwes(q: Queue, w: World, files': Files, o: nat)
    requires Structure(q, w) && o in w.procs && OnlyActive(q, w.files, files')
    ensures Owes(files', w.procs[o]) == Owes(w.files, w.procs[o]) && PcOk(q, files', o, w.procs[o])
  {
    hide Queue.ClaimFields, Queue.IsClaim, Queue.Dead, FailedName, Owner;
    assert PcOk(q, w.files, o, w.procs[o]);
    if w.procs[o].HasClaim() { Apart(q, w.procs[o].claim, o); }
  }

  lemma AsideHeld(q: Queue, w: World, p: nat, w': World, c: string)
    requires Bystander(w, p, w'.procs)
    ensures HeldFile(q, w, c) ==> HeldFile(q, w', c)
    ensures HeldFailed(q, w, c) ==> HeldFailed(q, w', c)
  {
    if HeldFile(q, w, c) {
      var o: nat :| o in w.procs && HasFile(w.procs[o]) && w.procs[o].claim == c;
      assert o in w'.procs && HasFile(w'.procs[o]) && w'.procs[o].claim == c;
    }
    if HeldFailed(q, w, c) {
      var o: nat :| o in w.procs && MayHaveFailed(w.procs[o]) && w.procs[o].claim == c;
      assert o in w'.procs && MayHaveFailed(w'.procs[o]) && w'.procs[o].claim == c;
    }
  }

  lemma AsideOk(q: Queue, files: Files, p: nat, pc: Pc)
    ensures pc.Idle? || pc.Scanning? ==> PcOk(q, files, p, pc)
  {
    hide Queue.IsClaim, FailedName, Owner;
  }

  lemma AsideStructure(q: Queue, w: World, p: nat, w': World)
    requires Structure(q, w) && OnlyActive(q, w.files, w'.files) && Bystander(w, p, w'.procs)
    ensures Structure(q, w')
  {
    hide Queue.ClaimFields, Queue.IsClaim, Queue.Dead, FailedName, Owner, Owes, HeldFile, HeldFailed, PcOk;
    NameFacts(q);
    forall o | o in w'.procs ensures PcOk(q, w'.files, o, w'.procs[o]) {
      if o in w.procs { SameOwes(q, w, w'.files, o); }
      AsideOk(q, w'.files, o, w'.procs[o]);
    }
    forall d | d in w'.files && q.IsClaim(d) ensures HeldFile(q, w', d) {
      assert d in w.files && HeldFile(q, w, d);
      AsideHeld(q, w, p, w', d);
    }
    forall d {:trigger FailedName(d)} | q.IsClaim(d) && FailedName(d) in w'.files ensures HeldFailed(q, w', d) {
      assert FailedName(d) in w.files && HeldFailed(q, w, d);
      AsideHeld(q, w, p, w', d);
    }
  }

  lemma AsideOwes(q: Queue, w: World, p: nat, w': World)
    requires Structure(q, w) && OnlyActive(q, w.files, w'.files) && Bystander(w, p, w'.procs)
    ensures Sum(OwedBy(w')) == Sum(OwedBy(w))
  {
    hide Queue.ClaimFields, Queue.IsClaim, Queue.Dead, FailedName, Owner, Sum, Structure, OnlyActive, Owes;
    forall o | o in w.procs ensures Owes(w'.files, w.procs[o]) == Owes(w.files, w.procs[o]) {
      SameOwes(q, w, w'.files, o);
    }
    if w'.procs == w.procs {
      assert OwedBy(w') == OwedBy(w);
    } else {
      KnownPc(q, w, p);
      OwesNothing(w.files, w.At(p));
      OwesNothing(w'.files, w'.procs[p]);
      assert OwedBy(w') == OwedBy(w)[p := multiset{}];
      SumUpdate(OwedBy(w), p, multiset{});
      assert (if p in OwedBy(w) then OwedBy(w)[p] else multiset{}) == multiset{};
      NothingCancels(Sum(OwedBy(w')), Sum(OwedBy(w)));
    }
  }

  lemma NothingCancels(a: multiset<Record>, b: multiset<Record>)
    requires a + multiset{} == b + multiset{}
    ensures a == b
  {
    assert a == a + multiset{};
  }

  lemma OwesNothing(files: Files, pc: Pc)
    requires pc.Idle? || pc.Scanning?
    ensures Owes(files, pc) == multiset{}
  {
  }

  /** A process without a claim moves on, or somebody appends. */
  lemma AsideBalances(q: Queue, w: World, a: Action, w': World)
    requires Structure(q, w) && OnlyActive(q, w.files, w'.files) && Bystander(w, a.p, w'.procs)
    requires Delivers(w, a) == multiset{}
    requires multiset(Content(w'.files, q.active)) == multiset(Content(w.files, q.active)) + Appends(a)
    ensures Balances(q, w, a, w')
  {
    hide Queue.ClaimFields, Queue.IsClaim, Owner, Appends, Delivers, Sum, OwedBy, Bystander;
    AsideStructure(q, w, a.p, w');
    AsideOwes(q, w, a.p, w');
    DeadKept(q, w.files, w'.files);
    hide OnlyActive, Content, Structure, Queue.Dead;
  }

  lemma DeadKept(q: Queue, files: Files, files': Files)
    requires OnlyActive(q, files, files')
    ensures Content(files', q.Dead()) == Content(files, q.Dead())
  {
    hide Queue.IsClaim, Queue.Dead;
    NameFacts(q);
  }

  /** Recovery beside running owners passes every claim file over. */
  lemma RecoveryPassesOver(q: Queue, w: World, p: nat, stale: string -> bool)
    requires Structure(q, w) && w.At(p).Scanning? && Honest(q, w, stale)
    ensures var (files, next) := Advance(q, stale, w.files, w.At(p)); files == w.files && (next.Idle? || next.Scanning?)
  {
    hide Queue.IsClaim, FailedName, Structure, Honest;
    var entries := w.At(p).entries;
    if entries != [] && q.IsClaim(entries[0]) && entries[0] in w.files {
      LiveClaimsAreNotStale(q, w, stale, entries[0]);
    }
  }

  lemma AppendBalances(q: Queue, w: World, a: Action)
    requires a.Append? && Structure(q, w) && Enabled(q, w, a)
    ensures Balances(q, w, a, Apply(q, w, a))
  {
    hide Queue.ClaimFields, Queue.IsClaim, Queue.Dead, FailedName, Structure, Balances;
    assert a.records == [] ==> multiset(a.records) == multiset{};
    AsideBalances(q, w, a, Apply(q, w, a));
  }

  /** Recovery, and a process with nothing to do. */
  lemma LookBalances(q: Queue, w: World, a: Action)
    requires a.Recover? || (a.Run? && !w.At(a.p).HasClaim())
    requires Structure(q, w) && Enabled(q, w, a) && Orderly(q, w, a)
    ensures Balances(q, w, a, Apply(q, w, a))
  {
    hide Queue.ClaimFields, Queue.IsClaim, Queue.Dead, FailedName, Structure, Balances, Honest;
    KnownPc(q, w, a.p);
    if a.Run? && w.At(a.p).Scanning? { RecoveryPassesOver(q, w, a.p, a.stale); }
    AsideBalances(q, w, a, Apply(q, w, a));
  }

  lemma StepBalances(q: Queue, w: World, a: Action)
    requires Structure(q, w) && Enabled(q, w, a) && Orderly(q, w, a)
    ensures Balances(q, w, a, Apply(q, w, a))
  {
    hide Structure, Balances, Apply;
    match a
    case Append(p, records) => AppendBalances(q, w, a);
    case Recover(p, entries) => LookBalances(q, w, a);
    case Claim(p, c) => ClaimBalances(q, w, p, c);
    case Run(p, stale) => if w.At(p).HasClaim() { SettleBalances(q, w, a); } else { LookBalances(q, w, a); }
    case Read(p) => TurnBalances(q, w, a);
    case BeginFinish(p) => TurnBalances(q, w, a);
    case BeginRestore(p) => TurnBalances(q, w, a);
    case _ => HandleBalances(q, w, a);
  }

  // ---------------------------------------------------------------- every run balances

  /** Over every run in which nobody dies, whatever interleaves with whatever, the records
      balance as multisets: what was appended is what waits in the active file, plus what
      the processes under way still owe, plus what was delivered, plus what was
      dead-lettered. */
  lemma {:induction false} RunsBalance(q: Queue, w: World, run: seq<Action>)
    requires Structure(q, w) && ValidRun(q, w, run) && OrderlyRun(q, w, run)
    ensures Structure(q, After(q, w, run))
    ensures Total(q, w) + AllAppended(run) == Total(q, After(q, w, run)) + AllDelivered(q, w, run)
    decreases |run|
  {
    hide Structure, Total, Enabled, Apply, Orderly, Appends, Delivers;
    if run != [] {
      StepBalances(q, w, run[0]);
      RunsBalance(q, Apply(q, w, run[0]), run[1..]);
      Chain(Total(q, w), Total(q, Apply(q, w, run[0])), Total(q, After(q, w, run)),
            Appends(run[0]), AllAppended(run[1..]),
            Delivers(w, run[0]), AllDelivered(q, Apply(q, w, run[0]), run[1..]));
    }
  }

  lemma Chain(t0: multiset<Record>, t1: multiset<Record>, t2: multiset<Record>, in1: multiset<Record>,
          in2: multiset<Record>, out1: multiset<Record>, out2: multiset<Record>)
    requires t0 + in1 == t1 + out1 && t1 + in2 == t2 + out2
    ensures t0 + (in1 + in2) == t2 + (out1 + out2)
  {
    forall r ensures (t0 + (in1 + in2))[r] == (t2 + (out1 + out2))[r] {
      assert (t0 + in1)[r] == (t1 + out1)[r] && (t1 + in2)[r] == (t2 + out2)[r];
    }
  }

  lemma {:induction false} NobodyOwes(m: map<nat, multiset<Record>>)
    requires forall p :: p in m ==> m[p] == multiset{}
    ensures Sum(m) == multiset{}
    decreases |m.Keys|
  {
    if m != map[] {
      var p :| p in m;
      SumSplit(m, p);
      assert (m - {p}).Keys == m.Keys - {p};
      NobodyOwes(m - {p});
    }
  }

  /** No process holds a claim. */
  predicate Quiet(w: World) { forall p :: p in w.procs ==> !w.procs[p].HasClaim() }

  lemma QuietTotal(q: Queue, w: World)
    requires Structure(q, w) && Quiet(w)
    ensures Total(q, w) == multiset(Content(w.files, q.active)) + multiset(Content(w.files, q.Dead()))
    ensures forall c :: c in w.files ==> !q.IsClaim(c)
  {
    hide Queue.ClaimFields, Queue.IsClaim, Queue.Dead, FailedName, Owner, Content, Sum;
    forall p | p in w.procs ensures Owes(w.files, w.procs[p]) == multiset{} {
      KnownPc(q, w, p);
      OwesNothing(w.files, w.procs[p]);
    }
    NobodyOwes(OwedBy(w));
  }

  lemma EmptyTotal(q: Queue)
    ensures Structure(q, EMPTY) && Total(q, EMPTY) == multiset{}
  {
    hide Queue.ClaimFields, Queue.IsClaim, Queue.Dead, FailedName;
    QuietTotal(q, EMPTY);
  }

  /** From an empty queue, once no process holds a claim: nothing is missing and nothing is
      there twice. */
  lemma QuiescentRunsConserve(q: Queue, run: seq<Action>)
    requires ValidRun(q, EMPTY, run) && OrderlyRun(q, EMPTY, run) && Quiet(After(q, EMPTY, run))
    ensures var files := After(q, EMPTY, run).files;
      && AllAppended(run)
         == multiset(Content(files, q.active)) + multiset(Content(files, q.Dead())) + AllDelivered(q, EMPTY, run)
      && forall c :: c in files ==> !q.IsClaim(c)
  {
    hide Queue.IsClaim, Queue.Dead, After, Enabled, Apply, Orderly, OrderlyRun, Content, Structure, Quiet, ValidRun,
      Total, AllAppended, AllDelivered, EMPTY;
    EmptyTotal(q);
    RunsBalance(q, EMPTY, run);
    QuietTotal(q, After(q, EMPTY, run));
    assert multiset{} + AllAppended(run) == AllAppended(run);
  }
}
