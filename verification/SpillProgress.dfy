/** The spill queue (src/spill_queue.rs) can be drained: a process that finds the lock free
    can take the waiting records and replay them all. */
module SpillProgress {
  import opened SpillConservation
  import opened SpillPaths
  import opened SpillProtocol
  import opened Text

  /** These steps of process `p` alone lead from `w` to where it is idle again, the files are
      `files`, and `out` was delivered on the way, each record once. */
  ghost predicate Drains(q: Queue, w: World, p: nat, run: seq<Action>, files: Files, out: seq<Record>) {
    && ValidRun(q, w, run) && OrderlyRun(q, w, run)
    && (forall i :: 0 <= i < |run| ==> run[i].p == p && !run[i].Append?)
    && After(q, w, run).files == files && After(q, w, run).At(p).Idle?
    && AllDelivered(q, w, run) == multiset(out)
  }

  ghost predicate CanDrain(q: Queue, w: World, p: nat, files: Files, out: seq<Record>) {
    exists run :: Drains(q, w, p, run, files, out)
  }

  lemma FirstStep(q: Queue, w: World, a: Action, files: Files, out: seq<Record>, more: seq<Record>)
    requires Enabled(q, w, a) && Orderly(q, w, a) && !a.Append?
    requires CanDrain(q, Apply(q, w, a), a.p, files, more)
    requires multiset(out) == Delivers(w, a) + multiset(more)
    ensures CanDrain(q, w, a.p, files, out)
  {
    hide Enabled, Apply, Orderly, Delivers;
    var rest :| Drains(q, Apply(q, w, a), a.p, rest, files, more);
    var run := [a] + rest;
    assert run[1..] == rest;
    assert Drains(q, w, a.p, run, files, out);
  }

  lemma NoStep(q: Queue, w: World, p: nat)
    requires w.At(p).Idle?
    ensures CanDrain(q, w, p, w.files, [])
  {
    assert Drains(q, w, p, [], w.files, []);
  }

  /** Once every line is handled, and none set aside, finishing removes the claim. */
  lemma FinishDrains(q: Queue, w: World, p: nat, c: string)
    requires w.At(p) == Consuming(c, []) && FailedName(c) !in w.files
    ensures CanDrain(q, w, p, Removed(w.files, c), [])
  {
    hide FailedName, CanDrain;
    var run := Run(p, _ => false);
    var w1 := Apply(q, w, BeginFinish(p));
    var w2 := Apply(q, w1, run);
    assert w1.At(p) == FinishStart(c) && w2.At(p) == FinishRemove(c);
    NoStep(q, Apply(q, w2, run), p);
    FirstStep(q, w2, run, Removed(w.files, c), [], []);
    FirstStep(q, w1, run, Removed(w.files, c), [], []);
    FirstStep(q, w, BeginFinish(p), Removed(w.files, c), [], []);
  }

  lemma {:induction false} ConsumingDrains(q: Queue, w: World, p: nat, c: string, todo: seq<Record>)
    requires w.At(p) == Consuming(c, todo) && FailedName(c) !in w.files
    ensures CanDrain(q, w, p, Removed(w.files, c), todo)
    decreases |todo|
  {
    hide FailedName, CanDrain;
    if todo == [] {
      FinishDrains(q, w, p, c);
    } else {
      assert todo == [todo[0]] + todo[1..];
      ConsumingDrains(q, Apply(q, w, Deliver(p)), p, c, todo[1..]);
      FirstStep(q, w, Deliver(p), Removed(w.files, c), todo, todo[1..]);
    }
  }

  /** Whatever names are taken, the process can name a claim that is not, nor is the name
      of its failed file. */
  lemma FreshClaim(q: Queue, p: nat, taken: set<string>) returns (c: string)
    requires 0 < p <= PID_MAX
    ensures NamedBy(q, p, c) && q.IsClaim(c) && c !in taken && FailedName(c) !in taken
  {
    hide Queue.IsClaim;
    var bound := LongestOf(taken);
    var sequence := Long(bound);
    c := q.ClaimName(p, 0, sequence);
    assert IsNameOf(q, p, c, 0, sequence);
    ClaimNameIsClaim(q, p, 0, sequence);
    var stem := q.Prefix() + Decimal(p) + "-" + Decimal(0) + "-" + Decimal(sequence);
    FileStemExactly(stem, "jsonl");
    assert c == stem + "." + "jsonl";
    assert |c| > bound && |FailedName(c)| > bound;
  }

  lemma {:induction false} LongestOf(taken: set<string>) returns (n: nat)
    ensures forall s :: s in taken ==> |s| <= n
    decreases |taken|
  {
    n := 0;
    if taken != {} {
      var s :| s in taken;
      n := LongestOf(taken - {s});
      if |s| > n { n := |s|; }
    }
  }

  lemma {:induction false} Long(n: nat) returns (k: nat)
    ensures k > 0 && |Decimal(k)| > n
  {
    k := 1;
    if n > 0 {
      var shorter := Long(n - 1);
      k := shorter * 10;
      assert k / 10 == shorter;
    }
  }

  /** Whoever is idle, with the lock free and records waiting, can replay exactly these, each
      once and without another process moving, and leave the other files as they were. */
  lemma WaitingRecordsCanBeReplayed(q: Queue, w: World, p: nat)
    requires 0 < p <= PID_MAX && w.At(p).Idle? && w.LockFreeFor(p) && q.active in w.files
    ensures CanDrain(q, w, p, Removed(w.files, q.active), w.files[q.active])
  {
    hide FailedName, CanDrain, Queue.IsClaim, NamedBy;
    var records := w.files[q.active];
    var c := FreshClaim(q, p, w.used + w.files.Keys);
    var w1 := Apply(q, w, Claim(p, c));
    var w2 := Apply(q, w1, Read(p));
    assert w1.At(p) == Claimed(c) && w2.At(p) == Consuming(c, records);
    assert FailedName(c) != c by { NamesApart(q, c); }
    assert Removed(w2.files, c) == Removed(w.files, q.active);
    ConsumingDrains(q, w2, p, c, records);
    FirstStep(q, w1, Read(p), Removed(w.files, q.active), records, records);
    FirstStep(q, w, Claim(p, c), Removed(w.files, q.active), records, records);
  }
}
