/** File names of the spill queue (src/spill_queue.rs). All files of one queue
    live in one directory, so a path is its file name here. */
module SpillPaths {
  import opened Wrappers
  import opened Text

  const I64_MIN: int := -0x8000_0000_0000_0000
  const I64_MAX: int := 0x7FFF_FFFF_FFFF_FFFF
  const U32_MAX: int := 0xFFFF_FFFF
  const U128_LIMIT: int := 0x1_0000_0000_0000_0000_0000_0000_0000_0000

  /** `Path::file_stem`: the name up to its last dot, unless that dot is its first
      character or the name is "..". */
  function FileStem(name: string): string {
    var i := LastIndex(name, '.');
    if name == ".." || i <= 0 then name else name[..i]
  }

  /** `Path::with_extension` for a non-empty extension. */
  function WithExtension(name: string, ext: string): string {
    FileStem(name) + "." + ext
  }

  /** A queue is identified by its active file. */
  datatype Queue = Queue(active: string) {
    function Stem(): string { FileStem(active) }

    function Prefix(): string { Stem() + ".replay-" }

    function Dead(): string { Stem() + ".dead.jsonl" }

    function ClaimName(pid: nat, nanos: nat, sequence: nat): string {
      Prefix() + Decimal(pid) + "-" + Decimal(nanos) + "-" + Decimal(sequence) + ".jsonl"
    }

    predicate IsClaim(name: string) {
      StartsWith(name, Prefix()) && EndsWith(name, ".jsonl") && !EndsWith(name, ".failed.jsonl")
    }

    /** Owner pid and claim time, as written into the claim's name. */
    function ClaimFields(name: string): Option<(int, int)> {
      match StripPrefix(name, Prefix())
      case None => None
      case Some(afterPrefix) =>
        match StripSuffix(afterPrefix, ".jsonl")
        case None => None
        case Some(rest) =>
          match RSplitOnce(rest, '-')
          case None => None
          case Some((beforeSequence, _)) =>
            match RSplitOnce(beforeSequence, '-')
            case None => None
            case Some((pid, nanos)) =>
              match (ParseI64(pid), ParseU128(nanos))
              case (Some(p), Some(n)) => Some((p, n))
              case _ => None
    }

    /** When recovery may take a claim; `minAge`, `now` in nanoseconds, `alive` is the
        answer of `kill(pid, 0)` for pids in its range. */
    predicate IsStale(name: string, minAge: nat, now: nat, alive: int -> bool) {
      minAge == 0 ||
      match ClaimFields(name)
      case None => false
      case Some((pid, nanos)) =>
        !(0 < pid <= 0x7FFF_FFFF && alive(pid)) &&
        (if now >= nanos then now - nanos else 0) >= minAge
    }

    function Staleness(minAge: nat, now: nat, alive: int -> bool): string -> bool {
      e => IsStale(e, minAge, now, alive)
    }
  }

  function FailedName(claim: string): string { WithExtension(claim, "failed.jsonl") }

  /** The stem is what stands before the last dot, unless that leaves nothing. */
  lemma FileStemExactly(stem: string, ext: string)
    requires '.' !in ext
    ensures stem != "" && stem + "." + ext != ".." ==> FileStem(stem + "." + ext) == stem
    ensures FileStem(ext) == ext && FileStem("." + ext) == "." + ext && FileStem("..") == ".."
  {
    var name := stem + "." + ext;
    assert name[|stem|] == '.' && name[..|stem|] == stem;
    assert forall j :: |stem| < j < |name| ==> name[j] == ext[j - |stem| - 1];
    assert forall j :: 1 <= j < |"." + ext| ==> ("." + ext)[j] == ext[j - 1];
  }

  function ParseI64(s: string): Option<int> { ParseInteger(s, true, I64_MIN, I64_MAX) }

  function ParseU128(s: string): Option<int> { ParseInteger(s, false, 0, U128_LIMIT - 1) }

  lemma DecimalCharacters(n: nat)
    ensures '-' !in Decimal(n) && '.' !in Decimal(n) && Decimal(n)[0] != '+'
    ensures IsDigit(Decimal(n)[|Decimal(n)| - 1])
  {
    assert AllDigits(Decimal(n));
  }

  lemma ParseIntegers(pid: nat, nanos: nat)
    requires pid <= U32_MAX && nanos < U128_LIMIT
    ensures ParseI64(Decimal(pid)) == Some(pid) && ParseU128(Decimal(nanos)) == Some(nanos)
  {
    DecimalCharacters(pid); DecimalCharacters(nanos);
    DecimalRoundTrip(pid); DecimalRoundTrip(nanos);
  }

  lemma EndsWithAt(s: string, p: string, k: nat)
    requires k < |p| <= |s|
    ensures EndsWith(s, p) ==> s[|s| - |p| + k] == p[k]
  {
    assert s[|s| - |p| + k] == s[|s| - |p|..][k];
  }

  lemma StartsWithAt(s: string, p: string, k: nat)
    requires k < |p|
    ensures StartsWith(s, p) ==> |p| <= |s| && s[k] == p[k]
  {
    assert StartsWith(s, p) ==> p[k] == s[..|p|][k];
  }

  lemma ClaimNameIsClaim(q: Queue, pid: nat, nanos: nat, sequence: nat)
    ensures q.IsClaim(q.ClaimName(pid, nanos, sequence))
  {
    var k := Decimal(sequence);
    var head := q.Prefix() + Decimal(pid) + "-" + Decimal(nanos) + "-";
    var name := head + k + ".jsonl";
    assert name[..|q.Prefix()|] == q.Prefix();
    StripConcat(".jsonl", head + k);
    DecimalCharacters(sequence);
    assert name[|name| - 7] == k[|k| - 1];
    EndsWithAt(name, ".failed.jsonl", 6);
  }

  /** The claim name round trip: recovery reads back the pid and the time that
      `next_claim_path` wrote, whatever the stem contains. */
  lemma ClaimNameRoundTrip(q: Queue, pid: nat, nanos: nat, sequence: nat)
    requires pid <= U32_MAX && nanos < U128_LIMIT
    ensures q.IsClaim(q.ClaimName(pid, nanos, sequence))
    ensures q.ClaimFields(q.ClaimName(pid, nanos, sequence)) == Some((pid, nanos))
  {
    hide FileStem, Queue.Stem, Queue.Prefix, Queue.IsClaim, Decimal, DigitsValue, AllDigits, IsDigit, RSplitOnce,
      StripPrefix, StripSuffix, StartsWith, EndsWith, ParseI64, ParseU128;
    ClaimNameIsClaim(q, pid, nanos, sequence);
    var p, n, k := Decimal(pid), Decimal(nanos), Decimal(sequence);
    var rest := p + ['-'] + n + ['-'] + k;
    assert q.ClaimName(pid, nanos, sequence) == q.Prefix() + (rest + ".jsonl");
    StripConcat(q.Prefix(), rest + ".jsonl");
    StripConcat(".jsonl", rest);
    DecimalCharacters(nanos); DecimalCharacters(sequence);
    RSplitOnceConcat(p + ['-'] + n, '-', k);
    RSplitOnceConcat(p, '-', n);
    ParseIntegers(pid, nanos);
  }

  /** Read from the right, the name is the prefix, a pid, a time, a sequence without a dash,
      and the ending. */
  ghost predicate ClaimedBy(q: Queue, name: string, pid: int, nanos: int) {
    exists p: string, n: string, s: string ::
      && name == q.Prefix() + p + "-" + n + "-" + s + ".jsonl" && '-' !in s
      && ParseI64(p) == Some(pid) && ParseU128(n) == Some(nanos)
  }

  lemma ClaimFieldsExactly(q: Queue, name: string, pid: int, nanos: int)
    ensures q.ClaimFields(name) == Some((pid, nanos)) <==> ClaimedBy(q, name, pid, nanos)
  {
    hide Queue.Prefix, ParseI64, ParseU128, StripPrefix, StripSuffix, RSplitOnce;
    if q.ClaimFields(name) == Some((pid, nanos)) {
      var p, n, s := SplitClaim(q, name, pid, nanos);
    }
    forall p: string, n: string, s: string
      | && name == q.Prefix() + p + "-" + n + "-" + s + ".jsonl" && '-' !in s
        && ParseI64(p) == Some(pid) && ParseU128(n) == Some(nanos)
      ensures q.ClaimFields(name) == Some((pid, nanos))
    {
      NumbersHaveNoDash(n);
      JoinClaim(q, p, n, s);
      assert name == q.Prefix() + (p + "-" + n + "-" + s + ".jsonl");
    }
  }

  lemma NumbersHaveNoDash(n: string)
    requires ParseU128(n).Some?
    ensures '-' !in n
  {
    assert forall i :: 1 <= i < |n| ==> n[1..][i - 1] == n[i];
  }

  /** Taking a claim's name apart, as recovery does. */
  lemma JoinClaim(q: Queue, p: string, n: string, s: string)
    requires '-' !in n && '-' !in s
    ensures var rest := p + "-" + n + "-" + s;
      && StripPrefix(q.Prefix() + (rest + ".jsonl"), q.Prefix()) == Some(rest + ".jsonl")
      && StripSuffix(rest + ".jsonl", ".jsonl") == Some(rest)
      && RSplitOnce(rest, '-') == Some((p + "-" + n, s)) && RSplitOnce(p + "-" + n, '-') == Some((p, n))
  {
    hide Queue.Prefix, StripPrefix, StripSuffix, RSplitOnce;
    var rest := p + "-" + n + "-" + s;
    StripConcat(q.Prefix(), rest + ".jsonl");
    StripConcat(".jsonl", rest);
    RSplitOnceConcat(p + "-" + n, '-', s);
    RSplitOnceConcat(p, '-', n);
    assert rest == p + "-" + n + ['-'] + s && p + "-" + n == p + ['-'] + n;
  }

  lemma SplitClaim(q: Queue, name: string, pid: int, nanos: int) returns (p: string, n: string, s: string)
    requires q.ClaimFields(name) == Some((pid, nanos))
    ensures name == q.Prefix() + p + "-" + n + "-" + s + ".jsonl" && '-' !in s
    ensures ParseI64(p) == Some(pid) && ParseU128(n) == Some(nanos)
  {
    hide Queue.Prefix, ParseI64, ParseU128, StripPrefix, StripSuffix, RSplitOnce;
    var afterPrefix := StripPrefix(name, q.Prefix()).value;
    var rest := StripSuffix(afterPrefix, ".jsonl").value;
    var (before, sequence) := RSplitOnce(rest, '-').value;
    p, n, s := RSplitOnce(before, '-').value.0, RSplitOnce(before, '-').value.1, sequence;
    StripText(name, q.Prefix());
    StripText(afterPrefix, ".jsonl");
    SplitText(rest);
    SplitText(before);
    assert name == q.Prefix() + (p + "-" + n + "-" + s + ".jsonl");
  }

  lemma StripText(s: string, p: string)
    ensures StripPrefix(s, p).Some? ==> s == p + StripPrefix(s, p).value
    ensures StripSuffix(s, p).Some? ==> s == StripSuffix(s, p).value + p
  {
  }

  lemma SplitText(s: string)
    requires RSplitOnce(s, '-').Some?
    ensures var (a, b) := RSplitOnce(s, '-').value; s == a + "-" + b && '-' !in b
  {
  }

  /** Its owner is a process that runs. */
  predicate IsRunning(pid: int, alive: int -> bool) { 1 <= pid <= 0x7FFF_FFFF && alive(pid) }

  /** A claim is due at age zero, or when the process in its name has gone and the time in
      its name is `minAge` past. */
  ghost predicate IsDue(q: Queue, name: string, minAge: nat, now: nat, alive: int -> bool) {
    || minAge == 0
    || exists pid, nanos :: ClaimedBy(q, name, pid, nanos) && !IsRunning(pid, alive) && nanos + minAge <= now
  }

  lemma StaleExactly(q: Queue, name: string, minAge: nat, now: nat, alive: int -> bool)
    ensures q.IsStale(name, minAge, now, alive) <==> IsDue(q, name, minAge, now, alive)
  {
    hide Queue.ClaimFields, ClaimedBy;
    forall pid, nanos ensures q.ClaimFields(name) == Some((pid, nanos)) <==> ClaimedBy(q, name, pid, nanos) {
      ClaimFieldsExactly(q, name, pid, nanos);
    }
    if q.ClaimFields(name).Some? {
      var (pid, nanos) := q.ClaimFields(name).value;
      assert ClaimedBy(q, name, pid, nanos);
    }
  }

  /** What that is for the names that claims are given. */
  lemma ClaimIsDue(q: Queue, pid: nat, nanos: nat, sequence: nat, minAge: nat, now: nat, alive: int -> bool)
    requires pid <= U32_MAX && nanos < U128_LIMIT
    ensures IsDue(q, q.ClaimName(pid, nanos, sequence), minAge, now, alive)
      <==> minAge == 0 || (!(1 <= pid <= 0x7FFF_FFFF && alive(pid)) && nanos + minAge <= now)
  {
    hide Queue.ClaimFields, Queue.ClaimName, ClaimedBy;
    ClaimNameRoundTrip(q, pid, nanos, sequence);
    forall p, n ensures ClaimedBy(q, q.ClaimName(pid, nanos, sequence), p, n) <==> p == pid && n == nanos {
      ClaimFieldsExactly(q, q.ClaimName(pid, nanos, sequence), p, n);
    }
    assert ClaimedBy(q, q.ClaimName(pid, nanos, sequence), pid, nanos);
  }

  lemma JsonlCharacters(c: string)
    requires EndsWith(c, ".jsonl")
    ensures |c| >= 6 && c[|c| - 6] == '.' && forall j :: |c| - 6 < j < |c| ==> c[j] != '.' && c[j] != '-'
    ensures c[|c| - 6..] == ".jsonl"
  {
    var i := |c| - 6;
    forall j | i <= j < |c| ensures c[j] == ".jsonl"[j - i] { assert c[j] == c[i..][j - i]; }
  }

  lemma JsonlStem(c: string)
    requires EndsWith(c, ".jsonl") && |c| > 6
    ensures FileStem(c) == c[..|c| - 6]
  {
    hide EndsWith;
    JsonlCharacters(c);
  }

  lemma FailedNameOfClaim(q: Queue, c: string)
    requires q.IsClaim(c)
    ensures |c| > 6 && c[|c| - 6..] == ".jsonl" && FailedName(c) == c[..|c| - 6] + ".failed.jsonl"
    ensures StartsWith(FailedName(c), q.Prefix())
  {
    hide Queue.Stem, FileStem, EndsWith;
    JsonlCharacters(c);
    var pre, i := q.Prefix(), |c| - 6;
    assert |pre| >= 8 && pre[|pre| - 1] == '-';
    assert c[|pre| - 1] == c[..|pre|][|pre| - 1];
    assert |pre| <= i;
    JsonlStem(c);
    assert (c[..i] + ".failed.jsonl")[..|pre|] == c[..|pre|];
  }

  lemma PrefixShape(q: Queue)
    ensures |q.Prefix()| == |q.Stem()| + 8 && StartsWith(q.active, q.Stem())
    ensures q.active != q.Stem() ==>
      |q.active| > |q.Stem()| && '.' !in q.active[|q.Stem()| + 1..]
  {
  }

  lemma ActiveIsNoClaim(q: Queue)
    ensures !q.IsClaim(q.active)
  {
    PrefixShape(q);
    var n := |q.Stem()|;
    if |q.active| >= n + 8 {
      assert q.active[..n + 8][n + 1] == q.active[n + 1];
      assert q.Prefix()[n + 1] == 'r';
      EndsWithAt(q.active, ".jsonl", 0);
      assert q.active[|q.active| - 6] == q.active[n + 1..][|q.active| - 6 - n - 1];
    }
  }

  lemma FailedIsNoClaim(q: Queue, c: string)
    requires q.IsClaim(c)
    ensures !q.IsClaim(FailedName(c))
  {
    hide FailedName, Queue.Prefix, StartsWith;
    FailedNameOfClaim(q, c);
    StripConcat(".failed.jsonl", c[..|c| - 6]);
  }

  lemma DeadIsApart(q: Queue)
    ensures !q.IsClaim(q.Dead()) && q.Dead() != q.active
  {
    hide Queue.Stem, EndsWith, StartsWith;
    PrefixShape(q);
    var n := |q.Stem()|;
    assert q.Prefix()[n + 1] == 'r' && q.Dead()[n + 1] == 'd';
    StartsWithAt(q.Dead(), q.Prefix(), n + 1);
    if q.active != q.Stem() { assert q.Dead()[n + 5] == '.'; }
  }

  lemma FailedIsApart(q: Queue, c: string)
    requires q.IsClaim(c)
    ensures FailedName(c) != q.active && FailedName(c) != q.Dead()
  {
    hide Queue.Stem, EndsWith, FailedName;
    FailedNameOfClaim(q, c);
    PrefixShape(q);
    var f, n := FailedName(c), |q.Stem()|;
    assert q.Prefix()[n + 1] == 'r' && q.Dead()[n + 1] == 'd';
    assert f[..|q.Prefix()|][n + 1] == 'r';
    if q.active != q.Stem() {
      assert |f| - 6 > n;
      assert f[|f| - 6] == f[|c| - 6..][7] == '.';
    }
  }

  /** No claim, failed, dead-letter or active file of a queue is mistaken for one of
      another kind. */
  lemma NamesApart(q: Queue, c: string)
    requires q.IsClaim(c)
    ensures !q.IsClaim(FailedName(c)) && !q.IsClaim(q.Dead()) && !q.IsClaim(q.active)
    ensures FailedName(c) != q.active && FailedName(c) != q.Dead() && q.Dead() != q.active
  {
    hide Queue.IsClaim, Queue.Dead, FailedName;
    FailedIsNoClaim(q, c);
    DeadIsApart(q);
    FailedIsApart(q, c);
    ActiveIsNoClaim(q);
  }

  /** The failed file of a claim determines the claim. */
  lemma FailedNameInjective(q: Queue, c: string, d: string)
    requires q.IsClaim(c) && q.IsClaim(d) && FailedName(c) == FailedName(d)
    ensures c == d
  {
    hide FailedName, FileStem, Queue.Stem, Queue.Prefix, StartsWith;
    FailedNameOfClaim(q, c);
    FailedNameOfClaim(q, d);
    var cs, ds := c[..|c| - 6], d[..|d| - 6];
    assert |cs| == |ds|;
    assert cs == FailedName(c)[..|cs|] == FailedName(d)[..|ds|] == ds;
    assert c == cs + ".jsonl" && d == ds + ".jsonl";
  }

  /** The names the files of one queue go by. */
  lemma NamesExactly(stem: string, pid: nat, nanos: nat, sequence: nat)
    requires stem != ""
    ensures var q := Queue(stem + ".jsonl");
      var claim := stem + ".replay-" + Decimal(pid) + "-" + Decimal(nanos) + "-" + Decimal(sequence);
      && q.Dead() == stem + ".dead.jsonl"
      && q.ClaimName(pid, nanos, sequence) == claim + ".jsonl"
      && FailedName(claim + ".jsonl") == claim + ".failed.jsonl"
  {
    hide FileStem;
    var claim := stem + ".replay-" + Decimal(pid) + "-" + Decimal(nanos) + "-" + Decimal(sequence);
    assert stem + "." + "jsonl" == stem + ".jsonl" && claim + "." + "jsonl" == claim + ".jsonl";
    assert claim + "." + "failed.jsonl" == claim + ".failed.jsonl";
    FileStemExactly(stem, "jsonl");
    FileStemExactly(claim, "jsonl");
  }
}
