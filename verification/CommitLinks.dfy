/** The links between commits and sessions (src/git_trace.rs) as the two unique indexes of
    src/migrations/v067_capture_git_evidence.sql keep them. Commit rows are found and
    written elsewhere; here a commit is the id that came of it, or an error. */
module CommitLinks {
  import opened Wrappers
  import opened Text

  /** `row` names the captured session; links from before it was recorded have none. */
  datatype Link = Link(commit: int, row: Option<int>, session: string, memory: Option<string>, source: string,
          linkedAt: int)

  type Links = seq<Link>

  datatype Key = Durable(commit: int, row: int) | Legacy(commit: int, session: string)

  function KeyOf(l: Link): Key {
    if l.row.Some? then Durable(l.commit, l.row.value) else Legacy(l.commit, l.session)
  }

  /** Both unique indexes. */
  predicate Unique(t: Links) { forall i, j :: 0 <= i < j < |t| ==> KeyOf(t[i]) != KeyOf(t[j]) }

  predicate Trusted(source: string) { source in {"git_metadata", "capture_git_evidence"} }

  function RollupId(row: int): string { "capture-rollup-" + SignedDecimal(row) }

  predicate HasKey(t: Links, key: Key) { exists i :: 0 <= i < |t| && KeyOf(t[i]) == key }

  predicate IsLegacy(l: Link, commit: int, session: string, memory: string) {
    l.commit == commit && l.row.None? && l.session == session && l.memory == Some(memory)
  }

  function WithoutLegacy(t: Links, commit: int, session: string, memory: string): Links {
    if t == [] then []
    else
      (if IsLegacy(t[0], commit, session, memory) then [] else [t[0]])
      + WithoutLegacy(t[1..], commit, session, memory)
  }

  function PromoteOne(l: Link, commit: int, row: int, session: string, memory: string): Link {
    if IsLegacy(l, commit, session, memory) then l.(row := Some(row)) else l
  }

  function WithRow(t: Links, commit: int, row: int, session: string, memory: string): Links {
    seq(|t|, i requires 0 <= i < |t| => PromoteOne(t[i], commit, row, session, memory))
  }

  /** Only a roll-up id proves which captured session a link without one belonged to. */
  function Promoted(t: Links, commit: int, row: int, session: string, memory: Option<string>): Links {
    if memory != Some(RollupId(row)) then t
    else
      var kept := if HasKey(t, Durable(commit, row)) then WithoutLegacy(t, commit, session, RollupId(row)) else t;
      WithRow(kept, commit, row, session, RollupId(row))
  }

  function Merge(l: Link, new_: Link): Link {
    l.(session := new_.session,
       memory := if new_.memory.Some? then new_.memory else l.memory,
       source := if Trusted(l.source) then l.source else new_.source)
  }

  function Upserted(t: Links, new_: Link): Links {
    if HasKey(t, KeyOf(new_))
    then seq(|t|, i requires 0 <= i < |t| => if KeyOf(t[i]) == KeyOf(new_) then Merge(t[i], new_) else t[i])
    else t + [new_]
  }

  function Linked(t: Links, l: Link): Links {
    Upserted(if l.row.Some? then Promoted(t, l.commit, l.row.value, l.session, l.memory) else t, l)
  }

  // ---------------------------------------------------------------- the operations

  datatype Owner = Owner(session: string, project: string)

  type Owners = map<int, Owner>

  /** `commit` is the commit row's id, absent where finding or writing it failed. */
  datatype Op =
    | Captured(project: string, row: int, session: string, memory: string, commit: Option<int>, now: int)
    | Committed(session: string, given: Option<string>, source: string, commit: Option<int>, now: int)
    | Observed(session: string, memory: string, metadata: Option<Option<int>>, found: Option<Option<int>>,
      written: Option<int>, now: int)

  function CommittedLink(session: string, given: Option<string>, source: string, commit: Option<int>,
          now: int): Option<Link>
  {
    if Trim(session) != "" && Trim(source) != "" && commit.Some?
    then Some(Link(commit.value, None, Trim(session), given, Trim(source), now))
    else None
  }

  /** The link an operation makes, if it makes one. */
  function LinkOf(op: Op, owners: Owners): Option<Link> {
    match op
    case Captured(project, row, session, memory, commit, now) =>
      if row in owners && owners[row] == Owner(session, project) && commit.Some?
      then Some(Link(commit.value, Some(row), session, Some(memory), "capture_git_evidence", now))
      else None
    case Committed(session, given, source, commit, now) => CommittedLink(session, given, source, commit, now)
    case Observed(session, memory, metadata, found, written, now) =>
      if metadata.Some? then CommittedLink(session, Some(memory), "git_metadata", metadata.value, now)
      else if found.None? then None
      else if found.value.Some? then Some(Link(found.value.value, None, session, Some(memory), "observations", now))
      else CommittedLink(session, Some(memory), "observations", written, now)
  }

  function Apply(t: Links, op: Op, owners: Owners): Links {
    var l := LinkOf(op, owners);
    if l.Some? then Linked(t, l.value) else t
  }

  function After(t: Links, ops: seq<Op>, owners: Owners): Links
    decreases |ops|
  {
    if ops == [] then t else After(Apply(t, ops[0], owners), ops[1..], owners)
  }

  class LinkTable {
    var rows: Links

    constructor (rows: Links)
      ensures this.rows == rows
    {
      this.rows := rows;
    }

    /** The DELETE and the UPDATE; the update never meets the unique index. */
    method PromoteExactLegacyLink(commit: int, row: int, session: string, memory: Option<string>)
      requires Unique(rows)
      modifies this
      ensures rows == Promoted(old(rows), commit, row, session, memory) && Unique(rows)
    {
      PromotedIsUnique(rows, commit, row, session, memory);
      var expected := RollupId(row);
      if memory != Some(expected) { return; }
      if exists i :: 0 <= i < |rows| && KeyOf(rows[i]) == Durable(commit, row) {
        rows := WithoutLegacy(rows, commit, session, expected);
      }
      rows := WithRow(rows, commit, row, session, expected);
    }

    method LinkSessionToCommitId(l: Link)
      requires Unique(rows)
      modifies this
      ensures rows == Linked(old(rows), l) && Unique(rows)
    {
      LinkedIsUnique(rows, l);
      if l.row.Some? { PromoteExactLegacyLink(l.commit, l.row.value, l.session, l.memory); }
      var before := rows;
      if exists i :: 0 <= i < |before| && KeyOf(before[i]) == KeyOf(l) {
        rows := seq(|before|, i requires 0 <= i < |before| =>
          if KeyOf(before[i]) == KeyOf(l) then Merge(before[i], l) else before[i]);
      } else {
        rows := before + [l];
      }
    }

    method LinkCaptured(project: string, row: int, session: string, memory: string, commit: Option<int>, owners: Owners,
            now: int)
      returns (ok: bool)
      requires Unique(rows)
      modifies this
      ensures rows == Apply(old(rows), Captured(project, row, session, memory, commit, now), owners) && Unique(rows)
      ensures ok == LinkOf(Captured(project, row, session, memory, commit, now), owners).Some?
    {
      if row !in owners || owners[row].session != session || owners[row].project != project { return false; }
      if commit.None? { return false; }
      LinkSessionToCommitId(Link(commit.value, Some(row), session, Some(memory), "capture_git_evidence", now));
      return true;
    }

    method LinkCommit(session: string, memory: Option<string>, source: string, commit: Option<int>,
            ghost owners: Owners, now: int)
      returns (ok: bool)
      requires Unique(rows)
      modifies this
      ensures rows == Apply(old(rows), Committed(session, memory, source, commit, now), owners) && Unique(rows)
      ensures ok == LinkOf(Committed(session, memory, source, commit, now), owners).Some?
    {
      var s, src := Trim(session), Trim(source);
      if s == "" || src == "" || commit.None? { return false; }
      LinkSessionToCommitId(Link(commit.value, None, s, memory, src, now));
      return true;
    }

    method LinkObserved(session: string, memory: string, metadata: Option<Option<int>>, found: Option<Option<int>>,
            written: Option<int>, ghost owners: Owners, now: int)
      returns (ok: bool)
      requires Unique(rows)
      modifies this
      ensures rows == Apply(old(rows), Observed(session, memory, metadata, found, written, now), owners) && Unique(rows)
      ensures ok == LinkOf(Observed(session, memory, metadata, found, written, now), owners).Some?
    {
      if metadata.Some? {
        ok := LinkCommit(session, Some(memory), "git_metadata", metadata.value, owners, now);
        return;
      }
      if found.None? { return false; }
      if found.value.Some? {
        LinkSessionToCommitId(Link(found.value.value, None, session, Some(memory), "observations", now));
        return true;
      }
      ok := LinkCommit(session, Some(memory), "observations", written, owners, now);
    }
  }

  // ---------------------------------------------------------------- uniqueness

  lemma {:induction false} WithoutLegacyIs(t: Links, commit: int, session: string, memory: string)
    ensures forall l ::
      l in WithoutLegacy(t, commit, session, memory) <==> l in t && !IsLegacy(l, commit, session, memory)
    ensures (forall l :: l in t ==> !IsLegacy(l, commit, session, memory)) ==>
      WithoutLegacy(t, commit, session, memory) == t
  {
    if t != [] {
      hide IsLegacy;
      assert t == [t[0]] + t[1..];
      WithoutLegacyIs(t[1..], commit, session, memory);
    }
  }

  lemma {:induction false} WithoutLegacyIsUnique(t: Links, commit: int, session: string, memory: string)
    requires Unique(t)
    ensures Unique(WithoutLegacy(t, commit, session, memory))
  {
    if t != [] {
      hide IsLegacy, KeyOf;
      WithoutLegacyIsUnique(t[1..], commit, session, memory);
      WithoutLegacyIs(t[1..], commit, session, memory);
      var rest := WithoutLegacy(t[1..], commit, session, memory);
      assert forall j :: 0 <= j < |rest| ==> rest[j] in t[1..];
    }
  }

  lemma WithRowIs(t: Links, commit: int, row: int, session: string, memory: string)
    ensures forall l :: l in t ==>
      PromoteOne(l, commit, row, session, memory) in WithRow(t, commit, row, session, memory)
    ensures forall l :: l in WithRow(t, commit, row, session, memory) ==>
      !IsLegacy(l, commit, session, memory)
      && (l in t || (l.row == Some(row) && IsLegacy(l.(row := None), commit, session, memory) && l.(row := None) in t))
    ensures (forall l :: l in t ==> !IsLegacy(l, commit, session, memory)) ==>
      WithRow(t, commit, row, session, memory) == t
  {
    var t2 := WithRow(t, commit, row, session, memory);
    forall l | l in t ensures PromoteOne(l, commit, row, session, memory) in t2 {
      var i :| 0 <= i < |t| && t[i] == l;
      assert t2[i] == PromoteOne(l, commit, row, session, memory);
    }
    forall l | l in t2
      ensures !IsLegacy(l, commit, session, memory)
        && (l in t || (l.row == Some(row) && IsLegacy(l.(row := None), commit, session, memory)
          && l.(row := None) in t))
    {
      var i :| 0 <= i < |t2| && t2[i] == l;
      assert t[i] in t;
      assert IsLegacy(t[i], commit, session, memory) ==> l.(row := None) == t[i];
    }
  }

  lemma WithRowIsUnique(t: Links, commit: int, row: int, session: string, memory: string)
    requires Unique(t)
    requires HasKey(t, Durable(commit, row)) ==> forall l :: l in t ==> !IsLegacy(l, commit, session, memory)
    ensures Unique(WithRow(t, commit, row, session, memory))
  {
    WithRowIs(t, commit, row, session, memory);
    if HasKey(t, Durable(commit, row)) {
    } else {
      var t2 := WithRow(t, commit, row, session, memory);
      forall i, j | 0 <= i < j < |t2| ensures KeyOf(t2[i]) != KeyOf(t2[j]) {
        assert KeyOf(t[i]) != KeyOf(t[j]) && KeyOf(t[i]) != Durable(commit, row) && KeyOf(t[j]) != Durable(commit, row);
      }
    }
  }

  lemma PromotedIsUnique(t: Links, commit: int, row: int, session: string, memory: Option<string>)
    requires Unique(t)
    ensures Unique(Promoted(t, commit, row, session, memory))
  {
    hide Unique, RollupId, IsLegacy, HasKey;
    if memory == Some(RollupId(row)) {
      var m := RollupId(row);
      WithoutLegacyIs(t, commit, session, m);
      WithoutLegacyIsUnique(t, commit, session, m);
      var kept := if HasKey(t, Durable(commit, row)) then WithoutLegacy(t, commit, session, m) else t;
      WithRowIsUnique(kept, commit, row, session, m);
    }
  }

  lemma UpsertedIsUnique(t: Links, l: Link)
    requires Unique(t)
    ensures Unique(Upserted(t, l))
  {
    forall i | 0 <= i < |t| && KeyOf(t[i]) == KeyOf(l) ensures KeyOf(Merge(t[i], l)) == KeyOf(t[i]) {}
  }

  lemma LinkedIsUnique(t: Links, l: Link)
    requires Unique(t)
    ensures Unique(Linked(t, l))
  {
    hide Promoted, Upserted, Unique;
    if l.row.Some? { PromotedIsUnique(t, l.commit, l.row.value, l.session, l.memory); }
    UpsertedIsUnique(if l.row.Some? then Promoted(t, l.commit, l.row.value, l.session, l.memory) else t, l);
  }

  // ---------------------------------------------------------------- what runs keep

  /** At most one link per key; every durable link is of the session that owns its row. */
  ghost predicate Inv(t: Links, owners: Owners) {
    && Unique(t)
    && forall l :: l in t && l.row.Some? ==> l.row.value in owners && owners[l.row.value].session == l.session
  }

  /** `later` stands for `l`: the same commit and session, no known row or memory session id
      lost, no trust lost. */
  predicate StandsFor(later: Link, l: Link) {
    && later.commit == l.commit && later.session == l.session
    && (l.row.Some? ==> later.row == l.row)
    && (l.memory.Some? ==> later.memory.Some?)
    && (Trusted(l.source) ==> Trusted(later.source))
  }

  ghost predicate Kept(t: Links, l: Link) { exists later :: later in t && StandsFor(later, l) }

  /** Only the links of one commit and session may be other than before. */
  ghost predicate OnlyTouches(t: Links, t2: Links, commit: int, session: string) {
    forall l :: l in t2 && l !in t ==> l.commit == commit && l.session == session
  }

  lemma PromotedHas(t: Links, commit: int, row: int, session: string, memory: Option<string>)
    requires memory == Some(RollupId(row))
    ensures var t2 := Promoted(t, commit, row, session, memory);
      && (forall l :: l in t && !IsLegacy(l, commit, session, RollupId(row)) ==> l in t2)
      && (forall l :: l in t && IsLegacy(l, commit, session, RollupId(row)) ==>
            HasKey(t2, Durable(commit, row)) || l.(row := Some(row)) in t2)
      && (forall l :: l in t2 ==>
            && !IsLegacy(l, commit, session, RollupId(row))
            && (l in t || (l.row == Some(row) && IsLegacy(l.(row := None), commit, session, RollupId(row))
              && l.(row := None) in t)))
  {
    hide Unique, RollupId, HasKey, WithRow;
    var m := RollupId(row);
    WithoutLegacyIs(t, commit, session, m);
    var kept := if HasKey(t, Durable(commit, row)) then WithoutLegacy(t, commit, session, m) else t;
    WithRowIs(kept, commit, row, session, m);
    var t2 := WithRow(kept, commit, row, session, m);
    forall l | l in t && !IsLegacy(l, commit, session, m) ensures l in t2 {
      assert PromoteOne(l, commit, row, session, m) == l;
    }
    if HasKey(t, Durable(commit, row)) {
      var l := WithKey(t, Durable(commit, row));
      KeyOfMember(t2, l);
    } else {
      forall l | l in t && IsLegacy(l, commit, session, m) ensures l.(row := Some(row)) in t2 {
        assert PromoteOne(l, commit, row, session, m) == l.(row := Some(row));
      }
    }
  }

  lemma NotPromoted(t: Links, commit: int, row: int, session: string, memory: Option<string>)
    requires memory != Some(RollupId(row))
    ensures Promoted(t, commit, row, session, memory) == t
  {
  }

  lemma WithKey(t: Links, key: Key) returns (l: Link)
    requires HasKey(t, key)
    ensures l in t && KeyOf(l) == key
  {
    var i :| 0 <= i < |t| && KeyOf(t[i]) == key;
    l := t[i];
  }

  lemma KeyOfMember(t: Links, l: Link)
    requires l in t
    ensures HasKey(t, KeyOf(l))
  {
  }

  lemma UpsertedHas(t: Links, new_: Link)
    ensures var t2 := Upserted(t, new_);
      && (forall l :: l in t ==> (if KeyOf(l) == KeyOf(new_) then Merge(l, new_) else l) in t2)
      && (forall l :: l in t2 ==> (l in t && KeyOf(l) != KeyOf(new_)) || (l == new_ && !HasKey(t, KeyOf(new_)))
                                  || exists o :: o in t && KeyOf(o) == KeyOf(new_) && l == Merge(o, new_))
  {
    if HasKey(t, KeyOf(new_)) {
      var t2 := Upserted(t, new_);
      forall l | l in t ensures (if KeyOf(l) == KeyOf(new_) then Merge(l, new_) else l) in t2 {
        var i :| 0 <= i < |t| && t[i] == l;
        assert t2[i] == if KeyOf(l) == KeyOf(new_) then Merge(l, new_) else l;
      }
      forall l | l in t2
        ensures (l in t && KeyOf(l) != KeyOf(new_))
             || exists o :: o in t && KeyOf(o) == KeyOf(new_) && l == Merge(o, new_)
      {
        var i :| 0 <= i < |t2| && t2[i] == l;
        assert t[i] in t;
      }
    }
  }

  ghost predicate Sane(l: Link, owners: Owners) {
    l.row.Some? ==>
      Trusted(l.source) && l.memory.Some? && l.row.value in owners && owners[l.row.value].session == l.session
  }

  /** `l` says what `new_` came to say: its key and session, its memory session id if it
      has one, and its trust; a first link says all of it. */
  predicate Records(l: Link, new_: Link) {
    && KeyOf(l) == KeyOf(new_) && l.session == new_.session
    && (new_.memory.Some? ==> l.memory == new_.memory)
    && (Trusted(new_.source) ==> Trusted(l.source))
  }

  /** A link in the new table was there, or is of the commit and session of the new one, and
      has its row if it has one. */
  lemma LinkedComesFrom(t: Links, new_: Link, l: Link)
    requires l in Linked(t, new_) && l !in t
    ensures l.commit == new_.commit && l.session == new_.session && (l.row.Some? ==> l.row == new_.row)
  {
    hide Promoted, Upserted, HasKey, RollupId, Trusted;
    var mid := if new_.row.Some? then Promoted(t, new_.commit, new_.row.value, new_.session, new_.memory) else t;
    if new_.row.Some? {
      if new_.memory == Some(RollupId(new_.row.value)) {
        PromotedHas(t, new_.commit, new_.row.value, new_.session, new_.memory);
      } else {
        NotPromoted(t, new_.commit, new_.row.value, new_.session, new_.memory);
      }
    }
    UpsertedHas(mid, new_);
  }

  /** One link made: the invariant stays, and every link from before is stood for. */
  lemma LinkingKeeps(t: Links, new_: Link, owners: Owners)
    requires Inv(t, owners) && Sane(new_, owners)
    ensures Inv(Linked(t, new_), owners)
    ensures forall l :: l in t ==> Kept(Linked(t, new_), l)
    ensures OnlyTouches(t, Linked(t, new_), new_.commit, new_.session)
    ensures exists l :: l in Linked(t, new_) && Records(l, new_)
  {
    var mid := if new_.row.Some? then Promoted(t, new_.commit, new_.row.value, new_.session, new_.memory) else t;
    assert Linked(t, new_) == Upserted(mid, new_);
    hide Unique, Promoted, Upserted, Trusted, Linked, Kept, Records, RollupId;
    LinkedIsUnique(t, new_);
    NewIsThere(mid, new_);
    forall l | l in t ensures Kept(Linked(t, new_), l) { LinkIsKept(t, new_, owners, l); }
    forall l | l in Linked(t, new_) && l !in t
      ensures l.commit == new_.commit && l.session == new_.session && (l.row.Some? ==> l.row == new_.row)
    {
      LinkedComesFrom(t, new_, l);
    }
  }

  lemma NewIsThere(t: Links, new_: Link)
    ensures exists l :: l in Upserted(t, new_) && Records(l, new_)
  {
    UpsertedHas(t, new_);
    if HasKey(t, KeyOf(new_)) {
      var l := WithKey(t, KeyOf(new_));
      assert Merge(l, new_) in Upserted(t, new_);
    } else {
      assert new_ in Upserted(t, new_);
    }
  }

  lemma LinkIsKept(t: Links, new_: Link, owners: Owners, l: Link)
    requires Inv(t, owners) && Sane(new_, owners) && l in t
    ensures Kept(Linked(t, new_), l)
  {
    hide Unique, Promoted, Upserted, HasKey, RollupId, Decimal, Trusted;
    var mid := if new_.row.Some? then Promoted(t, new_.commit, new_.row.value, new_.session, new_.memory) else t;
    if new_.row.Some? {
      if new_.memory == Some(RollupId(new_.row.value)) {
        PromotedHas(t, new_.commit, new_.row.value, new_.session, new_.memory);
      } else {
        NotPromoted(t, new_.commit, new_.row.value, new_.session, new_.memory);
      }
    }
    UpsertedHas(mid, new_);
    if l in mid {
      assert StandsFor(if KeyOf(l) == KeyOf(new_) then Merge(l, new_) else l, l);
    } else {
      var row := new_.row.value;
      var promoted := l.(row := Some(row));
      if promoted in mid {
        assert StandsFor(Merge(promoted, new_), l);
      } else {
        var d := WithKey(mid, Durable(new_.commit, row));
        assert StandsFor(Merge(d, new_), l);
      }
    }
  }

  lemma LinkOfIsSane(op: Op, owners: Owners)
    requires LinkOf(op, owners).Some?
    ensures Sane(LinkOf(op, owners).value, owners)
  {
    hide Trim;
  }

  /** Over any run: at most one durable link per commit and session row and one without a
      row per commit and session id; every durable link its row owner's; and for every link
      from before one that stands for it, so trust and memory session ids are never lost. */
  lemma {:induction false} RunsKeepLinks(t: Links, ops: seq<Op>, owners: Owners)
    requires Inv(t, owners)
    ensures Inv(After(t, ops, owners), owners)
    ensures forall l :: l in t ==> Kept(After(t, ops, owners), l)
    decreases |ops|
  {
    hide Inv, Linked, LinkOf, StandsFor;
    if ops == [] {
      forall l | l in t ensures Kept(t, l) { StandsForItself(l); }
    } else {
      var t1 := Apply(t, ops[0], owners);
      StepKeepsLinks(t, ops[0], owners);
      RunsKeepLinks(t1, ops[1..], owners);
      forall l | l in t ensures Kept(After(t, ops, owners), l) {
        var l1 :| l1 in t1 && StandsFor(l1, l);
        var l2 :| l2 in After(t1, ops[1..], owners) && StandsFor(l2, l1);
        StandsForChains(l2, l1, l);
      }
    }
  }

  lemma StandsForChains(a: Link, b: Link, c: Link)
    requires StandsFor(a, b) && StandsFor(b, c)
    ensures StandsFor(a, c)
  {
  }

  lemma StandsForItself(l: Link)
    ensures StandsFor(l, l)
  {
  }

  lemma StepKeepsLinks(t: Links, op: Op, owners: Owners)
    requires Inv(t, owners)
    ensures Inv(Apply(t, op, owners), owners)
    ensures forall l :: l in t ==> Kept(Apply(t, op, owners), l)
    ensures LinkOf(op, owners).Some? ==>
      var l := LinkOf(op, owners).value; OnlyTouches(t, Apply(t, op, owners), l.commit, l.session)
  {
    hide Inv, Linked, LinkOf;
    if LinkOf(op, owners).Some? {
      LinkOfIsSane(op, owners);
      LinkingKeeps(t, LinkOf(op, owners).value, owners);
    } else {
      assert forall l :: l in t ==> StandsFor(l, l);
    }
  }

  // ---------------------------------------------------------------- trust

  /** Every link to a captured session comes from a trusted source. */
  ghost predicate AllTrusted(t: Links) { forall l :: l in t && l.row.Some? ==> Trusted(l.source) }

  /** The durable link of this commit and session row is there and is not trusted. */
  ghost predicate Doubtful(t: Links, commit: int, row: int) {
    exists l :: l in t && KeyOf(l) == Durable(commit, row) && !Trusted(l.source)
  }

  /** The operation links this commit with this session row. */
  predicate Reaches(op: Op, owners: Owners, commit: int, row: int) {
    LinkOf(op, owners).Some? && KeyOf(LinkOf(op, owners).value) == Durable(commit, row)
  }

  ghost predicate SomeReaches(ops: seq<Op>, owners: Owners, commit: int, row: int) {
    exists op :: op in ops && Reaches(op, owners, commit, row)
  }

  /** A link leaves every durable link of another key alone. */
  lemma OtherKeysStay(t: Links, new_: Link, l: Link)
    requires l.row.Some? && KeyOf(l) != KeyOf(new_)
    ensures l in Linked(t, new_) <==> l in t
  {
    hide Promoted, Upserted, HasKey, RollupId, WithRow;
    var mid := if new_.row.Some? then Promoted(t, new_.commit, new_.row.value, new_.session, new_.memory) else t;
    if new_.row.Some? {
      if new_.memory == Some(RollupId(new_.row.value)) {
        PromotedHas(t, new_.commit, new_.row.value, new_.session, new_.memory);
      } else {
        NotPromoted(t, new_.commit, new_.row.value, new_.session, new_.memory);
      }
    }
    assert l in mid <==> l in t;
    UpsertedHas(mid, new_);
  }

  /** One operation clears up exactly the durable link it reaches. */
  lemma StepClears(t: Links, op: Op, owners: Owners, commit: int, row: int)
    ensures Doubtful(Apply(t, op, owners), commit, row)
      <==> Doubtful(t, commit, row) && !Reaches(op, owners, commit, row)
  {
    hide Linked, LinkOf, Trusted;
    if LinkOf(op, owners).Some? {
      var new_ := LinkOf(op, owners).value;
      var t2 := Linked(t, new_);
      if KeyOf(new_) == Durable(commit, row) {
        LinkOfIsSane(op, owners);
        ReachedIsTrusted(t, new_, owners);
      } else {
        forall l | KeyOf(l) == Durable(commit, row) ensures l in t2 <==> l in t { OtherKeysStay(t, new_, l); }
      }
    }
  }

  lemma ReachedIsTrusted(t: Links, new_: Link, owners: Owners)
    requires new_.row.Some? && Sane(new_, owners)
    ensures !Doubtful(Linked(t, new_), new_.commit, new_.row.value)
  {
    hide Promoted, Upserted, HasKey, Trusted;
    UpsertedHas(Promoted(t, new_.commit, new_.row.value, new_.session, new_.memory), new_);
  }

  /** After a run a durable link is untrusted if and only if it was, and nothing reached it. */
  lemma {:induction false} RunClears(t: Links, ops: seq<Op>, owners: Owners, commit: int, row: int)
    ensures Doubtful(After(t, ops, owners), commit, row)
      <==> Doubtful(t, commit, row) && !SomeReaches(ops, owners, commit, row)
    decreases |ops|
  {
    hide Doubtful, Reaches, Apply;
    if ops != [] {
      assert ops == [ops[0]] + ops[1..];
      StepClears(t, ops[0], owners, commit, row);
      RunClears(Apply(t, ops[0], owners), ops[1..], owners, commit, row);
    }
  }

  /** When every durable link is trusted after a run, whatever the table before it: if and
      only if the run reaches every untrusted durable link it started from. */
  lemma TrustExactly(t: Links, ops: seq<Op>, owners: Owners)
    ensures AllTrusted(After(t, ops, owners))
      <==> forall l :: l in t && l.row.Some? && !Trusted(l.source) ==> SomeReaches(ops, owners, l.commit, l.row.value)
  {
    hide Trusted, After, SomeReaches;
    var t2 := After(t, ops, owners);
    forall l | l in t && l.row.Some? && !Trusted(l.source) && AllTrusted(t2)
      ensures SomeReaches(ops, owners, l.commit, l.row.value)
    {
      RunClears(t, ops, owners, l.commit, l.row.value);
    }
    forall l | l in t2 && l.row.Some? && !Trusted(l.source)
      ensures exists o :: o in t && KeyOf(o) == KeyOf(l) && !Trusted(o.source)
      ensures !SomeReaches(ops, owners, l.commit, l.row.value)
    {
      RunClears(t, ops, owners, l.commit, l.row.value);
    }
  }

  /** A link that migration v067 gave a session row while it was only observed. */
  function CarriedOver(): Link { Link(1, Some(7), "s", Some(RollupId(7)), "observations", 0) }

  /** It stays untrusted through any run on other commits. */
  lemma CarriedOverStaysUntrusted(ops: seq<Op>, owners: Owners)
    requires forall op :: op in ops && LinkOf(op, owners).Some? ==> LinkOf(op, owners).value.commit != 1
    ensures !AllTrusted(After([CarriedOver()], ops, owners))
  {
    hide LinkOf, After, RollupId;
    assert CarriedOver() in [CarriedOver()];
    TrustExactly([CarriedOver()], ops, owners);
  }

  // ---------------------------------------------------------------- linking again

  /** The operation at another time. */
  function At(op: Op, now: int): Op { op.(now := now) }

  /** Doing the same again, whenever, leaves any table as it is, times included. */
  lemma RelinkingChangesNothing(t: Links, op: Op, now: int, owners: Owners)
    ensures Apply(Apply(t, op, owners), At(op, now), owners) == Apply(t, op, owners)
  {
    hide Linked, Trim;
    assert LinkOf(At(op, now), owners)
      == if LinkOf(op, owners).Some? then Some(LinkOf(op, owners).value.(linkedAt := now)) else None;
    if LinkOf(op, owners).Some? {
      LinkingTwice(t, LinkOf(op, owners).value, now);
    }
  }

  /** A commit was first seen and written, so the next observation finds it. */
  predicate FirstSeen(op: Op, owners: Owners) {
    op.Observed? && op.metadata.None? && op.found == Some(None) && LinkOf(op, owners).Some?
  }

  /** The operation as it comes when the same SHA is observed again. */
  function SeenAgain(op: Op, now: int, owners: Owners): Op
    requires op.Observed?
  {
    Observed(op.session, op.memory, op.metadata, if FirstSeen(op, owners) then Some(op.written) else op.found,
             op.written, now)
  }

  /** The table has all that the link says. */
  predicate Says(t: Links, l: Link) {
    HasKey(t, KeyOf(l)) && forall i :: 0 <= i < |t| && KeyOf(t[i]) == KeyOf(l) ==> Merge(t[i], l) == t[i]
  }

  /** The link made for a commit that is there goes under the session id as given. */
  function AsGiven(op: Op): Link
    requires op.Observed? && op.written.Some?
  {
    Link(op.written.value, None, op.session, Some(op.memory), "observations", op.now)
  }

  /** Observing a SHA twice changes nothing the second time if and only if the commit was
      there the first time, or the session id is trimmed, or a link under the untrimmed id
      says it all: a new commit is first linked under the trimmed id, then under the id as
      given. */
  lemma ObservingTwice(t: Links, op: Op, now: int, owners: Owners)
    requires op.Observed?
    ensures Apply(Apply(t, op, owners), SeenAgain(op, now, owners), owners) == Apply(t, op, owners)
      <==> (FirstSeen(op, owners) ==> Trim(op.session) == op.session || Says(t, AsGiven(op)))
  {
    hide Linked, Trim, Says, HasKey;
    if FirstSeen(op, owners) {
      SourceIsTrimmed();
      var first, second := LinkOf(op, owners).value, AsGiven(op).(linkedAt := now);
      assert LinkOf(SeenAgain(op, now, owners), owners) == Some(second);
      LinkedWithoutRow(t, first);
      LinkedWithoutRow(Linked(t, first), second);
      if Trim(op.session) == op.session {
        assert second == first.(linkedAt := now);
        LinkingTwice(t, first, now);
      } else {
        SaysAfter(t, first, second);
        SaysAtAnyTime(t, AsGiven(op), now);
        UpsertNeedsNothing(Upserted(t, first), second);
      }
    } else {
      RelinkingChangesNothing(t, op, now, owners);
    }
  }

  lemma LinkedWithoutRow(t: Links, l: Link)
    requires l.row.None?
    ensures Linked(t, l) == Upserted(t, l)
  {
  }

  lemma SaysAtAnyTime(t: Links, l: Link, now: int)
    ensures Says(t, l.(linkedAt := now)) <==> Says(t, l)
  {
    assert KeyOf(l.(linkedAt := now)) == KeyOf(l);
    assert forall o: Link :: Merge(o, l.(linkedAt := now)) == Merge(o, l);
  }

  /** A link of another key does not matter. */
  lemma SaysAfter(t: Links, other: Link, l: Link)
    requires KeyOf(other) != KeyOf(l)
    ensures Says(Upserted(t, other), l) <==> Says(t, l)
  {
    hide Merge;
    var t2 := Upserted(t, other);
    forall o: Link ensures KeyOf(Merge(o, other)) == KeyOf(o) || KeyOf(o) != KeyOf(other) { MergeKeepsKey(o, other); }
    assert forall i :: 0 <= i < |t| ==> KeyOf(t2[i]) == KeyOf(t[i]) && (KeyOf(t[i]) == KeyOf(l) ==> t2[i] == t[i]);
    assert forall i :: |t| <= i < |t2| ==> t2[i] == other;
  }

  lemma MergeKeepsKey(o: Link, l: Link)
    ensures KeyOf(o) == KeyOf(l) ==> KeyOf(Merge(o, l)) == KeyOf(o)
  {
  }

  lemma UpsertNeedsNothing(t: Links, l: Link)
    ensures Upserted(t, l) == t <==> Says(t, l)
  {
    hide Merge;
    var t2 := Upserted(t, l);
    if HasKey(t, KeyOf(l)) {
      assert forall i :: 0 <= i < |t| ==> t2[i] == if KeyOf(t[i]) == KeyOf(l) then Merge(t[i], l) else t[i];
    } else {
      assert |t2| == |t| + 1;
    }
  }

  /** A padded session id makes a second link. */
  lemma PaddedSessionLinksTwice(owners: Owners)
    ensures var op := Observed(" s", "m", None, Some(None), Some(1), 0);
      && Apply([], op, owners) == [Link(1, None, "s", Some("m"), "observations", 0)]
      && Apply(Apply([], op, owners), SeenAgain(op, 0, owners), owners)
         == [Link(1, None, "s", Some("m"), "observations", 0), Link(1, None, " s", Some("m"), "observations", 0)]
  {
    var op := Observed(" s", "m", None, Some(None), Some(1), 0);
    SourceIsTrimmed();
    PaddedIsTrimmed();
    hide Trim;
    var first := Link(1, None, "s", Some("m"), "observations", 0);
    assert LinkOf(op, owners) == Some(first);
    assert |"s"| != |" s"|;
    assert Apply([], op, owners) == [first];
  }

  lemma PaddedIsTrimmed()
    ensures Trim(" s") == "s"
  {
    assert LeadingRun(" s", c => IsWhitespace(c)) == 1 && " s"[1..] == "s";
    assert TrailingRun("s", c => IsWhitespace(c)) == 0 && "s"[..1] == "s";
  }

  lemma SourceIsTrimmed()
    ensures Trim("observations") == "observations"
  {
    var s := "observations";
    assert s[0] == 'o' && s[11] == 's' && |s| == 12;
    TrimmedWord(s);
  }

  lemma LinkingTwice(t: Links, l: Link, now: int)
    ensures Linked(Linked(t, l), l.(linkedAt := now)) == Linked(t, l)
  {
    hide Promoted, Upserted, HasKey, RollupId;
    var mid := if l.row.Some? then Promoted(t, l.commit, l.row.value, l.session, l.memory) else t;
    if l.row.Some? {
      NoneLeft(t, l);
      PromotingNothing(Linked(t, l), l.commit, l.row.value, l.session, l.memory);
    }
    UpsertingTwice(mid, l, now);
  }

  /** After a link to a captured session no link without a row waits for promotion. */
  lemma NoneLeft(t: Links, new_: Link)
    requires new_.row.Some?
    ensures new_.memory == Some(RollupId(new_.row.value))
      ==> forall l :: l in Linked(t, new_) ==> !IsLegacy(l, new_.commit, new_.session, RollupId(new_.row.value))
  {
    hide RollupId, Upserted, HasKey;
    var m := RollupId(new_.row.value);
    if new_.memory == Some(m) {
      var mid := Promoted(t, new_.commit, new_.row.value, new_.session, new_.memory);
      PromotedHas(t, new_.commit, new_.row.value, new_.session, new_.memory);
      assert forall l :: l in mid ==> !IsLegacy(l, new_.commit, new_.session, m);
      UpsertedHas(mid, new_);
    }
  }

  lemma PromotingNothing(t: Links, commit: int, row: int, session: string, memory: Option<string>)
    requires memory == Some(RollupId(row)) ==> forall l :: l in t ==> !IsLegacy(l, commit, session, RollupId(row))
    ensures Promoted(t, commit, row, session, memory) == t
  {
    hide RollupId, WithRow, IsLegacy;
    if memory == Some(RollupId(row)) {
      WithoutLegacyIs(t, commit, session, RollupId(row));
      WithRowIs(t, commit, row, session, RollupId(row));
    }
  }

  lemma UpsertingTwice(t: Links, l: Link, now: int)
    ensures Upserted(Upserted(t, l), l.(linkedAt := now)) == Upserted(t, l)
  {
    var t1 := Upserted(t, l);
    NewIsThere(t, l);
    var there :| there in t1 && Records(there, l);
    KeyOfMember(t1, there);
    assert KeyOf(l.(linkedAt := now)) == KeyOf(l);
    if HasKey(t, KeyOf(l)) {
      assert forall i :: 0 <= i < |t| ==> t1[i] == if KeyOf(t[i]) == KeyOf(l) then Merge(t[i], l) else t[i];
      assert forall o: Link :: Merge(Merge(o, l), l.(linkedAt := now)) == Merge(o, l);
    }
    assert Upserted(t1, l.(linkedAt := now)) == t1;
  }
}
