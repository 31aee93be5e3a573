/** What each operation on the commit and session links (src/git_trace.rs) writes, row by
    row. */
module LinkRules {
  import opened Wrappers
  import opened Text
  import opened CommitLinks

  // ---------------------------------------------------------------- which link is made

  /** A captured commit is linked to the session row whose session and project are given,
      as captured evidence; nothing else is. */
  lemma CapturedExactly(project: string, row: int, session: string, memory: string, commit: Option<int>, now: int,
          owners: Owners, l: Link)
    ensures LinkOf(Captured(project, row, session, memory, commit, now), owners) == Some(l) <==>
      && row in owners && owners[row].session == session && owners[row].project == project
      && commit == Some(l.commit) && l == Link(l.commit, Some(row), session, Some(memory), "capture_git_evidence", now)
  {
  }

  /** A commit named by hand is linked under the trimmed session and source, neither of
      which may be blank, and to no row. */
  lemma CommittedExactly(session: string, given: Option<string>, source: string, commit: Option<int>, now: int,
          owners: Owners, l: Link)
    ensures LinkOf(Committed(session, given, source, commit, now), owners) == Some(l) <==>
      && Trim(session) != "" && Trim(source) != ""
      && commit == Some(l.commit) && l == Link(l.commit, None, Trim(session), given, Trim(source), now)
  {
    hide Trim;
  }

  /** An observed commit that the given metadata is of is linked as `git_metadata` under the
      trimmed session; without metadata, one already known is linked as `observations`
      under the session as given, and a new one as `observations` under the trimmed
      session; and none if the search for it failed. */
  lemma ObservedExactly(session: string, memory: string, metadata: Option<Option<int>>, found: Option<Option<int>>,
          written: Option<int>, now: int, owners: Owners, l: Link)
    ensures LinkOf(Observed(session, memory, metadata, found, written, now), owners) == Some(l) <==>
      && l.row == None && l.memory == Some(memory) && l.linkedAt == now
      && ((metadata == Some(Some(l.commit)) && l.source == "git_metadata" && l.session == Trim(session) != "")
          || (metadata == None && found == Some(Some(l.commit)) && l.source == "observations" && l.session == session)
          || (metadata == None && found == Some(None) && written == Some(l.commit) && l.source == "observations"
              && l.session == Trim(session) != ""))
  {
    MetadataIsTrimmed();
    SourceIsTrimmed();
    hide Trim;
  }

  lemma MetadataIsTrimmed()
    ensures Trim("git_metadata") == "git_metadata"
  {
    var s := "git_metadata";
    TrimmedWord(s);
  }

  // ---------------------------------------------------------------- what a link does to the table

  /** The rows of the link's commit that it meets: those of its session row, or where it has
      none, those of its session without a row. */
  predicate Meets(o: Link, l: Link) {
    o.commit == l.commit && o.row == l.row && (l.row == None ==> o.session == l.session)
  }

  /** A row met gets the link's session, its memory session id if it has one, and its
      source unless its own is one to be trusted; commit, row and time stay. */
  function Merged(o: Link, l: Link): Link {
    Link(o.commit, o.row, l.session, if l.memory.Some? then l.memory else o.memory,
         if o.source in {"git_metadata", "capture_git_evidence"} then o.source else l.source, o.linkedAt)
  }

  lemma MeetsIsKey(o: Link, l: Link)
    ensures Meets(o, l) <==> KeyOf(o) == KeyOf(l)
    ensures Merge(o, l) == Merged(o, l)
  {
  }

  /** Upserting a link merges it into the rows it meets, or adds it behind all others where
      it meets none, and leaves every other row as it is. */
  lemma UpsertedExactly(t: Links, l: Link, i: nat)
    requires i < |t|
    ensures (forall o :: o in t ==> !Meets(o, l)) ==> Upserted(t, l) == t + [l]
    ensures (exists o :: o in t && Meets(o, l)) ==>
              |Upserted(t, l)| == |t| && Upserted(t, l)[i] == if Meets(t[i], l) then Merged(t[i], l) else t[i]
  {
    hide Meets, Merged;
    forall o ensures Meets(o, l) <==> KeyOf(o) == KeyOf(l) { MeetsIsKey(o, l); }
    MeetsIsKey(t[i], l);
  }

  /** The roll-up id of the row proves that this row without one is the session's. */
  predicate Awaits(o: Link, commit: int, row: int, session: string) {
    o.commit == commit && o.row == None && o.session == session
    && o.memory == Some("capture-rollup-" + SignedDecimal(row))
  }

  predicate HasDurable(t: Links, commit: int, row: int) {
    exists i :: 0 <= i < |t| && t[i].commit == commit && t[i].row == Some(row)
  }

  lemma AwaitsIsLegacy(o: Link, commit: int, row: int, session: string)
    ensures Awaits(o, commit, row, session) <==> IsLegacy(o, commit, session, RollupId(row))
  {
  }

  lemma DurableIsKey(t: Links, commit: int, row: int)
    ensures HasDurable(t, commit, row) <==> HasKey(t, Durable(commit, row))
  {
  }

  /** Promotion by another memory session id changes nothing. By the row's roll-up id the
      rows that await it get the row, or go where the commit has a link to that row
      already; every other row stays. */
  lemma PromotedExactly(t: Links, commit: int, row: int, session: string, memory: Option<string>, l: Link)
    ensures memory != Some("capture-rollup-" + SignedDecimal(row)) ==> Promoted(t, commit, row, session, memory) == t
    ensures memory == Some("capture-rollup-" + SignedDecimal(row)) && HasDurable(t, commit, row) ==>
              (l in Promoted(t, commit, row, session, memory) <==> l in t && !Awaits(l, commit, row, session))
    ensures memory == Some("capture-rollup-" + SignedDecimal(row)) && !HasDurable(t, commit, row) ==>
              (l in Promoted(t, commit, row, session, memory) <==>
               exists o :: o in t && l == if Awaits(o, commit, row, session) then o.(row := Some(row)) else o)
  {
    hide Awaits, HasDurable, IsLegacy, HasKey;
    DurableIsKey(t, commit, row);
    forall o ensures Awaits(o, commit, row, session) <==> IsLegacy(o, commit, session, RollupId(row)) {
      AwaitsIsLegacy(o, commit, row, session);
    }
    if memory == Some(RollupId(row)) {
      WithoutLegacyIs(t, commit, session, RollupId(row));
      if HasDurable(t, commit, row) {
        WithRowIs(WithoutLegacy(t, commit, session, RollupId(row)), commit, row, session, RollupId(row));
      } else {
        WithRowMembers(t, commit, row, session, l);
      }
    }
  }

  lemma WithRowMembers(t: Links, commit: int, row: int, session: string, l: Link)
    ensures l in WithRow(t, commit, row, session, RollupId(row)) <==>
      exists o :: o in t && l == if IsLegacy(o, commit, session, RollupId(row)) then o.(row := Some(row)) else o
  {
    hide IsLegacy;
    var t2 := WithRow(t, commit, row, session, RollupId(row));
    if l in t2 {
      var i :| 0 <= i < |t2| && t2[i] == l;
      assert t[i] in t && l == PromoteOne(t[i], commit, row, session, RollupId(row));
    }
    if o :| o in t && l == if IsLegacy(o, commit, session, RollupId(row)) then o.(row := Some(row)) else o {
      var i :| 0 <= i < |t| && t[i] == o;
      assert t2[i] == l;
    }
  }

  /** A commit that git metadata vouches for is linked by a trusted source, whatever linked it
      before; an observation alone never raises a link to one. */
  lemma MetadataIsTrusted(t: Links, session: string, memory: string, metadata: Option<Option<int>>,
          found: Option<Option<int>>, written: Option<int>, now: int, owners: Owners, commit: int)
    requires Trim(session) != ""
    ensures metadata == Some(Some(commit)) ==>
      exists l :: l in Apply(t, Observed(session, memory, metadata, found, written, now), owners)
        && l.commit == commit && l.row == None && l.session == Trim(session) && l.memory == Some(memory)
        && l.source in {"git_metadata", "capture_git_evidence"}
    ensures metadata == None ==>
      forall l :: l in Apply(t, Observed(session, memory, metadata, found, written, now), owners) ==>
        || l.source == "observations"
        || exists o :: o in t && o.commit == l.commit && o.row == l.row && o.source == l.source
  {
    hide Trim, Upserted, Records;
    var op := Observed(session, memory, metadata, found, written, now);
    if metadata == Some(Some(commit)) {
      MetadataIsTrimmed();
      var l := Link(commit, None, Trim(session), Some(memory), "git_metadata", now);
      LinkedWithoutRow(t, l);
      NewIsThere(t, l);
      var there :| there in Upserted(t, l) && Records(there, l);
      RecordsMeans(there, l);
    }
    if metadata == None && LinkOf(op, owners).Some? {
      var l := LinkOf(op, owners).value;
      ObservedExactly(session, memory, metadata, found, written, now, owners, l);
      LinkedWithoutRow(t, l);
      UpsertedHas(t, l);
    }
  }

  lemma RecordsMeans(there: Link, l: Link)
    requires Records(there, l) && l.row == None && l.memory.Some? && l.source == "git_metadata"
    ensures there.commit == l.commit && there.row == None && there.session == l.session && there.memory == l.memory
    ensures there.source in {"git_metadata", "capture_git_evidence"}
  {
  }
}
