/** Cursor paging of the read API: the page loop of src/api/read_resources.rs and the
    cursors of src/api/cursor.rs. A request sees one table; tables may change in between. */
module Paging {
  import opened Wrappers

  const RAW_BATCH_SIZE := 100
  const MAX_RAW_SCAN_BUDGET := 1000
  const MAX_PAGE_SIZE := 100

  /** What projecting a row yields: an item, nothing (a policy hides it), or an error. */
  datatype View = Shown | Hidden | Broken

  datatype Row = Row(id: int, view: View)

  /** The rows that pass the filters, newest first. */
  type Table = seq<Row>

  predicate Descending(t: Table) {
    && (forall i :: 0 <= i < |t| ==> t[i].id > 0)
    && forall i, j :: 0 <= i < j < |t| ==> t[i].id > t[j].id
  }

  predicate IsBelow(id: int, before: Option<int>) { before.Some? ==> id < before.value }

  /** How many rows are not below `before`. */
  function Above(t: Table, before: Option<int>): (k: nat)
    ensures k <= |t|
    ensures Descending(t) ==> forall i :: 0 <= i < |t| ==> (IsBelow(t[i].id, before) <==> k <= i)
  {
    if t == [] || IsBelow(t[0].id, before) then 0
    else
      assert Descending(t) ==> Descending(t[1..]);
      1 + Above(t[1..], before)
  }

  function Below(t: Table, before: Option<int>): Table { t[Above(t, before)..] }

  function ShownIds(t: Table): seq<int> {
    if t == [] then []
    else ShownIds(t[..|t| - 1]) + if t[|t| - 1].view.Shown? then [t[|t| - 1].id] else []
  }

  lemma {:induction false} ShownIdsConcat(a: Table, b: Table)
    ensures ShownIds(a + b) == ShownIds(a) + ShownIds(b)
  {
    if b == [] {
      assert a + b == a;
    } else {
      var n := |b| - 1;
      ShownIdsConcat(a, b[..n]);
      assert (a + b)[..|a + b| - 1] == a + b[..n];
    }
  }

  // ---------------------------------------------------------------- one page

  datatype Page = Page(items: seq<int>, next: Option<int>)

  function ContinuationId(full: bool, lastReturned: Option<int>, budgetExhausted: bool, lastScanned: Option<int>,
          exhausted: bool): Result<Option<int>>
  {
    if exhausted then Ok(None)
    else if !full && !budgetExhausted then Err
    else
      var resume := if full then lastReturned else lastScanned;
      if resume.Some? && resume.value > 0 then Ok(resume) else Err
  }

  /** Nothing goes on behind an exhausted table; a full page goes on behind the last row it
      returned, any other behind the last row scanned, if the budget ended it and that row
      has a positive id; and everything else is an error. */
  lemma ContinuesExactly(full: bool, lastReturned: Option<int>, budgetExhausted: bool, lastScanned: Option<int>,
          exhausted: bool, id: int)
    ensures ContinuationId(full, lastReturned, budgetExhausted, lastScanned, exhausted) == Ok(None) <==> exhausted
    ensures ContinuationId(full, lastReturned, budgetExhausted, lastScanned, exhausted) == Ok(Some(id)) <==>
      !exhausted && id >= 1
      && ((full && lastReturned == Some(id)) || (!full && budgetExhausted && lastScanned == Some(id)))
  {
  }

  function ScanBudget(pageSize: nat): (b: nat)
    ensures RAW_BATCH_SIZE <= b <= MAX_RAW_SCAN_BUDGET
  {
    if pageSize * 10 < RAW_BATCH_SIZE then RAW_BATCH_SIZE
    else if pageSize * 10 > MAX_RAW_SCAN_BUDGET then MAX_RAW_SCAN_BUDGET
    else pageSize * 10
  }

  /** How many rows a page looks at: to the last item wanted, or the budget, or the end;
      nothing when a row on the way cannot be projected. */
  function ScanCount(rest: Table, want: int, budget: int): (k: Option<nat>)
    ensures k.Some? ==> k.value <= |rest| && (budget >= 0 ==> k.value <= budget)
  {
    if want <= 0 || budget <= 0 || rest == [] then Some(0)
    else if rest[0].view.Broken? then None
    else
      match ScanCount(rest[1..], if rest[0].view.Shown? then want - 1 else want, budget - 1)
      case None => None
      case Some(k) => Some(k + 1)
  }

  function PageAt(rest: Table, pageSize: nat): Result<Page> {
    match ScanCount(rest, pageSize, ScanBudget(pageSize))
    case None => Err
    case Some(k) =>
      var items := ShownIds(rest[..k]);
      Ok(Page(items, if k > 0 && (|items| == pageSize || k == ScanBudget(pageSize))
        then Some(rest[k - 1].id) else None))
  }

  /** `page` shows what `rest` shows up to row `k`, and goes on right behind that row. */
  ghost predicate Cut(rest: Table, page: Page, k: nat) {
    && k <= |rest| && page.items == ShownIds(rest[..k])
    && (page.next.None? ==> k == |rest|)
    && (page.next.Some? ==> 0 < k && page.next.value == rest[k - 1].id)
  }

  ghost predicate Cuts(rest: Table, page: Page) { exists k: nat :: Cut(rest, page, k) }

  lemma {:induction false} ScanCountIs(rest: Table, want: nat, budget: nat)
    requires ScanCount(rest, want, budget).Some?
    ensures var k := ScanCount(rest, want, budget).value;
      && |ShownIds(rest[..k])| <= want
      && (k == |rest| || k == budget || |ShownIds(rest[..k])| == want)
    decreases |rest|
  {
    if want > 0 && budget > 0 && rest != [] {
      var want' := if rest[0].view.Shown? then want - 1 else want;
      ScanCountIs(rest[1..], want', budget - 1);
      var k' := ScanCount(rest[1..], want', budget - 1).value;
      assert rest[..k' + 1] == rest[..1] + rest[1..][..k'];
      ShownIdsConcat(rest[..1], rest[1..][..k']);
      assert rest[..1][..0] == [];
      assert ShownIds(rest[..1]) == if rest[0].view.Shown? then [rest[0].id] else [];
    }
  }

  /** `k` is the first row count with `want` rows shown, or the budget, or the whole table. */
  ghost predicate ScansTo(rest: Table, want: nat, budget: nat, k: nat) {
    && k <= |rest| && k <= budget
    && (k == |rest| || k == budget || |ShownIds(rest[..k])| == want)
    && forall j :: 0 <= j < k ==> |ShownIds(rest[..j])| < want
  }

  ghost predicate SomeBroken(rest: Table, k: nat) { exists j :: 0 <= j < k && j < |rest| && rest[j].view.Broken? }

  lemma {:induction false} ScanExactly(rest: Table, want: nat, budget: nat) returns (k: nat)
    ensures ScansTo(rest, want, budget, k)
    ensures ScanCount(rest, want, budget) == if SomeBroken(rest, k) then None else Some(k)
    decreases |rest|
  {
    hide ShownIds;
    if want == 0 || budget == 0 || rest == [] {
      k := 0;
      EmptyShowsNothing();
      assert rest[..0] == [];
    } else {
      var want' := if rest[0].view.Shown? then want - 1 else want;
      var k' := ScanExactly(rest[1..], want', budget - 1);
      k := k' + 1;
      forall j | 0 <= j < k ensures |ShownIds(rest[..j])| < want {
        if j > 0 { ShowsFirst(rest, j - 1); } else { EmptyShowsNothing(); assert rest[..0] == []; }
      }
      ShowsFirst(rest, k');
      if SomeBroken(rest[1..], k') {
        var j :| 0 <= j < k' && j < |rest[1..]| && rest[1..][j].view.Broken?;
        assert rest[j + 1] == rest[1..][j];
      }
      assert forall j :: 0 < j < |rest| ==> rest[j] == rest[1..][j - 1];
    }
  }

  lemma ShowsFirst(rest: Table, j: nat)
    requires rest != [] && j < |rest|
    ensures |ShownIds(rest[..j + 1])| == |ShownIds(rest[1..][..j])| + if rest[0].view.Shown? then 1 else 0
  {
    assert rest[..j + 1] == rest[..1] + rest[1..][..j];
    ShownIdsConcat(rest[..1], rest[1..][..j]);
    assert rest[..1][..0] == [];
    assert ShownIds(rest[..1]) == if rest[0].view.Shown? then [rest[0].id] else [];
  }

  /** A page reads to its last item, or through ten rows for each item wanted, at least a
      hundred and at most a thousand, or to the end of the table. It fails exactly if a
      row on the way cannot be projected; otherwise it has the items shown on the way, and
      goes on behind the last row unless the table ended first. */
  lemma PageExactly(rest: Table, pageSize: nat)
    requires 1 <= pageSize
    ensures exists k: nat ::
      var budget := if pageSize <= 10 then 100 else if pageSize < 100 then 10 * pageSize else 1000;
      && ScansTo(rest, pageSize, budget, k)
      && PageAt(rest, pageSize) ==
         if SomeBroken(rest, k) then Err
         else if k == budget || (k > 0 && |ShownIds(rest[..k])| == pageSize)
         then Ok(Page(ShownIds(rest[..k]), Some(rest[k - 1].id)))
         else Ok(Page(ShownIds(rest[..k]), None))
  {
    hide ShownIds, ScanCount, SomeBroken;
    var k := ScanExactly(rest, pageSize, ScanBudget(pageSize));
  }

  /** A page is cut out of the table, holds at most a page, and fails to be full only
      where the budget or the table ends. */
  lemma PageIsCut(rest: Table, pageSize: nat)
    requires 1 <= pageSize && PageAt(rest, pageSize).Ok?
    ensures var page := PageAt(rest, pageSize).value;
      && Cuts(rest, page) && |page.items| <= pageSize
      && (page.next.Some? ==> |page.items| == pageSize || exists k :: k == ScanBudget(pageSize) && Cut(rest, page, k))
  {
    hide ShownIds;
    ScanCountIs(rest, pageSize, ScanBudget(pageSize));
    var k := ScanCount(rest, pageSize, ScanBudget(pageSize)).value;
    EmptyShowsNothing();
    assert Cut(rest, PageAt(rest, pageSize).value, k);
  }

  lemma EmptyShowsNothing()
    ensures ShownIds([]) == []
  {
  }

  /** The first `n` shown ids end at a row that shows the last of them. */
  lemma {:induction false} WhereShownEnds(t: Table, n: nat) returns (k: nat)
    requires n <= |ShownIds(t)|
    ensures k <= |t| && ShownIds(t[..k]) == ShownIds(t)[..n]
    ensures n > 0 ==> k > 0 && t[k - 1].id == ShownIds(t)[n - 1]
    decreases |t|
  {
    if n == 0 {
      k := 0;
    } else {
      var front := t[..|t| - 1];
      if n <= |ShownIds(front)| {
        k := WhereShownEnds(front, n);
        assert front[..k] == t[..k];
      } else {
        k := |t|;
        assert t[..k] == t;
      }
    }
  }

  /** A full page goes on behind its last item, wherever the scan ended. */
  lemma FullPageCuts(rest: Table, m: nat, pageSize: nat)
    requires Descending(rest) && m <= |rest| && 1 <= pageSize <= |ShownIds(rest[..m])|
    ensures var items := ShownIds(rest[..m])[..pageSize];
      items[pageSize - 1] > 0 && Cuts(rest, Page(items, Some(items[pageSize - 1])))
  {
    hide ShownIds;
    var k := WhereShownEnds(rest[..m], pageSize);
    assert rest[..m][..k] == rest[..k];
    var items := ShownIds(rest[..m])[..pageSize];
    assert Cut(rest, Page(items, Some(items[pageSize - 1])), k);
  }

  /** The continuation rule is right for every scan, also one that went past the last row
      it returned: `m` rows scanned, the first `pageSize` of those shown returned, and
      `exhausted` said only where the table ended with nothing held back. */
  lemma ContinuationCuts(rest: Table, m: nat, pageSize: nat, budgetExhausted: bool, exhausted: bool)
    requires Descending(rest) && m <= |rest| && 1 <= pageSize
    requires exhausted ==> m == |rest| && |ShownIds(rest[..m])| <= pageSize
    requires budgetExhausted ==> m > 0
    ensures var shown := ShownIds(rest[..m]);
      var full := |shown| >= pageSize;
      var items := if full then shown[..pageSize] else shown;
      var next := ContinuationId(full, if items == [] then None else Some(items[|items| - 1]), budgetExhausted,
                                 if m == 0 then None else Some(rest[m - 1].id), exhausted);
      && (next.Err? <==> !exhausted && !full && !budgetExhausted)
      && (next.Ok? ==> Cuts(rest, Page(items, next.value)))
  {
    var shown := ShownIds(rest[..m]);
    hide ShownIds;
    if |shown| >= pageSize { FullPageCuts(rest, m, pageSize); }
    if exhausted {
      hide Descending;
      assert |shown| == pageSize ==> shown[..pageSize] == shown;
      assert Cut(rest, Page(shown, None), m);
    } else if |shown| < pageSize && budgetExhausted {
      assert Cut(rest, Page(shown, Some(rest[m - 1].id)), m);
    }
  }

  function LoadBatch(t: Table, before: Option<int>, limit: nat): (rows: seq<Row>)
    ensures |rows| <= limit
  {
    var rest := Below(t, before);
    rest[..if limit < |rest| then limit else |rest|]
  }

  /** Behind row `k` of what is below `before` lies what is below that row. */
  lemma BelowRow(t: Table, before: Option<int>, k: nat)
    requires Descending(t) && 0 < k <= |Below(t, before)|
    ensures Below(t, Some(Below(t, before)[k - 1].id)) == Below(t, before)[k..]
  {
    hide Above;
    var here := Above(t, before);
    var next := Some(t[here + k - 1].id);
    assert Above(t, next) == here + k by { AboveIs(t, next, here + k); }
  }

  lemma AboveIs(t: Table, before: Option<int>, k: nat)
    requires Descending(t) && k <= |t|
    requires forall i :: 0 <= i < |t| ==> (IsBelow(t[i].id, before) <==> k <= i)
    ensures Above(t, before) == k
  {
    var a := Above(t, before);
    assert a < |t| ==> (IsBelow(t[a].id, before) <==> k <= a);
    assert k < |t| ==> (IsBelow(t[k].id, before) <==> a <= k);
  }

  function Plus(n: nat, k: Option<nat>): Option<nat> { if k.Some? then Some(n + k.value) else None }

  /** The state of the page loop after `n` rows. */
  ghost predicate At(rest: Table, pageSize: nat, n: int, items: seq<int>, lastScanned: Option<int>,
          lastReturned: Option<int>)
  {
    && 0 <= n <= |rest| && n <= ScanBudget(pageSize) && |items| <= pageSize
    && items == ShownIds(rest[..n])
    && ScanCount(rest, pageSize, ScanBudget(pageSize))
       == Plus(n, ScanCount(rest[n..], pageSize - |items|, ScanBudget(pageSize) - n))
    && lastScanned == (if n == 0 then None else Some(rest[n - 1].id))
    && (|items| == pageSize ==> lastReturned == lastScanned)
  }

  lemma AtStart(rest: Table, pageSize: nat)
    requires 1 <= pageSize
    ensures At(rest, pageSize, 0, [], None, None)
    ensures rest[0..] == rest
  {
    assert rest[0..] == rest && rest[..0] == [];
  }

  lemma AtNext(rest: Table, pageSize: nat, n: int, items: seq<int>, lastScanned: Option<int>, lastReturned: Option<int>)
    requires At(rest, pageSize, n, items, lastScanned, lastReturned) && n < |rest| && n < ScanBudget(pageSize)
      && |items| < pageSize
    ensures rest[n].view.Broken? ==> PageAt(rest, pageSize).Err?
    ensures rest[n].view.Hidden? ==> At(rest, pageSize, n + 1, items, Some(rest[n].id), lastReturned)
    ensures rest[n].view.Shown? ==> At(rest, pageSize, n + 1, items + [rest[n].id], Some(rest[n].id), Some(rest[n].id))
  {
    assert rest[..n + 1][..n] == rest[..n];
    assert rest[n..][1..] == rest[n + 1..];
  }

  lemma AtEnd(rest: Table, pageSize: nat, n: int, items: seq<int>, lastScanned: Option<int>, lastReturned: Option<int>,
          exhausted: bool)
    requires At(rest, pageSize, n, items, lastScanned, lastReturned) && 1 <= pageSize
    requires forall i :: 0 <= i < |rest| ==> rest[i].id > 0
    requires |items| == pageSize || n == ScanBudget(pageSize) || n == |rest|
    requires exhausted <==> |items| < pageSize && n < ScanBudget(pageSize)
    ensures var full := |items| == pageSize;
      var next := ContinuationId(full, lastReturned, n == ScanBudget(pageSize) && !full, lastScanned, exhausted);
      next.Ok? && PageAt(rest, pageSize) == Ok(Page(items, next.value))
  {
    EmptyShowsNothing();
    assert n == 0 ==> rest[..n] == [];
  }

  /** The page loop: batches of rows, up to a page of items or the scan budget. */
  method ListPage(table: Table, before: Option<int>, pageSize: nat) returns (r: Result<Page>)
    requires Descending(table) && 1 <= pageSize <= MAX_PAGE_SIZE
    ensures r == PageAt(Below(table, before), pageSize)
  {
    hide Above, Below, At, Descending, PageAt;
    var budget := ScanBudget(pageSize);
    var resume := before;
    var scanned := 0;
    var items: seq<int> := [];
    var lastScanned, lastReturned: Option<int> := None, None;
    var exhausted := false;
    ghost var rest := Below(table, before);
    AtStart(rest, pageSize);

    while |items| < pageSize && scanned < budget
      invariant At(rest, pageSize, scanned, items, lastScanned, lastReturned)
      invariant 0 <= scanned <= |rest| && scanned <= budget && |items| <= pageSize
      invariant Below(table, resume) == rest[scanned..]
      decreases budget - scanned
    {
      var limit := if budget - scanned < RAW_BATCH_SIZE then budget - scanned else RAW_BATCH_SIZE;
      var rows := LoadBatch(table, resume, limit);
      Batch(table, resume, limit);
      if rows == [] {
        exhausted := true;
        break;
      }
      ghost var start := scanned;
      for i := 0 to |rows|
        invariant scanned == start + i
        invariant At(rest, pageSize, scanned, items, lastScanned, lastReturned) && |items| < pageSize
        invariant i > 0 ==> resume == Some(rest[scanned - 1].id)
      {
        AtNext(rest, pageSize, scanned, items, lastScanned, lastReturned);
        scanned := scanned + 1;
        lastScanned := Some(rows[i].id);
        resume := Some(rows[i].id);
        match rows[i].view {
          case Shown =>
            items := items + [rows[i].id];
            lastReturned := Some(rows[i].id);
            if |items| == pageSize { break; }
          case Hidden =>
          case Broken => return Err;
        }
      }
      BelowRow(table, before, scanned);
      if |items| == pageSize { break; }
      if |rows| < limit {
        exhausted := true;
        break;
      }
    }
    PositiveIds(table, before);
    var full := |items| == pageSize;
    AtEnd(rest, pageSize, scanned, items, lastScanned, lastReturned, exhausted);
    var next := ContinuationId(full, lastReturned, scanned == budget && !full, lastScanned, exhausted);
    return match next case Ok(n) => Ok(Page(items, n)) case Err => Err;
  }

  lemma Batch(table: Table, resume: Option<int>, limit: nat)
    ensures var rest, rows := Below(table, resume), LoadBatch(table, resume, limit);
      && |rows| <= |rest| && (|rows| < limit ==> |rows| == |rest|)
      && (forall i :: 0 <= i < |rows| ==> rows[i] == rest[i])
  {
  }

  lemma PositiveIds(table: Table, before: Option<int>)
    requires Descending(table)
    ensures forall i :: 0 <= i < |Below(table, before)| ==> Below(table, before)[i].id > 0
  {
  }

  // ---------------------------------------------------------------- following the cursors

  /** Requests in a row, each from the cursor of the last to one without a next cursor;
      `tables[i]` is what the `i`th request found, whatever happened in between. */
  ghost predicate IsWalk(tables: seq<Table>, pages: seq<Page>, cursor: Option<int>)
    decreases |pages|
  {
    && |tables| == |pages| > 0
    && Descending(tables[0]) && Cuts(Below(tables[0], cursor), pages[0])
    && (if |pages| == 1 then pages[0].next.None?
        else pages[0].next.Some? && IsWalk(tables[1..], pages[1..], pages[0].next))
  }

  function Returned(pages: seq<Page>): seq<int> {
    if pages == [] then [] else pages[0].items + Returned(pages[1..])
  }

  /** `t` has a row that shows `id`. */
  ghost predicate Shows(t: Table, id: int) { exists i: nat :: ShowsAt(t, id, i) }

  predicate ShowsAt(t: Table, id: int, i: nat) { i < |t| && t[i] == Row(id, Shown) }

  lemma {:induction false} ShownIdsFall(t: Table)
    requires Descending(t)
    ensures forall i :: 0 <= i < |ShownIds(t)| ==> Shows(t, ShownIds(t)[i])
    ensures forall i, j :: 0 <= i < j < |ShownIds(t)| ==> ShownIds(t)[i] > ShownIds(t)[j]
    ensures forall id :: Shows(t, id) ==> id in ShownIds(t)
    decreases |t|
  {
    if t == [] {
      assert forall id :: !Shows(t, id);
    } else {
      var last := |t| - 1;
      var front := t[..last];
      ShownIdsFall(front);
      forall id ensures Shows(t, id) <==> Shows(front, id) || t[last] == Row(id, Shown) { ShowsLast(t, id); }
      forall i | 0 <= i < |ShownIds(front)|
        ensures Shows(front, ShownIds(front)[i]) && ShownIds(front)[i] > t[last].id
      {
        ShownIsAbove(t, ShownIds(front)[i]);
      }
      hide Shows;
    }
  }

  lemma ShowsLast(t: Table, id: int)
    requires t != []
    ensures Shows(t, id) <==> Shows(t[..|t| - 1], id) || t[|t| - 1] == Row(id, Shown)
  {
    var last := |t| - 1;
    if Shows(t[..last], id) {
      var i: nat :| ShowsAt(t[..last], id, i);
      assert ShowsAt(t, id, i);
    }
    if Shows(t, id) {
      var i: nat :| ShowsAt(t, id, i);
      if i < last { assert ShowsAt(t[..last], id, i); }
    }
    assert t[last] == Row(id, Shown) ==> ShowsAt(t, id, last);
  }

  lemma ShownIsAbove(t: Table, id: int)
    requires Descending(t) && t != [] && Shows(t[..|t| - 1], id)
    ensures id > t[|t| - 1].id
  {
    var i: nat :| ShowsAt(t[..|t| - 1], id, i);
    assert t[i] == Row(id, Shown);
  }

  lemma PrefixShows(t: Table, k: nat, id: int)
    requires Descending(t) && 0 < k <= |t|
    ensures Shows(t[..k], id) <==> Shows(t, id) && id >= t[k - 1].id
  {
    if Shows(t[..k], id) {
      var i: nat :| ShowsAt(t[..k], id, i);
      assert ShowsAt(t, id, i);
      assert i < k - 1 ==> t[i].id > t[k - 1].id;
    }
    if Shows(t, id) && id >= t[k - 1].id {
      var i: nat :| ShowsAt(t, id, i);
      assert forall j :: k - 1 < j < |t| ==> t[k - 1].id > t[j].id;
      assert ShowsAt(t[..k], id, i);
    }
  }

  lemma BelowShows(t: Table, cursor: Option<int>, id: int)
    requires Descending(t)
    ensures Descending(Below(t, cursor))
    ensures Shows(Below(t, cursor), id) <==> Shows(t, id) && IsBelow(id, cursor)
  {
    var a := Above(t, cursor);
    if Shows(t[a..], id) {
      var i: nat :| ShowsAt(t[a..], id, i);
      assert ShowsAt(t, id, a + i);
    }
    if Shows(t, id) && IsBelow(id, cursor) {
      var i: nat :| ShowsAt(t, id, i);
      assert ShowsAt(t[a..], id, i - a);
    }
  }

  /** One page: its items fall strictly, from below the cursor to no lower than the next
      one, and they are what the table shows in that range. */
  lemma PageCovers(t: Table, cursor: Option<int>, page: Page)
    requires Descending(t) && Cuts(Below(t, cursor), page)
    ensures page.next.Some? ==> 0 < page.next.value && IsBelow(page.next.value, cursor)
    ensures forall i, j :: 0 <= i < j < |page.items| ==> page.items[i] > page.items[j]
    ensures forall id ::
      id in page.items <==> Shows(t, id) && IsBelow(id, cursor) && (page.next.Some? ==> id >= page.next.value)
  {
    var rest := Below(t, cursor);
    var k: nat :| Cut(rest, page, k);
    BelowShows(t, cursor, 0);
    assert Descending(rest[..k]);
    ShownIdsFall(rest[..k]);
    assert page.next.Some? ==> IsBelow(page.next.value, cursor) && page.next.value > 0;
    assert k == |rest| ==> rest[..k] == rest;
    hide Above, Below, ShownIds, Shows, Descending;
    forall id
      ensures id in page.items <==> Shows(t, id) && IsBelow(id, cursor) && (page.next.Some? ==> id >= page.next.value)
    {
      BelowShows(t, cursor, id);
      if k > 0 { PrefixShows(rest, k, id); }
    }
  }

  /** However the tables change, ids come in strictly falling order over the whole walk, so
      none comes twice; and each was shown by the table its page came from. */
  lemma {:induction false} NoIdTwice(tables: seq<Table>, pages: seq<Page>, cursor: Option<int>)
    requires IsWalk(tables, pages, cursor)
    ensures forall i, j :: 0 <= i < j < |Returned(pages)| ==> Returned(pages)[i] > Returned(pages)[j]
    ensures forall i :: 0 <= i < |Returned(pages)| ==> IsBelow(Returned(pages)[i], cursor)
    ensures forall id :: id in Returned(pages) ==> exists t :: t in tables && Shows(t, id)
    decreases |pages|
  {
    PageCovers(tables[0], cursor, pages[0]);
    assert forall i :: 0 <= i < |pages[0].items| ==> pages[0].items[i] in pages[0].items;
    if |pages| > 1 {
      NoIdTwice(tables[1..], pages[1..], pages[0].next);
    } else {
      assert pages[1..] == [] && Returned(pages) == pages[0].items;
    }
  }

  /** A row that every table of the walk shows comes exactly once. */
  lemma StableRowComesOnce(tables: seq<Table>, pages: seq<Page>, cursor: Option<int>, id: int)
    requires IsWalk(tables, pages, cursor) && IsBelow(id, cursor)
    requires forall t :: t in tables ==> Shows(t, id)
    ensures multiset(Returned(pages))[id] == 1
  {
    hide IsWalk, Shows, Returned;
    NoIdTwice(tables, pages, cursor);
    StableRowComes(tables, pages, cursor, id);
    FallingIsDistinct(Returned(pages), id);
  }

  lemma {:induction false} StableRowComes(tables: seq<Table>, pages: seq<Page>, cursor: Option<int>, id: int)
    requires IsWalk(tables, pages, cursor) && IsBelow(id, cursor)
    requires forall t :: t in tables ==> Shows(t, id)
    ensures id in Returned(pages)
    decreases |pages|
  {
    PageCovers(tables[0], cursor, pages[0]);
    if id !in pages[0].items {
      assert |pages| > 1;
      StableRowComes(tables[1..], pages[1..], pages[0].next, id);
    }
  }

  lemma {:induction false} FallingIsDistinct(s: seq<int>, x: int)
    requires x in s && forall i, j :: 0 <= i < j < |s| ==> s[i] > s[j]
    ensures multiset(s)[x] == 1
  {
    assert s == [s[0]] + s[1..];
    if s[0] == x {
      assert x !in s[1..];
    } else {
      FallingIsDistinct(s[1..], x);
    }
  }

  function TopId(t: Table): int { if t == [] then 0 else t[0].id }

  lemma NextBelowTop(t: Table, page: Page)
    requires Descending(t) && Cuts(Below(t, None), page) && page.next.Some?
    ensures page.next.value <= TopId(t)
  {
    hide ShownIds;
    var rest := Below(t, None);
    var k: nat :| Cut(rest, page, k);
    assert rest[k - 1] in t;
  }

  /** A walk ends: behind a cursor it has no more pages than there are ids below it, and
      without one at most one page more than the top id of its first table. */
  lemma {:induction false} WalkEnds(tables: seq<Table>, pages: seq<Page>, cursor: Option<int>)
    requires IsWalk(tables, pages, cursor) && (cursor.Some? ==> cursor.value > 0)
    ensures |pages| <= if cursor.Some? then cursor.value else 1 + TopId(tables[0])
    decreases |pages|
  {
    PageCovers(tables[0], cursor, pages[0]);
    if |pages| > 1 {
      WalkEnds(tables[1..], pages[1..], pages[0].next);
      if cursor.None? { NextBelowTop(tables[0], pages[0]); }
    }
  }

  /** The pages of a table that stays as it is, up to the last or to one that fails. */
  function Pages(t: Table, cursor: Option<int>, pageSize: nat): seq<Page>
    requires Descending(t) && 1 <= pageSize
    decreases |Below(t, cursor)|
  {
    match PageAt(Below(t, cursor), pageSize)
    case Err => []
    case Ok(page) =>
      if page.next.None? then [page]
      else
        PageIsCut(Below(t, cursor), pageSize);
        CutAdvances(t, cursor, page);
        [page] + Pages(t, page.next, pageSize)
  }

  lemma CutAdvances(t: Table, cursor: Option<int>, page: Page)
    requires Descending(t) && Cuts(Below(t, cursor), page) && page.next.Some?
    ensures |Below(t, page.next)| < |Below(t, cursor)|
    ensures exists k: nat :: Cut(Below(t, cursor), page, k) && Below(t, page.next) == Below(t, cursor)[k..]
  {
    var k: nat :| Cut(Below(t, cursor), page, k);
    BelowRow(t, cursor, k);
  }

  predicate Projects(t: Table) { forall i :: 0 <= i < |t| ==> !t[i].view.Broken? }

  lemma {:induction false} ProjectsMeansOk(rest: Table, want: int, budget: int)
    requires Projects(rest)
    ensures ScanCount(rest, want, budget).Some?
    decreases |rest|
  {
    if want > 0 && budget > 0 && rest != [] {
      ProjectsMeansOk(rest[1..], if rest[0].view.Shown? then want - 1 else want, budget - 1);
    }
  }

  /** A table that stays as it is comes whole, once, in order, a page at a time. */
  lemma {:induction false} ReadsEverythingOnce(t: Table, cursor: Option<int>, pageSize: nat)
    requires Descending(t) && Projects(t) && 1 <= pageSize
    ensures Returned(Pages(t, cursor, pageSize)) == ShownIds(Below(t, cursor))
    ensures forall page :: page in Pages(t, cursor, pageSize) ==> |page.items| <= pageSize
    decreases |Below(t, cursor)|
  {
    hide Above, Below, ShownIds, ScanCount, Descending, Projects;
    var rest := Below(t, cursor);
    BelowProjects(t, cursor);
    ProjectsMeansOk(rest, pageSize, ScanBudget(pageSize));
    PageIsCut(rest, pageSize);
    var page := PageAt(rest, pageSize).value;
    if page.next.None? {
      var k: nat :| Cut(rest, page, k);
      assert rest[..k] == rest;
      assert Returned([page]) == page.items + Returned([page][1..]);
    } else {
      CutAdvances(t, cursor, page);
      var k: nat :| Cut(rest, page, k) && Below(t, page.next) == rest[k..];
      ReadsEverythingOnce(t, page.next, pageSize);
      ShownIdsConcat(rest[..k], rest[k..]);
      assert rest[..k] + rest[k..] == rest;
      assert ([page] + Pages(t, page.next, pageSize))[1..] == Pages(t, page.next, pageSize);
    }
  }

  lemma BelowProjects(t: Table, cursor: Option<int>)
    requires Projects(t)
    ensures Projects(Below(t, cursor))
  {
  }
}
