/** What the scan returns: exactly the user's slice for an honest supplier, and a proved page,
    in bounded time, for any supplier. */
module AssetListExact {
  import opened AssetListScan

  // ----- any sequence of pages that ends honestly -----

  function AllRows(pages: seq<Page>): seq<Row> {
    if pages == [] then [] else AllRows(pages[..|pages| - 1]) + pages[|pages| - 1].rows
  }

  /** The supplier answers the scan's requests with these pages. */
  predicate Serves(up: Upstream, pages: seq<Page>) {
    forall i :: 0 <= i < |pages| - 1 ==> up(i + 2, pages[i].next) == Listing(pages[i + 1])
  }

  predicate Done(mode: Mode, pages: seq<Page>, i: nat)
    requires i < |pages|
  {
    SupplierDone(mode, pages[i], |AllRows(pages[..i + 1])|)
  }

  /** The supplier ends its list, and says so only when no rows are left. */
  predicate EndsHonestly(mode: Mode, pages: seq<Page>) {
    && pages != [] && Done(mode, pages, |pages| - 1)
    && forall i, j :: 0 <= i < j < |pages| && Done(mode, pages, i) ==> pages[j].rows == []
  }

  predicate NoRepeats(mode: Mode, pages: seq<Page>) {
    forall i, j :: 0 <= i < j < |pages| - 1 ==> PageKey(mode, pages[i]) != PageKey(mode, pages[j])
  }

  lemma {:induction false} EmptyTail(pages: seq<Page>, n: nat)
    requires n <= |pages| && forall j :: n <= j < |pages| ==> pages[j].rows == []
    ensures AllRows(pages) == AllRows(pages[..n])
  {
    if n < |pages| {
      EmptyTail(pages[..|pages| - 1], n);
      assert pages[..|pages| - 1][..n] == pages[..n];
    } else {
      assert pages[..n] == pages;
    }
  }

  lemma {:induction false} RowsSplit(pages: seq<Page>, n: nat) returns (rest: seq<Row>)
    requires n <= |pages|
    ensures AllRows(pages) == AllRows(pages[..n]) + rest
  {
    if n == |pages| {
      rest := [];
      assert pages[..n] == pages;
    } else {
      var shorter := RowsSplit(pages[..|pages| - 1], n);
      assert pages[..|pages| - 1][..n] == pages[..n];
      rest := shorter + pages[|pages| - 1].rows;
    }
  }

  lemma FullSubset(a: set<string>, b: set<string>)
    requires a <= b && |a| == |b|
    ensures a == b
  {
    assert |b - a| == |b| - |a|;
  }

  /** Once every owned resource has been shown, the rest of the list cannot matter. */
  lemma {:induction false} NothingNewAfterAll(q: Query, rows: seq<Row>, rest: seq<Row>)
    requires WellFormed(q) && |Shown(q.o, rows)| == q.ownedCount
    ensures Wanted(q, rows + rest) == Wanted(q, rows) && Shown(q.o, rows + rest) == Shown(q.o, rows)
  {
    FullSubset(Shown(q.o, rows), q.o.proofs.Keys);
    if rest == [] {
      assert rows + rest == rows;
    } else {
      var before, row := rows + rest[..|rest| - 1], rest[|rest| - 1];
      NothingNewAfterAll(q, rows, rest[..|rest| - 1]);
      ShownGrows(q.o, before, row);
      PageGrows(q, before, row);
      assert before + [row] == rows + rest;
    }
  }

  function Keys(mode: Mode, pages: seq<Page>): set<string> {
    set i | 0 <= i < |pages| :: PageKey(mode, pages[i])
  }

  predicate Stops(q: Query, pages: seq<Page>, k: nat)
    requires k < |pages|
  {
    |Shown(q.o, AllRows(pages[..k + 1]))| == q.ownedCount || Done(q.mode, pages, k)
  }

  lemma StoppingLosesNothing(q: Query, pages: seq<Page>, k: nat)
    requires WellFormed(q) && EndsHonestly(q.mode, pages) && k < |pages| && Stops(q, pages, k)
    ensures Exact(q, AllRows(pages[..k + 1])) == Exact(q, AllRows(pages))
  {
    var read := AllRows(pages[..k + 1]);
    if |Shown(q.o, read)| == q.ownedCount {
      var rest := RowsSplit(pages, k + 1);
      NothingNewAfterAll(q, read, rest);
      assert PageOf(q, read) == PageOf(q, AllRows(pages));
    } else {
      EmptyTail(pages, k + 1);
    }
  }

  /** The scan as it stands before page `k`. */
  function AtPage(q: Query, up: Upstream, pages: seq<Page>, k: nat, deadline: nat): Outcome
    requires Provable(q.o) && k < |pages|
  {
    var rows := AllRows(pages[..k]);
    ScanFrom(q, up, pages[k], k + 1, |rows|, VisitAll(q, NOTHING, rows), Keys(q.mode, pages[..k]), deadline)
  }

  lemma PageRead(q: Query, pages: seq<Page>, k: nat)
    requires Provable(q.o) && k < |pages|
    ensures var rows, read := AllRows(pages[..k]), AllRows(pages[..k + 1]);
            var st := VisitAll(q, NOTHING, read);
            && |read| == |rows| + |pages[k].rows|
            && VisitAll(q, VisitAll(q, NOTHING, rows), pages[k].rows) == st
            && st.seen == Shown(q.o, read) && Finished(st.items, st.matched, st.pageProofs) == Exact(q, read)
    ensures Keys(q.mode, pages[..k + 1]) == Keys(q.mode, pages[..k]) + {PageKey(q.mode, pages[k])}
  {
    assert pages[..k + 1][..k] == pages[..k];
    VisitAllAppends(q, NOTHING, AllRows(pages[..k]), pages[k].rows);
    VisitAllSummarises(q, AllRows(pages[..k + 1]));
  }

  lemma AtStop(q: Query, up: Upstream, pages: seq<Page>, k: nat, deadline: nat)
    requires Provable(q.o) && k < |pages| && deadline > 0 && Stops(q, pages, k)
    ensures AtPage(q, up, pages, k, deadline) == Exact(q, AllRows(pages[..k + 1]))
  {
    PageRead(q, pages, k);
  }

  lemma ScanFromNext(q: Query, up: Upstream, page: Page, next: Page, number: nat, scanned: nat, st: Progress,
                     visited: set<string>, deadline: nat)
    requires Provable(q.o) && deadline > 0 && up(number + 1, page.next) == Listing(next)
    requires var st' := VisitAll(q, st, page.rows);
             |st'.seen| != q.ownedCount && !SupplierDone(q.mode, page, scanned + |page.rows|)
    ensures ScanFrom(q, up, page, number, scanned, st, visited, deadline) ==
              if PageKey(q.mode, page) in visited then Repeated
              else ScanFrom(q, up, next, number + 1, scanned + |page.rows|, VisitAll(q, st, page.rows),
                            visited + {PageKey(q.mode, page)}, deadline - 1)
  {
  }

  lemma AtNext(q: Query, up: Upstream, pages: seq<Page>, k: nat, deadline: nat)
    requires Provable(q.o) && Serves(up, pages) && k < |pages| - 1 && deadline > 0 && !Stops(q, pages, k)
    ensures AtPage(q, up, pages, k, deadline) ==
              if PageKey(q.mode, pages[k]) in Keys(q.mode, pages[..k]) then Repeated
              else AtPage(q, up, pages, k + 1, deadline - 1)
  {
    var rows, read := AllRows(pages[..k]), AllRows(pages[..k + 1]);
    var st := VisitAll(q, NOTHING, rows);
    assert VisitAll(q, st, pages[k].rows) == VisitAll(q, NOTHING, read)
        && VisitAll(q, NOTHING, read).seen == Shown(q.o, read)
        && |read| == |rows| + |pages[k].rows|
        && Keys(q.mode, pages[..k + 1]) == Keys(q.mode, pages[..k]) + {PageKey(q.mode, pages[k])} by {
      PageRead(q, pages, k);
    }
    assert up(k + 2, pages[k].next) == Listing(pages[k + 1]);
    ScanFromNext(q, up, pages[k], pages[k + 1], k + 1, |rows|, st, Keys(q.mode, pages[..k]), deadline);
  }

  lemma {:induction false} ScanFromPage(q: Query, up: Upstream, pages: seq<Page>, k: nat, deadline: nat)
    requires WellFormed(q) && Serves(up, pages) && EndsHonestly(q.mode, pages)
    requires k < |pages| && deadline >= |pages| - k
    ensures var r := AtPage(q, up, pages, k, deadline);
            r == Exact(q, AllRows(pages)) || (r == Repeated && !NoRepeats(q.mode, pages))
    decreases |pages| - k
  {
    if Stops(q, pages, k) {
      AtStop(q, up, pages, k, deadline);
      StoppingLosesNothing(q, pages, k);
      return;
    }
    AtNext(q, up, pages, k, deadline);
    if PageKey(q.mode, pages[k]) in Keys(q.mode, pages[..k]) {
      var i :| 0 <= i < k && PageKey(q.mode, pages[..k][i]) == PageKey(q.mode, pages[k]);
      assert pages[..k][i] == pages[i];
    } else {
      ScanFromPage(q, up, pages, k + 1, deadline - 1);
    }
  }

  /** For pages that end honestly the scan returns the exact slice or reports a loop, and it
      reports a loop only if two non-final pages carry the same fingerprint. */
  lemma HonestScanIsExact(q: Query, up: Upstream, pages: seq<Page>, deadline: nat)
    requires WellFormed(q) && Serves(up, pages) && EndsHonestly(q.mode, pages) && deadline >= |pages|
    ensures var r := ScanList(q, up, pages[0], deadline);
            r == Exact(q, AllRows(pages)) || (r == Repeated && !NoRepeats(q.mode, pages))
  {
    ScanFromPage(q, up, pages, 0, deadline);
    assert AllRows(pages[..0]) == [] && Keys(q.mode, pages[..0]) == {};
  }

  // ----- cursor suppliers -----

  /** Pages chained by distinct non-empty cursors, the last one without a cursor. */
  predicate CursorChain(up: Upstream, pages: seq<Page>) {
    && pages != [] && Serves(up, pages) && pages[|pages| - 1].next == ""
    && (forall i :: 0 <= i < |pages| - 1 ==> pages[i].next != "")
    && (forall i, j :: 0 <= i < j < |pages| - 1 ==> pages[i].next != pages[j].next)
  }

  lemma CursorScanIsExact(q: Query, up: Upstream, pages: seq<Page>, deadline: nat)
    requires WellFormed(q) && q.mode.UpstreamCursor? && CursorChain(up, pages) && deadline >= |pages|
    ensures ScanList(q, up, pages[0], deadline) == Exact(q, AllRows(pages))
  {
    HonestScanIsExact(q, up, pages, deadline);
  }

  // ----- page-number suppliers -----

  function Slice(list: seq<Row>, i: nat): seq<Row> {
    list[Min(i * BATCH, |list|)..Min((i + 1) * BATCH, |list|)]
  }

  /** Page `i` of a list, its text faithful to its rows, its total absent or (where it is used) right. */
  predicate IsPage(mode: Mode, parse: string -> seq<Row>, list: seq<Row>, i: nat, page: Page) {
    && page.rows == Slice(list, i) && page.rows == parse(page.raw)
    && (mode.Numbered? ==> page.total == Absent || page.total == Exactly(|list|))
  }

  ghost predicate NumberedSupplier(mode: Mode, parse: string -> seq<Row>, list: seq<Row>, up: Upstream, first: Page) {
    && IsPage(mode, parse, list, 0, first)
    && forall n: nat, cursor: string :: n >= 2 ==>
         up(n, cursor).Listing? && IsPage(mode, parse, list, n - 1, up(n, cursor).page)
  }

  ghost function ReadPages(mode: Mode, parse: string -> seq<Row>, list: seq<Row>, up: Upstream, first: Page,
      n: nat): (pages: seq<Page>)
    requires n >= 1 && NumberedSupplier(mode, parse, list, up, first)
    ensures |pages| == n && pages[0] == first && Serves(up, pages)
    ensures forall i :: 0 <= i < n ==> IsPage(mode, parse, list, i, pages[i])
  {
    if n == 1 then [first]
    else
      var before := ReadPages(mode, parse, list, up, first, n - 1);
      before + [up(n, before[n - 2].next).page]
  }

  lemma {:induction false} SlicesJoin(list: seq<Row>, pages: seq<Page>)
    requires forall i :: 0 <= i < |pages| ==> pages[i].rows == Slice(list, i)
    ensures AllRows(pages) == list[..Min(|pages| * BATCH, |list|)]
  {
    if pages != [] {
      SlicesJoin(list, pages[..|pages| - 1]);
    }
  }

  predicate DistinctRows(list: seq<Row>) {
    forall i, j :: 0 <= i < j < |list| ==> list[i] != list[j]
  }

  lemma NumberedDone(mode: Mode, parse: string -> seq<Row>, list: seq<Row>, pages: seq<Page>, i: nat)
    requires !mode.UpstreamCursor? && i < |pages|
    requires forall i :: 0 <= i < |pages| ==> IsPage(mode, parse, list, i, pages[i])
    ensures Done(mode, pages, i) ==> (i + 1) * BATCH >= |list|
    ensures (i + 1) * BATCH > |list| ==> Done(mode, pages, i)
  {
    SlicesJoin(list, pages[..i + 1]);
  }

  predicate ArePages(mode: Mode, parse: string -> seq<Row>, list: seq<Row>, pages: seq<Page>) {
    forall i :: 0 <= i < |pages| ==> IsPage(mode, parse, list, i, pages[i])
  }

  lemma NumberedEndsHonestly(mode: Mode, parse: string -> seq<Row>, list: seq<Row>, pages: seq<Page>)
    requires !mode.UpstreamCursor? && |pages| == |list| / BATCH + 1 && ArePages(mode, parse, list, pages)
    ensures EndsHonestly(mode, pages) && AllRows(pages) == list
  {
    EnoughPages(list, |pages|);
    LastPageEnds(mode, parse, list, pages);
    PagesAreTheList(list, pages);
    forall i, j | 0 <= i < j < |pages| && Done(mode, pages, i) ensures pages[j].rows == [] {
      NothingAfterDone(mode, parse, list, pages, i, j);
    }
  }

  lemma LastPageEnds(mode: Mode, parse: string -> seq<Row>, list: seq<Row>, pages: seq<Page>)
    requires !mode.UpstreamCursor? && |pages| == |list| / BATCH + 1 && ArePages(mode, parse, list, pages)
    ensures Done(mode, pages, |pages| - 1)
  {
    EnoughPages(list, |pages|);
    NumberedDone(mode, parse, list, pages, |pages| - 1);
  }

  lemma PagesAreTheList(list: seq<Row>, pages: seq<Page>)
    requires |pages| * BATCH > |list| && forall i :: 0 <= i < |pages| ==> pages[i].rows == Slice(list, i)
    ensures AllRows(pages) == list
  {
    SlicesJoin(list, pages);
    assert list[..|list|] == list;
  }

  lemma EnoughPages(list: seq<Row>, n: nat)
    requires n == |list| / BATCH + 1
    ensures n * BATCH > |list|
  {
  }

  lemma NothingAfterDone(mode: Mode, parse: string -> seq<Row>, list: seq<Row>, pages: seq<Page>, i: nat, j: nat)
    requires !mode.UpstreamCursor? && i < j < |pages| && Done(mode, pages, i) && ArePages(mode, parse, list, pages)
    ensures pages[j].rows == []
  {
    NumberedDone(mode, parse, list, pages, i);
    assert IsPage(mode, parse, list, j, pages[j]) && j * BATCH >= (i + 1) * BATCH;
  }

  lemma DistinctPagesDiffer(mode: Mode, parse: string -> seq<Row>, list: seq<Row>, pages: seq<Page>)
    requires !mode.UpstreamCursor? && |pages| == |list| / BATCH + 1 && DistinctRows(list)
    requires forall i :: 0 <= i < |pages| ==> IsPage(mode, parse, list, i, pages[i])
    ensures NoRepeats(mode, pages)
  {
    forall i, j | 0 <= i < j < |pages| - 1 ensures pages[i].raw != pages[j].raw {
      assert pages[i].rows[0] == list[i * BATCH] && pages[j].rows[0] == list[j * BATCH];
    }
  }

  /** A page-number supplier with distinct rows yields exactly the user's slice, never the loop error,
      within one page more than the full pages of its list. */
  lemma NumberedScanIsExact(q: Query, parse: string -> seq<Row>, list: seq<Row>, up: Upstream, first: Page,
      deadline: nat)
    requires WellFormed(q) && !q.mode.UpstreamCursor? && DistinctRows(list)
    requires NumberedSupplier(q.mode, parse, list, up, first) && deadline >= |list| / BATCH + 1
    ensures ScanList(q, up, first, deadline) == Exact(q, list)
  {
    var pages := ReadPages(q.mode, parse, list, up, first, |list| / BATCH + 1);
    NumberedEndsHonestly(q.mode, parse, list, pages);
    DistinctPagesDiffer(q.mode, parse, list, pages);
    HonestScanIsExact(q, up, pages, deadline);
  }

  // ----- any supplier -----

  lemma {:induction false} ScanFromStops(q: Query, up: Upstream, page: Page, number: nat, scanned: nat, st: Progress,
                                         visited: set<string>, keys: set<string>, deadline: nat)
    requires Provable(q.o)
    requires visited <= keys && PageKey(q.mode, page) in keys
    requires forall n: nat, cursor :: up(n, cursor).Listing? ==> PageKey(q.mode, up(n, cursor).page) in keys
    requires deadline > |keys| - |visited|
    ensures ScanFrom(q, up, page, number, scanned, st, visited, deadline) != Interrupted
    decreases deadline
  {
    assert |keys - visited| == |keys| - |visited|;
    var key, next := PageKey(q.mode, page), up(number + 1, page.next);
    if key !in visited {
      assert key in keys - visited;
      if deadline > 1 && next.Listing? {
        ScanFromStops(q, up, next.page, number + 1, scanned + |page.rows|, VisitAll(q, st, page.rows),
                      visited + {key}, keys, deadline - 1);
      }
    }
  }

  /** Whatever the supplier does, the scan ends by itself within one page more than there are fingerprints. */
  lemma ScanStopsWithin(q: Query, up: Upstream, first: Page, keys: set<string>, deadline: nat)
    requires Provable(q.o) && PageKey(q.mode, first) in keys
    requires forall n: nat, cursor :: up(n, cursor).Listing? ==> PageKey(q.mode, up(n, cursor).page) in keys
    requires deadline > |keys|
    ensures ScanList(q, up, first, deadline) != Interrupted
  {
    ScanFromStops(q, up, first, 1, 0, NOTHING, {}, keys, deadline);
  }

  lemma FinishedTurn(q: Query, up: Upstream, page: Page, number: nat, scanned: nat, st: Progress,
                     visited: set<string>, deadline: nat)
    requires Provable(q.o) && ScanFrom(q, up, page, number, scanned, st, visited, deadline).Finished?
    ensures var scan, st' := ScanFrom(q, up, page, number, scanned, st, visited, deadline), VisitAll(q, st, page.rows);
            if |st'.seen| == q.ownedCount || SupplierDone(q.mode, page, scanned + |page.rows|)
            then scan == Finished(st'.items, st'.matched, st'.pageProofs)
            else
              && deadline > 0 && up(number + 1, page.next).Listing?
              && scan == ScanFrom(q, up, up(number + 1, page.next).page, number + 1, scanned + |page.rows|, st',
                                  visited + {PageKey(q.mode, page)}, deadline - 1)
  {
  }

  lemma RowsRead(q: Query, rows: seq<Row>, more: seq<Row>)
    requires Provable(q.o)
    ensures var st := VisitAll(q, NOTHING, rows + more);
            && VisitAll(q, VisitAll(q, NOTHING, rows), more) == st && st.seen == Shown(q.o, rows + more)
            && Finished(st.items, st.matched, st.pageProofs) == Exact(q, rows + more)
  {
    VisitAllAppends(q, NOTHING, rows, more);
    VisitAllSummarises(q, rows + more);
  }

  /** The scan has nothing to read after these rows, the last of them from `page`. */
  predicate StopsAfter(q: Query, page: Page, read: seq<Row>) {
    |Shown(q.o, read)| == q.ownedCount || SupplierDone(q.mode, page, |read|)
  }

  /** A scan that stops returns what was read. */
  lemma LastTurn(q: Query, up: Upstream, page: Page, number: nat, rows: seq<Row>, visited: set<string>, deadline: nat)
    requires Provable(q.o) && StopsAfter(q, page, rows + page.rows)
    requires ScanFrom(q, up, page, number, |rows|, VisitAll(q, NOTHING, rows), visited, deadline).Finished?
    ensures ScanFrom(q, up, page, number, |rows|, VisitAll(q, NOTHING, rows), visited, deadline) ==
            Exact(q, rows + page.rows)
  {
    RowsRead(q, rows, page.rows);
    FinishedTurn(q, up, page, number, |rows|, VisitAll(q, NOTHING, rows), visited, deadline);
  }

  /** A scan that finishes later goes on with the next page. */
  lemma EarlierTurn(q: Query, up: Upstream, page: Page, number: nat, rows: seq<Row>, visited: set<string>,
                    deadline: nat)
    requires Provable(q.o) && !StopsAfter(q, page, rows + page.rows)
    requires ScanFrom(q, up, page, number, |rows|, VisitAll(q, NOTHING, rows), visited, deadline).Finished?
    ensures deadline > 0 && up(number + 1, page.next).Listing?
    ensures ScanFrom(q, up, page, number, |rows|, VisitAll(q, NOTHING, rows), visited, deadline) ==
            ScanFrom(q, up, up(number + 1, page.next).page, number + 1, |rows + page.rows|,
                     VisitAll(q, NOTHING, rows + page.rows), visited + {PageKey(q.mode, page)}, deadline - 1)
  {
    var st := VisitAll(q, NOTHING, rows);
    var st' := VisitAll(q, st, page.rows);
    assert st' == VisitAll(q, NOTHING, rows + page.rows) && st'.seen == Shown(q.o, rows + page.rows) by {
      RowsRead(q, rows, page.rows);
    }
    assert |rows| + |page.rows| == |rows + page.rows|;
    FinishedTurn(q, up, page, number, |rows|, st, visited, deadline);
  }

  /** The pages a scan read: what the supplier served from the first page on, up to the first that stops the scan. */
  ghost predicate PagesRead(q: Query, up: Upstream, first: Page, pages: seq<Page>) {
    && pages != [] && pages[0] == first && Serves(up, pages) && Stops(q, pages, |pages| - 1)
    && forall k :: 0 <= k < |pages| - 1 ==> !Stops(q, pages, k)
  }

  /** A scan that has read all of `pages` but the last, and has not stopped. */
  ghost predicate Unstopped(q: Query, up: Upstream, pages: seq<Page>) {
    pages != [] && Serves(up, pages) && forall k :: 0 <= k < |pages| - 1 ==> !Stops(q, pages, k)
  }

  lemma UnstoppedNext(q: Query, up: Upstream, pages: seq<Page>, next: Page)
    requires Unstopped(q, up, pages) && !Stops(q, pages, |pages| - 1)
    requires up(|pages| + 1, pages[|pages| - 1].next) == Listing(next)
    ensures Unstopped(q, up, pages + [next])
  {
    var longer := pages + [next];
    forall k | 0 <= k < |pages| ensures !Stops(q, longer, k) {
      assert longer[..k + 1] == pages[..k + 1] && longer[k] == pages[k];
      assert !Stops(q, pages, k);
    }
  }

  lemma {:induction false} FinishedFrom(q: Query, up: Upstream, pages: seq<Page>, visited: set<string>, deadline: nat)
    returns (all: seq<Page>)
    requires Provable(q.o) && Unstopped(q, up, pages)
    requires AfterPages(q, up, pages, visited, deadline).Finished?
    ensures PagesRead(q, up, pages[0], all)
    ensures AfterPages(q, up, pages, visited, deadline) == Exact(q, AllRows(all))
    decreases deadline
  {
    var n := |pages| - 1;
    var page, read := pages[n], AllRows(pages);
    assert pages[..n + 1] == pages;
    if Stops(q, pages, n) {
      LastTurn(q, up, page, n + 1, AllRows(pages[..n]), visited, deadline);
      all := pages;
    } else {
      EarlierTurn(q, up, page, n + 1, AllRows(pages[..n]), visited, deadline);
      var next := up(n + 2, page.next).page;
      UnstoppedNext(q, up, pages, next);
      assert (pages + [next])[..n + 1] == pages;
      all := FinishedFrom(q, up, pages + [next], visited + {PageKey(q.mode, page)}, deadline - 1);
    }
  }

  /** The scan that goes on with the last of `pages`, after the ones before it. */
  function AfterPages(q: Query, up: Upstream, pages: seq<Page>, visited: set<string>, deadline: nat): Outcome
    requires Provable(q.o) && pages != []
  {
    var n := |pages| - 1;
    ScanFrom(q, up, pages[n], n + 1, |AllRows(pages[..n])|,
             VisitAll(q, NOTHING, AllRows(pages[..n])), visited, deadline)
  }

  /** Whatever the supplier does, a finished scan is the exact slice of the rows of the pages it read. */
  lemma FinishedIsExact(q: Query, up: Upstream, first: Page, deadline: nat)
    requires Provable(q.o) && ScanList(q, up, first, deadline).Finished?
    ensures exists pages ::
              PagesRead(q, up, first, pages) && ScanList(q, up, first, deadline) == Exact(q, AllRows(pages))
  {
    assert [first][..0] == [];
    assert AfterPages(q, up, [first], {}, deadline) == ScanList(q, up, first, deadline);
    var pages := FinishedFrom(q, up, [first], {}, deadline);
  }

  /** The supplier decides which pages are read: there is only one such sequence. */
  lemma {:induction false} PagesReadOnce(q: Query, up: Upstream, first: Page, a: seq<Page>, b: seq<Page>, n: nat)
    requires PagesRead(q, up, first, a) && PagesRead(q, up, first, b) && n <= |a| && n <= |b|
    ensures a[..n] == b[..n]
    ensures n == |a| || n == |b| ==> a == b
  {
    if n > 0 {
      PagesReadOnce(q, up, first, a, b, n - 1);
      if n > 1 {
        assert a[n - 2] == a[..n - 1][n - 2] == b[..n - 1][n - 2] == b[n - 2];
        assert up(n, a[n - 2].next) == Listing(a[n - 1]) && up(n, b[n - 2].next) == Listing(b[n - 1]);
      }
      assert a[..n] == a[..n - 1] + [a[n - 1]] && b[..n] == b[..n - 1] + [b[n - 1]];
      SameStop(q, a, b, n);
    }
  }

  lemma SameStop(q: Query, a: seq<Page>, b: seq<Page>, n: nat)
    requires 0 < n <= |a| && n <= |b| && a[..n] == b[..n]
    ensures Stops(q, a, n - 1) == Stops(q, b, n - 1)
    ensures n == |a| && n == |b| ==> a == b
  {
    assert a[n - 1] == a[..n][n - 1] == b[..n][n - 1] == b[n - 1];
  }

  // ----- from the bindings to the slice -----

  /** A listing whose ownership was loaded from these bindings. */
  predicate Loaded(q: Query, f: Admission, bindings: seq<Binding>) {
    q.o == Owned(f, bindings) && q.ownedCount == |q.o.proofs|
  }

  lemma LoadedIsWellFormed(q: Query, f: Admission, bindings: seq<Binding>)
    requires Loaded(q, f, bindings)
    ensures WellFormed(q)
    ensures forall row :: IsOwned(q.o, row) <==> row.id != "" && exists c :: Named(f, bindings, row.id, c)
  {
    forall row: Row ensures IsOwned(q.o, row) <==> row.id != "" && exists c :: Named(f, bindings, row.id, c) {
      HandlesAreExact(f, bindings, row.id);
    }
  }

  /** Loading, then scanning: for pages that end honestly, the exact slice of the rows that admitted bindings name. */
  lemma LoadedScanIsExact(q: Query, f: Admission, bindings: seq<Binding>, up: Upstream, pages: seq<Page>, deadline: nat)
    requires Loaded(q, f, bindings)
    requires Serves(up, pages) && EndsHonestly(q.mode, pages) && NoRepeats(q.mode, pages) && deadline >= |pages|
    ensures ScanList(q, up, pages[0], deadline) == Exact(q, AllRows(pages))
    ensures forall row :: row in PageOf(q, AllRows(pages)) ==> row.id != "" && exists c :: Named(f, bindings, row.id, c)
  {
    LoadedIsWellFormed(q, f, bindings);
    HonestScanIsExact(q, up, pages, deadline);
  }
}
