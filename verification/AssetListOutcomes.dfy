/** How a scan ends, for every supplier: each outcome in terms of the pages that were served. */
module AssetListOutcomes {
  import opened AssetListScan
  import opened AssetListExact

  /** All fingerprints differ. */
  predicate Different(mode: Mode, pages: seq<Page>) {
    forall i, j :: 0 <= i < j < |pages| ==> PageKey(mode, pages[i]) != PageKey(mode, pages[j])
  }

  /** The supplier served these pages from the first one on; none of them ended the scan, and no two look alike. */
  ghost predicate GoesThrough(q: Query, up: Upstream, first: Page, pages: seq<Page>) {
    && pages != [] && pages[0] == first && Serves(up, pages)
    && (forall k :: 0 <= k < |pages| ==> !Stops(q, pages, k))
    && Different(q.mode, pages)
  }

  function Last(pages: seq<Page>): Page
    requires pages != []
  {
    pages[|pages| - 1]
  }

  /** The answer to the request after the last page. */
  function NextAnswer(up: Upstream, pages: seq<Page>): Response
    requires pages != []
  {
    up(|pages| + 1, Last(pages).next)
  }

  /** Everything before the last page was gone through. */
  ghost predicate Reaches(q: Query, up: Upstream, first: Page, pages: seq<Page>) {
    && pages != [] && pages[0] == first && Serves(up, pages)
    && (forall k :: 0 <= k < |pages| - 1 ==> !Stops(q, pages, k))
    && Different(q.mode, pages[..|pages| - 1])
  }

  /** The last of these pages shows the fingerprint of an earlier one, and does not end the scan. */
  ghost predicate Loops(q: Query, up: Upstream, first: Page, pages: seq<Page>) {
    && Reaches(q, up, first, pages) && !Stops(q, pages, |pages| - 1)
    && exists i :: 0 <= i < |pages| - 1 && PageKey(q.mode, pages[i]) == PageKey(q.mode, Last(pages))
  }

  /** After these pages, with `deadline` pages to look at, the scan ends like this. */
  ghost predicate EndsIn(q: Query, up: Upstream, first: Page, pages: seq<Page>, deadline: nat, r: Outcome)
    requires Provable(q.o)
  {
    match r
    case Finished(_, _, _) =>
      && Reaches(q, up, first, pages) && Stops(q, pages, |pages| - 1) && |pages| <= deadline
      && r == Exact(q, AllRows(pages))
    case Repeated => Loops(q, up, first, pages) && |pages| <= deadline
    case UpstreamFailed => GoesThrough(q, up, first, pages) && |pages| <= deadline && NextAnswer(up, pages).Broken?
    case UpstreamRefused => GoesThrough(q, up, first, pages) && |pages| <= deadline && NextAnswer(up, pages).Refused?
    case Interrupted =>
      deadline == 0 || (GoesThrough(q, up, first, pages) && |pages| == deadline && NextAnswer(up, pages).Listing?)
  }

  // ----- the scan goes where the pages lead -----

  lemma NewKey(mode: Mode, pages: seq<Page>, k: nat)
    requires k < |pages|
    ensures PageKey(mode, pages[k]) in Keys(mode, pages[..k]) <==>
            exists i :: 0 <= i < k && PageKey(mode, pages[i]) == PageKey(mode, pages[k])
  {
    assert forall i :: 0 <= i < k ==> pages[..k][i] == pages[i];
  }

  /** Page by page, a scan gets to the last of pages it can go through. */
  lemma {:induction false} GetsTo(q: Query, up: Upstream, pages: seq<Page>, k: nat, deadline: nat)
    requires Provable(q.o) && Serves(up, pages) && k < |pages| && |pages| <= deadline
    requires forall i :: 0 <= i < |pages| - 1 ==> !Stops(q, pages, i)
    requires Different(q.mode, pages[..|pages| - 1])
    ensures AtPage(q, up, pages, k, deadline - k) == AtPage(q, up, pages, |pages| - 1, deadline - (|pages| - 1))
    decreases |pages| - k
  {
    if k < |pages| - 1 {
      AtNext(q, up, pages, k, deadline - k);
      NewKey(q.mode, pages, k);
      assert forall i :: 0 <= i <= k ==> pages[..|pages| - 1][i] == pages[i];
      GetsTo(q, up, pages, k + 1, deadline);
    }
  }

  lemma ScanGetsTo(q: Query, up: Upstream, first: Page, pages: seq<Page>, deadline: nat)
    requires Provable(q.o) && Reaches(q, up, first, pages) && |pages| <= deadline
    ensures ScanList(q, up, first, deadline) == AtPage(q, up, pages, |pages| - 1, deadline - (|pages| - 1))
  {
    GetsTo(q, up, pages, 0, deadline);
    assert AllRows(pages[..0]) == [] && Keys(q.mode, pages[..0]) == {};
  }

  lemma ScanTurn(q: Query, up: Upstream, page: Page, number: nat, scanned: nat, st: Progress,
                 visited: set<string>, deadline: nat)
    requires Provable(q.o) && deadline > 0
    requires var st' := VisitAll(q, st, page.rows);
             |st'.seen| != q.ownedCount && !SupplierDone(q.mode, page, scanned + |page.rows|)
    ensures ScanFrom(q, up, page, number, scanned, st, visited, deadline) ==
              if PageKey(q.mode, page) in visited then Repeated
              else
                match up(number + 1, page.next)
                case Broken => UpstreamFailed
                case Refused => UpstreamRefused
                case Listing(next) =>
                  ScanFrom(q, up, next, number + 1, scanned + |page.rows|, VisitAll(q, st, page.rows),
                           visited + {PageKey(q.mode, page)}, deadline - 1)
  {
  }

  /** What happens at a page that does not end the scan. */
  lemma Turn(q: Query, up: Upstream, pages: seq<Page>, deadline: nat)
    requires Provable(q.o) && pages != [] && deadline > 0 && !Stops(q, pages, |pages| - 1)
    requires deadline == 1 || !NextAnswer(up, pages).Listing?
             || PageKey(q.mode, Last(pages)) in Keys(q.mode, pages[..|pages| - 1])
    ensures AtPage(q, up, pages, |pages| - 1, deadline) ==
              if PageKey(q.mode, Last(pages)) in Keys(q.mode, pages[..|pages| - 1]) then Repeated
              else
                match NextAnswer(up, pages)
                case Broken => UpstreamFailed
                case Refused => UpstreamRefused
                case Listing(next) => Interrupted
  {
    var n := |pages| - 1;
    var rows := AllRows(pages[..n]);
    var st := VisitAll(q, NOTHING, rows);
    assert pages[..n + 1] == pages;
    assert VisitAll(q, st, pages[n].rows).seen == Shown(q.o, AllRows(pages))
        && |AllRows(pages)| == |rows| + |pages[n].rows| by {
      PageRead(q, pages, n);
    }
    ScanTurn(q, up, pages[n], n + 1, |rows|, st, Keys(q.mode, pages[..n]), deadline);
  }

  lemma LastIsNew(q: Query, pages: seq<Page>)
    requires pages != []
    ensures Different(q.mode, pages) <==>
            && Different(q.mode, pages[..|pages| - 1])
            && PageKey(q.mode, Last(pages)) !in Keys(q.mode, pages[..|pages| - 1])
  {
    var n := |pages| - 1;
    NewKey(q.mode, pages, n);
    assert forall i :: 0 <= i < n ==> pages[..n][i] == pages[i];
  }

  lemma StopIsReached(q: Query, up: Upstream, first: Page, pages: seq<Page>, deadline: nat)
    requires Provable(q.o) && Reaches(q, up, first, pages) && |pages| <= deadline && Stops(q, pages, |pages| - 1)
    ensures ScanList(q, up, first, deadline) == Exact(q, AllRows(pages))
  {
    ScanGetsTo(q, up, first, pages, deadline);
    AtStop(q, up, pages, |pages| - 1, deadline - (|pages| - 1));
    assert pages[..|pages|] == pages;
  }

  lemma LoopIsReached(q: Query, up: Upstream, first: Page, pages: seq<Page>, deadline: nat)
    requires Provable(q.o) && Loops(q, up, first, pages) && |pages| <= deadline
    ensures ScanList(q, up, first, deadline) == Repeated
  {
    ScanGetsTo(q, up, first, pages, deadline);
    NewKey(q.mode, pages, |pages| - 1);
    Turn(q, up, pages, deadline - (|pages| - 1));
  }

  lemma AnswerIsReached(q: Query, up: Upstream, first: Page, pages: seq<Page>, deadline: nat)
    requires Provable(q.o) && GoesThrough(q, up, first, pages) && |pages| <= deadline
    requires !NextAnswer(up, pages).Listing? || |pages| == deadline
    ensures ScanList(q, up, first, deadline) ==
              match NextAnswer(up, pages)
              case Broken => UpstreamFailed
              case Refused => UpstreamRefused
              case Listing(_) => Interrupted
  {
    LastIsNew(q, pages);
    ScanGetsTo(q, up, first, pages, deadline);
    Turn(q, up, pages, deadline - (|pages| - 1));
  }

  /** The pages determine the outcome. */
  lemma EndIsReached(q: Query, up: Upstream, first: Page, pages: seq<Page>, deadline: nat, r: Outcome)
    requires Provable(q.o) && EndsIn(q, up, first, pages, deadline, r)
    ensures ScanList(q, up, first, deadline) == r
  {
    if r.Finished? {
      StopIsReached(q, up, first, pages, deadline);
    } else if r.Repeated? {
      LoopIsReached(q, up, first, pages, deadline);
    } else if deadline > 0 {
      AnswerIsReached(q, up, first, pages, deadline);
    }
  }

  lemma StopsStays(q: Query, pages: seq<Page>, next: Page, k: nat)
    requires k < |pages|
    ensures Stops(q, pages + [next], k) == Stops(q, pages, k)
  {
    assert (pages + [next])[..k + 1] == pages[..k + 1];
  }

  lemma GoesOn(q: Query, up: Upstream, first: Page, pages: seq<Page>, next: Page)
    requires GoesThrough(q, up, first, pages) && NextAnswer(up, pages) == Listing(next)
    ensures Reaches(q, up, first, pages + [next])
  {
    var longer := pages + [next];
    forall k | 0 <= k < |pages| ensures !Stops(q, longer, k) {
      StopsStays(q, pages, next, k);
    }
    assert longer[..|pages|] == pages;
  }

  /** There always are pages that explain the outcome. */
  lemma {:induction false} SomeEnd(q: Query, up: Upstream, first: Page, pages: seq<Page>, deadline: nat)
    returns (all: seq<Page>)
    requires Provable(q.o) && Reaches(q, up, first, pages) && |pages| <= deadline
    ensures EndsIn(q, up, first, all, deadline, ScanList(q, up, first, deadline))
    decreases deadline - |pages|
  {
    var n := |pages| - 1;
    all := pages;
    LastIsNew(q, pages);
    NewKey(q.mode, pages, n);
    if Stops(q, pages, n) {
      EndIsReached(q, up, first, pages, deadline, Exact(q, AllRows(pages)));
    } else if PageKey(q.mode, Last(pages)) in Keys(q.mode, pages[..n]) {
      EndIsReached(q, up, first, pages, deadline, Repeated);
    } else {
      match NextAnswer(up, pages) {
        case Broken => EndIsReached(q, up, first, pages, deadline, UpstreamFailed);
        case Refused => EndIsReached(q, up, first, pages, deadline, UpstreamRefused);
        case Listing(next) =>
          if |pages| == deadline {
            EndIsReached(q, up, first, pages, deadline, Interrupted);
          } else {
            GoesOn(q, up, first, pages, next);
            all := SomeEnd(q, up, first, pages + [next], deadline);
          }
      }
    }
  }

  lemma FirstReaches(q: Query, up: Upstream, first: Page)
    ensures Reaches(q, up, first, [first])
  {
  }

  /** A scan ends in some way exactly when some pages lead there: with the exact slice when a page stops it, with the
      loop error when a page looks like an earlier one, with the supplier's failure or refusal of the next page, or
      interrupted when the deadline comes first. */
  lemma ScanEndsIff(q: Query, up: Upstream, first: Page, deadline: nat, r: Outcome)
    requires Provable(q.o)
    ensures ScanList(q, up, first, deadline) == r <==> exists pages :: EndsIn(q, up, first, pages, deadline, r)
  {
    if ScanList(q, up, first, deadline) == r {
      var pages := [first];
      if deadline > 0 {
        FirstReaches(q, up, first);
        pages := SomeEnd(q, up, first, [first], deadline);
      }
      assert EndsIn(q, up, first, pages, deadline, r);
    } else if pages :| EndsIn(q, up, first, pages, deadline, r) {
      EndIsReached(q, up, first, pages, deadline, r);
      assert false;
    }
  }

  // ----- the single outcomes -----

  /** The supplier's refusal reaches the caller exactly when it answers the request after pages gone through. */
  lemma RefusedIff(q: Query, up: Upstream, first: Page, deadline: nat)
    requires Provable(q.o)
    ensures ScanList(q, up, first, deadline) == UpstreamRefused <==>
            exists pages: seq<Page> :: GoesThrough(q, up, first, pages) && |pages| <= deadline
                            && up(|pages| + 1, pages[|pages| - 1].next) == Refused
  {
    ScanEndsIff(q, up, first, deadline, UpstreamRefused);
    assert forall pages: seq<Page> :: EndsIn(q, up, first, pages, deadline, UpstreamRefused) <==>
      GoesThrough(q, up, first, pages) && |pages| <= deadline && up(|pages| + 1, pages[|pages| - 1].next) == Refused;
  }

  lemma FailedIff(q: Query, up: Upstream, first: Page, deadline: nat)
    requires Provable(q.o)
    ensures ScanList(q, up, first, deadline) == UpstreamFailed <==>
            exists pages: seq<Page> :: GoesThrough(q, up, first, pages) && |pages| <= deadline
                            && up(|pages| + 1, pages[|pages| - 1].next) == Broken
  {
    ScanEndsIff(q, up, first, deadline, UpstreamFailed);
    assert forall pages: seq<Page> :: EndsIn(q, up, first, pages, deadline, UpstreamFailed) <==>
      GoesThrough(q, up, first, pages) && |pages| <= deadline && up(|pages| + 1, pages[|pages| - 1].next) == Broken;
  }

  lemma RepeatedIff(q: Query, up: Upstream, first: Page, deadline: nat)
    requires Provable(q.o)
    ensures ScanList(q, up, first, deadline) == Repeated <==>
            exists pages: seq<Page> :: Loops(q, up, first, pages) && |pages| <= deadline
  {
    ScanEndsIff(q, up, first, deadline, Repeated);
    assert forall pages: seq<Page> :: EndsIn(q, up, first, pages, deadline, Repeated) <==>
      Loops(q, up, first, pages) && |pages| <= deadline;
  }

  lemma InterruptedIff(q: Query, up: Upstream, first: Page, deadline: nat)
    requires Provable(q.o) && deadline > 0
    ensures ScanList(q, up, first, deadline) == Interrupted <==>
            exists pages: seq<Page> :: GoesThrough(q, up, first, pages) && |pages| == deadline
                            && up(|pages| + 1, pages[|pages| - 1].next).Listing?
  {
    ScanEndsIff(q, up, first, deadline, Interrupted);
    assert forall pages: seq<Page> :: EndsIn(q, up, first, pages, deadline, Interrupted) <==>
      GoesThrough(q, up, first, pages) && |pages| == deadline && up(|pages| + 1, pages[|pages| - 1].next).Listing?;
  }
}
