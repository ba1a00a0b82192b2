/** Scanning a shared supplier list for one user's resources: ownership loading, the windowed
    scan with its early stop and loop detection, and what it must compute. */
module AssetListScan {

  const BATCH: nat := 100

  // ----- ownership -----

  datatype Binding = Binding(id: string, canonicalID: string, project: string, kind: string, groupID: string)

  function Canonical(b: Binding): string {
    if b.canonicalID == "" then b.id else b.canonicalID
  }

  predicate Compatible(project: string, b: Binding) {
    project == "" || b.project == "" || b.project == project
  }

  /** `owned`: handle to canonical ID; `proofs`: canonical ID to the stored handle that proves it. */
  datatype Ownership = Ownership(owned: map<string, string>, proofs: map<string, string>, groups: map<string, string>)

  /** All the scan relies on: every owned handle leads to a resource that has a proof. */
  predicate Provable(o: Ownership) {
    forall h :: h in o.owned ==> o.owned[h] in o.proofs
  }

  /** What the request lets through: its project, and the ID filter a provider may apply locally. */
  datatype Admission = Admission(project: string, matchesID: string -> bool, keepGroups: bool)

  predicate Admitted(f: Admission, b: Binding) {
    Compatible(f.project, b) && Canonical(b) != "" && f.matchesID(Canonical(b))
  }

  function Record(f: Admission, o: Ownership, b: Binding): Ownership {
    if !Admitted(f, b) then o
    else
      var c := Canonical(b);
      var owned := o.owned[c := c];
      Ownership(if b.id != "" then owned[b.id := c] else owned,
                o.proofs[c := b.id],
                if f.keepGroups && b.groupID != "" then o.groups[c := b.groupID] else o.groups)
  }

  function Owned(f: Admission, bindings: seq<Binding>): (o: Ownership)
    ensures Provable(o)
  {
    if bindings == [] then Ownership(map[], map[], map[])
    else Record(f, Owned(f, bindings[..|bindings| - 1]), bindings[|bindings| - 1])
  }

  function Flat<T>(batches: seq<seq<T>>): seq<T> {
    if batches == [] then [] else Flat(batches[..|batches| - 1]) + batches[|batches| - 1]
  }

  /** One turn of the callback's loop. */
  method RecordBinding(f: Admission, o: Ownership, ids: set<string>, b: Binding) returns (o': Ownership,
      ids': set<string>)
    requires ids == o.proofs.Keys
    ensures o' == Record(f, o, b) && ids' == o'.proofs.Keys
  {
    o', ids' := o, ids;
    if Compatible(f.project, b) {
      var canonical := b.canonicalID;
      if canonical == "" {
        canonical := b.id;
      }
      if canonical == "" || !f.matchesID(canonical) {
        return;
      }
      ids' := ids' + {canonical};
      o' := o'.(owned := o'.owned[canonical := canonical], proofs := o'.proofs[canonical := b.id]);
      if f.keepGroups && b.groupID != "" {
        o' := o'.(groups := o'.groups[canonical := b.groupID]);
      }
      if b.id != "" {
        o' := o'.(owned := o'.owned[b.id := canonical]);
      }
    }
  }

  /** The callback of the ownership walk: one batch of bindings, after `before`. */
  method RecordBatch(f: Admission, o: Ownership, ids: set<string>, bindings: seq<Binding>, ghost before: seq<Binding>)
    returns (o': Ownership, ids': set<string>)
    requires o == Owned(f, before) && ids == o.proofs.Keys
    ensures o' == Owned(f, before + bindings) && ids' == o'.proofs.Keys
  {
    o', ids' := o, ids;
    assert before + bindings[..0] == before;
    for j := 0 to |bindings|
      invariant o' == Owned(f, before + bindings[..j]) && ids' == o'.proofs.Keys
    {
      o', ids' := RecordBinding(f, o', ids', bindings[j]);
      assert before + bindings[..j + 1] == before + bindings[..j] + [bindings[j]];
      OwnedSnoc(f, before + bindings[..j], bindings[j]);
    }
    assert bindings[..|bindings|] == bindings;
  }

  lemma OwnedSnoc(f: Admission, bindings: seq<Binding>, b: Binding)
    ensures Owned(f, bindings + [b]) == Record(f, Owned(f, bindings), b)
  {
    assert (bindings + [b])[..|bindings|] == bindings;
  }

  method LoadOwnership(f: Admission, batches: seq<seq<Binding>>) returns (o: Ownership, ownedCount: nat)
    ensures o == Owned(f, Flat(batches))
    ensures ownedCount == |o.proofs|
  {
    o := Ownership(map[], map[], map[]);
    var canonicalIDs: set<string> := {};
    for i := 0 to |batches|
      invariant o == Owned(f, Flat(batches[..i])) && canonicalIDs == o.proofs.Keys
    {
      assert batches[..i + 1][..i] == batches[..i];
      o, canonicalIDs := RecordBatch(f, o, canonicalIDs, batches[i], Flat(batches[..i]));
    }
    assert batches[..|batches|] == batches;
    ownedCount := |canonicalIDs|;
  }

  predicate Names(f: Admission, b: Binding, handle: string, c: string) {
    Admitted(f, b) && Canonical(b) == c && handle != "" && (handle == b.id || handle == c)
  }

  predicate Stands(f: Admission, bindings: seq<Binding>, c: string, handle: string) {
    exists i :: 0 <= i < |bindings| && Admitted(f, bindings[i])
                   && Canonical(bindings[i]) == c && bindings[i].id == handle
  }

  predicate Named(f: Admission, bindings: seq<Binding>, handle: string, c: string) {
    exists i :: 0 <= i < |bindings| && Names(f, bindings[i], handle, c)
  }

  lemma StandsGrows(f: Admission, bindings: seq<Binding>, b: Binding, c: string, handle: string)
    ensures Stands(f, bindings + [b], c, handle) <==>
              Stands(f, bindings, c, handle) || (Admitted(f, b) && Canonical(b) == c && b.id == handle)
  {
    var all := bindings + [b];
    assert all[|bindings|] == b && forall i :: 0 <= i < |bindings| ==> all[i] == bindings[i];
  }

  lemma NamedGrows(f: Admission, bindings: seq<Binding>, b: Binding, handle: string, c: string)
    ensures Named(f, bindings + [b], handle, c) <==> Named(f, bindings, handle, c) || Names(f, b, handle, c)
  {
    var all := bindings + [b];
    assert all[|bindings|] == b && forall i :: 0 <= i < |bindings| ==> all[i] == bindings[i];
  }

  /** Each proof is an admitted binding of its resource, and each admitted binding has one. */
  lemma {:induction false} ProofsAreExact(f: Admission, bindings: seq<Binding>, c: string)
    ensures var o := Owned(f, bindings);
            && (c in o.proofs ==> Stands(f, bindings, c, o.proofs[c]))
            && ((exists handle :: Stands(f, bindings, c, handle)) ==> c in o.proofs)
  {
    if bindings != [] {
      var before, last := bindings[..|bindings| - 1], bindings[|bindings| - 1];
      ProofsAreExact(f, before, c);
      assert bindings == before + [last];
      forall handle {
        StandsGrows(f, before, last, c, handle);
      }
    }
  }

  /** A handle is owned exactly when an admitted binding names it, and then leads to a resource so named. */
  lemma {:induction false} HandlesAreExact(f: Admission, bindings: seq<Binding>, h: string)
    ensures var o := Owned(f, bindings);
            && (h in o.owned ==> Named(f, bindings, h, o.owned[h]))
            && ((exists c :: Named(f, bindings, h, c)) ==> h in o.owned)
  {
    if bindings != [] {
      var before, last := bindings[..|bindings| - 1], bindings[|bindings| - 1];
      HandlesAreExact(f, before, h);
      assert bindings == before + [last];
      forall c {
        NamedGrows(f, before, last, h, c);
      }
    }
  }

  // ----- supplier pages -----

  /** A row's raw JSON, and the one ID it is recognised by ("" when it has none). */
  datatype Row = Row(id: string, raw: string)

  datatype Total = Absent | Exactly(n: int)

  /** `raw` is the text of the item array; `next` the supplier's cursor, "" when there is none. */
  datatype Page = Page(rows: seq<Row>, raw: string, next: string, total: Total)

  datatype Response = Listing(page: Page) | Refused | Broken

  /** What the supplier answers to the request for a page number and cursor. */
  type Upstream = (nat, string) -> Response

  datatype Mode = UpstreamCursor | ShortPage | Numbered

  /** One user's listing: what it owns, which rows its filter accepts, and the window it asked for. */
  datatype Query = Query(o: Ownership, ownedCount: nat, accepts: (Row, string) -> bool,
                           mode: Mode, offset: nat, size: nat)

  predicate WellFormed(q: Query) {
    Provable(q.o) && q.ownedCount == |q.o.proofs|
  }

  predicate IsOwned(o: Ownership, row: Row) {
    row.id != "" && row.id in o.owned
  }

  /** What the loop carries from row to row. */
  datatype Progress = Progress(seen: set<string>, matched: nat, items: seq<string>, pageProofs: map<string, string>)

  function Visit(q: Query, st: Progress, row: Row): Progress
    requires Provable(q.o)
  {
    if !IsOwned(q.o, row) || q.o.owned[row.id] in st.seen then st
    else
      var c := q.o.owned[row.id];
      if !q.accepts(row, c) then st.(seen := st.seen + {c})
      else if q.offset < st.matched + 1 <= q.offset + q.size then
        Progress(st.seen + {c}, st.matched + 1, st.items + [row.raw], st.pageProofs[q.o.proofs[c] := c])
      else st.(seen := st.seen + {c}, matched := st.matched + 1)
  }

  function VisitAll(q: Query, st: Progress, rows: seq<Row>): Progress
    requires Provable(q.o)
  {
    if rows == [] then st else Visit(q, VisitAll(q, st, rows[..|rows| - 1]), rows[|rows| - 1])
  }

  const NOTHING := Progress({}, 0, [], map[])

  /** The supplier itself says the list ends here. */
  predicate SupplierDone(mode: Mode, page: Page, scanned: nat) {
    match mode
    case UpstreamCursor => page.next == ""
    case ShortPage => |page.rows| < BATCH
    case Numbered =>
      || |page.rows| == 0
      || (page.total.Exactly? && scanned >= page.total.n)
      || (page.total.Absent? && |page.rows| < BATCH)
  }

  function PageKey(mode: Mode, page: Page): string {
    if mode.UpstreamCursor? then page.next else page.raw
  }

  datatype Outcome =
    | Finished(items: seq<string>, total: nat, pageProofs: map<string, string>)
    | Repeated | Interrupted | UpstreamFailed | UpstreamRefused

  /** The scan from page `number` on; the context lets it look at `deadline` more pages. */
  function ScanFrom(q: Query, up: Upstream, page: Page, number: nat, scanned: nat, st: Progress,
                    visited: set<string>, deadline: nat): Outcome
    requires Provable(q.o)
    decreases deadline
  {
    if deadline == 0 then Interrupted
    else
      var st' := VisitAll(q, st, page.rows);
      var scanned' := scanned + |page.rows|;
      if |st'.seen| == q.ownedCount || SupplierDone(q.mode, page, scanned') then
        Finished(st'.items, st'.matched, st'.pageProofs)
      else if PageKey(q.mode, page) in visited then Repeated
      else
        match up(number + 1, page.next)
        case Broken => UpstreamFailed
        case Refused => UpstreamRefused
        case Listing(next) =>
          ScanFrom(q, up, next, number + 1, scanned', st', visited + {PageKey(q.mode, page)}, deadline - 1)
  }

  function ScanList(q: Query, up: Upstream, first: Page, deadline: nat): Outcome
    requires Provable(q.o)
  {
    ScanFrom(q, up, first, 1, 0, NOTHING, {}, deadline)
  }

  /** The row loop of one page. */
  method FilterRows(q: Query, st: Progress, rows: seq<Row>) returns (st': Progress)
    requires Provable(q.o)
    ensures st' == VisitAll(q, st, rows)
  {
    st' := st;
    for i := 0 to |rows|
      invariant st' == VisitAll(q, st, rows[..i])
    {
      var row := rows[i];
      assert rows[..i + 1][..i] == rows[..i];
      if row.id == "" || row.id !in q.o.owned || q.o.owned[row.id] in st'.seen {
        continue;
      }
      var canonical := q.o.owned[row.id];
      st' := st'.(seen := st'.seen + {canonical});
      if !q.accepts(row, canonical) {
        continue;
      }
      st' := st'.(matched := st'.matched + 1);
      if st'.matched > q.offset && st'.matched <= q.offset + q.size {
        st' := st'.(items := st'.items + [row.raw], pageProofs := st'.pageProofs[q.o.proofs[canonical] := canonical]);
      }
    }
    assert rows[..|rows|] == rows;
  }

  method ScanAssetList(q: Query, up: Upstream, first: Page, deadline: nat) returns (r: Outcome)
    requires Provable(q.o)
    ensures r == ScanList(q, up, first, deadline)
  {
    var parsed, st := first, NOTHING;
    var seenPages: set<string> := {};
    var scanned: nat, page: nat := 0, 1;
    while page <= deadline
      invariant 1 <= page <= deadline + 1
      invariant ScanList(q, up, first, deadline) ==
                ScanFrom(q, up, parsed, page, scanned, st, seenPages, deadline + 1 - page)
    {
      st := FilterRows(q, st, parsed.rows);
      scanned := scanned + |parsed.rows|;
      if |st.seen| == q.ownedCount || SupplierDone(q.mode, parsed, scanned) {
        return Finished(st.items, st.matched, st.pageProofs);
      }
      var pageKey := PageKey(q.mode, parsed);
      if pageKey in seenPages {
        return Repeated;
      }
      seenPages := seenPages + {pageKey};
      match up(page + 1, parsed.next) {
        case Broken => return UpstreamFailed;
        case Refused => return UpstreamRefused;
        case Listing(next) => parsed := next;
      }
      page := page + 1;
    }
    return Interrupted;
  }

  // ----- what the scan is for: filter, deduplicate, slice -----

  /** Row `i` is the first one that shows its owned resource. */
  predicate FirstShown(o: Ownership, rows: seq<Row>, i: nat)
    requires i < |rows|
  {
    && IsOwned(o, rows[i])
    && forall j :: 0 <= j < i && IsOwned(o, rows[j]) ==> o.owned[rows[j].id] != o.owned[rows[i].id]
  }

  /** The accepted first showings, in the supplier's order. */
  function Wanted(q: Query, rows: seq<Row>): seq<Row> {
    if rows == [] then []
    else
      var n := |rows| - 1;
      Wanted(q, rows[..n]) +
        if FirstShown(q.o, rows, n) && q.accepts(rows[n], q.o.owned[rows[n].id]) then [rows[n]] else []
  }

  function Shown(o: Ownership, rows: seq<Row>): set<string> {
    set i | 0 <= i < |rows| && IsOwned(o, rows[i]) :: o.owned[rows[i].id]
  }

  function Min(a: nat, b: nat): nat { if a <= b then a else b }

  function Window<T>(s: seq<T>, offset: nat, size: nat): seq<T> {
    s[Min(offset, |s|)..Min(offset + size, |s|)]
  }

  function Raws(rows: seq<Row>): seq<string> {
    seq(|rows|, i requires 0 <= i < |rows| => rows[i].raw)
  }

  /** The stored handle behind each of these rows, with the resource it must still prove. */
  function ProofsOf(o: Ownership, rows: seq<Row>): map<string, string>
    requires Provable(o) && forall i :: 0 <= i < |rows| ==> IsOwned(o, rows[i])
  {
    if rows == [] then map[]
    else
      assert IsOwned(o, rows[|rows| - 1]);
      var c := o.owned[rows[|rows| - 1].id];
      ProofsOf(o, rows[..|rows| - 1])[o.proofs[c] := c]
  }

  lemma {:induction false} WantedIsOwned(q: Query, rows: seq<Row>)
    ensures forall i :: 0 <= i < |Wanted(q, rows)| ==> IsOwned(q.o, Wanted(q, rows)[i])
  {
    if rows != [] {
      WantedIsOwned(q, rows[..|rows| - 1]);
    }
  }

  function PageOf(q: Query, rows: seq<Row>): (page: seq<Row>)
    ensures forall i :: 0 <= i < |page| ==> IsOwned(q.o, page[i])
  {
    WantedIsOwned(q, rows);
    Window(Wanted(q, rows), q.offset, q.size)
  }

  function Exact(q: Query, rows: seq<Row>): Outcome
    requires Provable(q.o)
  {
    var page := PageOf(q, rows);
    Finished(Raws(page), |Wanted(q, rows)|, ProofsOf(q.o, page))
  }

  function Summary(q: Query, rows: seq<Row>): Progress
    requires Provable(q.o)
  {
    var r := Exact(q, rows);
    Progress(Shown(q.o, rows), r.total, r.items, r.pageProofs)
  }

  lemma WindowGrows<T>(s: seq<T>, x: T, offset: nat, size: nat)
    ensures Window(s + [x], offset, size) == Window(s, offset, size) + if offset <= |s| < offset + size then [x] else []
  {
  }

  lemma ShownGrows(o: Ownership, rows: seq<Row>, row: Row)
    ensures Shown(o, rows + [row]) == Shown(o, rows) + if IsOwned(o, row) then {o.owned[row.id]} else {}
    ensures FirstShown(o, rows + [row], |rows|) <==> IsOwned(o, row) && o.owned[row.id] !in Shown(o, rows)
  {
    var all := rows + [row];
    assert all[|rows|] == row;
    assert forall i :: 0 <= i < |rows| ==> all[i] == rows[i];
  }

  lemma PageGrows(q: Query, rows: seq<Row>, row: Row)
    requires Provable(q.o)
    ensures var hit := FirstShown(q.o, rows + [row], |rows|) && q.accepts(row, q.o.owned[row.id]);
            && Wanted(q, rows + [row]) == Wanted(q, rows) + (if hit then [row] else [])
            && PageOf(q, rows + [row]) == PageOf(q, rows) +
                 if hit && q.offset <= |Wanted(q, rows)| < q.offset + q.size then [row] else []
  {
    assert (rows + [row])[..|rows|] == rows;
    assert (rows + [row])[|rows|] == row;
    WindowGrows(Wanted(q, rows), row, q.offset, q.size);
  }

  lemma PageRowAdds(o: Ownership, page: seq<Row>, row: Row)
    requires Provable(o) && IsOwned(o, row) && forall i :: 0 <= i < |page| ==> IsOwned(o, page[i])
    ensures Raws(page + [row]) == Raws(page) + [row.raw]
    ensures ProofsOf(o, page + [row]) == ProofsOf(o, page)[o.proofs[o.owned[row.id]] := o.owned[row.id]]
  {
    assert (page + [row])[..|page|] == page;
  }

  lemma VisitAddsToSummary(q: Query, rows: seq<Row>, row: Row)
    requires Provable(q.o)
    ensures Visit(q, Summary(q, rows), row) == Summary(q, rows + [row])
  {
    ShownGrows(q.o, rows, row);
    PageGrows(q, rows, row);
    if FirstShown(q.o, rows + [row], |rows|) && q.accepts(row, q.o.owned[row.id])
       && q.offset <= |Wanted(q, rows)| < q.offset + q.size {
      PageRowAdds(q.o, PageOf(q, rows), row);
    } else {
      assert PageOf(q, rows + [row]) == PageOf(q, rows);
    }
  }

  /** The row loop computes the window of the deduplicated, filtered list, whatever the rows. */
  lemma {:induction false} VisitAllSummarises(q: Query, rows: seq<Row>)
    requires Provable(q.o)
    ensures VisitAll(q, NOTHING, rows) == Summary(q, rows)
  {
    if rows != [] {
      VisitAllSummarises(q, rows[..|rows| - 1]);
      VisitAddsToSummary(q, rows[..|rows| - 1], rows[|rows| - 1]);
      assert rows[..|rows| - 1] + [rows[|rows| - 1]] == rows;
    }
  }

  lemma {:induction false} VisitAllAppends(q: Query, st: Progress, a: seq<Row>, b: seq<Row>)
    requires Provable(q.o)
    ensures VisitAll(q, VisitAll(q, st, a), b) == VisitAll(q, st, a + b)
  {
    if b == [] {
      assert a + b == a;
    } else {
      VisitAllAppends(q, st, a, b[..|b| - 1]);
      assert (a + b)[..|a + b| - 1] == a + b[..|b| - 1];
    }
  }
}
