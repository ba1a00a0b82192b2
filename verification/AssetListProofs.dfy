/** Final authorization of a scanned page: every returned item must still have its binding. */
module AssetListProofs {
  import opened AssetListScan
  import opened AssetListExact

  // ----- which proofs a page carries -----

  /** The resource an owned row stands for, and the stored handle that proves it. */
  function Resource(o: Ownership, row: Row): string {
    if IsOwned(o, row) then o.owned[row.id] else ""
  }

  function Handle(o: Ownership, row: Row): string {
    if Resource(o, row) in o.proofs then o.proofs[Resource(o, row)] else ""
  }

  predicate AllOwned(o: Ownership, rows: seq<Row>) {
    Provable(o) && forall i :: 0 <= i < |rows| ==> IsOwned(o, rows[i])
  }

  /** Each row's stored handle is on the page's proof list, for that row's resource. */
  predicate Covered(o: Ownership, rows: seq<Row>)
    requires AllOwned(o, rows)
  {
    forall i :: 0 <= i < |rows| ==>
      Handle(o, rows[i]) in ProofsOf(o, rows) && ProofsOf(o, rows)[Handle(o, rows[i])] == Resource(o, rows[i])
  }

  predicate HandlesTellApart(o: Ownership, rows: seq<Row>) {
    forall i, j :: 0 <= i < j < |rows| && Handle(o, rows[i]) == Handle(o, rows[j]) ==>
      Resource(o, rows[i]) == Resource(o, rows[j])
  }

  lemma {:induction false} LastProofWins(o: Ownership, rows: seq<Row>, i: nat)
    requires AllOwned(o, rows) && i < |rows|
    ensures Handle(o, rows[i]) in ProofsOf(o, rows)
    ensures exists j :: i <= j < |rows| && Handle(o, rows[j]) == Handle(o, rows[i])
                        && ProofsOf(o, rows)[Handle(o, rows[i])] == Resource(o, rows[j])
  {
    var n := |rows| - 1;
    assert IsOwned(o, rows[i]) && IsOwned(o, rows[n]);
    if i < n {
      LastProofWins(o, rows[..n], i);
    }
  }

  lemma TellingApartCovers(o: Ownership, rows: seq<Row>, i: nat)
    requires AllOwned(o, rows) && HandlesTellApart(o, rows) && i < |rows|
    ensures Handle(o, rows[i]) in ProofsOf(o, rows) && ProofsOf(o, rows)[Handle(o, rows[i])] == Resource(o, rows[i])
  {
    LastProofWins(o, rows, i);
    var j :| i <= j < |rows| && Handle(o, rows[j]) == Handle(o, rows[i])
             && ProofsOf(o, rows)[Handle(o, rows[i])] == Resource(o, rows[j]);
  }

  /** A page proves each of its resources exactly when no two of them share a stored handle. */
  lemma CoveredIff(o: Ownership, rows: seq<Row>)
    requires AllOwned(o, rows)
    ensures Covered(o, rows) <==> HandlesTellApart(o, rows)
  {
    if HandlesTellApart(o, rows) {
      forall i | 0 <= i < |rows|
        ensures Handle(o, rows[i]) in ProofsOf(o, rows) && ProofsOf(o, rows)[Handle(o, rows[i])] == Resource(o, rows[i])
      {
        TellingApartCovers(o, rows, i);
      }
    }
  }

  /** No two admitted bindings share a stored handle. */
  predicate UniqueHandles(f: Admission, bindings: seq<Binding>) {
    forall b, b' :: b in bindings && b' in bindings && Admitted(f, b) && Admitted(f, b') && b.id == b'.id ==> b == b'
  }

  lemma UniqueHandlesTellApart(f: Admission, bindings: seq<Binding>, rows: seq<Row>)
    requires UniqueHandles(f, bindings) && AllOwned(Owned(f, bindings), rows)
    ensures HandlesTellApart(Owned(f, bindings), rows)
  {
    var o := Owned(f, bindings);
    forall i | 0 <= i < |rows|
      ensures exists b :: b in bindings && Admitted(f, b)
                          && Canonical(b) == Resource(o, rows[i]) && b.id == Handle(o, rows[i])
    {
      assert IsOwned(o, rows[i]);
      ProofsAreExact(f, bindings, Resource(o, rows[i]));
      var k :| 0 <= k < |bindings| && Admitted(f, bindings[k]) && Canonical(bindings[k]) == Resource(o, rows[i])
               && bindings[k].id == Handle(o, rows[i]);
      assert bindings[k] in bindings;
    }
  }

  /** Bindings of two resources recorded without a handle. */
  const BLANK_BINDINGS := [Binding("", "a", "", "asset", ""), Binding("", "b", "", "asset", "")]

  lemma BlankOwnership(f: Admission)
    requires f.matchesID("a") && f.matchesID("b")
    ensures Owned(f, BLANK_BINDINGS).owned == map["a" := "a", "b" := "b"]
    ensures Owned(f, BLANK_BINDINGS).proofs == map["a" := "", "b" := ""]
  {
    assert BLANK_BINDINGS[..1] == [BLANK_BINDINGS[0]] && BLANK_BINDINGS[..1][..0] == [];
    assert Owned(f, BLANK_BINDINGS[..1]) == Record(f, Ownership(map[], map[], map[]), BLANK_BINDINGS[0]);
  }

  /** Two resources loaded without a handle leave one proof between them, and the other unproved. */
  lemma BlankHandlesHideAProof(f: Admission)
    requires f.matchesID("a") && f.matchesID("b")
    ensures var o, rows := Owned(f, BLANK_BINDINGS), [Row("a", "{a}"), Row("b", "{b}")];
            AllOwned(o, rows) && |ProofsOf(o, rows)| == 1 && !Covered(o, rows)
  {
    BlankOwnership(f);
    var o, rows := Owned(f, BLANK_BINDINGS), [Row("a", "{a}"), Row("b", "{b}")];
    assert rows[..1] == [Row("a", "{a}")] && rows[..1][..0] == [];
    assert ProofsOf(o, rows[..1]) == map["" := "a"];
    assert ProofsOf(o, rows) == map["" := "b"];
    assert Resource(o, rows[0]) == "a" && Handle(o, rows[0]) == "";
  }

  // ----- the count test of the revalidation -----

  /** A Go map read: a missing key reads as "". */
  function Get(m: map<string, string>, k: string): string {
    if k in m then m[k] else ""
  }

  predicate Passes(proofs: map<string, string>, kind: string, project: string, b: Binding) {
    b.kind == kind && Canonical(b) == Get(proofs, b.id) && Compatible(project, b)
  }

  function ValidHandles(found: seq<Binding>, proofs: map<string, string>, kind: string, project: string): set<string> {
    set i | 0 <= i < |found| && Passes(proofs, kind, project, found[i]) :: found[i].id
  }

  method Revalidate(found: seq<Binding>, proofs: map<string, string>, kind: string, project: string) returns (ok: bool)
    ensures ok == (|ValidHandles(found, proofs, kind, project)| == |proofs|)
  {
    var valid: set<string> := {};
    for i := 0 to |found|
      invariant valid == set j | 0 <= j < i && Passes(proofs, kind, project, found[j]) :: found[j].id
    {
      var b := found[i];
      var canonical := b.canonicalID;
      if canonical == "" {
        canonical := b.id;
      }
      if b.kind == kind && canonical == Get(proofs, b.id) && Compatible(project, b) {
        valid := valid + {b.id};
      }
    }
    ok := |valid| == |proofs|;
  }

  /** The binding still proves that its handle stands for the resource. */
  predicate Proves(b: Binding, handle: string, canonical: string, kind: string, project: string) {
    b.id == handle && Canonical(b) == canonical && b.kind == kind && Compatible(project, b)
  }

  predicate Proved(found: seq<Binding>, handle: string, canonical: string, kind: string, project: string) {
    exists i :: 0 <= i < |found| && Proves(found[i], handle, canonical, kind, project)
  }

  function Unproved(found: seq<Binding>, proofs: map<string, string>, kind: string, project: string): set<string> {
    set h | h in proofs && !Proved(found, h, proofs[h], kind, project)
  }

  /** A binding without any ID reads like a missing proof, and so passes although nobody asked for it. */
  predicate BlankPasses(found: seq<Binding>, proofs: map<string, string>, kind: string, project: string) {
    "" !in proofs && Proved(found, "", "", kind, project)
  }

  lemma ValidIff(found: seq<Binding>, proofs: map<string, string>, kind: string, project: string, h: string)
    ensures h in ValidHandles(found, proofs, kind, project) <==>
            Proved(found, h, Get(proofs, h), kind, project) && (h in proofs || h == "")
  {
    if h in ValidHandles(found, proofs, kind, project) {
      var i :| 0 <= i < |found| && Passes(proofs, kind, project, found[i]) && found[i].id == h;
      assert Proves(found[i], h, Get(proofs, h), kind, project);
    }
    if Proved(found, h, Get(proofs, h), kind, project) {
      var i :| 0 <= i < |found| && Proves(found[i], h, Get(proofs, h), kind, project);
      assert Passes(proofs, kind, project, found[i]);
    }
  }

  /** The count test succeeds exactly when as many handles are unproved as blank bindings passed. */
  lemma CountTestIff(found: seq<Binding>, proofs: map<string, string>, kind: string, project: string)
    ensures |ValidHandles(found, proofs, kind, project)| == |proofs| <==>
            |Unproved(found, proofs, kind, project)| == if BlankPasses(found, proofs, kind, project) then 1 else 0
  {
    var valid, unproved := ValidHandles(found, proofs, kind, project), Unproved(found, proofs, kind, project);
    var blank := if BlankPasses(found, proofs, kind, project) then {""} else {};
    forall h ensures h in valid <==> h in (proofs.Keys - unproved) + blank {
      ValidIff(found, proofs, kind, project, h);
    }
    assert valid == (proofs.Keys - unproved) + blank;
    assert |proofs.Keys - unproved| == |proofs| - |unproved|;
    assert (proofs.Keys - unproved) * blank == {};
  }

  /** The bindings come from a query for the page's handles. */
  predicate OnlyRequested(found: seq<Binding>, proofs: map<string, string>) {
    forall i :: 0 <= i < |found| ==> found[i].id in proofs
  }

  lemma CountTestIsCoverage(found: seq<Binding>, proofs: map<string, string>, kind: string, project: string)
    requires OnlyRequested(found, proofs)
    ensures |ValidHandles(found, proofs, kind, project)| == |proofs| <==>
            forall h :: h in proofs ==> Proved(found, h, proofs[h], kind, project)
  {
    CountTestIff(found, proofs, kind, project);
    var unproved := Unproved(found, proofs, kind, project);
    if unproved == {} {
      forall h | h in proofs ensures Proved(found, h, proofs[h], kind, project) {
        assert h !in unproved;
      }
    }
  }

  // ----- main result -----

  /** The rows are owned, and each one's resource still has a binding behind its stored handle. */
  predicate AllProved(o: Ownership, rows: seq<Row>, found: seq<Binding>, kind: string, project: string) {
    forall i :: 0 <= i < |rows| ==>
      IsOwned(o, rows[i]) && Proved(found, Handle(o, rows[i]), Resource(o, rows[i]), kind, project)
  }

  /** The final check of a page succeeds exactly when all its rows are proved. */
  lemma CheckedPageIff(f: Admission, bindings: seq<Binding>, o: Ownership, page: seq<Row>, found: seq<Binding>,
      kind: string)
    requires o == Owned(f, bindings) && UniqueHandles(f, bindings) && AllOwned(o, page)
    requires OnlyRequested(found, ProofsOf(o, page))
    ensures |ValidHandles(found, ProofsOf(o, page), kind, f.project)| == |ProofsOf(o, page)| <==>
            AllProved(o, page, found, kind, f.project)
  {
    var proofs := ProofsOf(o, page);
    UniqueHandlesTellApart(f, bindings, page);
    CoveredIff(o, page);
    CountTestIsCoverage(found, proofs, kind, f.project);
    if AllProved(o, page, found, kind, f.project) {
      forall h | h in proofs ensures Proved(found, h, proofs[h], kind, f.project) {
        ProofHasARow(o, page, h);
      }
    }
  }

  lemma {:induction false} ProofHasARow(o: Ownership, rows: seq<Row>, h: string)
    requires AllOwned(o, rows) && h in ProofsOf(o, rows)
    ensures exists i :: 0 <= i < |rows| && Handle(o, rows[i]) == h && Resource(o, rows[i]) == ProofsOf(o, rows)[h]
  {
    var n := |rows| - 1;
    assert IsOwned(o, rows[n]);
    if h != Handle(o, rows[n]) {
      ProofHasARow(o, rows[..n], h);
    }
  }

  /** Whatever the supplier served: the final check succeeds exactly when every item of the returned page is the row,
      on the pages that were read, of a resource whose binding was found for this kind and a compatible project. */
  lemma ReturnedItemsAreProved(f: Admission, bindings: seq<Binding>, q: Query, up: Upstream, first: Page, deadline: nat,
                               found: seq<Binding>, kind: string)
    requires q.o == Owned(f, bindings) && UniqueHandles(f, bindings)
    requires ScanList(q, up, first, deadline).Finished?
    requires OnlyRequested(found, ScanList(q, up, first, deadline).pageProofs)
    ensures var r := ScanList(q, up, first, deadline);
            exists pages ::
              && PagesRead(q, up, first, pages) && r.items == Raws(PageOf(q, AllRows(pages)))
              && (|ValidHandles(found, r.pageProofs, kind, f.project)| == |r.pageProofs| <==>
                  AllProved(q.o, PageOf(q, AllRows(pages)), found, kind, f.project))
  {
    FinishedIsExact(q, up, first, deadline);
    var pages :| PagesRead(q, up, first, pages) && ScanList(q, up, first, deadline) == Exact(q, AllRows(pages));
    CheckedPageIff(f, bindings, q.o, PageOf(q, AllRows(pages)), found, kind);
  }
}
