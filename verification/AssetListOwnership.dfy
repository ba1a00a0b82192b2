/** Which stored binding decides what a list scan takes a handle, its proof and its group to be. */
module AssetListOwnership {
  import opened AssetListScan

  /** The binding is of the request's project, passes its ID filter, and stands for this resource. */
  predicate Speaks(f: Admission, b: Binding, c: string) {
    && (f.project == "" || b.project == "" || f.project == b.project)
    && c != "" && (if b.canonicalID != "" then b.canonicalID == c else b.id == c)
    && f.matchesID(c)
  }

  predicate HasGroup(b: Binding) {
    b.groupID != ""
  }

  /** The last of the bindings for which this holds. */
  ghost predicate Last(bindings: seq<Binding>, p: Binding -> bool, i: nat) {
    i < |bindings| && p(bindings[i]) && forall k :: i < k < |bindings| ==> !p(bindings[k])
  }

  ghost predicate Some(bindings: seq<Binding>, p: Binding -> bool) {
    exists i :: 0 <= i < |bindings| && p(bindings[i])
  }

  lemma LastSnoc(bindings: seq<Binding>, b: Binding, p: Binding -> bool, i: nat)
    ensures Some(bindings + [b], p) <==> Some(bindings, p) || p(b)
    ensures Last(bindings + [b], p, i) <==> if p(b) then i == |bindings| else Last(bindings, p, i)
  {
    var all := bindings + [b];
    assert all[|bindings|] == b && forall k :: 0 <= k < |bindings| ==> all[k] == bindings[k];
  }

  lemma AdmittedIff(f: Admission, b: Binding, c: string)
    ensures Admitted(f, b) && Canonical(b) == c <==> Speaks(f, b, c)
  {
  }

  function About(f: Admission, c: string): Binding -> bool {
    b => Speaks(f, b, c)
  }

  function GroupsAbout(f: Admission, c: string): Binding -> bool {
    b => f.keepGroups && HasGroup(b) && Speaks(f, b, c)
  }

  /** The resource that a binding leads this handle to, if it names the handle at all. */
  predicate LeadsTo(f: Admission, b: Binding, handle: string, c: string) {
    Speaks(f, b, c) && handle != "" && (handle == c || handle == b.id)
  }

  ghost predicate NamesHandle(f: Admission, b: Binding, handle: string) {
    exists c :: LeadsTo(f, b, handle, c)
  }

  ghost function Naming(f: Admission, handle: string): Binding -> bool {
    b => NamesHandle(f, b, handle)
  }

  /** A resource is provable exactly when some binding stands for it; the last such binding is the proof. */
  lemma {:induction false} LastProof(f: Admission, bindings: seq<Binding>, c: string)
    ensures var proofs := Owned(f, bindings).proofs;
            && (c in proofs <==> Some(bindings, About(f, c)))
            && forall i: nat :: Last(bindings, About(f, c), i) ==> c in proofs && proofs[c] == bindings[i].id
  {
    if bindings != [] {
      var before, last := bindings[..|bindings| - 1], bindings[|bindings| - 1];
      LastProof(f, before, c);
      AdmittedIff(f, last, c);
      assert bindings == before + [last];
      forall i: nat {
        LastSnoc(before, last, About(f, c), i);
      }
    }
  }

  /** If groups are filtered, a resource has a group exactly when some binding for it names one; the last one does. */
  lemma {:induction false} LastGroup(f: Admission, bindings: seq<Binding>, c: string)
    ensures var groups := Owned(f, bindings).groups;
            && (c in groups <==> Some(bindings, GroupsAbout(f, c)))
            && forall i: nat :: Last(bindings, GroupsAbout(f, c), i) ==> c in groups && groups[c] == bindings[i].groupID
  {
    if bindings != [] {
      var before, last := bindings[..|bindings| - 1], bindings[|bindings| - 1];
      LastGroup(f, before, c);
      AdmittedIff(f, last, c);
      assert bindings == before + [last];
      forall i: nat {
        LastSnoc(before, last, GroupsAbout(f, c), i);
      }
    }
  }

  lemma RecordHandle(f: Admission, o: Ownership, b: Binding, handle: string)
    ensures var owned := Record(f, o, b).owned;
            && (handle in owned <==> handle in o.owned || NamesHandle(f, b, handle))
            && (!NamesHandle(f, b, handle) && handle in o.owned ==> owned[handle] == o.owned[handle])
            && (NamesHandle(f, b, handle) ==> LeadsTo(f, b, handle, owned[handle]))
  {
    AdmittedIff(f, b, Canonical(b));
    if c :| LeadsTo(f, b, handle, c) {
      assert Canonical(b) == c;
    } else if Admitted(f, b) {
      assert !LeadsTo(f, b, handle, Canonical(b));
    }
  }

  /** A handle is owned exactly when some binding names it; the last that does says to which resource it leads. */
  lemma {:induction false} LastHandle(f: Admission, bindings: seq<Binding>, handle: string)
    ensures var owned := Owned(f, bindings).owned;
            && (handle in owned <==> Some(bindings, Naming(f, handle)))
            && forall i: nat :: Last(bindings, Naming(f, handle), i) ==>
                 handle in owned && LeadsTo(f, bindings[i], handle, owned[handle])
  {
    if bindings != [] {
      var before, last := bindings[..|bindings| - 1], bindings[|bindings| - 1];
      LastHandle(f, before, handle);
      RecordHandle(f, Owned(f, before), last, handle);
      assert bindings == before + [last];
      forall i: nat {
        LastSnoc(before, last, Naming(f, handle), i);
      }
    }
  }
}
