/** Which group a request with several group handles ends up with: the last one's, so that the order can matter. */
module AssetPinningGroups {
  import opened Text
  import opened AssetPinning

  /** The canonical ID of the last accepted group, "" without one. */
  function LastGroup(bindings: seq<Accepted>): string {
    if bindings == [] then ""
    else
      var last := bindings[|bindings| - 1];
      if last.ref.kind == "group" then last.binding.canonical else LastGroup(bindings[..|bindings| - 1])
  }

  lemma ChosenGroup(w: World, p: Pins, ref: Ref)
    requires Step(w, p, ref).Done? && p.groupID == LastGroup(p.bindings)
    ensures Step(w, p, ref).pins.groupID == LastGroup(Step(w, p, ref).pins.bindings)
  {
    if Registered(w, ref) {
      var bs := w.found(ref).value.bindings;
      var accepted := Accepted(ref, bs[Matching(w, p, bs, |bs|)[0]]);
      assert (p.bindings + [accepted])[..|p.bindings|] == p.bindings;
    }
  }

  lemma {:induction false} GroupIsLast(w: World, requested: string, refs: seq<Ref>, n: nat)
    requires n <= |refs| && Resolve(w, Unpinned(requested), refs, n).Done?
    ensures var p := Resolve(w, Unpinned(requested), refs, n).pins; p.groupID == LastGroup(p.bindings)
  {
    if n > 0 {
      GroupIsLast(w, requested, refs, n - 1);
      ResolveSnoc(w, Unpinned(requested), refs, n - 1);
      ChosenGroup(w, Resolve(w, Unpinned(requested), refs, n - 1).pins, refs[n - 1]);
    }
  }

  predicate IsGroup(a: Accepted) {
    a.ref.kind == "group"
  }

  /** All accepted group handles stand for one group. */
  ghost predicate OneGroup(bindings: seq<Accepted>) {
    forall a, b :: a in bindings && b in bindings && IsGroup(a) && IsGroup(b) ==>
      a.binding.canonical == b.binding.canonical
  }

  lemma {:induction false} LastGroupIsAccepted(bindings: seq<Accepted>)
    ensures if exists a :: a in bindings && IsGroup(a) then
              exists a :: a in bindings && IsGroup(a) && a.binding.canonical == LastGroup(bindings)
            else LastGroup(bindings) == ""
  {
    if bindings != [] {
      var before, last := bindings[..|bindings| - 1], bindings[|bindings| - 1];
      assert bindings == before + [last];
      LastGroupIsAccepted(before);
      assert last in bindings && forall a :: a in before ==> a in bindings;
      if !IsGroup(last) && exists a :: a in before && IsGroup(a) {
        var a :| a in before && IsGroup(a) && a.binding.canonical == LastGroup(before);
        assert a in bindings;
      }
    }
  }

  lemma OneGroupAgrees(a: seq<Accepted>, b: seq<Accepted>)
    requires OneGroup(a) && forall x :: x in a <==> x in b
    ensures LastGroup(a) == LastGroup(b)
  {
    LastGroupIsAccepted(a);
    LastGroupIsAccepted(b);
  }

  /** When the accepted group handles stand for one group, every order that resolves ends up with it. */
  lemma SameGroupInAnyOrder(w: World, requested: string, refs: seq<Ref>, other: seq<Ref>)
    requires Distinct(refs) && IsOrder(other, SetOf(refs))
    requires Resolved(w, requested, refs).Done? && Resolved(w, requested, other).Done?
    requires OneGroup(Resolved(w, requested, refs).pins.bindings)
    ensures Resolved(w, requested, refs).pins.groupID == Resolved(w, requested, other).pins.groupID
  {
    SameAnswerInAnyOrder(w, requested, refs, other);
    GroupIsLast(w, requested, refs, |refs|);
    GroupIsLast(w, requested, other, |other|);
    OneGroupAgrees(Resolved(w, requested, refs).pins.bindings, Resolved(w, requested, other).pins.bindings);
  }

  // ----- exactly when the order matters -----

  /** All orders of the handles end up with the same group. */
  ghost predicate GroupIsFixed(w: World, requested: string, refs: set<Ref>) {
    forall a: seq<Ref>, b: seq<Ref> ::
      IsOrder(a, refs) && IsOrder(b, refs) && Resolved(w, requested, a).Done? && Resolved(w, requested, b).Done? ==>
        Resolved(w, requested, a).pins.groupID == Resolved(w, requested, b).pins.groupID
  }

  lemma LastInOrder(refs: set<Ref>, ref: Ref) returns (order: seq<Ref>)
    requires ref in refs
    ensures IsOrder(order, refs) && order[|order| - 1] == ref
  {
    var rest := SomeOrder(refs - {ref});
    order := rest + [ref];
    assert forall r :: r in order <==> r in refs by {
      assert forall r :: r in rest <==> r in SetOf(rest);
    }
    forall i, j | 0 <= i < j < |order| ensures order[i] != order[j] {
      assert order[i] == rest[i] && rest[i] in SetOf(rest);
    }
  }

  /** An accepted group that comes last gives its ID to the request. */
  lemma LastDecides(w: World, requested: string, refs: set<Ref>, order: seq<Ref>, x: Accepted) returns (last: seq<Ref>)
    requires AllOrdersResolve(w, requested, refs) && IsOrder(order, refs)
    requires x in Resolved(w, requested, order).pins.bindings && IsGroup(x)
    ensures IsOrder(last, refs) && Resolved(w, requested, last).pins.groupID == x.binding.canonical
  {
    AcceptedIsNamed(w, requested, order, x);
    last := LastInOrder(refs, x.ref);
    SameAnswerInAnyOrder(w, requested, order, last);
    var n := |last| - 1;
    var before := Resolve(w, Unpinned(requested), last, n);
    ResolveSnoc(w, Unpinned(requested), last, n);
    var bs := w.found(x.ref).value.bindings;
    var y := Accepted(x.ref, bs[Matching(w, before.pins, bs, |bs|)[0]]);
    assert y in Resolved(w, requested, last).pins.bindings;
    OneBindingEach(w, requested, order, x, y);
  }

  lemma AcceptedIsNamed(w: World, requested: string, order: seq<Ref>, x: Accepted)
    requires Distinct(order) && Resolved(w, requested, order).Done? && x in Resolved(w, requested, order).pins.bindings
    ensures x.ref in order && Registered(w, x.ref)
  {
    ResolvesIff(w, requested, order, |order|);
    assert order[..|order|] == order;
  }

  lemma OneBindingEach(w: World, requested: string, order: seq<Ref>, x: Accepted, y: Accepted)
    requires Distinct(order) && Resolved(w, requested, order).Done? && x.ref == y.ref
    requires x in Resolved(w, requested, order).pins.bindings && y in Resolved(w, requested, order).pins.bindings
    ensures x == y
  {
    ResolvesIff(w, requested, order, |order|);
  }

  /** For handles that resolve in every order, the group is the same in all orders exactly when the accepted group
      handles stand for one group. */
  lemma GroupIsFixedIff(w: World, requested: string, refs: set<Ref>, order: seq<Ref>)
    requires AllOrdersResolve(w, requested, refs) && IsOrder(order, refs)
    ensures GroupIsFixed(w, requested, refs) <==> OneGroup(Resolved(w, requested, order).pins.bindings)
  {
    var bindings := Resolved(w, requested, order).pins.bindings;
    if OneGroup(bindings) {
      forall a: seq<Ref> | IsOrder(a, refs)
        ensures Resolved(w, requested, a).pins.groupID == Resolved(w, requested, order).pins.groupID
      {
        SameGroupInAnyOrder(w, requested, order, a);
      }
    } else {
      var x, y :| x in bindings && y in bindings && IsGroup(x) && IsGroup(y)
                  && x.binding.canonical != y.binding.canonical;
      var a := LastDecides(w, requested, refs, order, x);
      var b := LastDecides(w, requested, refs, order, y);
    }
  }

  // ----- two groups in one request -----

  /** Each handle is known on the first channel only, as itself. */
  function OwnNames(): World {
    World((r: Ref) => Some(Found([Binding(1, "s", "", r.id)], true)), (channel: int) => Library("s", false),
          (r: Ref) => true)
  }

  lemma TwoOwnNames(a: Ref, b: Ref)
    requires a != b
    ensures Resolved(OwnNames(), "", [a, b]).Done?
    ensures b.kind == "group" ==> Resolved(OwnNames(), "", [a, b]).pins.groupID == b.id
  {
    var w, p := OwnNames(), Unpinned("");
    var x, y := Binding(1, "s", "", a.id), Binding(1, "s", "", b.id);
    ChooseOne(w, p, a, x);
    ChooseOne(w, Accept(p, a, x), b, y);
    ResolveTwo(w, p, a, b);
  }

  /** Swapping two group handles changes the group of the request. */
  lemma OrderDecidesGroup(g: Ref, h: Ref)
    requires g.kind == "group" && h.kind == "group" && g.id != h.id
    ensures Resolved(OwnNames(), "", [g, h]).Done? && Resolved(OwnNames(), "", [h, g]).Done?
    ensures Resolved(OwnNames(), "", [g, h]).pins.groupID == h.id
    ensures Resolved(OwnNames(), "", [h, g]).pins.groupID == g.id
  {
    TwoOwnNames(g, h);
    TwoOwnNames(h, g);
  }
}
