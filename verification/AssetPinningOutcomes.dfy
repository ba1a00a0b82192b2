/** Why a request for several handles is refused: a state that could not be read, or handles that are not one choice. */
module AssetPinningOutcomes {
  import opened Text
  import opened AssetPinning
  import opened AssetVideoPinning

  /** The handle could not be looked up, or one of its bindings leads to a channel that matters and cannot be used. */
  ghost predicate Unreadable(w: World, requested: string, refs: set<Ref>, ref: Ref) {
    || w.found(ref).None?
    || exists c, b :: Consistent(w, requested, refs, c) && b in w.found(ref).value.bindings
                      && !Harmless(w, requested, c, b)
  }

  lemma FaultIff(w: World, requested: string, refs: set<Ref>, p: Pins, c: Choice, ref: Ref)
    requires OnlyChoice(w, requested, refs, c) && Stands(w, requested, refs, p, c) && w.found(ref).Some?
    ensures var bs := w.found(ref).value.bindings;
            AnyFault(w, p, bs, |bs|) <==> Unreadable(w, requested, refs, ref)
  {
    var bs := w.found(ref).value.bindings;
    forall b {
      HarmlessIff(w, requested, refs, p, c, b);
    }
    if AnyFault(w, p, bs, |bs|) {
      var k :| 0 <= k < |bs| && Faults(w, p, bs[k]);
      assert bs[k] in bs && !Harmless(w, requested, c, bs[k]);
    }
  }

  lemma StepWhy(w: World, requested: string, refs: set<Ref>, p: Pins, c: Choice, ref: Ref)
    requires OnlyChoice(w, requested, refs, c) && Stands(w, requested, refs, p, c)
    ensures Step(w, p, ref).Failed? <==> Unreadable(w, requested, refs, ref)
  {
    if w.found(ref).Some? {
      FaultIff(w, requested, refs, p, c, ref);
    }
  }

  /** The handle at `n` is the first that the ones before it do not lead on to. */
  ghost predicate StopsAt(w: World, requested: string, refs: seq<Ref>, n: nat)
    requires n < |refs|
  {
    Determined(w, requested, refs, n) && !Determined(w, requested, refs, n + 1)
  }

  lemma StopWhy(w: World, requested: string, refs: seq<Ref>, n: nat)
    requires Distinct(refs) && n < |refs| && StopsAt(w, requested, refs, n)
    ensures Resolved(w, requested, refs) == if Unreadable(w, requested, SetOf(refs[..n]), refs[n]) then Failed
                                            else NotOwned
  {
    ResolvesIff(w, requested, refs, n);
    ResolvesIff(w, requested, refs, n + 1);
    var p := Resolve(w, Unpinned(requested), refs, n).pins;
    var c :| OnlyChoice(w, requested, SetOf(refs[..n]), c) && Stands(w, requested, SetOf(refs[..n]), p, c);
    StepWhy(w, requested, SetOf(refs[..n]), p, c, refs[n]);
    ResolveSnoc(w, Unpinned(requested), refs, n);
    EarlyEnd(w, Unpinned(requested), refs, n + 1, |refs|);
  }

  lemma {:induction false} SomeStop(w: World, requested: string, refs: seq<Ref>, n: nat)
    requires n <= |refs| && Determined(w, requested, refs, 0) && !Determined(w, requested, refs, n)
    ensures exists k :: 0 <= k < n && StopsAt(w, requested, refs, k)
  {
    if Determined(w, requested, refs, n - 1) {
      assert StopsAt(w, requested, refs, n - 1);
    } else {
      SomeStop(w, requested, refs, n - 1);
    }
  }

  lemma UnreadableStops(w: World, requested: string, refs: seq<Ref>, n: nat)
    requires n < |refs| && Determined(w, requested, refs, n)
    requires Unreadable(w, requested, SetOf(refs[..n]), refs[n])
    ensures StopsAt(w, requested, refs, n)
  {
  }

  /** Resolving fails exactly when the handles up to some point leave one choice and the next cannot be read. */
  lemma FailedIff(w: World, requested: string, refs: seq<Ref>)
    requires Distinct(refs)
    ensures Resolved(w, requested, refs).Failed? <==>
              exists n :: 0 <= n < |refs| && Determined(w, requested, refs, n)
                          && Unreadable(w, requested, SetOf(refs[..n]), refs[n])
  {
    ResolvesIff(w, requested, refs, |refs|);
    ResolvesNothing(w, requested, refs);
    if Resolved(w, requested, refs).Failed? {
      SomeStop(w, requested, refs, |refs|);
      var n :| 0 <= n < |refs| && StopsAt(w, requested, refs, n);
      StopWhy(w, requested, refs, n);
    } else if n :| 0 <= n < |refs| && Determined(w, requested, refs, n)
                   && Unreadable(w, requested, SetOf(refs[..n]), refs[n]) {
      UnreadableStops(w, requested, refs, n);
      StopWhy(w, requested, refs, n);
    }
  }

  /** It is refused exactly when the next can be read, but leaves no choice, more than one, or may not be claimed. */
  lemma NotOwnedIff(w: World, requested: string, refs: seq<Ref>)
    requires Distinct(refs)
    ensures Resolved(w, requested, refs).NotOwned? <==>
              exists n :: 0 <= n < |refs| && StopsAt(w, requested, refs, n)
                          && !Unreadable(w, requested, SetOf(refs[..n]), refs[n])
  {
    ResolvesIff(w, requested, refs, |refs|);
    ResolvesNothing(w, requested, refs);
    if Resolved(w, requested, refs).NotOwned? {
      SomeStop(w, requested, refs, |refs|);
      var n :| 0 <= n < |refs| && StopsAt(w, requested, refs, n);
      StopWhy(w, requested, refs, n);
    } else if n :| 0 <= n < |refs| && StopsAt(w, requested, refs, n)
                   && !Unreadable(w, requested, SetOf(refs[..n]), refs[n]) {
      StopWhy(w, requested, refs, n);
    }
  }

  // ----- video requests -----

  /** The lookup of this handle fails. */
  predicate Unknown(v: Video, id: string) {
    v.world.found(Handle(id)).None?
  }

  /** Somebody else has registered the handle, or it may not be claimed. */
  predicate Foreign(v: Video, id: string) {
    match v.world.found(Handle(id))
    case None => false
    case Some(Found(bs, registered)) => bs == [] && (registered || !v.world.claimable(Handle(id)))
  }

  predicate Passes(v: Video, ids: seq<string>, n: nat)
    requires n <= |ids|
  {
    forall k :: 0 <= k < n ==> !Unknown(v, ids[k]) && !Foreign(v, ids[k])
  }

  lemma {:induction false} SortsIff(v: Video, ids: seq<string>, n: nat)
    requires n <= |ids|
    ensures Sort(v, ids, n).Sorted? <==> Passes(v, ids, n)
  {
    if n > 0 {
      SortsIff(v, ids, n - 1);
      if ids[n - 1] in ids[..n - 1] {
        var k :| 0 <= k < n - 1 && ids[k] == ids[n - 1];
      }
    }
  }

  /** The first handle that cannot be sorted says why the request is refused. */
  lemma SortStops(v: Video, requested: string, ids: seq<string>, n: nat)
    requires n < |ids| && Passes(v, ids, n) && (Unknown(v, ids[n]) || Foreign(v, ids[n]))
    ensures LockVideo(v, requested, ids) == Refused(if Unknown(v, ids[n]) then Failed else NotOwned)
  {
    SortsIff(v, ids, n);
    SortsIff(v, ids, n + 1);
    EarlyStop(v, ids, n + 1, |ids|);
  }

  /** A request is left unlocked exactly when it names no handle. */
  lemma UnlockedIff(v: Video, requested: string, ids: seq<string>)
    ensures LockVideo(v, requested, ids).Unlocked? <==> ids == []
  {
    var s := Sort(v, ids, |ids|);
    if s.Sorted? && ids != [] {
      var refs := s.ordered + s.pending;
      SortedOnce(v, ids, |ids|);
      assert ids[0] in ids[..|ids|];
      assert Handle(ids[0]) in s.ordered || Handle(ids[0]) in s.pending;
      if LockAll(v, Unpinned(requested), refs, |refs|).Done? {
        LockKeeps(v, requested, refs, |refs|);
        LockAnswers(v, Unpinned(requested), refs, |refs|);
        assert refs[..|refs|] == refs;
      }
    }
  }

  /** If the registered handles alone do not resolve, the request is refused for the reason they are. */
  lemma KnownRefusal(v: Video, requested: string, ids: seq<string>)
    requires Sort(v, ids, |ids|).Sorted?
    ensures var ordered := Sort(v, ids, |ids|).ordered;
            var known := Resolve(v.world, Unpinned(requested), ordered, |ordered|);
            !known.Done? ==> LockVideo(v, requested, ids) == Refused(known)
  {
    SortedOnce(v, ids, |ids|);
    var s := Sort(v, ids, |ids|);
    KnownPart(v, requested, s.ordered, s.pending, |s.ordered|);
    if !Resolve(v.world, Unpinned(requested), s.ordered, |s.ordered|).Done? {
      AssetVideoPinning.EarlyRefusal(v, Unpinned(requested), s.ordered + s.pending, |s.ordered|,
                                     |s.ordered + s.pending|);
    }
  }

  /** The answer to a claim joins what is pinned: its channel, a scope the account has, and a project that agrees. */
  predicate Joins(v: Video, p: Pins, b: Binding) {
    && (p.channel == None || p.channel == Some(b.channel))
    && v.world.account(b.channel).Library? && v.world.account(b.channel).scope == b.scope
    && (p.project == "" || b.project == "" || p.project == b.project)
  }

  /** The answer leads to a pinned or pinnable channel that cannot be read, or joins on a broken one. */
  predicate Breaks(v: Video, p: Pins, b: Binding) {
    && (p.channel == None || p.channel == Some(b.channel))
    && (v.world.account(b.channel).Unreadable? || (Joins(v, p, b) && v.world.account(b.channel).broken))
  }

  /** What becomes of an unregistered handle: it waits for a channel, that must be enabled, whose answer must join. */
  lemma ClaimOutcome(v: Video, p: Pins, ref: Ref)
    requires !Registered(v.world, ref)
    ensures var channel := if p.channel.Some? then p.channel else if v.locked.Some? then v.locked else v.current;
            var r := LockOne(v, p, ref);
            && (channel.None? ==> r == Failed)
            && (channel.Some? && !v.ready(channel.value) ==> r == NotOwned)
            && (channel.Some? && v.ready(channel.value) ==>
                  match v.claim(channel.value, ref, p.project)
                  case None => r == Failed
                  case Some(b) => if Breaks(v, p, b) then r == Failed else r.NotOwned? <==> !Joins(v, p, b))
  {
    var channel := ClaimChannel(v, p);
    if channel.Some? && v.claim(channel.value, ref, p.project).Some? {
      var b := v.claim(channel.value, ref, p.project).value;
      OneBinding(v, p, ref, b, [b]);
    }
  }

  lemma OneBinding(v: Video, p: Pins, ref: Ref, b: Binding, bs: seq<Binding>)
    requires |bs| == 1 && bs[0] == b
    ensures var r := Choose(v.world, p, ref, bs);
            if Breaks(v, p, b) then r == Failed else r != Failed && (r.NotOwned? <==> !Joins(v, p, b))
  {
    JoinsIff(v, p, b);
    OneOf(v.world, p, b, bs);
  }

  lemma JoinsIff(v: Video, p: Pins, b: Binding)
    ensures Fits(v.world, p, b) <==> Joins(v, p, b)
    ensures Faults(v.world, p, b) <==> Breaks(v, p, b)
  {
  }

  lemma OneOf(w: World, p: Pins, b: Binding, bs: seq<Binding>)
    requires |bs| == 1 && bs[0] == b
    ensures AnyFault(w, p, bs, 1) <==> Faults(w, p, b)
    ensures |Matching(w, p, bs, 1)| == if Fits(w, p, b) then 1 else 0
  {
    OneMoreBinding(w, p, bs, 0);
    assert Matching(w, p, bs, 0) == [];
  }
}
