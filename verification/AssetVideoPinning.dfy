/** How a video request's asset handles lock one channel: known handles first, then claims on that channel. */
module AssetVideoPinning {
  import opened Text
  import opened AssetPinning

  /** The lookups of a video request; `locked` and `current` are the channels a claim falls back to. */
  datatype Video = Video(
    world: World,
    claim: Claim,
    ready: int -> bool,
    locked: Option<int>,
    current: Option<int>,
    renames: int -> bool)

  datatype Sorted = Sorted(ordered: seq<Ref>, pending: seq<Ref>) | Stopped(why: Outcome)

  datatype Lock = Locked(pins: Pins, aliases: map<string, string>) | Unlocked | Refused(why: Outcome)

  function Handle(id: string): Ref {
    Ref("asset", id)
  }

  /** Each handle once, those with bindings apart from those that must be claimed. */
  function Sort(v: Video, ids: seq<string>, n: nat): Sorted
    requires n <= |ids|
  {
    if n == 0 then Sorted([], [])
    else
      var before, ref := Sort(v, ids, n - 1), Handle(ids[n - 1]);
      if before.Stopped? || ids[n - 1] in ids[..n - 1] then before
      else
        match v.world.found(ref)
        case None => Stopped(Failed)
        case Some(Found(bs, registered)) =>
          if bs != [] then Sorted(before.ordered + [ref], before.pending)
          else if registered || !v.world.claimable(ref) then Stopped(NotOwned)
          else Sorted(before.ordered, before.pending + [ref])
  }

  /** The channel a claim is made on. */
  function ClaimChannel(v: Video, p: Pins): Option<int> {
    if p.channel.Some? then p.channel else if v.locked.Some? then v.locked else v.current
  }

  function LockOne(v: Video, p: Pins, ref: Ref): Outcome {
    if Registered(v.world, ref) then Choose(v.world, p, ref, v.world.found(ref).value.bindings)
    else
      match ClaimChannel(v, p)
      case None => Failed
      case Some(channel) =>
        if !v.ready(channel) then NotOwned
        else
          match v.claim(channel, ref, p.project)
          case None => Failed
          case Some(b) => Choose(v.world, p, ref, [b])
  }

  function LockAll(v: Video, p: Pins, refs: seq<Ref>, n: nat): Outcome
    requires n <= |refs|
  {
    if n == 0 then Done(p)
    else
      var before := LockAll(v, p, refs, n - 1);
      if before.Done? then LockOne(v, before.pins, refs[n - 1]) else before
  }

  function AliasesOf(v: Video, bindings: seq<Accepted>): map<string, string> {
    if bindings == [] then map[]
    else
      var before, last := AliasesOf(v, bindings[..|bindings| - 1]), bindings[|bindings| - 1];
      if v.renames(last.binding.channel) && last.binding.canonical != ""
      then before[last.ref.id := last.binding.canonical]
      else before
  }

  function LockVideo(v: Video, requested: string, ids: seq<string>): Lock {
    match Sort(v, ids, |ids|)
    case Stopped(why) => Refused(why)
    case Sorted(ordered, pending) =>
      var refs := ordered + pending;
      var r := LockAll(v, Unpinned(requested), refs, |refs|);
      if !r.Done? then Refused(r)
      else if r.pins.channel.None? then Unlocked
      else if v.locked.Some? && v.locked != r.pins.channel then Refused(Failed)
      else Locked(r.pins, AliasesOf(v, r.pins.bindings))
  }

  lemma {:induction false} EarlyStop(v: Video, ids: seq<string>, k: nat, n: nat)
    requires k <= n <= |ids| && Sort(v, ids, k).Stopped?
    ensures Sort(v, ids, n) == Sort(v, ids, k)
  {
    if k < n {
      EarlyStop(v, ids, k, n - 1);
    }
  }

  lemma {:induction false} EarlyRefusal(v: Video, p: Pins, refs: seq<Ref>, k: nat, n: nat)
    requires k <= n <= |refs| && !LockAll(v, p, refs, k).Done?
    ensures LockAll(v, p, refs, n) == LockAll(v, p, refs, k)
  {
    if k < n {
      EarlyRefusal(v, p, refs, k, n - 1);
    }
  }

  lemma AliasesSnoc(v: Video, bindings: seq<Accepted>, a: Accepted)
    ensures AliasesOf(v, bindings + [a]) ==
              if v.renames(a.binding.channel) && a.binding.canonical != ""
              then AliasesOf(v, bindings)[a.ref.id := a.binding.canonical]
              else AliasesOf(v, bindings)
  {
    assert (bindings + [a])[..|bindings|] == bindings;
  }

  /** The first pass: look every handle up once, before anything is pinned. */
  method SortHandles(v: Video, ids: seq<string>) returns (r: Sorted)
    ensures r == Sort(v, ids, |ids|)
  {
    var known: set<string> := {};
    var ordered: seq<Ref>, pending: seq<Ref> := [], [];
    for k := 0 to |ids|
      invariant forall id :: id in known <==> id in ids[..k]
      invariant Sort(v, ids, k) == Sorted(ordered, pending)
    {
      if ids[k] !in known {
        var found := v.world.found(Handle(ids[k]));
        if found.None? {
          EarlyStop(v, ids, k + 1, |ids|);
          return Stopped(Failed);
        }
        known := known + {ids[k]};
        if found.value.bindings != [] {
          ordered := ordered + [Handle(ids[k])];
        } else if found.value.registered || !v.world.claimable(Handle(ids[k])) {
          EarlyStop(v, ids, k + 1, |ids|);
          return Stopped(NotOwned);
        } else {
          pending := pending + [Handle(ids[k])];
        }
      }
      assert ids[..k + 1] == ids[..k] + [ids[k]];
    }
    r := Sorted(ordered, pending);
  }

  /** The second pass: every handle must have exactly one binding that fits what is locked so far. */
  method LockVideoChannel(v: Video, requested: string, ids: seq<string>) returns (r: Lock)
    ensures r == LockVideo(v, requested, ids)
  {
    var handles := SortHandles(v, ids);
    if handles.Stopped? {
      return Refused(handles.why);
    }
    var refs := handles.ordered + handles.pending;
    var p := Unpinned(requested);
    var aliases: map<string, string> := map[];
    for k := 0 to |refs|
      invariant LockAll(v, Unpinned(requested), refs, k) == Done(p)
      invariant aliases == AliasesOf(v, p.bindings)
    {
      var one := LockHandle(v, p, refs[k]);
      if !one.Done? {
        EarlyRefusal(v, Unpinned(requested), refs, k + 1, |refs|);
        return Refused(one);
      }
      var accepted := one.pins.bindings[|one.pins.bindings| - 1];
      AliasesSnoc(v, p.bindings, accepted);
      if v.renames(accepted.binding.channel) && accepted.binding.canonical != "" {
        aliases := aliases[accepted.ref.id := accepted.binding.canonical];
      }
      p := one.pins;
    }
    if p.channel.None? {
      return Unlocked;
    }
    if v.locked.Some? && v.locked != p.channel {
      return Refused(Failed);
    }
    r := Locked(p, aliases);
  }

  method LockHandle(v: Video, p: Pins, ref: Ref) returns (r: Outcome)
    ensures r == LockOne(v, p, ref)
    ensures r.Done? ==> exists b :: r.pins.bindings == p.bindings + [Accepted(ref, b)]
  {
    var bindings: seq<Binding> := if Registered(v.world, ref) then v.world.found(ref).value.bindings else [];
    if bindings == [] {
      var channel := p.channel;
      if channel.None? {
        channel := if v.locked.Some? then v.locked else v.current;
        if channel.None? {
          return Failed;
        }
      }
      if !v.ready(channel.value) {
        return NotOwned;
      }
      var claimed := v.claim(channel.value, ref, p.project);
      if claimed.None? {
        return Failed;
      }
      bindings := [claimed.value];
    }
    r := ChooseBinding(v.world, p, ref, bindings);
  }

  // ----- the lock is one channel, scope and project -----

  lemma {:induction false} SortedOnce(v: Video, ids: seq<string>, n: nat)
    requires n <= |ids| && Sort(v, ids, n).Sorted?
    ensures var s := Sort(v, ids, n);
            && Distinct(s.ordered) && Distinct(s.pending)
            && (forall r :: r in s.ordered <==> r.kind == "asset" && r.id in ids[..n] && Registered(v.world, r))
            && (forall r :: r in s.pending <==> r.kind == "asset" && r.id in ids[..n] && !Registered(v.world, r))
  {
    if n > 0 {
      SortedOnce(v, ids, n - 1);
      assert ids[..n] == ids[..n - 1] + [ids[n - 1]];
      assert Handle(ids[n - 1]).id == ids[n - 1];
    }
  }

  /** What every accepted handle keeps. */
  ghost predicate Kept(v: Video, requested: string, p: Pins) {
    && Agreed(requested, p)
    && (p.channel.None? ==> p.bindings == [])
    && forall a :: a in p.bindings ==>
         && Usable(v.world, a.binding)
         && (Registered(v.world, a.ref) ==> a.binding in v.world.found(a.ref).value.bindings)
  }

  lemma ChosenIsKept(v: Video, requested: string, p: Pins, ref: Ref, bs: seq<Binding>)
    requires Kept(v, requested, p) && Choose(v.world, p, ref, bs).Done?
    requires Registered(v.world, ref) ==> bs == v.world.found(ref).value.bindings
    requires p.channel.Some? ==> p.bindings != []
    ensures var q := Choose(v.world, p, ref, bs).pins;
            Kept(v, requested, q) && q.channel.Some? && q.bindings != []
  {
    var m := Matching(v.world, p, bs, |bs|);
    var b := bs[m[0]];
    assert Fits(v.world, p, b) && b in bs;
    if p.bindings != [] {
      assert p.bindings[0] in p.bindings;
    }
  }

  ghost predicate KeptAll(v: Video, requested: string, p: Pins) {
    Kept(v, requested, p) && (p.channel.Some? ==> p.bindings != [])
  }

  lemma LockOneKeeps(v: Video, requested: string, p: Pins, ref: Ref)
    requires KeptAll(v, requested, p) && LockOne(v, p, ref).Done?
    ensures var q := LockOne(v, p, ref).pins;
            KeptAll(v, requested, q)
  {
    if Registered(v.world, ref) {
      ChosenIsKept(v, requested, p, ref, v.world.found(ref).value.bindings);
    } else {
      ChosenIsKept(v, requested, p, ref, [v.claim(ClaimChannel(v, p).value, ref, p.project).value]);
    }
  }

  lemma {:induction false} LockKeeps(v: Video, requested: string, refs: seq<Ref>, n: nat)
    requires n <= |refs| && LockAll(v, Unpinned(requested), refs, n).Done?
    ensures KeptAll(v, requested, LockAll(v, Unpinned(requested), refs, n).pins)
  {
    if n > 0 {
      LockKeeps(v, requested, refs, n - 1);
      LockOneKeeps(v, requested, LockAll(v, Unpinned(requested), refs, n - 1).pins, refs[n - 1]);
    }
  }

  lemma ChooseAnswers(w: World, p: Pins, ref: Ref, bs: seq<Binding>)
    requires Choose(w, p, ref, bs).Done?
    ensures Refs(Choose(w, p, ref, bs).pins.bindings) == Refs(p.bindings) + [ref]
  {
    RefsSnoc(p.bindings, Accepted(ref, bs[Matching(w, p, bs, |bs|)[0]]));
  }

  lemma LockOneAnswers(v: Video, p: Pins, ref: Ref)
    requires LockOne(v, p, ref).Done?
    ensures Refs(LockOne(v, p, ref).pins.bindings) == Refs(p.bindings) + [ref]
  {
    if Registered(v.world, ref) {
      ChooseAnswers(v.world, p, ref, v.world.found(ref).value.bindings);
    } else {
      ChooseAnswers(v.world, p, ref, [v.claim(ClaimChannel(v, p).value, ref, p.project).value]);
    }
  }

  lemma {:induction false} LockAnswers(v: Video, p: Pins, refs: seq<Ref>, n: nat)
    requires n <= |refs| && LockAll(v, p, refs, n).Done?
    ensures Refs(LockAll(v, p, refs, n).pins.bindings) == Refs(p.bindings) + refs[..n]
  {
    if n > 0 {
      LockAnswers(v, p, refs, n - 1);
      var before := LockAll(v, p, refs, n - 1).pins;
      LockOneAnswers(v, before, refs[n - 1]);
      assert Refs(LockOne(v, before, refs[n - 1]).pins.bindings) == Refs(p.bindings) + refs[..n] by {
        assert refs[..n] == refs[..n - 1] + [refs[n - 1]];
      }
    }
  }

  /** Registered handles are resolved as in any other asset request. */
  lemma {:induction false} KnownPart(v: Video, requested: string, ordered: seq<Ref>, rest: seq<Ref>, n: nat)
    requires n <= |ordered| && forall r :: r in ordered ==> Registered(v.world, r)
    ensures LockAll(v, Unpinned(requested), ordered + rest, n) == Resolve(v.world, Unpinned(requested), ordered, n)
  {
    if n > 0 {
      KnownPart(v, requested, ordered, rest, n - 1);
      var before, ref := Resolve(v.world, Unpinned(requested), ordered, n - 1), ordered[n - 1];
      assert ref in ordered && (ordered + rest)[n - 1] == ref;
      assert before.Done? ==> LockOne(v, before.pins, ref) == Step(v.world, before.pins, ref);
    }
  }

  lemma {:induction false} DonePrefix(v: Video, p: Pins, refs: seq<Ref>, k: nat, n: nat)
    requires k <= n <= |refs| && LockAll(v, p, refs, n).Done?
    ensures LockAll(v, p, refs, k).Done?
    ensures LockAll(v, p, refs, k).pins.bindings <= LockAll(v, p, refs, n).pins.bindings
  {
    if k < n {
      DonePrefix(v, p, refs, k, n - 1);
    }
  }

  ghost predicate OneBindingEach(bindings: seq<Accepted>, ids: seq<string>) {
    && Distinct(Refs(bindings))
    && forall r :: r in Refs(bindings) <==> r.kind == "asset" && r.id in ids
  }

  /** The registered handles' bindings are their only consistent choice. */
  ghost predicate KnownChoice(v: Video, requested: string, ids: seq<string>, bindings: seq<Accepted>,
      known: set<Ref>, c: Choice) {
    && (forall r :: r in known <==> r.kind == "asset" && r.id in ids && Registered(v.world, r))
    && OnlyChoice(v.world, requested, known, c)
    && forall a :: a in bindings && a.ref in known ==> a.binding == At(v.world, a.ref, c[a.ref])
  }

  lemma {:induction false} RefsAt(bindings: seq<Accepted>, k: nat)
    requires k < |bindings|
    ensures |Refs(bindings)| == |bindings| && Refs(bindings)[k] == bindings[k].ref
  {
    if k < |bindings| - 1 {
      RefsAt(bindings[..|bindings| - 1], k);
    } else if k > 0 {
      RefsAt(bindings[..k], k - 1);
    }
  }

  lemma PrefixAnswers(w: World, before: seq<Accepted>, all: seq<Accepted>, c: Choice)
    requires forall r :: r in c ==> Registered(w, r) && c[r] < |w.found(r).value.bindings|
    requires before <= all && Distinct(Refs(all)) && Listed(w, before, c)
    ensures forall a :: a in all && a.ref in c ==> a.binding == At(w, a.ref, c[a.ref])
  {
    ListedHasAll(w, before, c);
    forall a | a in all && a.ref in c ensures a.binding == At(w, a.ref, c[a.ref]) {
      var x := Accepted(a.ref, At(w, a.ref, c[a.ref]));
      assert x in before;
      var i :| 0 <= i < |all| && all[i] == a;
      var j :| 0 <= j < |before| && before[j] == x;
      RefsAt(all, i);
      RefsAt(all, j);
    }
  }

  /**
   * A locked request has one accepted binding for every handle it names, all on the locked channel and in one
   * scope and project. The registered handles alone leave no other choice, wherever the unregistered ones stand.
   */
  lemma LockedIsPinned(v: Video, requested: string, ids: seq<string>)
    requires LockVideo(v, requested, ids).Locked?
    ensures var p := LockVideo(v, requested, ids).pins;
            && Kept(v, requested, p) && OneBindingEach(p.bindings, ids) && (v.locked.Some? ==> v.locked == p.channel)
    ensures exists known, c :: KnownChoice(v, requested, ids, LockVideo(v, requested, ids).pins.bindings, known, c)
  {
    var s := Sort(v, ids, |ids|);
    var refs := s.ordered + s.pending;
    SortedOnce(v, ids, |ids|);
    assert ids[..|ids|] == ids && refs[..|refs|] == refs;
    LockKeeps(v, requested, refs, |refs|);
    LockAnswers(v, Unpinned(requested), refs, |refs|);
    assert Distinct(refs) by {
      forall i, j | 0 <= i < j < |refs| ensures refs[i] != refs[j] {
        assert refs[i] in s.ordered || refs[i] in s.pending;
      }
    }
    KnownHandles(v, requested, ids);
  }

  lemma KnownHandles(v: Video, requested: string, ids: seq<string>)
    requires LockVideo(v, requested, ids).Locked? && Distinct(Refs(LockVideo(v, requested, ids).pins.bindings))
    ensures exists known, c :: KnownChoice(v, requested, ids, LockVideo(v, requested, ids).pins.bindings, known, c)
  {
    var ordered, pending := Sort(v, ids, |ids|).ordered, Sort(v, ids, |ids|).pending;
    SortedOnce(v, ids, |ids|);
    assert ids[..|ids|] == ids && ordered[..|ordered|] == ordered;
    KnownPart(v, requested, ordered, pending, |ordered|);
    DonePrefix(v, Unpinned(requested), ordered + pending, |ordered|, |ordered + pending|);
    OrderedChoice(v, requested, ids, ordered, LockVideo(v, requested, ids).pins.bindings);
  }

  lemma OrderedChoice(v: Video, requested: string, ids: seq<string>, ordered: seq<Ref>, all: seq<Accepted>)
    requires Distinct(ordered) && Resolve(v.world, Unpinned(requested), ordered, |ordered|).Done?
    requires forall r :: r in ordered <==> r.kind == "asset" && r.id in ids && Registered(v.world, r)
    requires Resolve(v.world, Unpinned(requested), ordered, |ordered|).pins.bindings <= all && Distinct(Refs(all))
    ensures exists known, c :: KnownChoice(v, requested, ids, all, known, c)
  {
    ResolvesIff(v.world, requested, ordered, |ordered|);
    assert ordered[..|ordered|] == ordered;
    var q := Resolve(v.world, Unpinned(requested), ordered, |ordered|).pins;
    var c :| OnlyChoice(v.world, requested, SetOf(ordered), c) && Stands(v.world, requested, SetOf(ordered), q, c);
    PrefixAnswers(v.world, q.bindings, all, c);
    assert KnownChoice(v, requested, ids, all, SetOf(ordered), c);
  }
}
