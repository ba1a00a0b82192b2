/** Which channel and project unregistered handles are claimed with, and what they are renamed to. */
module AssetClaims {
  import opened Text
  import opened AssetPinning
  import opened AssetPinningGroups
  import opened AssetVideoPinning

  // ----- the project of a claim -----

  /** What a claim is asked for: the project given from the start, or the first one that an earlier binding names. */
  ghost predicate ProjectFrom(given: string, earlier: seq<Accepted>, project: string) {
    if given != "" then project == given
    else if project == "" then forall a :: a in earlier ==> a.binding.project == ""
    else exists i :: FirstToName(earlier, i, project)
  }

  ghost predicate FirstToName(earlier: seq<Accepted>, i: nat, project: string) {
    && i < |earlier| && earlier[i].binding.project == project
    && forall k :: 0 <= k < i ==> earlier[k].binding.project == ""
  }

  lemma ProjectSnoc(given: string, earlier: seq<Accepted>, project: string, a: Accepted)
    requires ProjectFrom(given, earlier, project)
    ensures ProjectFrom(given, earlier + [a], if project == "" then a.binding.project else project)
  {
    if given == "" {
      if project != "" {
        var i :| FirstToName(earlier, i, project);
        assert FirstToName(earlier + [a], i, project);
      } else if a.binding.project != "" {
        assert FirstToName(earlier + [a], |earlier|, a.binding.project);
      }
    }
  }

  // ----- a prepared request -----

  /** The bindings that these claims on one channel answer with, each asked for with the project known by then. */
  ghost predicate Answers(claim: Claim, channel: int, given: string, refs: seq<Ref>, claimed: seq<Accepted>) {
    && |claimed| == |refs|
    && forall k :: 0 <= k < |refs| ==>
         claimed[k].ref == refs[k]
         && exists project :: ProjectFrom(given, claimed[..k], project)
                              && claim(channel, refs[k], project) == Some(claimed[k].binding)
  }

  lemma AnswersSnoc(claim: Claim, channel: int, given: string, refs: seq<Ref>, claimed: seq<Accepted>,
      project: string, a: Accepted)
    requires Answers(claim, channel, given, refs, claimed) && ProjectFrom(given, claimed, project)
    requires claim(channel, a.ref, project) == Some(a.binding)
    ensures Answers(claim, channel, given, refs + [a.ref], claimed + [a])
  {
    var all := claimed + [a];
    forall k | 0 <= k < |all| ensures all[..k] == if k < |claimed| then claimed[..k] else claimed {
    }
  }

  /** What claiming the first `n` handles has added. */
  ghost predicate Extends(claim: Claim, channel: int, p: Pins, refs: seq<Ref>, q: Pins, claimed: seq<Accepted>) {
    && q == p.(bindings := q.bindings, project := q.project, groupID := q.groupID)
    && q.bindings == p.bindings + claimed
    && Answers(claim, channel, p.project, refs, claimed) && ProjectFrom(p.project, claimed, q.project)
    && GroupAfter(p.groupID, claimed, q.groupID)
  }

  /** The group is that of the last group handle among these, if there is one. */
  ghost predicate GroupAfter(before: string, claimed: seq<Accepted>, group: string) {
    group == if exists a :: a in claimed && IsGroup(a) then LastGroup(claimed) else before
  }

  lemma GroupAfterSnoc(before: string, claimed: seq<Accepted>, group: string, a: Accepted)
    requires GroupAfter(before, claimed, group)
    ensures GroupAfter(before, claimed + [a], if a.ref.kind == "group" then a.binding.canonical else group)
  {
    var all := claimed + [a];
    assert all[..|claimed|] == claimed && all[|claimed|] == a;
    if IsGroup(a) {
      assert a in all;
    } else if b :| b in claimed && IsGroup(b) {
      assert b in all;
    } else {
      forall b | b in all ensures !IsGroup(b) {
        assert b in claimed || b == a;
      }
    }
  }

  lemma ExtendsSnoc(claim: Claim, channel: int, p: Pins, refs: seq<Ref>, q: Pins, claimed: seq<Accepted>,
      ref: Ref, b: Binding)
    requires Extends(claim, channel, p, refs, q, claimed) && claim(channel, ref, q.project) == Some(b)
    ensures Extends(claim, channel, p, refs + [ref], Claimed(q, ref, b), claimed + [Accepted(ref, b)])
  {
    var a := Accepted(ref, b);
    AnswersSnoc(claim, channel, p.project, refs, claimed, q.project, a);
    ProjectSnoc(p.project, claimed, q.project, a);
    GroupAfterSnoc(p.groupID, claimed, q.groupID, a);
  }

  lemma {:induction false} ClaimsExtend(claim: Claim, channel: int, p: Pins, refs: seq<Ref>, n: nat)
    requires n <= |refs| && ClaimAll(claim, channel, p, refs, n).Done?
    ensures exists claimed :: Extends(claim, channel, p, refs[..n], ClaimAll(claim, channel, p, refs, n).pins, claimed)
  {
    if n == 0 {
      assert Extends(claim, channel, p, refs[..0], p, []);
    } else {
      var q := ClaimAll(claim, channel, p, refs, n - 1).pins;
      ClaimsExtend(claim, channel, p, refs, n - 1);
      var claimed :| Extends(claim, channel, p, refs[..n - 1], q, claimed);
      ClaimSnoc(claim, channel, p, refs, n - 1);
      var b := claim(channel, refs[n - 1], q.project).value;
      ExtendsSnoc(claim, channel, p, refs[..n - 1], q, claimed, refs[n - 1], b);
      assert refs[..n] == refs[..n - 1] + [refs[n - 1]];
    }
  }

  /** The project a prepared request starts its claims with: its own, or the default of the channel. */
  function Given(p: Pins, default: string): string {
    if p.project != "" then p.project else default
  }

  /** The pins before any claim: on the serving channel and in its scope. */
  ghost predicate PreparedWith(claim: Claim, p: Pins, channel: int, scope: string, given: string, q: Pins,
      claimed: seq<Accepted>) {
    && q.channel == Some(channel) && q.scope == scope && q.pending == []
    && q.bindings == p.bindings + claimed
    && Answers(claim, channel, given, p.pending, claimed) && ProjectFrom(given, claimed, q.project)
    && GroupAfter(p.groupID, claimed, q.groupID)
  }

  /** A prepared request has the waiting handles claimed on the serving channel, in order, and nothing else added. */
  lemma PreparedClaims(w: World, claim: Claim, p: Pins, channel: int, default: string)
    requires Prepare(w, claim, p, channel, default).Done?
    ensures w.account(channel).Library?
    ensures exists claimed ::
              PreparedWith(claim, p, channel, w.account(channel).scope, Given(p, default),
                           Prepare(w, claim, p, channel, default).pins, claimed)
  {
    var start := Routed(p, channel, w.account(channel).scope, default);
    ClaimsExtend(claim, channel, start, p.pending, |p.pending|);
    assert p.pending[..|p.pending|] == p.pending;
    var q := ClaimAll(claim, channel, start, p.pending, |p.pending|).pins;
    var claimed :| Extends(claim, channel, start, p.pending, q, claimed);
    assert PreparedWith(claim, p, channel, w.account(channel).scope, Given(p, default), q.(pending := []), claimed);
  }

  /** A request that is pinned elsewhere is refused on this channel, and no other is. */
  lemma RefusedElsewhereIff(w: World, claim: Claim, p: Pins, channel: int, default: string)
    ensures Prepare(w, claim, p, channel, default).NotOwned? <==>
              w.account(channel).Library? && p.channel.Some?
              && (p.channel.value != channel || p.scope != w.account(channel).scope)
  {
    if w.account(channel).Library? {
      ClaimsAreNotRefused(claim, channel, Routed(p, channel, w.account(channel).scope, default),
                          p.pending, |p.pending|);
    }
  }

  lemma {:induction false} ClaimsAreNotRefused(claim: Claim, channel: int, p: Pins, refs: seq<Ref>, n: nat)
    requires n <= |refs|
    ensures !ClaimAll(claim, channel, p, refs, n).NotOwned?
  {
    if n > 0 {
      ClaimsAreNotRefused(claim, channel, p, refs, n - 1);
    }
  }

  /** With every claim answered it is prepared. */
  lemma {:induction false} AnsweredClaims(claim: Claim, channel: int, p: Pins, refs: seq<Ref>, n: nat)
    requires n <= |refs|
    requires forall k, project :: 0 <= k < n ==> claim(channel, refs[k], project).Some?
    ensures ClaimAll(claim, channel, p, refs, n).Done?
  {
    if n > 0 {
      AnsweredClaims(claim, channel, p, refs, n - 1);
    }
  }

  /** A claim that is refused under every project stops the request. */
  lemma {:induction false} RefusedClaim(claim: Claim, channel: int, p: Pins, refs: seq<Ref>, k: nat, n: nat)
    requires k < n <= |refs| && forall project :: claim(channel, refs[k], project).None?
    ensures ClaimAll(claim, channel, p, refs, n).Failed?
  {
    if k < n - 1 {
      RefusedClaim(claim, channel, p, refs, k, n - 1);
    } else {
      ClaimsAreNotRefused(claim, channel, p, refs, n - 1);
    }
  }

  // ----- a video request -----

  /** Where an unregistered handle of a video request is claimed when nothing is pinned yet. */
  function Fallback(v: Video): Option<int> {
    if v.locked.Some? then v.locked else v.current
  }

  /** The binding of an unregistered handle is the answer to a claim on an enabled channel: that of the bindings before
      it, or without any the locked and else the current one. */
  ghost predicate ClaimedOn(v: Video, requested: string, bindings: seq<Accepted>, k: nat)
    requires k < |bindings|
  {
    exists channel, project ::
      && v.ready(channel)
      && (if k == 0 then Fallback(v) == Some(channel) else channel == bindings[0].binding.channel)
      && ProjectFrom(requested, bindings[..k], project)
      && v.claim(channel, bindings[k].ref, project) == Some(bindings[k].binding)
  }

  ghost predicate AllClaimed(v: Video, requested: string, bindings: seq<Accepted>) {
    forall k :: 0 <= k < |bindings| && !Registered(v.world, bindings[k].ref) ==> ClaimedOn(v, requested, bindings, k)
  }

  ghost predicate Tracked(v: Video, requested: string, p: Pins) {
    && AllClaimed(v, requested, p.bindings) && ProjectFrom(requested, p.bindings, p.project)
    && (if p.bindings == [] then p.channel.None?
        else p.channel == Some(p.bindings[0].binding.channel))
  }

  lemma ClaimedOnSnoc(v: Video, requested: string, bindings: seq<Accepted>, a: Accepted, k: nat)
    requires k < |bindings|
    ensures ClaimedOn(v, requested, bindings + [a], k) <==> ClaimedOn(v, requested, bindings, k)
  {
    assert (bindings + [a])[..k] == bindings[..k];
  }

  lemma AllClaimedSnoc(v: Video, requested: string, bindings: seq<Accepted>, a: Accepted)
    requires AllClaimed(v, requested, bindings)
    requires !Registered(v.world, a.ref) ==> ClaimedOn(v, requested, bindings + [a], |bindings|)
    ensures AllClaimed(v, requested, bindings + [a])
  {
    forall k | 0 <= k < |bindings| {
      ClaimedOnSnoc(v, requested, bindings, a, k);
    }
  }

  lemma ChosenIs(w: World, p: Pins, ref: Ref, bs: seq<Binding>)
    requires Choose(w, p, ref, bs).Done?
    ensures exists b :: b in bs && Fits(w, p, b) && Choose(w, p, ref, bs).pins == Accept(p, ref, b)
  {
    var m := Matching(w, p, bs, |bs|);
    assert bs[m[0]] in bs;
  }

  lemma TrackedAccept(v: Video, requested: string, p: Pins, ref: Ref, b: Binding)
    requires Tracked(v, requested, p) && (p.channel.Some? ==> p.channel.value == b.channel)
    requires !Registered(v.world, ref) ==> ClaimedOn(v, requested, p.bindings + [Accepted(ref, b)], |p.bindings|)
    ensures Tracked(v, requested, Accept(p, ref, b))
  {
    AllClaimedSnoc(v, requested, p.bindings, Accepted(ref, b));
    ProjectSnoc(requested, p.bindings, p.project, Accepted(ref, b));
  }

  lemma ClaimOnce(v: Video, requested: string, p: Pins, ref: Ref, channel: int, b: Binding)
    requires Tracked(v, requested, p) && ClaimChannel(v, p) == Some(channel) && v.ready(channel)
    requires v.claim(channel, ref, p.project) == Some(b)
    ensures ClaimedOn(v, requested, p.bindings + [Accepted(ref, b)], |p.bindings|)
  {
    assert (p.bindings + [Accepted(ref, b)])[..|p.bindings|] == p.bindings;
  }

  lemma LockOneTracks(v: Video, requested: string, p: Pins, ref: Ref)
    requires Tracked(v, requested, p) && LockOne(v, p, ref).Done?
    ensures Tracked(v, requested, LockOne(v, p, ref).pins)
  {
    if Registered(v.world, ref) {
      var bs := v.world.found(ref).value.bindings;
      ChosenIs(v.world, p, ref, bs);
      var b :| b in bs && Fits(v.world, p, b) && Choose(v.world, p, ref, bs).pins == Accept(p, ref, b);
      TrackedAccept(v, requested, p, ref, b);
    } else {
      var channel := ClaimChannel(v, p).value;
      var b := v.claim(channel, ref, p.project).value;
      ChosenIs(v.world, p, ref, [b]);
      ClaimOnce(v, requested, p, ref, channel, b);
      TrackedAccept(v, requested, p, ref, b);
    }
  }

  lemma {:induction false} LockTracks(v: Video, requested: string, refs: seq<Ref>, n: nat)
    requires n <= |refs| && LockAll(v, Unpinned(requested), refs, n).Done?
    ensures Tracked(v, requested, LockAll(v, Unpinned(requested), refs, n).pins)
  {
    if n > 0 {
      LockTracks(v, requested, refs, n - 1);
      LockOneTracks(v, requested, LockAll(v, Unpinned(requested), refs, n - 1).pins, refs[n - 1]);
    }
  }

  /** In a locked request every unregistered handle was claimed on the channel pinned by then, with the project known
      by then. */
  lemma LockedClaims(v: Video, requested: string, ids: seq<string>)
    requires LockVideo(v, requested, ids).Locked?
    ensures AllClaimed(v, requested, LockVideo(v, requested, ids).pins.bindings)
  {
    var s := Sort(v, ids, |ids|);
    LockTracks(v, requested, s.ordered + s.pending, |s.ordered + s.pending|);
  }

  // ----- aliases -----

  predicate Renames(v: Video, a: Accepted) {
    v.renames(a.binding.channel) && a.binding.canonical != ""
  }

  lemma {:induction false} RefsMembers(bindings: seq<Accepted>, a: Accepted)
    requires a in bindings
    ensures a.ref in Refs(bindings)
  {
    var before, last := bindings[..|bindings| - 1], bindings[|bindings| - 1];
    assert bindings == before + [last];
    if a != last {
      RefsMembers(before, a);
    }
  }

  /** With one binding for each handle, a handle has an alias exactly when its own binding gives it one. */
  lemma {:induction false} AliasesIff(v: Video, bindings: seq<Accepted>, id: string)
    ensures id in AliasesOf(v, bindings) ==>
              exists a :: a in bindings && a.ref.id == id && Renames(v, a)
                          && a.binding.canonical == AliasesOf(v, bindings)[id]
    ensures (exists a :: a in bindings && a.ref.id == id && Renames(v, a)) ==> id in AliasesOf(v, bindings)
  {
    if bindings != [] {
      var before, last := bindings[..|bindings| - 1], bindings[|bindings| - 1];
      AliasesIff(v, before, id);
      assert bindings == before + [last];
    }
  }

  lemma OneEach(bindings: seq<Accepted>, ids: seq<string>, a: Accepted, b: Accepted)
    requires AssetVideoPinning.OneBindingEach(bindings, ids) && a in bindings && b in bindings && a.ref.id == b.ref.id
    ensures a == b
  {
    var i :| 0 <= i < |bindings| && bindings[i] == a;
    var k :| 0 <= k < |bindings| && bindings[k] == b;
    RefsMembers(bindings, a);
    RefsMembers(bindings, b);
    RefsAt(bindings, i);
    RefsAt(bindings, k);
  }

  lemma AliasOf(v: Video, bindings: seq<Accepted>, ids: seq<string>, a: Accepted)
    requires AssetVideoPinning.OneBindingEach(bindings, ids) && a in bindings
    ensures a.ref.id in AliasesOf(v, bindings) <==> Renames(v, a)
    ensures Renames(v, a) ==> AliasesOf(v, bindings)[a.ref.id] == a.binding.canonical
  {
    AliasesIff(v, bindings, a.ref.id);
    if a.ref.id in AliasesOf(v, bindings) {
      var b :| b in bindings && b.ref.id == a.ref.id && Renames(v, b)
               && b.binding.canonical == AliasesOf(v, bindings)[a.ref.id];
      OneEach(bindings, ids, a, b);
    }
  }

  lemma AliasesAreAsked(v: Video, bindings: seq<Accepted>, ids: seq<string>, id: string)
    requires AssetVideoPinning.OneBindingEach(bindings, ids) && id in AliasesOf(v, bindings)
    ensures id in ids
  {
    AliasesIff(v, bindings, id);
    var a :| a in bindings && a.ref.id == id && Renames(v, a);
    RefsMembers(bindings, a);
  }

  /** The aliases of a locked request: the canonical ID of every handle that has one, if the locked channel renames. */
  lemma LockedAliases(v: Video, requested: string, ids: seq<string>, a: Accepted)
    requires LockVideo(v, requested, ids).Locked? && a in LockVideo(v, requested, ids).pins.bindings
    ensures var (p, aliases) := (LockVideo(v, requested, ids).pins, LockVideo(v, requested, ids).aliases);
            && p.channel.Some?
            && (a.ref.id in aliases <==> v.renames(p.channel.value) && a.binding.canonical != "")
            && (a.ref.id in aliases ==> aliases[a.ref.id] == a.binding.canonical)
    ensures forall id :: id in LockVideo(v, requested, ids).aliases ==> id in ids
  {
    var p := LockVideo(v, requested, ids).pins;
    LockedIsPinned(v, requested, ids);
    AliasOf(v, p.bindings, ids, a);
    forall id | id in AliasesOf(v, p.bindings) {
      AliasesAreAsked(v, p.bindings, ids, id);
    }
  }
}
