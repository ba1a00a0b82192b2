/** How a request naming several asset handles is pinned to one channel, one account scope and one project. */
module AssetPinning {
  import opened Text

  datatype Ref = Ref(kind: string, id: string)

  datatype Binding = Binding(channel: int, scope: string, project: string, canonical: string)

  /** The bindings a user has for a handle, and whether anybody has registered it. */
  datatype Found = Found(bindings: seq<Binding>, registered: bool)

  /**
   * What a channel offers this request: nothing; a state that could not be read; or an asset
   * library with a scope. A broken library offers its scope but refuses the whole request once chosen.
   */
  datatype Account = Nothing | Unreadable | Library(scope: string, broken: bool)

  /** Everything the loops look up while one request is resolved. */
  datatype World = World(found: Ref -> Option<Found>, account: int -> Account, claimable: Ref -> bool)

  datatype Accepted = Accepted(ref: Ref, binding: Binding)

  datatype Pins = Pins(channel: Option<int>, scope: string, project: string, groupID: string,
                         bindings: seq<Accepted>, pending: seq<Ref>)

  datatype Outcome = Done(pins: Pins) | NotOwned | Failed

  function Unpinned(requested: string): Pins {
    Pins(None, "", requested, "", [], [])
  }

  // ----- one handle -----

  predicate Compatible(a: string, b: string) {
    a == "" || b == "" || a == b
  }

  predicate Usable(w: World, b: Binding) {
    w.account(b.channel).Library? && w.account(b.channel).scope == b.scope
  }

  predicate Fits(w: World, p: Pins, b: Binding) {
    (p.channel.None? || p.channel.value == b.channel) && Usable(w, b) && Compatible(p.project, b.project)
  }

  predicate Faults(w: World, p: Pins, b: Binding) {
    && (p.channel.None? || p.channel.value == b.channel)
    && (w.account(b.channel).Unreadable? || (Fits(w, p, b) && w.account(b.channel).broken))
  }

  /** The positions of the first `n` bindings that fit. */
  function Matching(w: World, p: Pins, bs: seq<Binding>, n: nat): (r: seq<nat>)
    requires n <= |bs|
    ensures forall a :: 0 <= a < |r| ==> r[a] < n && Fits(w, p, bs[r[a]])
    ensures forall k :: 0 <= k < n && Fits(w, p, bs[k]) ==> k in r
    ensures forall a, b :: 0 <= a < b < |r| ==> r[a] < r[b]
  {
    if n == 0 then [] else Matching(w, p, bs, n - 1) + (if Fits(w, p, bs[n - 1]) then [n - 1] else [])
  }

  predicate AnyFault(w: World, p: Pins, bs: seq<Binding>, n: nat)
    requires n <= |bs|
  {
    exists k :: 0 <= k < n && Faults(w, p, bs[k])
  }

  function Accept(p: Pins, ref: Ref, b: Binding): Pins {
    Pins(Some(b.channel), b.scope, if p.project == "" then b.project else p.project,
         if ref.kind == "group" then b.canonical else p.groupID, p.bindings + [Accepted(ref, b)], p.pending)
  }

  /** Exactly one binding of a handle may fit what is pinned so far. */
  function Choose(w: World, p: Pins, ref: Ref, bs: seq<Binding>): Outcome {
    if AnyFault(w, p, bs, |bs|) then Failed
    else
      var m := Matching(w, p, bs, |bs|);
      if |m| != 1 then NotOwned else Done(Accept(p, ref, bs[m[0]]))
  }

  function Step(w: World, p: Pins, ref: Ref): Outcome {
    match w.found(ref)
    case None => Failed
    case Some(Found(bs, registered)) =>
      if bs != [] then Choose(w, p, ref, bs)
      else if registered || !w.claimable(ref) then NotOwned
      else Done(p.(pending := p.pending + [ref]))
  }

  function Resolve(w: World, p: Pins, refs: seq<Ref>, n: nat): Outcome
    requires n <= |refs|
  {
    if n == 0 then Done(p)
    else
      var before := Resolve(w, p, refs, n - 1);
      if before.Done? then Step(w, before.pins, refs[n - 1]) else before
  }

  lemma ResolveSnoc(w: World, p: Pins, refs: seq<Ref>, k: nat)
    requires k < |refs| && Resolve(w, p, refs, k).Done?
    ensures Resolve(w, p, refs, k + 1) == Step(w, Resolve(w, p, refs, k).pins, refs[k])
  {
  }

  lemma {:induction false} EarlyEnd(w: World, p: Pins, refs: seq<Ref>, k: nat, n: nat)
    requires k <= n <= |refs| && !Resolve(w, p, refs, k).Done?
    ensures Resolve(w, p, refs, n) == Resolve(w, p, refs, k)
  {
    if k < n {
      EarlyEnd(w, p, refs, k, n - 1);
    }
  }

  lemma OneMoreBinding(w: World, p: Pins, bs: seq<Binding>, k: nat)
    requires k < |bs|
    ensures AnyFault(w, p, bs, k + 1) <==> AnyFault(w, p, bs, k) || Faults(w, p, bs[k])
    ensures Matching(w, p, bs, k + 1) == Matching(w, p, bs, k) + (if Fits(w, p, bs[k]) then [k] else [])
  {
  }

  lemma FaultStays(w: World, p: Pins, bs: seq<Binding>, k: nat)
    requires k < |bs| && Faults(w, p, bs[k])
    ensures AnyFault(w, p, bs, |bs|)
  {
  }

  datatype Verdict = Skips | Matches | Stops

  /** One turn of the loop over a handle's bindings. */
  method JudgeBinding(w: World, p: Pins, b: Binding) returns (v: Verdict)
    ensures v == if Faults(w, p, b) then Stops else if Fits(w, p, b) then Matches else Skips
  {
    if p.channel.Some? && p.channel.value != b.channel {
      return Skips;
    }
    match w.account(b.channel) {
      case Nothing => v := Skips;
      case Unreadable => v := Stops;
      case Library(scope, broken) =>
        if scope != b.scope || (p.project != "" && b.project != "" && p.project != b.project) {
          return Skips;
        }
        v := if broken then Stops else Matches;
    }
  }

  /** The loop over a handle's bindings, counting those that fit. */
  method ChooseBinding(w: World, p: Pins, ref: Ref, bs: seq<Binding>) returns (r: Outcome)
    ensures r == Choose(w, p, ref, bs)
  {
    var matches: seq<Binding> := [];
    ghost var at: seq<nat> := [];
    for k := 0 to |bs|
      invariant !AnyFault(w, p, bs, k)
      invariant at == Matching(w, p, bs, k) && |matches| == |at|
      invariant forall i :: 0 <= i < |matches| ==> at[i] < |bs| && matches[i] == bs[at[i]]
    {
      OneMoreBinding(w, p, bs, k);
      var verdict := JudgeBinding(w, p, bs[k]);
      if verdict.Stops? {
        FaultStays(w, p, bs, k);
        return Failed;
      }
      if verdict.Matches? {
        matches, at := matches + [bs[k]], at + [k];
      }
    }
    if |matches| != 1 {
      return NotOwned;
    }
    r := Done(Accept(p, ref, matches[0]));
  }

  // ----- historical claims on the channel that serves the request -----

  /** Asks the channel's upstream about an unregistered handle, in a project; an answer becomes a binding. */
  type Claim = (int, Ref, string) -> Option<Binding>

  function Routed(p: Pins, channel: int, scope: string, default: string): Pins {
    p.(channel := Some(channel), scope := scope, project := if p.project == "" then default else p.project)
  }

  function Claimed(p: Pins, ref: Ref, b: Binding): Pins {
    p.(bindings := p.bindings + [Accepted(ref, b)],
       project := if p.project == "" then b.project else p.project,
       groupID := if ref.kind == "group" then b.canonical else p.groupID)
  }

  function ClaimAll(claim: Claim, channel: int, p: Pins, refs: seq<Ref>, n: nat): Outcome
    requires n <= |refs|
  {
    if n == 0 then Done(p)
    else
      var before := ClaimAll(claim, channel, p, refs, n - 1);
      if !before.Done? then before
      else
        match claim(channel, refs[n - 1], before.pins.project)
        case None => Failed
        case Some(b) => Done(Claimed(before.pins, refs[n - 1], b))
  }

  /** The route's channel must be the pinned one, with the pinned scope; then the waiting handles are claimed. */
  function Prepare(w: World, claim: Claim, p: Pins, channel: int, default: string): Outcome {
    match w.account(channel)
    case Library(scope, _) =>
      if p.channel.Some? && (p.channel.value != channel || p.scope != scope) then NotOwned
      else
        var claimed := ClaimAll(claim, channel, Routed(p, channel, scope, default), p.pending, |p.pending|);
        if claimed.Done? then Done(claimed.pins.(pending := [])) else claimed
    case _ => Failed
  }

  lemma ClaimSnoc(claim: Claim, channel: int, p: Pins, refs: seq<Ref>, k: nat)
    requires k < |refs| && ClaimAll(claim, channel, p, refs, k).Done?
    ensures var before := ClaimAll(claim, channel, p, refs, k).pins;
            ClaimAll(claim, channel, p, refs, k + 1) ==
              match claim(channel, refs[k], before.project)
                case None => Failed case Some(b) => Done(Claimed(before, refs[k], b))
  {
  }

  lemma {:induction false} EarlyRefusal(claim: Claim, channel: int, p: Pins, refs: seq<Ref>, k: nat, n: nat)
    requires k <= n <= |refs| && !ClaimAll(claim, channel, p, refs, k).Done?
    ensures ClaimAll(claim, channel, p, refs, n) == ClaimAll(claim, channel, p, refs, k)
  {
    if k < n {
      EarlyRefusal(claim, channel, p, refs, k, n - 1);
    }
  }

  /** The request whose fields the resolution loop fills in. */
  class AssetAccessRequest {
    const refs: seq<Ref>
    var channel: Option<int>
    var scope: string
    var project: string
    var groupID: string
    var bindings: seq<Accepted>
    var pending: seq<Ref>

    constructor (refs: seq<Ref>, requested: string)
      ensures this.refs == refs && Now() == Unpinned(requested)
    {
      this.refs := refs;
      channel, scope, project, groupID, bindings, pending := None, "", requested, "", [], [];
    }

    function Now(): Pins
      reads this
    {
      Pins(channel, scope, project, groupID, bindings, pending)
    }

    /** Registered handles pin the request one after the other; unregistered ones wait for a claim. */
    method ResolveRoute(w: World) returns (r: Outcome)
      modifies this
      ensures r == Resolve(w, old(Now()), refs, |refs|)
      ensures r.Done? ==> r.pins == Now()
    {
      ghost var start := Now();
      for k := 0 to |refs|
        invariant Resolve(w, start, refs, k) == Done(Now())
      {
        ResolveSnoc(w, start, refs, k);
        r := ResolveRef(w, refs[k]);
        if !r.Done? {
          EarlyEnd(w, start, refs, k + 1, |refs|);
          return;
        }
      }
      r := Done(Now());
    }

    method ResolveRef(w: World, ref: Ref) returns (r: Outcome)
      modifies this
      ensures r == Step(w, old(Now()), ref)
      ensures r.Done? ==> r.pins == Now()
    {
      var found := w.found(ref);
      if found.None? {
        return Failed;
      }
      if found.value.bindings == [] {
        if found.value.registered || !w.claimable(ref) {
          return NotOwned;
        }
        pending := pending + [ref];
        return Done(Now());
      }
      r := ChooseBinding(w, Now(), ref, found.value.bindings);
      if r.Done? {
        channel, scope, project := r.pins.channel, r.pins.scope, r.pins.project;
        groupID, bindings := r.pins.groupID, r.pins.bindings;
      }
    }

    method PrepareOn(w: World, claim: Claim, route: int, default: string) returns (r: Outcome)
      modifies this
      ensures r == Prepare(w, claim, old(Now()), route, default)
      ensures r.Done? ==> r.pins == Now()
    {
      var account := w.account(route);
      if !account.Library? {
        return Failed;
      }
      if channel.Some? && (channel.value != route || scope != account.scope) {
        return NotOwned;
      }
      channel, scope := Some(route), account.scope;
      if project == "" {
        project := default;
      }
      r := ClaimWaiting(claim, route);
      if r.Done? {
        pending := [];
        r := Done(Now());
      }
    }

    /** The loop over the waiting handles. */
    method ClaimWaiting(claim: Claim, route: int) returns (r: Outcome)
      modifies this`bindings, this`project, this`groupID
      ensures r == ClaimAll(claim, route, old(Now()), pending, |pending|)
      ensures r.Done? ==> r.pins == Now()
    {
      ghost var start := Now();
      for k := 0 to |pending|
        invariant ClaimAll(claim, route, start, pending, k) == Done(Now())
      {
        ClaimSnoc(claim, route, start, pending, k);
        var b := claim(route, pending[k], project);
        if b.None? {
          EarlyRefusal(claim, route, start, pending, k + 1, |pending|);
          return Failed;
        }
        AddClaimed(pending[k], b.value);
      }
      r := Done(Now());
    }

    method AddClaimed(ref: Ref, b: Binding)
      modifies this`bindings, this`project, this`groupID
      ensures Now() == Claimed(old(Now()), ref, b)
    {
      bindings := bindings + [Accepted(ref, b)];
      if project == "" {
        project := b.project;
      }
      if ref.kind == "group" {
        groupID := b.canonical;
      }
    }
  }

  // ----- which choices of bindings make sense together, whatever the order of the handles -----

  predicate Registered(w: World, ref: Ref) {
    w.found(ref).Some? && w.found(ref).value.bindings != []
  }

  /** The binding at a position of a handle's list. */
  function At(w: World, ref: Ref, k: nat): Binding
    requires Registered(w, ref) && k < |w.found(ref).value.bindings|
  {
    w.found(ref).value.bindings[k]
  }

  type Choice = map<Ref, nat>

  ghost predicate Chooses(w: World, refs: set<Ref>, c: Choice) {
    && (forall r :: r in c <==> r in refs && Registered(w, r))
    && (forall r :: r in c ==> c[r] < |w.found(r).value.bindings|)
  }

  /** One usable binding for each registered handle, all on one channel and with one project. */
  ghost predicate Consistent(w: World, requested: string, refs: set<Ref>, c: Choice) {
    && Chooses(w, refs, c)
    && (forall r :: r in c ==>
          var b := At(w, r, c[r]);
          && w.account(b.channel).Library? && w.account(b.channel).scope == b.scope
          && (requested == "" || b.project == "" || b.project == requested))
    && (forall r, s :: r in c && s in c ==>
          var a, b := At(w, r, c[r]), At(w, s, c[s]);
          a.channel == b.channel && (a.project == "" || b.project == "" || a.project == b.project))
  }

  ghost predicate OnlyChoice(w: World, requested: string, refs: set<Ref>, c: Choice) {
    Consistent(w, requested, refs, c) && forall d :: Consistent(w, requested, refs, d) ==> d == c
  }

  ghost predicate HasOneChoice(w: World, requested: string, refs: set<Ref>) {
    exists c :: OnlyChoice(w, requested, refs, c)
  }

  /** How the pins stand for a choice. */
  ghost predicate Stands(w: World, requested: string, refs: set<Ref>, p: Pins, c: Choice) {
    && Chooses(w, refs, c)
    && (p.channel.None? <==> c == map[]) && (c == map[] ==> p.scope == "")
    && (forall r :: r in c ==>
          && p.channel == Some(At(w, r, c[r]).channel) && p.scope == At(w, r, c[r]).scope
          && At(w, r, c[r]).project in {"", p.project})
    && (p.project == requested || (requested == "" && exists r :: r in c && At(w, r, c[r]).project == p.project))
    && Listed(w, p.bindings, c)
  }

  /** The pins are those of the only consistent choice. */
  ghost predicate StandsForOnlyChoice(w: World, requested: string, refs: set<Ref>, p: Pins) {
    exists c :: OnlyChoice(w, requested, refs, c) && Stands(w, requested, refs, p, c)
  }

  /** The accepted bindings are the chosen ones, one for each handle. */
  ghost predicate Listed(w: World, bindings: seq<Accepted>, c: Choice)
    requires forall r :: r in c ==> Registered(w, r) && c[r] < |w.found(r).value.bindings|
  {
    && |bindings| == |c|
    && (forall a :: a in bindings ==> a.ref in c && a.binding == At(w, a.ref, c[a.ref]))
    && (forall i, j :: 0 <= i < j < |bindings| ==> bindings[i].ref != bindings[j].ref)
  }

  ghost predicate Distinct(refs: seq<Ref>) {
    forall i, j :: 0 <= i < j < |refs| ==> refs[i] != refs[j]
  }

  ghost function SetOf(refs: seq<Ref>): set<Ref> {
    set r | r in refs
  }

  lemma SetOfSnoc(refs: seq<Ref>, n: nat)
    requires n < |refs| && Distinct(refs)
    ensures SetOf(refs[..n + 1]) == SetOf(refs[..n]) + {refs[n]} && refs[n] !in SetOf(refs[..n])
  {
    assert refs[..n + 1] == refs[..n] + [refs[n]];
  }

  // ----- one more handle -----

  lemma FittingIsConsistent(w: World, requested: string, refs: set<Ref>, p: Pins, c: Choice, ref: Ref, k: nat)
    requires Registered(w, ref) && ref !in refs && k < |w.found(ref).value.bindings|
    requires Consistent(w, requested, refs, c) && Stands(w, requested, refs, p, c) && Fits(w, p, At(w, ref, k))
    ensures Consistent(w, requested, refs + {ref}, c[ref := k])
  {
    assert Chooses(w, refs + {ref}, c[ref := k]);
  }

  lemma ConsistentFits(w: World, requested: string, refs: set<Ref>, p: Pins, c: Choice, ref: Ref, k: nat)
    requires Registered(w, ref) && ref !in refs && k < |w.found(ref).value.bindings|
    requires Consistent(w, requested, refs, c) && Stands(w, requested, refs, p, c)
    requires Consistent(w, requested, refs + {ref}, c[ref := k])
    ensures Fits(w, p, At(w, ref, k))
  {
    var d := c[ref := k];
    assert d[ref] == k;
    forall r | r in c
      ensures At(w, r, c[r]).channel == At(w, ref, k).channel
      ensures Compatible(At(w, r, c[r]).project, At(w, ref, k).project)
    {
      assert d[r] == c[r];
    }
    if c != map[] {
      var r :| r in c;
      assert p.channel == Some(At(w, r, c[r]).channel);
    }
    assert Compatible(p.project, At(w, ref, k).project);
    assert Usable(w, At(w, ref, k));
  }

  lemma FitsIffConsistent(w: World, requested: string, refs: set<Ref>, p: Pins, c: Choice, ref: Ref, k: nat)
    requires Registered(w, ref) && ref !in refs && k < |w.found(ref).value.bindings|
    requires Consistent(w, requested, refs, c) && Stands(w, requested, refs, p, c)
    ensures Fits(w, p, At(w, ref, k)) <==> Consistent(w, requested, refs + {ref}, c[ref := k])
  {
    if Fits(w, p, At(w, ref, k)) {
      FittingIsConsistent(w, requested, refs, p, c, ref, k);
    } else if Consistent(w, requested, refs + {ref}, c[ref := k]) {
      ConsistentFits(w, requested, refs, p, c, ref, k);
    }
  }

  lemma Restrict(w: World, requested: string, refs: set<Ref>, ref: Ref, d: Choice)
    requires ref !in refs && Registered(w, ref) && Consistent(w, requested, refs + {ref}, d)
    ensures ref in d && Consistent(w, requested, refs, d - {ref}) && d == (d - {ref})[ref := d[ref]]
  {
    assert ref in d;
    var c := d - {ref};
    assert forall r :: r in c ==> c[r] == d[r];
    assert Chooses(w, refs, c);
  }

  lemma Irrelevant(w: World, requested: string, refs: set<Ref>, ref: Ref, d: Choice)
    requires !Registered(w, ref)
    ensures Consistent(w, requested, refs + {ref}, d) <==> Consistent(w, requested, refs, d)
  {
    assert Chooses(w, refs + {ref}, d) <==> Chooses(w, refs, d);
  }

  lemma AcceptLists(w: World, bindings: seq<Accepted>, c: Choice, ref: Ref, k: nat)
    requires forall r :: r in c ==> Registered(w, r) && c[r] < |w.found(r).value.bindings|
    requires Registered(w, ref) && k < |w.found(ref).value.bindings| && ref !in c && Listed(w, bindings, c)
    ensures Listed(w, bindings + [Accepted(ref, At(w, ref, k))], c[ref := k])
  {
    var d, after := c[ref := k], bindings + [Accepted(ref, At(w, ref, k))];
    assert |d| == |c| + 1 by { assert d.Keys == c.Keys + {ref}; assert |d.Keys| == |d| && |c.Keys| == |c|; }
    forall a | a in after ensures a.ref in d && a.binding == At(w, a.ref, d[a.ref]) {
      if a in bindings { assert d[a.ref] == c[a.ref]; }
    }
    forall i, j | 0 <= i < j < |after| ensures after[i].ref != after[j].ref {
      assert after[i] in bindings;
    }
  }

  lemma AcceptStands(w: World, requested: string, refs: set<Ref>, p: Pins, c: Choice, ref: Ref, k: nat)
    requires Registered(w, ref) && ref !in refs && k < |w.found(ref).value.bindings|
    requires Consistent(w, requested, refs, c) && Stands(w, requested, refs, p, c) && Fits(w, p, At(w, ref, k))
    ensures Stands(w, requested, refs + {ref}, Accept(p, ref, At(w, ref, k)), c[ref := k])
  {
    var b, d := At(w, ref, k), c[ref := k];
    var q := Accept(p, ref, b);
    assert Chooses(w, refs + {ref}, d) && ref !in c && d[ref] == k;
    AcceptLists(w, p.bindings, c, ref, k);
    forall r | r in d
      ensures q.channel == Some(At(w, r, d[r]).channel) && q.scope == At(w, r, d[r]).scope
      ensures At(w, r, d[r]).project in {"", q.project}
    {
      if r != ref {
        assert d[r] == c[r] && Usable(w, At(w, r, c[r]));
      }
    }
    AcceptProject(w, requested, p, c, ref, k);
  }

  lemma AcceptProject(w: World, requested: string, p: Pins, c: Choice, ref: Ref, k: nat)
    requires forall r :: r in c ==> Registered(w, r) && c[r] < |w.found(r).value.bindings|
    requires Registered(w, ref) && k < |w.found(ref).value.bindings| && ref !in c
    requires p.project == requested || (requested == "" && exists r :: r in c && At(w, r, c[r]).project == p.project)
    ensures var d, q := c[ref := k], Accept(p, ref, At(w, ref, k));
            q.project == requested || (requested == "" && exists r :: r in d && At(w, r, d[r]).project == q.project)
  {
    var d, q := c[ref := k], Accept(p, ref, At(w, ref, k));
    if p.project == "" {
      assert d[ref] == k;
    } else if q.project != requested {
      var r :| r in c && At(w, r, c[r]).project == p.project;
      assert d[r] == c[r];
    }
  }

  // ----- all handles -----

  /** No lookup of this handle fails once the choice for the handles before it is made. */
  ghost predicate Readable(w: World, requested: string, refs: set<Ref>, ref: Ref) {
    && w.found(ref).Some?
    && (w.found(ref).value.bindings == [] ==> !w.found(ref).value.registered && w.claimable(ref))
    && forall c, b :: Consistent(w, requested, refs, c) && b in w.found(ref).value.bindings ==>
         Harmless(w, requested, c, b)
  }

  ghost predicate Harmless(w: World, requested: string, c: Choice, b: Binding)
    requires forall r :: r in c ==> Registered(w, r) && c[r] < |w.found(r).value.bindings|
  {
    (forall r :: r in c ==> At(w, r, c[r]).channel == b.channel) ==>
      && !w.account(b.channel).Unreadable?
      && (w.account(b.channel).Library? && w.account(b.channel).broken ==>
            || w.account(b.channel).scope != b.scope
            || (b.project != "" && requested != "" && b.project != requested)
            || exists r :: r in c && b.project != "" && At(w, r, c[r]).project !in {"", b.project})
  }

  lemma HarmlessIff(w: World, requested: string, refs: set<Ref>, p: Pins, c: Choice, b: Binding)
    requires Consistent(w, requested, refs, c) && Stands(w, requested, refs, p, c)
    ensures Harmless(w, requested, c, b) <==> !Faults(w, p, b)
  {
    if c != map[] {
      var r :| r in c;
      assert p.channel == Some(At(w, r, c[r]).channel);
    }
  }

  /** A handle is accepted exactly when one more choice is possible, and only one. */
  lemma StepIff(w: World, requested: string, refs: set<Ref>, p: Pins, c: Choice, ref: Ref)
    requires ref !in refs && OnlyChoice(w, requested, refs, c) && Stands(w, requested, refs, p, c)
    ensures Step(w, p, ref).Done? <==>
              Readable(w, requested, refs, ref) && HasOneChoice(w, requested, refs + {ref})
    ensures Step(w, p, ref).Done? ==>
              exists d :: OnlyChoice(w, requested, refs + {ref}, d)
                          && Stands(w, requested, refs + {ref}, Step(w, p, ref).pins, d)
  {
    ReadableIff(w, requested, refs, p, c, ref);
    if w.found(ref).Some? {
      if w.found(ref).value.bindings == [] {
        UnregisteredStep(w, requested, refs, p, c, ref);
      } else {
        var bs := w.found(ref).value.bindings;
        var m := Matching(w, p, bs, |bs|);
        RegisteredStep(w, requested, refs, p, c, ref, m);
        if |m| == 1 {
          AcceptStands(w, requested, refs, p, c, ref, m[0]);
          assert At(w, ref, m[0]) == bs[m[0]];
        }
      }
    }
  }

  lemma ReadableIff(w: World, requested: string, refs: set<Ref>, p: Pins, c: Choice, ref: Ref)
    requires OnlyChoice(w, requested, refs, c) && Stands(w, requested, refs, p, c)
    ensures Readable(w, requested, refs, ref) <==>
              && w.found(ref).Some? && !AnyFault(w, p, w.found(ref).value.bindings, |w.found(ref).value.bindings|)
              && (w.found(ref).value.bindings == [] ==> !w.found(ref).value.registered && w.claimable(ref))
  {
    if w.found(ref).Some? {
      var bs := w.found(ref).value.bindings;
      forall b | b in bs ensures Harmless(w, requested, c, b) <==> !Faults(w, p, b) {
        HarmlessIff(w, requested, refs, p, c, b);
      }
      assert (forall b :: b in bs ==> Harmless(w, requested, c, b)) <==> !AnyFault(w, p, bs, |bs|);
    }
  }

  lemma UnregisteredStep(w: World, requested: string, refs: set<Ref>, p: Pins, c: Choice, ref: Ref)
    requires ref !in refs && OnlyChoice(w, requested, refs, c) && Stands(w, requested, refs, p, c)
    requires !Registered(w, ref)
    ensures OnlyChoice(w, requested, refs + {ref}, c)
    ensures Stands(w, requested, refs + {ref}, p.(pending := p.pending + [ref]), c)
  {
    Irrelevant(w, requested, refs, ref, c);
    forall d | Consistent(w, requested, refs + {ref}, d) ensures d == c {
      Irrelevant(w, requested, refs, ref, d);
    }
  }

  lemma Extensions(w: World, requested: string, refs: set<Ref>, p: Pins, c: Choice, ref: Ref)
    requires ref !in refs && OnlyChoice(w, requested, refs, c) && Stands(w, requested, refs, p, c) && Registered(w, ref)
    ensures forall d :: Consistent(w, requested, refs + {ref}, d) ==>
              ref in d && d == c[ref := d[ref]] && d[ref] < |w.found(ref).value.bindings|
              && Fits(w, p, At(w, ref, d[ref]))
    ensures forall k: nat :: k < |w.found(ref).value.bindings| && Fits(w, p, At(w, ref, k)) ==>
              Consistent(w, requested, refs + {ref}, c[ref := k])
  {
    forall k: nat | k < |w.found(ref).value.bindings|
      ensures Fits(w, p, At(w, ref, k)) <==> Consistent(w, requested, refs + {ref}, c[ref := k])
    {
      FitsIffConsistent(w, requested, refs, p, c, ref, k);
    }
    forall d | Consistent(w, requested, refs + {ref}, d)
      ensures ref in d && d == c[ref := d[ref]] && d[ref] < |w.found(ref).value.bindings|
    {
      Restrict(w, requested, refs, ref, d);
    }
  }

  ghost function Candidates(w: World, requested: string, refs: set<Ref>): iset<Choice> {
    iset d: Choice | Consistent(w, requested, refs, d)
  }

  lemma CandidatesExtend(w: World, requested: string, refs: set<Ref>, p: Pins, c: Choice, ref: Ref, m: seq<nat>)
    requires ref !in refs && OnlyChoice(w, requested, refs, c) && Stands(w, requested, refs, p, c) && Registered(w, ref)
    requires m == Matching(w, p, w.found(ref).value.bindings, |w.found(ref).value.bindings|)
    ensures forall k :: k in m ==> c[ref := k] in Candidates(w, requested, refs + {ref})
    ensures forall d :: d in Candidates(w, requested, refs + {ref}) ==> ref in d && d == c[ref := d[ref]] && d[ref] in m
  {
    Extensions(w, requested, refs, p, c, ref);
    forall k | k in m ensures c[ref := k] in Candidates(w, requested, refs + {ref}) {
      assert Fits(w, p, At(w, ref, k));
    }
  }

  lemma RegisteredStep(w: World, requested: string, refs: set<Ref>, p: Pins, c: Choice, ref: Ref, m: seq<nat>)
    requires ref !in refs && OnlyChoice(w, requested, refs, c) && Stands(w, requested, refs, p, c) && Registered(w, ref)
    requires m == Matching(w, p, w.found(ref).value.bindings, |w.found(ref).value.bindings|)
    ensures |m| == 1 <==> HasOneChoice(w, requested, refs + {ref})
    ensures |m| == 1 ==> OnlyChoice(w, requested, refs + {ref}, c[ref := m[0]])
  {
    CandidatesExtend(w, requested, refs, p, c, ref, m);
    UniqueIff(Candidates(w, requested, refs + {ref}), c, ref, m);
    OnlyOneIff(w, requested, refs + {ref});
  }

  lemma OnlyOneIff(w: World, requested: string, refs: set<Ref>)
    ensures forall d :: OnlyChoice(w, requested, refs, d) <==>
                          d in Candidates(w, requested, refs)
                          && forall e :: e in Candidates(w, requested, refs) ==> e == d
  {
    assert forall d :: d in Candidates(w, requested, refs) <==> Consistent(w, requested, refs, d);
  }

  /** If the candidates are `c` extended by one of `m`, there is one candidate exactly when there is one extension. */
  lemma UniqueIff(candidates: iset<Choice>, c: Choice, ref: Ref, m: seq<nat>)
    requires forall a, b :: 0 <= a < b < |m| ==> m[a] < m[b]
    requires forall k :: k in m ==> c[ref := k] in candidates
    requires forall d :: d in candidates ==> ref in d && d == c[ref := d[ref]] && d[ref] in m
    ensures |m| == 1 <==> exists d :: d in candidates && forall e :: e in candidates ==> e == d
    ensures |m| == 1 ==> c[ref := m[0]] in candidates && forall e :: e in candidates ==> e == c[ref := m[0]]
  {
    if |m| > 1 {
      assert m[0] in m && m[1] in m;
      assert c[ref := m[0]][ref] != c[ref := m[1]][ref];
    } else if |m| == 1 {
      assert m[0] in m;
    }
  }

  /** Why the first `n` handles resolve: nothing fails, and every prefix has exactly one consistent choice. */
  ghost predicate Determined(w: World, requested: string, refs: seq<Ref>, n: nat)
    requires n <= |refs|
  {
    && (forall k :: 0 <= k < n ==> Readable(w, requested, SetOf(refs[..k]), refs[k]))
    && (forall k :: 0 <= k <= n ==> HasOneChoice(w, requested, SetOf(refs[..k])))
  }

  /** A request resolves exactly when its handles determine one choice step by step; its bindings are that choice. */
  lemma {:induction false} ResolvesIff(w: World, requested: string, refs: seq<Ref>, n: nat)
    requires Distinct(refs) && n <= |refs|
    ensures Resolve(w, Unpinned(requested), refs, n).Done? <==> Determined(w, requested, refs, n)
    ensures Resolve(w, Unpinned(requested), refs, n).Done? ==>
              StandsForOnlyChoice(w, requested, SetOf(refs[..n]), Resolve(w, Unpinned(requested), refs, n).pins)
  {
    if n == 0 {
      ResolvesNothing(w, requested, refs);
    } else {
      ResolvesIff(w, requested, refs, n - 1);
      DeterminedSnoc(w, requested, refs, n);
      var before, p := SetOf(refs[..n - 1]), Resolve(w, Unpinned(requested), refs, n - 1);
      if p.Done? {
        var c :| OnlyChoice(w, requested, before, c) && Stands(w, requested, before, p.pins, c);
        ResolveNext(w, requested, refs, n, c);
      }
    }
  }

  lemma ResolveNext(w: World, requested: string, refs: seq<Ref>, n: nat, c: Choice)
    requires Distinct(refs) && 0 < n <= |refs| && Resolve(w, Unpinned(requested), refs, n - 1).Done?
    requires OnlyChoice(w, requested, SetOf(refs[..n - 1]), c)
    requires Stands(w, requested, SetOf(refs[..n - 1]), Resolve(w, Unpinned(requested), refs, n - 1).pins, c)
    ensures Resolve(w, Unpinned(requested), refs, n).Done? <==>
              Readable(w, requested, SetOf(refs[..n - 1]), refs[n - 1]) && HasOneChoice(w, requested, SetOf(refs[..n]))
    ensures Resolve(w, Unpinned(requested), refs, n).Done? ==>
              StandsForOnlyChoice(w, requested, SetOf(refs[..n]), Resolve(w, Unpinned(requested), refs, n).pins)
  {
    var p, ref := Resolve(w, Unpinned(requested), refs, n - 1).pins, refs[n - 1];
    var before, after := SetOf(refs[..n - 1]), SetOf(refs[..n]);
    assert ref !in before && after == before + {ref} by {
      SetOfSnoc(refs, n - 1);
    }
    assert Resolve(w, Unpinned(requested), refs, n) == Step(w, p, ref) by {
      ResolveSnoc(w, Unpinned(requested), refs, n - 1);
    }
    StepNext(w, requested, before, after, p, c, ref, Resolve(w, Unpinned(requested), refs, n));
  }

  lemma StepNext(w: World, requested: string, refs: set<Ref>, more: set<Ref>, p: Pins, c: Choice, ref: Ref, r: Outcome)
    requires ref !in refs && more == refs + {ref} && r == Step(w, p, ref)
    requires OnlyChoice(w, requested, refs, c) && Stands(w, requested, refs, p, c)
    ensures r.Done? <==> Readable(w, requested, refs, ref) && HasOneChoice(w, requested, more)
    ensures r.Done? ==> StandsForOnlyChoice(w, requested, more, r.pins)
  {
    StepIff(w, requested, refs, p, c, ref);
  }

  lemma ResolvesNothing(w: World, requested: string, refs: seq<Ref>)
    ensures Determined(w, requested, refs, 0) && Resolve(w, Unpinned(requested), refs, 0) == Done(Unpinned(requested))
    ensures StandsForOnlyChoice(w, requested, SetOf(refs[..0]), Unpinned(requested))
  {
    NothingChosen(w, requested, refs);
    assert HasOneChoice(w, requested, SetOf(refs[..0]));
  }

  lemma NothingChosen(w: World, requested: string, refs: seq<Ref>)
    ensures OnlyChoice(w, requested, SetOf(refs[..0]), map[])
    ensures Stands(w, requested, SetOf(refs[..0]), Unpinned(requested), map[])
  {
    forall d | Consistent(w, requested, SetOf(refs[..0]), d) ensures d == map[] {
      assert forall r :: r !in d;
    }
  }

  lemma DeterminedSnoc(w: World, requested: string, refs: seq<Ref>, n: nat)
    requires 0 < n <= |refs|
    ensures Determined(w, requested, refs, n) <==>
              && Determined(w, requested, refs, n - 1) && Readable(w, requested, SetOf(refs[..n - 1]), refs[n - 1])
              && HasOneChoice(w, requested, SetOf(refs[..n]))
  {
  }

  // ----- what a resolved request can rely on -----

  /** All accepted bindings share one channel, one scope and one project, which is the requested one if any. */
  ghost predicate Agreed(requested: string, p: Pins) {
    && (forall a :: a in p.bindings ==>
          p.channel == Some(a.binding.channel) && p.scope == a.binding.scope && a.binding.project in {"", p.project})
    && (requested != "" ==> p.project == requested)
  }

  function Refs(bindings: seq<Accepted>): seq<Ref> {
    if bindings == [] then [] else Refs(bindings[..|bindings| - 1]) + [bindings[|bindings| - 1].ref]
  }

  lemma RefsSnoc(bindings: seq<Accepted>, a: Accepted)
    ensures Refs(bindings + [a]) == Refs(bindings) + [a.ref]
  {
    assert (bindings + [a])[..|bindings|] == bindings;
  }

  lemma ResolvedIsAgreed(w: World, requested: string, refs: seq<Ref>)
    requires Distinct(refs) && Resolve(w, Unpinned(requested), refs, |refs|).Done?
    ensures Agreed(requested, Resolve(w, Unpinned(requested), refs, |refs|).pins)
  {
    ResolvesIff(w, requested, refs, |refs|);
  }

  /** The handles answered so far: those with a binding and those that wait for one. */
  function Answered(p: Pins): multiset<Ref> {
    multiset(Refs(p.bindings)) + multiset(p.pending)
  }

  lemma StepAnswers(w: World, p: Pins, ref: Ref)
    requires Step(w, p, ref).Done?
    ensures Answered(Step(w, p, ref).pins) == Answered(p) + multiset{ref}
    ensures Step(w, p, ref).pins.pending == p.pending + (if Registered(w, ref) then [] else [ref])
  {
    if Registered(w, ref) {
      var bs := w.found(ref).value.bindings;
      RefsSnoc(p.bindings, Accepted(ref, bs[Matching(w, p, bs, |bs|)[0]]));
    }
  }

  /** Each handle is accepted once if it is registered, and waits once if it is not. */
  lemma {:induction false} EveryHandleIsAnswered(w: World, p: Pins, refs: seq<Ref>, n: nat)
    requires n <= |refs| && Resolve(w, p, refs, n).Done?
    ensures Answered(Resolve(w, p, refs, n).pins) == Answered(p) + multiset(refs[..n])
  {
    if n > 0 {
      EveryHandleIsAnswered(w, p, refs, n - 1);
      ResolveSnoc(w, p, refs, n - 1);
      StepAnswers(w, Resolve(w, p, refs, n - 1).pins, refs[n - 1]);
      PrefixCount(refs, n);
    }
  }

  lemma PrefixCount(refs: seq<Ref>, n: nat)
    requires 0 < n <= |refs|
    ensures multiset(refs[..n]) == multiset(refs[..n - 1]) + multiset{refs[n - 1]}
  {
    assert refs[..n] == refs[..n - 1] + [refs[n - 1]];
  }

  /** Those of the first `n` handles that nobody has registered. */
  function Unregistered(w: World, refs: seq<Ref>, n: nat): (r: seq<Ref>)
    requires n <= |refs|
    ensures forall x :: x in r ==> x in refs && !Registered(w, x)
    ensures forall k :: 0 <= k < n && !Registered(w, refs[k]) ==> refs[k] in r
  {
    if n == 0 then []
    else Unregistered(w, refs, n - 1) + (if Registered(w, refs[n - 1]) then [] else [refs[n - 1]])
  }

  /** The handles that wait for a claim are those nobody has registered. */
  lemma {:induction false} OnlyUnregisteredWait(w: World, requested: string, refs: seq<Ref>, n: nat)
    requires n <= |refs| && Resolve(w, Unpinned(requested), refs, n).Done?
    ensures Resolve(w, Unpinned(requested), refs, n).pins.pending == Unregistered(w, refs, n)
  {
    if n > 0 {
      OnlyUnregisteredWait(w, requested, refs, n - 1);
      ResolveSnoc(w, Unpinned(requested), refs, n - 1);
      StepAnswers(w, Resolve(w, Unpinned(requested), refs, n - 1).pins, refs[n - 1]);
    }
  }

  /** The handles come in this order. */
  ghost predicate IsOrder(order: seq<Ref>, refs: set<Ref>) {
    Distinct(order) && SetOf(order) == refs
  }

  function Resolved(w: World, requested: string, refs: seq<Ref>): Outcome {
    Resolve(w, Unpinned(requested), refs, |refs|)
  }

  /** Everything but the group and the order of the lists is the same. */
  ghost predicate SameAnswer(p: Pins, q: Pins) {
    && p.channel == q.channel && p.scope == q.scope && p.project == q.project
    && (forall a :: a in p.bindings <==> a in q.bindings) && (forall r :: r in p.pending <==> r in q.pending)
  }

  /** Two orders of the same handles that both resolve accept the same bindings and leave the same handles waiting. */
  lemma SameAnswerInAnyOrder(w: World, requested: string, refs: seq<Ref>, other: seq<Ref>)
    requires Distinct(refs) && IsOrder(other, SetOf(refs))
    requires Resolved(w, requested, refs).Done? && Resolved(w, requested, other).Done?
    ensures SameAnswer(Resolved(w, requested, refs).pins, Resolved(w, requested, other).pins)
  {
    ResolvesIff(w, requested, refs, |refs|);
    ResolvesIff(w, requested, other, |other|);
    assert refs[..|refs|] == refs && other[..|other|] == other;
    var p, q := Resolved(w, requested, refs).pins, Resolved(w, requested, other).pins;
    var c :| OnlyChoice(w, requested, SetOf(refs), c) && Stands(w, requested, SetOf(refs), p, c);
    var d :| OnlyChoice(w, requested, SetOf(refs), d) && Stands(w, requested, SetOf(refs), q, d);
    StandForOne(w, requested, SetOf(refs), p, q, c);
    SameWait(w, requested, refs, other);
  }

  lemma SameWait(w: World, requested: string, refs: seq<Ref>, other: seq<Ref>)
    requires SetOf(other) == SetOf(refs)
    requires Resolved(w, requested, refs).Done? && Resolved(w, requested, other).Done?
    ensures forall r :: r in Resolved(w, requested, refs).pins.pending <==>
                        r in Resolved(w, requested, other).pins.pending
  {
    OnlyUnregisteredWait(w, requested, refs, |refs|);
    OnlyUnregisteredWait(w, requested, other, |other|);
    assert forall r :: r in refs <==> r in SetOf(refs);
    assert forall r :: r in other <==> r in SetOf(other);
  }

  lemma StandForOne(w: World, requested: string, refs: set<Ref>, p: Pins, q: Pins, c: Choice)
    requires Stands(w, requested, refs, p, c) && Stands(w, requested, refs, q, c)
    ensures p.channel == q.channel && p.scope == q.scope && p.project == q.project
    ensures forall a :: a in p.bindings <==> a in q.bindings
  {
    ListedTwice(w, p.bindings, q.bindings, c);
    if r :| r in c {
      assert p.channel == q.channel;
    }
  }

  lemma ListedTwice(w: World, a: seq<Accepted>, b: seq<Accepted>, c: Choice)
    requires forall r :: r in c ==> Registered(w, r) && c[r] < |w.found(r).value.bindings|
    requires Listed(w, a, c) && Listed(w, b, c)
    ensures forall x :: x in a <==> x in b
  {
    ListedHasAll(w, a, c);
    ListedHasAll(w, b, c);
  }

  lemma ListedHasAll(w: World, a: seq<Accepted>, c: Choice)
    requires forall r :: r in c ==> Registered(w, r) && c[r] < |w.found(r).value.bindings|
    requires Listed(w, a, c)
    ensures forall x: Accepted :: x in a <==> x.ref in c && x.binding == At(w, x.ref, c[x.ref])
  {
    RefsCover(a, c.Keys);
    forall x: Accepted | x.ref in c && x.binding == At(w, x.ref, c[x.ref]) ensures x in a {
      var i :| 0 <= i < |a| && a[i].ref == x.ref;
      assert a[i] in a;
    }
  }

  lemma {:induction false} RefsCover(a: seq<Accepted>, keys: set<Ref>)
    requires |a| == |keys| && (forall i :: 0 <= i < |a| ==> a[i].ref in keys)
    requires forall i, j :: 0 <= i < j < |a| ==> a[i].ref != a[j].ref
    ensures forall r :: r in keys ==> exists i :: 0 <= i < |a| && a[i].ref == r
  {
    if a != [] {
      var n := |a| - 1;
      var b := a[..n];
      RefsCover(b, keys - {a[n].ref});
      forall r | r in keys ensures exists i :: 0 <= i < |a| && a[i].ref == r {
        if r != a[n].ref {
          assert r in keys - {a[n].ref};
          var i :| 0 <= i < |b| && b[i].ref == r;
          assert a[i].ref == r;
        }
      }
    }
  }

  /** Two channels of one account; handle `a` is known on both of them, handle `b` on the first only. */
  function TwoChannels(a: Ref): World {
    var both, one := [Binding(1, "s", "", "x"), Binding(2, "s", "", "y")], [Binding(1, "s", "", "z")];
    World((r: Ref) => Some(Found(if r == a then both else one, true)), (channel: int) => Library("s", false),
          (r: Ref) => true)
  }

  lemma ChooseOne(w: World, p: Pins, ref: Ref, x: Binding)
    requires w.account(x.channel).Library? && !w.account(x.channel).broken
    ensures Choose(w, p, ref, [x]) == if Fits(w, p, x) then Done(Accept(p, ref, x)) else NotOwned
  {
    assert Matching(w, p, [x], 0) == [];
    assert Matching(w, p, [x], 1) == if Fits(w, p, x) then [0] else [];
    assert !AnyFault(w, p, [x], 1);
  }

  lemma ChooseTwo(w: World, p: Pins, ref: Ref, bs: seq<Binding>)
    requires |bs| == 2 && Fits(w, p, bs[0])
    requires w.account(bs[0].channel) == w.account(bs[1].channel) == Library("s", false)
    ensures Choose(w, p, ref, bs) == if Fits(w, p, bs[1]) then NotOwned else Done(Accept(p, ref, bs[0]))
  {
    assert !AnyFault(w, p, bs, 2);
    var m := Matching(w, p, bs, 2);
    assert 0 in m && (1 in m <==> Fits(w, p, bs[1]));
    if |m| == 2 {
      assert m[0] < m[1];
    } else if |m| == 1 {
      assert m[0] == 0;
    }
  }

  lemma ResolveTwo(w: World, p: Pins, a: Ref, b: Ref)
    ensures Resolve(w, p, [a, b], 2) == if Step(w, p, a).Done? then Step(w, Step(w, p, a).pins, b) else Step(w, p, a)
  {
    assert Resolve(w, p, [a, b], 0) == Done(p);
    assert Resolve(w, p, [a, b], 1) == Step(w, p, a);
  }

  /** An ambiguous handle fails before a later one could pin its channel; in the other order both resolve. */
  lemma OrderDecidesSuccess(a: Ref, b: Ref)
    requires a != b
    ensures Resolve(TwoChannels(a), Unpinned(""), [a, b], 2) == NotOwned
    ensures Resolve(TwoChannels(a), Unpinned(""), [b, a], 2).Done?
  {
    var w, p := TwoChannels(a), Unpinned("");
    var x, y, z := Binding(1, "s", "", "x"), Binding(2, "s", "", "y"), Binding(1, "s", "", "z");
    var q := Accept(p, b, z);
    ChooseTwo(w, p, a, [x, y]);
    ChooseOne(w, p, b, z);
    ChooseTwo(w, q, a, [x, y]);
    ResolveTwo(w, p, a, b);
    ResolveTwo(w, p, b, a);
  }

  // ----- when the order does not matter -----

  /** Whatever order the handles come in, they resolve. */
  ghost predicate AllOrdersResolve(w: World, requested: string, refs: set<Ref>) {
    forall order: seq<Ref> :: IsOrder(order, refs) ==> Resolved(w, requested, order).Done?
  }

  /** The handle resolves when it is the only one. */
  predicate ResolvesAlone(w: World, requested: string, ref: Ref) {
    Resolve(w, Unpinned(requested), [ref], 1).Done?
  }

  lemma AloneIff(w: World, requested: string, ref: Ref)
    ensures ResolvesAlone(w, requested, ref) <==>
            Readable(w, requested, {}, ref) && HasOneChoice(w, requested, {ref})
  {
    var refs := [ref];
    ResolvesIff(w, requested, refs, 1);
    NothingChosen(w, requested, refs);
    assert HasOneChoice(w, requested, SetOf(refs[..0]));
    assert SetOf(refs[..0]) == {} && SetOf(refs[..1]) == {ref};
    DeterminedSnoc(w, requested, refs, 1);
  }

  function Restricted(c: Choice, refs: set<Ref>): Choice {
    map r | r in c && r in refs :: c[r]
  }

  lemma SubChoice(w: World, requested: string, refs: set<Ref>, sub: set<Ref>, c: Choice)
    requires sub <= refs && Consistent(w, requested, refs, c)
    ensures Consistent(w, requested, sub, Restricted(c, sub))
  {
    var d := Restricted(c, sub);
    assert forall r :: r in d ==> r in c && d[r] == c[r];
  }

  /** Handles with one choice each have at most one choice together. */
  lemma OneEachIsOne(w: World, requested: string, refs: set<Ref>, c: Choice)
    requires (forall r :: r in refs ==> HasOneChoice(w, requested, {r})) && Consistent(w, requested, refs, c)
    ensures OnlyChoice(w, requested, refs, c)
  {
    forall d | Consistent(w, requested, refs, d) ensures d == c {
      OneEachAgree(w, requested, refs, c, d);
    }
  }

  lemma OneEachAgree(w: World, requested: string, refs: set<Ref>, c: Choice, d: Choice)
    requires forall r :: r in refs ==> HasOneChoice(w, requested, {r})
    requires Consistent(w, requested, refs, c) && Consistent(w, requested, refs, d)
    ensures c == d
  {
    assert c.Keys == d.Keys;
    forall r | r in c ensures c[r] == d[r] {
      SameAlone(w, requested, refs, c, d, r);
    }
  }

  lemma SameAlone(w: World, requested: string, refs: set<Ref>, c: Choice, d: Choice, ref: Ref)
    requires HasOneChoice(w, requested, {ref}) && ref in refs && ref in c && ref in d
    requires Consistent(w, requested, refs, c) && Consistent(w, requested, refs, d)
    ensures c[ref] == d[ref]
  {
    SubChoice(w, requested, refs, {ref}, c);
    SubChoice(w, requested, refs, {ref}, d);
    assert Restricted(c, {ref})[ref] == c[ref] && Restricted(d, {ref})[ref] == d[ref];
  }

  lemma ReadableLater(w: World, requested: string, refs: set<Ref>, ref: Ref)
    requires Readable(w, requested, {}, ref)
    ensures Readable(w, requested, refs, ref)
  {
    assert Consistent(w, requested, {}, map[]);
    forall c, b | Consistent(w, requested, refs, c) && b in w.found(ref).value.bindings
      ensures Harmless(w, requested, c, b)
    {
      assert Harmless(w, requested, map[], b);
    }
  }

  lemma {:induction false} SomeOrder(refs: set<Ref>) returns (order: seq<Ref>)
    ensures Distinct(order) && SetOf(order) == refs
  {
    if refs == {} {
      order := [];
    } else {
      var r :| r in refs;
      var rest := SomeOrder(refs - {r});
      order := [r] + rest;
      FirstThen(r, rest);
    }
  }

  lemma FirstThen(r: Ref, rest: seq<Ref>)
    requires Distinct(rest) && r !in rest
    ensures Distinct([r] + rest) && SetOf([r] + rest) == {r} + SetOf(rest)
  {
    var all := [r] + rest;
    assert forall i :: 0 < i < |all| ==> all[i] == rest[i - 1] && all[i] in rest;
  }

  lemma OrderedResolves(w: World, requested: string, refs: set<Ref>, c: Choice, order: seq<Ref>)
    requires (forall r :: r in refs ==> ResolvesAlone(w, requested, r)) && Consistent(w, requested, refs, c)
    requires Distinct(order) && SetOf(order) == refs
    ensures Resolve(w, Unpinned(requested), order, |order|).Done?
  {
    forall r | r in refs ensures Readable(w, requested, {}, r) && HasOneChoice(w, requested, {r}) {
      AloneIff(w, requested, r);
    }
    forall k | 0 <= k < |order| ensures Readable(w, requested, SetOf(order[..k]), order[k]) {
      assert order[k] in SetOf(order);
      ReadableLater(w, requested, SetOf(order[..k]), order[k]);
    }
    forall k | 0 <= k <= |order| ensures HasOneChoice(w, requested, SetOf(order[..k])) {
      var sub := SetOf(order[..k]);
      SubChoice(w, requested, refs, sub, c);
      OneEachIsOne(w, requested, sub, Restricted(c, sub));
    }
    ResolvesIff(w, requested, order, |order|);
  }

  lemma FirstResolvesAlone(w: World, requested: string, refs: set<Ref>, ref: Ref)
    requires AllOrdersResolve(w, requested, refs) && ref in refs
    ensures ResolvesAlone(w, requested, ref)
  {
    var rest := SomeOrder(refs - {ref});
    FirstThen(ref, rest);
    var order := [ref] + rest;
    assert IsOrder(order, refs);
    if !Resolve(w, Unpinned(requested), order, 1).Done? {
      EarlyEnd(w, Unpinned(requested), order, 1, |order|);
    }
    assert Resolve(w, Unpinned(requested), order, 0) == Resolve(w, Unpinned(requested), [ref], 0);
  }

  /** All orders of the handles resolve exactly when each handle resolves alone and they have a consistent choice. */
  lemma AllOrdersResolveIff(w: World, requested: string, refs: set<Ref>)
    ensures AllOrdersResolve(w, requested, refs) <==>
              && (forall r :: r in refs ==> ResolvesAlone(w, requested, r))
              && exists c :: Consistent(w, requested, refs, c)
  {
    if AllOrdersResolve(w, requested, refs) {
      forall r | r in refs ensures ResolvesAlone(w, requested, r) {
        FirstResolvesAlone(w, requested, refs, r);
      }
      var order := SomeOrder(refs);
      assert IsOrder(order, refs);
      ResolvesIff(w, requested, order, |order|);
      assert order[..|order|] == order;
    } else if (forall r :: r in refs ==> ResolvesAlone(w, requested, r))
                && exists c :: Consistent(w, requested, refs, c) {
      var c :| Consistent(w, requested, refs, c);
      forall order: seq<Ref> | Distinct(order) && SetOf(order) == refs
        ensures Resolve(w, Unpinned(requested), order, |order|).Done?
      {
        OrderedResolves(w, requested, refs, c, order);
      }
    }
  }

  // ----- claims keep the pins -----

  /** A claim answers for the channel and scope it was made on, and keeps a project it was given. */
  ghost predicate Faithful(w: World, claim: Claim) {
    forall channel, ref, project :: claim(channel, ref, project).Some? ==>
      var b := claim(channel, ref, project).value;
      b.channel == channel && Usable(w, b) && (project != "" ==> b.project == project)
  }

  ghost predicate OnChannel(w: World, requested: string, channel: int, p: Pins) {
    Agreed(requested, p) && p.channel == Some(channel)
    && w.account(channel).Library? && p.scope == w.account(channel).scope
  }

  lemma ClaimAgrees(w: World, claim: Claim, requested: string, channel: int, p: Pins, ref: Ref)
    requires Faithful(w, claim) && claim(channel, ref, p.project).Some?
    requires OnChannel(w, requested, channel, p)
    ensures var q := Claimed(p, ref, claim(channel, ref, p.project).value);
            OnChannel(w, requested, channel, q)
  {
  }

  lemma {:induction false} ClaimsAgree(w: World, claim: Claim, requested: string, channel: int, p: Pins,
      refs: seq<Ref>, n: nat)
    requires n <= |refs| && Faithful(w, claim) && ClaimAll(claim, channel, p, refs, n).Done?
    requires OnChannel(w, requested, channel, p)
    ensures OnChannel(w, requested, channel, ClaimAll(claim, channel, p, refs, n).pins)
  {
    if n > 0 {
      ClaimsAgree(w, claim, requested, channel, p, refs, n - 1);
      ClaimAgrees(w, claim, requested, channel, ClaimAll(claim, channel, p, refs, n - 1).pins, refs[n - 1]);
    }
  }

  lemma AnswerOne(p: Pins, before: Pins, refs: seq<Ref>, k: nat, b: Binding)
    requires k < |refs| && Refs(before.bindings) == Refs(p.bindings) + refs[..k]
    ensures Refs(Claimed(before, refs[k], b).bindings) == Refs(p.bindings) + refs[..k + 1]
  {
    RefsSnoc(before.bindings, Accepted(refs[k], b));
    assert refs[..k + 1] == refs[..k] + [refs[k]];
  }

  lemma {:induction false} ClaimsAnswer(claim: Claim, channel: int, p: Pins, refs: seq<Ref>, n: nat)
    requires n <= |refs| && ClaimAll(claim, channel, p, refs, n).Done?
    ensures Refs(ClaimAll(claim, channel, p, refs, n).pins.bindings) == Refs(p.bindings) + refs[..n]
  {
    if n > 0 {
      var before, ref := ClaimAll(claim, channel, p, refs, n - 1).pins, refs[n - 1];
      ClaimsAnswer(claim, channel, p, refs, n - 1);
      ClaimSnoc(claim, channel, p, refs, n - 1);
      AnswerOne(p, before, refs, n - 1, claim(channel, ref, before.project).value);
    }
  }

  /** A whole request, resolved and prepared: one binding for every handle, on one channel, scope and project. */
  lemma PreparedIsPinned(w: World, claim: Claim, requested: string, refs: seq<Ref>, channel: int, default: string)
    requires Distinct(refs) && Faithful(w, claim) && Resolve(w, Unpinned(requested), refs, |refs|).Done?
    requires Prepare(w, claim, Resolve(w, Unpinned(requested), refs, |refs|).pins, channel, default).Done?
    ensures var q := Prepare(w, claim, Resolve(w, Unpinned(requested), refs, |refs|).pins, channel, default).pins;
            && Agreed(requested, q) && q.channel == Some(channel) && q.pending == []
            && multiset(Refs(q.bindings)) == multiset(refs)
  {
    var p := Resolve(w, Unpinned(requested), refs, |refs|).pins;
    ResolvedIsAgreed(w, requested, refs);
    EveryHandleIsAnswered(w, Unpinned(requested), refs, |refs|);
    assert refs[..|refs|] == refs && p.pending[..|p.pending|] == p.pending;
    ResolvesIff(w, requested, refs, |refs|);
    ClaimsAgree(w, claim, requested, channel, Routed(p, channel, w.account(channel).scope, default),
                p.pending, |p.pending|);
    ClaimsAnswer(claim, channel, Routed(p, channel, w.account(channel).scope, default), p.pending, |p.pending|);
  }
}
