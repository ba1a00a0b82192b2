/** When an abandoned fetch leads to a page being charged twice: exactly when somebody can,
    and there is room to, fetch it again. */
module AssetListExposure {
  import opened AssetListPages
  import opened AssetListPageRuns
  import opened AssetListDoubleCharge
  import opened AssetListRegistry

  /** What the lightest page weighs: a response that is an empty list. */
  const LIGHTEST: nat := Weight(Page(EMPTY_LIST, EMPTY_LIST, 0, 0))

  /** The scan may still ask for pages, once what it waits for has been answered. */
  predicate CanRead(s: State, j: nat) {
    && j < |s.scans| && !s.scans[j].released && !s.scans[j].waiting.Quit?
    && (s.scans[j].waiting.On? ==> s.scans[j].waiting.call < |s.calls| && Answerable(s.calls[s.scans[j].waiting.call]))
  }

  /** The call can still bring a page that lets a scan go on. */
  predicate Answerable(c: Call) {
    !c.phase.Failed? && (c.phase.Done? ==> !c.phase.refused)
  }

  function PagesOf(s: State, c: nat): map<string, Page>
    requires c < |s.calls| && s.calls[c].gen < |s.core.generations|
  {
    s.core.generations[s.calls[c].gen].pages
  }

  /** The step abandons a call whose page has arrived; another scan of the generation can still read, and the
      generation leaves room for two pages. */
  ghost predicate Exposes(s: State, step: Step) {
    && Abandons(s, step)
    && var c := s.scans[step.scan].waiting.call;
    && s.calls[c].gen < |s.core.generations|
    && s.core.generations[s.calls[c].gen].bytes + 2 * LIGHTEST <= BUFFER_LIMIT
    && OtherReader(s, step.scan, s.calls[c].gen)
  }

  ghost predicate OtherReader(s: State, scan: nat, gen: nat) {
    exists j: nat :: j != scan && CanRead(s, j) && s.scans[j].gen == gen
  }

  // ----- why no charge is repeated otherwise -----

  /** No second page, or no page at all, fits beside what the generation charges. */
  ghost predicate NoRoom(s: State, c: nat)
    requires c < |s.calls| && s.calls[c].gen < |s.core.generations|
  {
    var g := s.core.generations[s.calls[c].gen];
    g.bytes + LIGHTEST > BUFFER_LIMIT || (s.calls[c].pageKey !in g.pages && g.bytes + 2 * LIGHTEST > BUFFER_LIMIT)
  }

  /** Nobody can ask for the page again. */
  ghost predicate Unreadable(s: State, c: nat)
    requires c < |s.calls| && s.calls[c].gen < |s.core.generations|
  {
    && (forall j :: 0 <= j < |s.scans| && s.scans[j].gen == s.calls[c].gen ==> !CanRead(s, j))
    && (forall d :: 0 <= d < |s.calls| && SamePage(s.calls[d], s.calls[c]) ==> !s.calls[d].registered)
    && (s.calls[c].phase.Received? ==> s.calls[c].pageKey !in PagesOf(s, c))
  }

  ghost predicate Hopeless(s: State, c: nat) {
    && c < |s.calls| && s.calls[c].gen < |s.core.generations|
    && (Dead(s, s.calls[c].gen) || NoRoom(s, c) || Unreadable(s, c))
  }

  lemma CallStays(s: State, step: Step, c: nat)
    requires c < |s.calls|
    ensures var s' := Next(s, step); c < |s'.calls| && SamePage(s.calls[c], s'.calls[c])
    ensures |s.core.generations| <= |Next(s, step).core.generations|
  {
  }

  /** What a step may do to a generation: empty it for good, keep its pages, or retain one more page. */
  ghost predicate GenerationStep(s: State, s': State, g: nat)
    requires g < |s.core.generations| && g < |s'.core.generations|
  {
    var old_, new_ := s.core.generations[g], s'.core.generations[g];
    || new_.readers == 0
    || (new_.pages == old_.pages && new_.bytes == old_.bytes)
    || (new_.pages.Keys >= old_.pages.Keys && new_.bytes >= old_.bytes + LIGHTEST && new_.bytes <= BUFFER_LIMIT)
  }

  lemma FinishGeneration(s: State, step: Step, g: nat)
    requires Inv(s) && g < |s.core.generations| && step.Finish?
    ensures g < |Next(s, step).core.generations| && GenerationStep(s, Next(s, step), g)
  {
    ChargeFits(s.core.generations, g);
  }

  lemma OtherGeneration(s: State, step: Step, g: nat)
    requires g < |s.core.generations| && !step.Finish?
    ensures g < |Next(s, step).core.generations| && GenerationStep(s, Next(s, step), g)
  {
  }

  lemma GenerationSteps(s: State, step: Step, g: nat)
    requires Inv(s) && g < |s.core.generations|
    ensures g < |Next(s, step).core.generations| && GenerationStep(s, Next(s, step), g)
  {
    if step.Finish? {
      FinishGeneration(s, step, g);
    } else {
      OtherGeneration(s, step, g);
    }
  }

  /** Nobody who could not read begins to; a new scan holds a generation that has not started. */
  lemma NewReader(s: State, step: Step, j: nat)
    requires FreshInv(s) && CanRead(Next(s, step), j)
    ensures var gen := Next(s, step).scans[j].gen;
            || (j < |s.scans| && CanRead(s, j) && s.scans[j].gen == gen)
            || gen >= |s.core.generations| || !s.core.generations[gen].started
  {
    if step.Acquire? {
      assert j < |s.scans| ==> Next(s, step).scans[j] == s.scans[j];
    }
  }

  lemma NewRegistered(s: State, step: Step, d: nat)
    requires FreshInv(s) && d < |Next(s, step).calls| && Next(s, step).calls[d].registered
    ensures if d < |s.calls| then s.calls[d].registered
            else exists j: nat :: CanRead(s, j) && s.scans[j].gen == Next(s, step).calls[d].gen
  {
    if d >= |s.calls| {
      assert CanRead(s, step.scan);
    }
  }

  lemma NewReceived(s: State, step: Step, c: nat)
    requires c < |s.calls| && !s.calls[c].registered && Next(s, step).calls[c].phase.Received?
    ensures s.calls[c].phase.Received?
  {
  }

  /** A page is retained by the end of its own fetch. */
  lemma NewPage(s: State, step: Step, g: nat, pageKey: string)
    requires FreshInv(s) && g < |s.core.generations| && g < |Next(s, step).core.generations|
    requires pageKey !in s.core.generations[g].pages && pageKey in Next(s, step).core.generations[g].pages
    ensures exists d: nat :: d < |s.calls| && s.calls[d].gen == g && s.calls[d].pageKey == pageKey
              && s.calls[d].phase.Received? && d < |Next(s, step).calls| && !Next(s, step).calls[d].phase.Received?
  {
    assert step.Finish?;
  }

  lemma NoRoomStep(s: State, step: Step, c: nat)
    requires Inv(s) && c < |s.calls| && s.calls[c].gen < |s.core.generations| && NoRoom(s, c)
    ensures Hopeless(Next(s, step), c)
  {
    CallStays(s, step, c);
    GenerationSteps(s, step, s.calls[c].gen);
  }

  lemma UnreadableStep(s: State, step: Step, c: nat)
    requires Inv(s) && NoDoubleFetch(s, On(c)) && s.calls[c].gen < |s.core.generations| && Unreadable(s, c)
    ensures Hopeless(Next(s, step), c)
  {
    var s', g := Next(s, step), s.calls[c].gen;
    CallStays(s, step, c);
    forall j | 0 <= j < |s'.scans| && s'.scans[j].gen == g ensures !CanRead(s', j) {
      if CanRead(s', j) {
        NewReader(s, step, j);
      }
    }
    forall d | 0 <= d < |s'.calls| && SamePage(s'.calls[d], s'.calls[c]) ensures !s'.calls[d].registered {
      if s'.calls[d].registered {
        NewRegistered(s, step, d);
        if d < |s.calls| { CallStays(s, step, d); }
      }
    }
    if s'.calls[c].phase.Received? {
      NewReceived(s, step, c);
      if s.calls[c].pageKey in s'.core.generations[g].pages {
        NewPage(s, step, g, s.calls[c].pageKey);
      }
    }
  }

  lemma HopelessStep(s: State, step: Step, c: nat)
    requires Inv(s) && NoDoubleFetch(s, On(c)) && Hopeless(s, c)
    ensures Hopeless(Next(s, step), c)
  {
    if Dead(s, s.calls[c].gen) {
      CallStays(s, step, c);
      DeadStep(s, step, s.calls[c].gen);
    } else if NoRoom(s, c) {
      NoRoomStep(s, step, c);
    } else {
      UnreadableStep(s, step, c);
    }
  }

  lemma HopelessKeepsOnce(s: State, step: Step, c: nat)
    requires Inv(s) && NoDoubleFetch(s, On(c)) && Hopeless(s, c)
    ensures !KeepsAgain(s, step)
  {
    ChargeFits(s.core.generations, s.calls[c].gen);
  }

  lemma {:induction false} HopelessRun(s: State, c: nat, steps: seq<Step>)
    requires Inv(s) && NoDoubleFetch(s, On(c)) && Hopeless(s, c) && ChargedOnce(s) && Orderly(s, steps)
    ensures var t := RunFrom(s, steps); Inv(t) && NoDoubleFetch(t, On(c)) && Hopeless(t, c) && ChargedOnce(t)
  {
    if steps != [] {
      var before, step := RunFrom(s, steps[..|steps| - 1]), steps[|steps| - 1];
      OrderlyPrefix(s, steps);
      HopelessRun(s, c, steps[..|steps| - 1]);
      StepKeepsInv(before, step);
      NoDoubleFetchStep(before, step, On(c));
      HopelessStep(before, step, c);
      HopelessKeepsOnce(before, step, c);
      StepChargesOnceIff(before, step);
    }
  }

  lemma AbandonedFetches(s: State, step: Step)
    requires FreshInv(s) && NoDoubleFetch(s, Idle) && Abandons(s, step)
    ensures NoDoubleFetch(Next(s, step), On(s.scans[step.scan].waiting.call))
  {
  }

  /** When no other scan can read, nobody can ask for the page again. */
  lemma AbandonedUnreadable(s: State, step: Step)
    requires FreshInv(s) && NoDoubleFetch(s, Idle) && Abandons(s, step)
    requires !OtherReader(s, step.scan, s.calls[s.scans[step.scan].waiting.call].gen)
    ensures Hopeless(Next(s, step), s.scans[step.scan].waiting.call)
  {
    var c, t := s.scans[step.scan].waiting.call, Next(s, step);
    forall j | 0 <= j < |t.scans| && t.scans[j].gen == t.calls[c].gen ensures !CanRead(t, j) {
      assert j != step.scan ==> !CanRead(s, j);
    }
    assert Unreadable(t, c);
  }

  lemma AbandonedNoRoom(s: State, step: Step)
    requires FreshInv(s) && NoDoubleFetch(s, Idle) && Abandons(s, step)
    requires var c := s.scans[step.scan].waiting.call;
             s.calls[c].gen < |s.core.generations|
             && s.core.generations[s.calls[c].gen].bytes + 2 * LIGHTEST > BUFFER_LIMIT
    ensures Hopeless(Next(s, step), s.scans[step.scan].waiting.call)
  {
    var c, t := s.scans[step.scan].waiting.call, Next(s, step);
    assert t.core == s.core && s.calls[c].registered && SamePage(t.calls[c], s.calls[c]);
    assert NoRoom(t, c);
  }

  lemma AbandonedState(s: State, step: Step)
    requires Inv(s) && NoDoubleFetch(s, Idle) && ChargedOnce(s) && Abandons(s, step) && !Exposes(s, step)
    ensures var c, t := s.scans[step.scan].waiting.call, Next(s, step);
            Inv(t) && NoDoubleFetch(t, On(c)) && ChargedOnce(t) && Hopeless(t, c)
  {
    StepKeepsInv(s, step);
    StepChargesOnceIff(s, step);
    AbandonedFetches(s, step);
    if OtherReader(s, step.scan, s.calls[s.scans[step.scan].waiting.call].gen) {
      AbandonedNoRoom(s, step);
    } else {
      AbandonedUnreadable(s, step);
    }
  }

  // ----- how the charge is repeated when it can be -----

  /** Nothing that belongs to generation `g` has changed. */
  ghost predicate SameIn(s: State, t: State, g: nat) {
    && |t.core.generations| == |s.core.generations| && |t.scans| == |s.scans| && |t.calls| == |s.calls|
    && (g < |s.core.generations| ==> t.core.generations[g] == s.core.generations[g])
    && (forall i :: 0 <= i < |s.scans| ==> t.scans[i].gen == s.scans[i].gen)
    && (forall i :: 0 <= i < |s.scans| && s.scans[i].gen == g ==> t.scans[i] == s.scans[i])
    && (forall c :: 0 <= c < |s.calls| ==> SamePage(t.calls[c], s.calls[c]))
    && (forall c :: 0 <= c < |s.calls| && s.calls[c].gen == g ==> t.calls[c] == s.calls[c])
  }

  ghost predicate ReleasedStay(s: State, t: State) {
    |s.scans| <= |t.scans| && forall i :: 0 <= i < |s.scans| && s.scans[i].released ==> t.scans[i].released
  }

  /** Nobody waits for a call that was cancelled. */
  ghost predicate AwaitedIsJoinable(s: State) {
    forall k :: 0 <= k < |s.scans| ==> AwaitsJoinable(s, s.scans[k])
  }

  predicate AwaitsJoinable(s: State, scan: Scan) {
    scan.waiting.On? && scan.waiting.call < |s.calls| && Unfinished(s.calls[scan.waiting.call]) ==>
      s.calls[scan.waiting.call].registered
  }

  lemma AwaitedStep(s: State, step: Step)
    requires FreshInv(s) && AwaitedIsJoinable(s)
    ensures AwaitedIsJoinable(Next(s, step))
  {
    var s' := Next(s, step);
    forall k | 0 <= k < |s'.scans| ensures AwaitsJoinable(s', s'.scans[k]) {
      if step.Leave? && k < |s.scans| {
        assert s'.scans[k] in s'.scans;
      }
    }
  }

  lemma {:induction false} AwaitedRun(steps: seq<Step>)
    ensures AwaitedIsJoinable(Run(steps))
  {
    if steps != [] {
      AwaitedRun(steps[..|steps| - 1]);
      RunKeepsInv(steps[..|steps| - 1]);
      AwaitedStep(Run(steps[..|steps| - 1]), steps[|steps| - 1]);
    }
  }

  ghost predicate NobodyLeaves(steps: seq<Step>) {
    forall i :: 0 <= i < |steps| ==> !steps[i].Leave?
  }

  lemma {:induction false} InvRun(s: State, steps: seq<Step>)
    requires Inv(s)
    ensures Inv(RunFrom(s, steps))
  {
    if steps != [] {
      InvRun(s, steps[..|steps| - 1]);
      StepKeepsInv(RunFrom(s, steps[..|steps| - 1]), steps[|steps| - 1]);
    }
  }

  lemma RunOne(s: State, step: Step)
    ensures RunFrom(s, [step]) == Next(s, step)
  {
    assert [step][..0] == [];
    assert RunFrom(s, []) == s;
  }

  lemma RunMore(s: State, steps: seq<Step>, more: seq<Step>, step: Step)
    requires more == steps + [step]
    ensures RunFrom(s, more) == Next(RunFrom(s, steps), step)
  {
    assert more[..|steps|] == steps;
  }

  lemma FailElsewhere(s: State, call: nat, g: nat)
    requires call < |s.calls| ==> s.calls[call].gen != g
    ensures SameIn(s, Next(s, Fail(call)), g) && ReleasedStay(s, Next(s, Fail(call)))
  {
  }

  lemma DeliverElsewhere(s: State, scan: nat, g: nat)
    requires scan < |s.scans| ==> s.scans[scan].gen != g
    ensures SameIn(s, Next(s, Deliver(scan)), g) && ReleasedStay(s, Next(s, Deliver(scan)))
  {
  }

  lemma ReleaseElsewhere(s: State, scan: nat, g: nat)
    requires scan < |s.scans| ==> s.scans[scan].gen != g
    ensures SameIn(s, Next(s, Release(scan)), g) && ReleasedStay(s, Next(s, Release(scan)))
  {
  }

  lemma SameInChains(s: State, t: State, u: State, g: nat)
    requires SameIn(s, t, g) && SameIn(t, u, g) && ReleasedStay(s, t) && ReleasedStay(t, u)
    ensures SameIn(s, u, g) && ReleasedStay(s, u)
  {
  }

  /** After its call has failed and the failure was delivered, a scan can release. */
  lemma ThenReleased(s: State, i: nat, call: nat)
    requires ScansFresh(s) && i < |s.scans| && (s.scans[i].waiting.On? ==> call == s.scans[i].waiting.call)
    ensures var t := Next(Next(Next(s, Fail(call)), Deliver(i)), Release(i)); i < |t.scans| && t.scans[i].released
  {
    var failed := Next(s, Fail(call));
    var told := Next(failed, Deliver(i));
    assert failed.scans == s.scans;
    assert |told.scans| == |s.scans| && !told.scans[i].waiting.On? && told.scans[i].gen < |told.core.generations|;
  }

  /** A scan of another generation can always be made to release it. */
  lemma DrainScan(s: State, i: nat, g: nat) returns (more: seq<Step>)
    requires Inv(s) && i < |s.scans| && s.scans[i].gen != g
    ensures NobodyLeaves(more)
    ensures var t := RunFrom(s, more); SameIn(s, t, g) && ReleasedStay(s, t) && t.scans[i].released
  {
    var call := if s.scans[i].waiting.On? then s.scans[i].waiting.call else |s.calls|;
    var failed := Next(s, Fail(call));
    var told := Next(failed, Deliver(i));
    FailElsewhere(s, call, g);
    DeliverElsewhere(failed, i, g);
    ReleaseElsewhere(told, i, g);
    SameInChains(s, failed, told, g);
    SameInChains(s, told, Next(told, Release(i)), g);
    ThenReleased(s, i, call);
    more := [Fail(call), Deliver(i), Release(i)];
    RunThree(s, Fail(call), Deliver(i), Release(i));
  }

  lemma RunThree(s: State, a: Step, b: Step, c: Step)
    ensures RunFrom(s, [a, b, c]) == Next(Next(Next(s, a), b), c)
  {
    RunOne(s, a);
    RunMore(s, [a], [a, b], b);
    RunMore(s, [a, b], [a, b, c], c);
  }

  ghost predicate Drained(t: State, n: nat, g: nat) {
    forall i :: 0 <= i < n && i < |t.scans| && t.scans[i].gen != g ==> t.scans[i].released
  }

  lemma DrainedNext(t: State, u: State, n: nat, g: nat)
    requires Drained(t, n, g) && SameIn(t, u, g) && ReleasedStay(t, u) && n < |t.scans|
    requires t.scans[n].gen == g || u.scans[n].released
    ensures Drained(u, n + 1, g)
  {
  }

  lemma NobodyLeavesThen(a: seq<Step>, b: seq<Step>)
    requires NobodyLeaves(a) && NobodyLeaves(b)
    ensures NobodyLeaves(a + b)
  {
  }

  lemma SameInItself(s: State, g: nat)
    ensures SameIn(s, s, g) && ReleasedStay(s, s)
  {
  }

  ghost predicate DrainedFrom(s: State, t: State, n: nat, g: nat) {
    SameIn(s, t, g) && ReleasedStay(s, t) && Drained(t, n, g)
  }

  lemma DrainMore(s: State, t: State, n: nat, g: nat) returns (last: seq<Step>)
    requires Inv(t) && DrainedFrom(s, t, n, g) && n < |t.scans|
    ensures NobodyLeaves(last) && DrainedFrom(s, RunFrom(t, last), n + 1, g)
  {
    if t.scans[n].gen == g {
      last := [];
      SameInItself(t, g);
      DrainedNext(t, t, n, g);
    } else {
      last := DrainScan(t, n, g);
      SameInChains(s, t, RunFrom(t, last), g);
      DrainedNext(t, RunFrom(t, last), n, g);
    }
  }

  lemma {:induction false} Drain(s: State, n: nat, g: nat) returns (more: seq<Step>)
    requires Inv(s) && n <= |s.scans|
    ensures NobodyLeaves(more) && DrainedFrom(s, RunFrom(s, more), n, g)
  {
    if n == 0 {
      more := [];
      SameInItself(s, g);
    } else {
      var before := Drain(s, n - 1, g);
      InvRun(s, before);
      var last := DrainMore(s, RunFrom(s, before), n - 1, g);
      more := before + last;
      NobodyLeavesThen(before, last);
      RunOn(s, before, last);
    }
  }

  lemma {:induction false} NoneHold(scans: seq<Scan>, id: nat)
    requires forall i :: 0 <= i < |scans| && scans[i].gen == id ==> scans[i].released
    ensures Holders(scans, id) == 0
  {
    if scans != [] {
      NoneHold(scans[..|scans| - 1], id);
    }
  }

  lemma {:induction false} OnlyCharge(gs: seq<Generation>, g: nat)
    requires forall i :: 0 <= i < |gs| && i != g ==> gs[i].readers == 0
    ensures Charged(gs) == if g < |gs| then Charge(gs[g]) else 0
  {
    if gs != [] {
      OnlyCharge(gs[..|gs| - 1], g);
    }
  }

  /** When all other scans have gone, the budget is what the one generation charges. */
  lemma DrainedBudget(s: State, g: nat)
    requires Inv(s) && g < |s.core.generations|
    requires forall i :: 0 <= i < |s.scans| && s.scans[i].gen != g ==> s.scans[i].released
    ensures s.core.bytes == Charge(s.core.generations[g])
  {
    forall i: nat | i < |s.core.generations| && i != g ensures s.core.generations[i].readers == 0 {
      NoneHold(s.scans, i);
    }
    OnlyCharge(s.core.generations, g);
  }

  /** The state in which nothing but the second fetch is missing. */
  ghost predicate Poised(s: State, c: nat, j: nat) {
    && c < |s.calls| && !s.calls[c].registered && s.calls[c].phase.Received?
    && s.calls[c].gen < |s.core.generations| && s.calls[c].pageKey !in PagesOf(s, c)
    && (forall d :: 0 <= d < |s.calls| && SamePage(s.calls[d], s.calls[c]) ==> !s.calls[d].registered)
    && CanRead(s, j) && s.scans[j].gen == s.calls[c].gen && AwaitsJoinable(s, s.scans[j])
    && s.core.bytes == s.core.generations[s.calls[c].gen].bytes
    && s.core.bytes + 2 * LIGHTEST <= BUFFER_LIMIT
    && s.core.generations[s.calls[c].gen].bytes == Retained(PagesOf(s, c))
  }

  /** The end of a fetch whose page is too large to retain: as many empty rows as fill the budget. */
  function Oversized(call: nat): Step {
    Finish(call, 0x20_0000, 0x20_0000, 0x8_0000, true)
  }

  lemma OversizedIsNotKept(s: State, call: nat)
    requires s.core.bytes >= 0 && call < |s.calls| && s.calls[call].phase.Received?
    requires s.calls[call].gen < |s.core.generations|
    ensures var t := Next(s, Oversized(call));
            && t.core == s.core && t.scans == s.scans
            && t.calls == SetPhase(s, call, Done(s.calls[call].phase.began, false)).calls
  {
  }

  lemma RunFour(s: State, a: Step, b: Step, c: Step, d: Step)
    ensures RunFrom(s, [a, b, c, d]) == Next(Next(Next(Next(s, a), b), c), d)
  {
    RunThree(s, a, b, c);
    RunMore(s, [a, b, c], [a, b, c, d], d);
  }

  /** The first steps towards the end of a call: from the cache, or fetched and received. */
  lemma BeginCall(s: State, call: nat)
    requires call < |s.calls| && s.calls[call].gen < |s.core.generations| && Answerable(s.calls[call])
    requires Unfinished(s.calls[call]) ==> s.calls[call].registered
    ensures var t := Next(Next(Next(s, Fetch(call, Idle)), ServeCached(call)), Receive(call));
            && t.core == s.core && t.scans == s.scans && OnlyCall(s, t, call) && Answerable(t.calls[call])
            && (t.calls[call].phase.Received? || t.calls[call].phase.Done?)
  {
    var a := Next(s, Fetch(call, Idle));
    var b := Next(a, ServeCached(call));
    assert a.core == s.core && a.scans == s.scans && OnlyCall(s, a, call);
    assert b.core == s.core && b.scans == s.scans && OnlyCall(s, b, call);
  }

  /** No other call has changed, and this one is still for the same page. */
  ghost predicate OnlyCall(s: State, t: State, call: nat) {
    && call < |s.calls| && |t.calls| == |s.calls| && SamePage(t.calls[call], s.calls[call])
    && (t.calls[call].registered ==> s.calls[call].registered)
    && forall d :: 0 <= d < |s.calls| && d != call ==> t.calls[d] == s.calls[d]
  }

  lemma SettlePhase(s: State, call: nat) returns (more: seq<Step>)
    requires Inv(s) && call < |s.calls| && Answerable(s.calls[call])
    requires Unfinished(s.calls[call]) ==> s.calls[call].registered
    ensures NobodyLeaves(more)
    ensures var t := RunFrom(s, more);
            && t.core == s.core && t.scans == s.scans && OnlyCall(s, t, call)
            && t.calls[call].phase.Done? && !t.calls[call].phase.refused
  {
    more := [Fetch(call, Idle), ServeCached(call), Receive(call), Oversized(call)];
    RunFour(s, Fetch(call, Idle), ServeCached(call), Receive(call), Oversized(call));
    BeginCall(s, call);
    ChargedNonNegative(s.core.generations);
    var t := Next(Next(Next(s, Fetch(call, Idle)), ServeCached(call)), Receive(call));
    if t.calls[call].phase.Received? {
      OversizedIsNotKept(t, call);
    }
  }

  lemma ReadyUp(s: State, c: nat, j: nat) returns (more: seq<Step>)
    requires Inv(s) && Poised(s, c, j)
    ensures NobodyLeaves(more)
    ensures var t := RunFrom(s, more); Inv(t) && Poised(t, c, j) && t.scans[j].waiting.Idle?
  {
    if s.scans[j].waiting.Idle? {
      more := [];
    } else {
      var call := s.scans[j].waiting.call;
      var settle := SettlePhase(s, call);
      var t := RunFrom(s, settle);
      more := settle + [Deliver(j)];
      RunOn(s, settle, [Deliver(j)]);
      RunOne(t, Deliver(j));
      InvRun(s, more);
      DeliveredStaysPoised(s, t, c, j);
    }
  }

  /** What the scan waited for has been answered and delivered. */
  lemma DeliveredStaysPoised(s: State, t: State, c: nat, j: nat)
    requires Poised(s, c, j) && s.scans[j].waiting.On?
    requires t.core == s.core && t.scans == s.scans && OnlyCall(s, t, s.scans[j].waiting.call)
    requires t.calls[s.scans[j].waiting.call].phase.Done? && !t.calls[s.scans[j].waiting.call].phase.refused
    ensures Poised(Next(t, Deliver(j)), c, j) && Next(t, Deliver(j)).scans[j].waiting.Idle?
  {
    var u := Next(t, Deliver(j));
    assert u.calls == t.calls && u.core == t.core;
  }

  /** The lightest page arrives whole. */
  function Lightest(call: nat): Step {
    Finish(call, EMPTY_LIST, EMPTY_LIST, 0, true)
  }

  /** The orphan and its successor both finish. */
  lemma FinishBoth(s: State, c: nat, d: nat)
    requires Inv(s) && c < |s.calls| && d < |s.calls| && c != d && SamePage(s.calls[c], s.calls[d])
    requires Live(s, c) && Live(s, d) && s.calls[c].phase.Received? && s.calls[d].phase.Received?
    requires s.calls[c].pageKey !in PagesOf(s, c) && s.core.generations[s.calls[c].gen].readers > 0
    requires s.core.bytes + 2 * LIGHTEST <= BUFFER_LIMIT
    requires s.core.generations[s.calls[c].gen].bytes == Retained(PagesOf(s, c))
    ensures !ChargedOnce(Next(Next(s, Lightest(d)), Lightest(c)))
  {
    var g, key := s.calls[c].gen, s.calls[c].pageKey;
    var x := Page(EMPTY_LIST, EMPTY_LIST, 0, s.calls[d].phase.began);
    var y := Page(EMPTY_LIST, EMPTY_LIST, 0, s.calls[c].phase.began);
    var pages := PagesOf(s, c);
    var once := Next(s, Lightest(d));
    var twice := Next(once, Lightest(c));
    assert once.core.generations[g].pages == pages[key := x] && once.core.generations[g].readers > 0;
    assert once.core.generations[g].bytes == Retained(pages) + LIGHTEST && once.core.bytes == s.core.bytes + LIGHTEST;
    assert twice.core.generations[g].pages == pages[key := x][key := y];
    assert twice.core.generations[g].bytes == Retained(pages) + 2 * LIGHTEST;
    RetainedAfterKeep(pages, key, y);
    assert pages[key := x][key := y] == pages[key := y];
  }

  lemma FetchAgain(s: State, c: nat, j: nat)
    requires Inv(s) && Poised(s, c, j) && s.scans[j].waiting.Idle?
    ensures var d := |s.calls|;
            var t := Next(Next(Next(s, Join(j, s.calls[c].pageKey)), Fetch(d, Idle)), Receive(d));
            && t.core == s.core && |t.calls| == d + 1 && t.calls[c] == s.calls[c] && SamePage(t.calls[d], s.calls[c])
            && t.calls[d].phase.Received?
  {
    var key, d := s.calls[c].pageKey, |s.calls|;
    var found := FindCall(s.calls, s.scans[j].gen, key);
    assert found.Idle?;
    var a := Next(s, Join(j, key));
    assert a.calls == s.calls + [Call(s.scans[j].gen, key, true, Queued)] && a.core == s.core;
    var b := Next(a, Fetch(d, Idle));
    assert b.calls[d].phase.Fetching? && b.calls[d].registered && b.core == s.core;
  }

  /** From there: ask for the page, fetch it, and let both fetches finish. */
  lemma RepeatCharge(s: State, c: nat, j: nat) returns (more: seq<Step>)
    requires Inv(s) && Poised(s, c, j) && s.scans[j].waiting.Idle?
    ensures NobodyLeaves(more) && !ChargedOnce(RunFrom(s, more))
  {
    var key, d := s.calls[c].pageKey, |s.calls|;
    var first, last := [Join(j, key), Fetch(d, Idle), Receive(d)], [Lightest(d), Lightest(c)];
    FetchAgain(s, c, j);
    RunThree(s, Join(j, key), Fetch(d, Idle), Receive(d));
    var t := RunFrom(s, first);
    InvRun(s, first);
    HolderCounts(s.scans, j);
    FinishBoth(t, c, d);
    more := first + last;
    RunOn(s, first, last);
    RunOne(t, last[0]);
    assert last[..1] == [last[0]];
  }

  // ----- the exact condition -----

  lemma ExposedCall(s: State, step: Step, j: nat)
    requires Inv(s) && NoDoubleFetch(s, Idle) && Exposes(s, step)
    requires j != step.scan && CanRead(s, j) && s.scans[j].gen == s.calls[s.scans[step.scan].waiting.call].gen
    ensures var c, t := s.scans[step.scan].waiting.call, Next(s, step);
            && t.core == s.core && |t.scans| == |s.scans| && t.scans[j] == s.scans[j] && CanRead(t, j)
            && |t.calls| == |s.calls| && SamePage(t.calls[c], s.calls[c]) && t.calls[c].phase.Received?
            && t.calls[c].pageKey !in PagesOf(t, c)
            && forall d :: 0 <= d < |t.calls| && SamePage(t.calls[d], t.calls[c]) ==> !t.calls[d].registered
  {
  }

  /** The other scans can be made to go, which leaves an exposed call poised. */
  lemma PoiseDrained(s: State, t: State, c: nat, j: nat)
    requires Inv(t) && c < |s.calls| && s.calls[c].gen < |s.core.generations|
    requires SameIn(s, t, s.calls[c].gen) && Drained(t, |t.scans|, s.calls[c].gen)
    requires CanRead(s, j) && s.scans[j].gen == s.calls[c].gen && AwaitsJoinable(s, s.scans[j])
    requires s.scans[j].waiting.On? ==> WaitsInOwnGeneration(s, s.scans[j])
    requires s.calls[c].phase.Received? && s.calls[c].pageKey !in PagesOf(s, c)
    requires forall d :: 0 <= d < |s.calls| && SamePage(s.calls[d], s.calls[c]) ==> !s.calls[d].registered
    requires s.core.generations[s.calls[c].gen].bytes + 2 * LIGHTEST <= BUFFER_LIMIT
    requires s.core.generations[s.calls[c].gen].bytes == Retained(PagesOf(s, c))
    ensures Poised(t, c, j)
  {
    var g := s.calls[c].gen;
    DrainedBudget(t, g);
    assert t.scans[j] == s.scans[j] && t.calls[c] == s.calls[c];
    HolderCounts(t.scans, j);
  }

  lemma ExposedIsRepeated(s: State, step: Step) returns (more: seq<Step>)
    requires Inv(s) && NoDoubleFetch(s, Idle) && ChargedOnce(s) && AwaitedIsJoinable(s) && Exposes(s, step)
    ensures NobodyLeaves(more) && !ChargedOnce(RunFrom(Next(s, step), more))
  {
    var c, t := s.scans[step.scan].waiting.call, Next(s, step);
    var g := s.calls[c].gen;
    var j: nat :| j != step.scan && CanRead(s, j) && s.scans[j].gen == g;
    ExposedCall(s, step, j);
    StepKeepsInv(s, step);
    AwaitedStep(s, step);
    var drain := Drain(t, |t.scans|, g);
    var u := RunFrom(t, drain);
    InvRun(t, drain);
    PoiseDrained(t, u, c, j);
    var ready := ReadyUp(u, c, j);
    var last := RepeatCharge(RunFrom(u, ready), c, j);
    more := drain + (ready + last);
    NobodyLeavesThen(ready, last);
    NobodyLeavesThen(drain, ready + last);
    RunOn(t, drain, ready + last);
    RunOn(u, ready, last);
  }

  /** After this step, without a call being abandoned again, some page can be charged twice. */
  ghost predicate Repeatable(s: State, step: Step) {
    exists more :: Orderly(Next(s, step), more) && !ChargedOnce(RunFrom(Next(s, step), more))
  }

  /** In a run that has abandoned no call whose page had arrived, a step makes a double charge possible exactly when
      it abandons such a call, another scan of the generation can still read, and there is room for two pages. */
  lemma DoubleChargeIff(steps: seq<Step>, step: Step)
    requires Orderly(Run([]), steps)
    ensures Repeatable(Run(steps), step) <==> Exposes(Run(steps), step)
  {
    var s := Run(steps);
    var t := Next(s, step);
    ChargedOnceUnlessAbandoned(steps);
    if Exposes(s, step) {
      AwaitedRun(steps);
      var more := ExposedIsRepeated(s, step);
      assert Orderly(t, more);
    } else {
      forall more | Orderly(t, more) ensures ChargedOnce(RunFrom(t, more)) {
        UnexposedStaysOnce(s, step, more);
      }
    }
  }

  lemma UnexposedStaysOnce(s: State, step: Step, more: seq<Step>)
    requires Inv(s) && NoDoubleFetch(s, Idle) && ChargedOnce(s) && !Exposes(s, step) && Orderly(Next(s, step), more)
    ensures ChargedOnce(RunFrom(Next(s, step), more))
  {
    var t := Next(s, step);
    if Abandons(s, step) {
      AbandonedState(s, step);
      HopelessRun(t, s.scans[step.scan].waiting.call, more);
    } else {
      StepKeepsInv(s, step);
      NoDoubleFetchStep(s, step, Idle);
      MissingIsKeptOnce(s, step);
      StepChargesOnceIff(s, step);
      OrderlyRun(t, more);
    }
  }
}
