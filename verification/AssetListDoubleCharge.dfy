/** Whether a retained page is charged to the budget once: exactly when an abandoned fetch can be repeated. */
module AssetListDoubleCharge {
  import opened AssetListPages
  import opened AssetListPageRuns

  ghost predicate ChargedOnce(s: State) {
    forall i :: 0 <= i < |s.core.generations| ==> s.core.generations[i].bytes == Retained(s.core.generations[i].pages)
  }

  /** The last scan that waits for a call walks away from it when its page has arrived and is being parsed: too late
      to cancel. A call abandoned any earlier is cancelled, and retains nothing. */
  predicate Abandons(s: State, step: Step) {
    && step.Leave? && step.scan < |s.scans| && s.scans[step.scan].waiting.On?
    && var call := s.scans[step.scan].waiting.call;
    call < |s.calls| && s.calls[call].phase.Received? && !Awaited(StopWaiting(s, step.scan).scans, call)
  }

  // ----- one fetch for each page, but for an orphaned call -----

  /** `x` is the call that was abandoned, if any; every other call can be joined while its page is parsed. */
  ghost predicate JoinableWhileParsed(s: State, x: Waiting) {
    && (forall c :: 0 <= c < |s.calls| && s.calls[c].registered ==> Unfinished(s.calls[c]))
    && (forall c :: 0 <= c < |s.calls| && x != On(c) && s.calls[c].phase.Received? ==> s.calls[c].registered)
    && (x.On? ==> x.call < |s.calls| && !s.calls[x.call].registered)
  }

  ghost predicate OneCallPerPage(s: State) {
    forall c, d :: 0 <= c < d < |s.calls| && s.calls[c].registered && s.calls[d].registered ==>
      s.calls[c].gen != s.calls[d].gen || s.calls[c].pageKey != s.calls[d].pageKey
  }

  predicate SamePage(a: Call, b: Call) {
    a.gen == b.gen && a.pageKey == b.pageKey
  }

  predicate OnOrphansPage(s: State, c: nat, x: Waiting)
    requires c < |s.calls|
  {
    x.On? && x.call < |s.calls| && SamePage(s.calls[c], s.calls[x.call])
  }

  /** A call that fetches or parses a page, and was not cancelled, does so because the page is not retained. */
  ghost predicate FetchesOnlyMissing(s: State, x: Waiting) {
    forall c :: 0 <= c < |s.calls| && s.calls[c].registered && !s.calls[c].phase.Queued? && !OnOrphansPage(s, c, x) ==>
      s.calls[c].gen < |s.core.generations| ==> s.calls[c].pageKey !in s.core.generations[s.calls[c].gen].pages
  }

  /** No page is stored twice in a generation, but perhaps the orphan's. */
  ghost predicate NoDoubleFetch(s: State, x: Waiting) {
    JoinableWhileParsed(s, x) && OneCallPerPage(s) && FetchesOnlyMissing(s, x)
  }

  ghost predicate PagesOnlyShrink(s: State, s': State) {
    && |s.core.generations| <= |s'.core.generations|
    && forall i :: 0 <= i < |s.core.generations| ==>
         s'.core.generations[i].pages.Keys <= s.core.generations[i].pages.Keys
  }

  lemma QuietStep(s: State, s': State, x: Waiting)
    requires FreshInv(s) && NoDoubleFetch(s, x) && s'.calls == s.calls && PagesOnlyShrink(s, s')
    ensures NoDoubleFetch(s', x)
  {
  }

  /** A live call moves on; only an uncancelled one fetches or parses, and only a page that is not retained. */
  lemma PhaseStep(s: State, call: nat, phase: Phase, x: Waiting)
    requires FreshInv(s) && NoDoubleFetch(s, x) && Live(s, call) && !phase.Queued?
    requires phase.Fetching? || phase.Received? ==> s.calls[call].registered
    requires phase.Fetching? ==> s.calls[call].pageKey !in s.core.generations[s.calls[call].gen].pages
    requires phase.Received? ==> s.calls[call].phase.Fetching?
    ensures NoDoubleFetch(SetPhase(s, call, phase), x)
  {
  }

  lemma FinishStep(s: State, step: Step, x: Waiting)
    requires FreshInv(s) && NoDoubleFetch(s, x) && step.Finish?
    ensures NoDoubleFetch(Next(s, step), x)
  {
    var s' := Next(s, step);
    if s'.calls != s.calls {
      var c := s.calls[step.call];
      var done := SetPhase(s, step.call, Done(c.phase.began, !step.keep));
      PhaseStep(s, step.call, Done(c.phase.began, !step.keep), x);
      StoreStep(done, s', c.gen, c.pageKey, x);
    } else {
      QuietStep(s, s', x);
    }
  }

  /** A generation gains a page that no uncancelled call fetches or parses. */
  lemma StoreStep(s: State, s': State, g: nat, pageKey: string, x: Waiting)
    requires NoDoubleFetch(s, x) && s'.calls == s.calls && |s'.core.generations| == |s.core.generations|
    requires forall i :: 0 <= i < |s.core.generations| ==>
               s'.core.generations[i].pages.Keys <=
                 s.core.generations[i].pages.Keys + (if i == g then {pageKey} else {})
    requires forall d :: 0 <= d < |s.calls| && s.calls[d].gen == g && s.calls[d].pageKey == pageKey ==>
               !s.calls[d].registered || OnOrphansPage(s, d, x)
    ensures NoDoubleFetch(s', x)
  {
  }

  lemma JoinStep(s: State, scan: nat, pageKey: string, x: Waiting)
    requires FreshInv(s) && NoDoubleFetch(s, x)
    ensures NoDoubleFetch(Next(s, Join(scan, pageKey)), x)
  {
    var s' := Next(s, Join(scan, pageKey));
    if |s'.calls| == |s.calls| {
      QuietStep(s, s', x);
    } else {
      NewCallStep(s, s', x);
    }
  }

  /** A new call, queued for a page that no other call can be joined for. */
  lemma NewCallStep(s: State, s': State, x: Waiting)
    requires FreshInv(s) && NoDoubleFetch(s, x) && s'.core == s.core && |s'.calls| == |s.calls| + 1
    requires forall c :: 0 <= c < |s.calls| ==> s'.calls[c] == s.calls[c]
    requires var last := s'.calls[|s.calls|];
             && last.registered && last.phase.Queued?
             && forall c :: 0 <= c < |s.calls| && SamePage(s.calls[c], last) ==> !s.calls[c].registered
    ensures NoDoubleFetch(s', x)
  {
  }

  lemma QuietStepShrinks(s: State, step: Step)
    requires FreshInv(s)
    requires step.Acquire? || step.Start? || step.Hit? || step.Deliver? || step.Release?
    ensures PagesOnlyShrink(s, Next(s, step)) && Next(s, step).calls == s.calls
  {
  }

  /** Cancelling a call that is not parsing yet. */
  lemma LeaveStep(s: State, scan: nat, x: Waiting)
    requires FreshInv(s) && NoDoubleFetch(s, x) && !Abandons(s, Leave(scan))
    ensures NoDoubleFetch(Next(s, Leave(scan)), x)
  {
  }

  lemma ServeCachedStep(s: State, call: nat, x: Waiting)
    requires FreshInv(s) && NoDoubleFetch(s, x)
    ensures NoDoubleFetch(Next(s, ServeCached(call)), x)
  {
    var s' := Next(s, ServeCached(call));
    if s'.calls != s.calls {
      PhaseStep(s, call, s'.calls[call].phase, x);
    }
  }

  lemma FetchStep(s: State, call: nat, share: Waiting, x: Waiting)
    requires FreshInv(s) && NoDoubleFetch(s, x)
    ensures NoDoubleFetch(Next(s, Fetch(call, share)), x)
  {
    var s' := Next(s, Fetch(call, share));
    if s'.calls != s.calls {
      PhaseStep(s, call, s'.calls[call].phase, x);
    }
  }

  lemma ReceiveStep(s: State, call: nat, x: Waiting)
    requires FreshInv(s) && NoDoubleFetch(s, x)
    ensures NoDoubleFetch(Next(s, Receive(call)), x)
  {
    var s' := Next(s, Receive(call));
    if s'.calls != s.calls {
      PhaseStep(s, call, s'.calls[call].phase, x);
    }
  }

  lemma FailStep(s: State, call: nat, x: Waiting)
    requires FreshInv(s) && NoDoubleFetch(s, x)
    ensures NoDoubleFetch(Next(s, Fail(call)), x)
  {
    var s' := Next(s, Fail(call));
    if s'.calls != s.calls {
      PhaseStep(s, call, s'.calls[call].phase, x);
    }
  }

  lemma NoDoubleFetchStep(s: State, step: Step, x: Waiting)
    requires FreshInv(s) && NoDoubleFetch(s, x) && !Abandons(s, step)
    ensures NoDoubleFetch(Next(s, step), x)
  {
    if step.Finish? {
      FinishStep(s, step, x);
    } else if step.Join? {
      JoinStep(s, step.scan, step.pageKey, x);
    } else if step.ServeCached? {
      ServeCachedStep(s, step.call, x);
    } else if step.Fetch? {
      FetchStep(s, step.call, step.share, x);
    } else if step.Receive? {
      ReceiveStep(s, step.call, x);
    } else if step.Fail? {
      FailStep(s, step.call, x);
    } else if step.Leave? {
      LeaveStep(s, step.scan, x);
    } else {
      QuietStepShrinks(s, step);
      QuietStep(s, Next(s, step), x);
    }
  }

  /** Each generation's charge and pages are as before, or it is (again) empty. */
  ghost predicate SameCharge(s: State, s': State) {
    forall i :: 0 <= i < |s'.core.generations| ==>
      var g := s'.core.generations[i];
      || (g.pages == map[] && g.bytes == 0)
      || (i < |s.core.generations| && g.pages == s.core.generations[i].pages && g.bytes == s.core.generations[i].bytes)
  }

  lemma OtherStepSameCharge(s: State, step: Step)
    requires !step.Finish?
    ensures SameCharge(s, Next(s, step))
  {
  }

  lemma SameChargeKeepsOnce(s: State, s': State)
    requires ChargedOnce(s) && SameCharge(s, s')
    ensures ChargedOnce(s')
  {
  }

  /** The page is stored by this step although it is already retained. */
  ghost predicate KeepsAgain(s: State, step: Step) {
    && step.Finish? && step.keep && Live(s, step.call) && s.calls[step.call].phase.Received?
    && step.body >= EMPTY_LIST && step.items >= EMPTY_LIST
    && var c, g := s.calls[step.call], s.core.generations[s.calls[step.call].gen];
    c.pageKey in g.pages && g.readers > 0
    && s.core.bytes + Weight(Page(step.body, step.items, step.rows, 0)) <= BUFFER_LIMIT
  }

  /** A step keeps the charges exact exactly when it does not store a retained page again. */
  lemma StepChargesOnceIff(s: State, step: Step)
    requires ChargedOnce(s)
    ensures ChargedOnce(Next(s, step)) <==> !KeepsAgain(s, step)
  {
    if step.Finish? && Live(s, step.call) && s.calls[step.call].phase.Received? && step.keep
       && step.body >= EMPTY_LIST && step.items >= EMPTY_LIST {
      var c := s.calls[step.call];
      var page := Page(step.body, step.items, step.rows, c.phase.began);
      RetainedAfterKeep(s.core.generations[c.gen].pages, c.pageKey, page);
      if KeepsAgain(s, step) {
        var g := Next(s, step).core.generations[c.gen];
        assert g.bytes == s.core.generations[c.gen].bytes + Weight(page);
        assert g.bytes != Retained(g.pages);
      }
    } else if !step.Finish? {
      OtherStepSameCharge(s, step);
      SameChargeKeepsOnce(s, Next(s, step));
    }
  }

  // ----- runs -----

  function RunFrom(s: State, steps: seq<Step>): State {
    if steps == [] then s else Next(RunFrom(s, steps[..|steps| - 1]), steps[|steps| - 1])
  }

  lemma {:induction false} RunIsRunFrom(steps: seq<Step>)
    ensures Run(steps) == RunFrom(Run([]), steps)
  {
    if steps != [] {
      RunIsRunFrom(steps[..|steps| - 1]);
    }
  }

  lemma {:induction false} RunOn(s: State, a: seq<Step>, b: seq<Step>)
    ensures RunFrom(s, a + b) == RunFrom(RunFrom(s, a), b)
  {
    if b == [] {
      assert a + b == a;
    } else {
      RunOn(s, a, b[..|b| - 1]);
      assert (a + b)[..|a + b| - 1] == a + b[..|b| - 1];
    }
  }

  /** No step of the run abandons a call whose page has arrived. */
  ghost predicate Orderly(s: State, steps: seq<Step>) {
    forall i :: 0 <= i < |steps| ==> !Abandons(RunFrom(s, steps[..i]), steps[i])
  }

  lemma OrderlyPrefix(s: State, steps: seq<Step>)
    requires steps != [] && Orderly(s, steps)
    ensures Orderly(s, steps[..|steps| - 1]) && !Abandons(RunFrom(s, steps[..|steps| - 1]), steps[|steps| - 1])
  {
    var before := steps[..|steps| - 1];
    forall i | 0 <= i < |before| ensures !Abandons(RunFrom(s, before[..i]), before[i]) {
      assert before[..i] == steps[..i] && before[i] == steps[i];
    }
  }

  lemma MissingIsKeptOnce(s: State, step: Step)
    requires NoDoubleFetch(s, Idle)
    ensures !KeepsAgain(s, step)
  {
  }

  lemma {:induction false} OrderlyRun(s: State, steps: seq<Step>)
    requires Inv(s) && NoDoubleFetch(s, Idle) && ChargedOnce(s) && Orderly(s, steps)
    ensures var t := RunFrom(s, steps); Inv(t) && NoDoubleFetch(t, Idle) && ChargedOnce(t)
  {
    if steps != [] {
      var before, step := RunFrom(s, steps[..|steps| - 1]), steps[|steps| - 1];
      OrderlyPrefix(s, steps);
      OrderlyRun(s, steps[..|steps| - 1]);
      StepKeepsInv(before, step);
      NoDoubleFetchStep(before, step, Idle);
      MissingIsKeptOnce(before, step);
      StepChargesOnceIff(before, step);
    }
  }

  /** As long as no such call is abandoned, no page is stored twice and every generation charges exactly what it
      retains. */
  lemma ChargedOnceUnlessAbandoned(steps: seq<Step>)
    requires Orderly(Run([]), steps)
    ensures Inv(Run(steps)) && NoDoubleFetch(Run(steps), Idle) && ChargedOnce(Run(steps))
  {
    RunKeepsInv([]);
    OrderlyRun(Run([]), steps);
    RunIsRunFrom(steps);
  }

  // ----- a run that charges a page twice -----

  lemma RunSnoc(steps: seq<Step>, step: Step)
    ensures Run(steps + [step]) == Next(Run(steps), step)
  {
    assert (steps + [step])[..|steps|] == steps;
  }

  ghost predicate Reachable(s: State) {
    exists steps :: Run(steps) == s
  }

  lemma ReachNext(s: State, step: Step)
    requires Reachable(s)
    ensures Reachable(Next(s, step))
  {
    var steps :| Run(steps) == s;
    RunSnoc(steps, step);
  }

  const OPEN := Core(map["k" := 0], 0, [Generation("k", 2, 0, 60, false, map[])])

  const SHARED := Core(map["k" := 0], 0, [Generation("k", 2, 0, 60, true, map[])])

  const TWO_SCANS := State(OPEN, [Scan(0, 0, false, Idle), Scan(0, 1, false, Idle)], [], [], 2)

  lemma TwoScansShare()
    ensures Reachable(TWO_SCANS)
  {
    assert Run([]) == State(Core(map[], 0, []), [], [], [], 0);
    ReachNext(Run([]), Acquire("k", 0, 60));
    var one := Next(Run([]), Acquire("k", 0, 60));
    ReachNext(one, Acquire("k", 0, 60));
    assert Next(one, Acquire("k", 0, 60)) == TWO_SCANS;
  }

  const ONE_QUEUED :=
    State(SHARED, [Scan(0, 0, false, On(0)), Scan(0, 1, false, Idle)], [Call(0, "p", true, Queued)], [], 4)

  lemma FirstScanJoins()
    ensures Reachable(ONE_QUEUED)
  {
    TwoScansShare();
    ReachNext(TWO_SCANS, Start(0));
    var started := Next(TWO_SCANS, Start(0));
    assert started == TWO_SCANS.(core := SHARED, time := 3);
    ReachNext(started, Join(0, "p"));
    assert Next(started, Join(0, "p")) == ONE_QUEUED;
  }

  const ONE_RECEIVED :=
    State(SHARED, [Scan(0, 0, false, On(0)), Scan(0, 1, false, Idle)], [Call(0, "p", true, Received(4))], [], 6)

  lemma FirstScanFetches()
    ensures Reachable(ONE_RECEIVED)
  {
    FirstScanJoins();
    ReachNext(ONE_QUEUED, Fetch(0, Idle));
    var fetching := Next(ONE_QUEUED, Fetch(0, Idle));
    ReachNext(fetching, Receive(0));
    assert Next(fetching, Receive(0)) == ONE_RECEIVED;
  }

  const WALKED_AWAY :=
    State(SHARED, [Scan(0, 0, false, Quit), Scan(0, 1, false, Idle)], [Call(0, "p", false, Received(4))], [], 7)

  lemma FirstScanLeaves()
    ensures Reachable(WALKED_AWAY)
  {
    FirstScanFetches();
    ReachNext(ONE_RECEIVED, Leave(0));
    assert Next(ONE_RECEIVED, Leave(0)) == WALKED_AWAY;
  }

  const ASKED_AGAIN :=
    State(SHARED, [Scan(0, 0, false, Quit), Scan(0, 1, false, On(1))],
          [Call(0, "p", false, Received(4)), Call(0, "p", true, Queued)], [], 8)

  lemma SecondScanJoins()
    ensures Reachable(ASKED_AGAIN)
  {
    FirstScanLeaves();
    ReachNext(WALKED_AWAY, Join(1, "p"));
    assert Next(WALKED_AWAY, Join(1, "p")) == ASKED_AGAIN;
  }

  const BOTH_RECEIVED :=
    State(SHARED, [Scan(0, 0, false, Quit), Scan(0, 1, false, On(1))],
          [Call(0, "p", false, Received(4)), Call(0, "p", true, Received(8))], [], 10)

  lemma SecondScanFetchesAgain()
    ensures Reachable(BOTH_RECEIVED)
  {
    SecondScanJoins();
    ReachNext(ASKED_AGAIN, Fetch(1, Idle));
    var fetching := Next(ASKED_AGAIN, Fetch(1, Idle));
    ReachNext(fetching, Receive(1));
    assert Next(fetching, Receive(1)) == BOTH_RECEIVED;
  }

  lemma SecondFetchIsChargedToo()
    ensures var once := Next(BOTH_RECEIVED, Finish(0, 2, 2, 0, true));
            Next(once, Finish(1, 2, 2, 0, true)).core.generations ==
              [Generation("k", 2, 8200, 60, true, map["p" := Page(2, 2, 0, 8)])]
  {
    var once := Next(BOTH_RECEIVED, Finish(0, 2, 2, 0, true));
    assert once.core.generations == [Generation("k", 2, 4100, 60, true, map["p" := Page(2, 2, 0, 4)])];
    var twice := Next(once, Finish(1, 2, 2, 0, true)).core.generations;
    assert twice[0].pages == map["p" := Page(2, 2, 0, 8)];
  }

  /** An abandoned fetch can be charged again by the fetch that replaced it: 8200 bytes for one 4100-byte page. */
  lemma AbandonedFetchIsChargedTwice()
    ensures exists s: State :: Reachable(s) && |s.core.generations| == 1
              && s.core.generations[0].bytes == 8200 && Retained(s.core.generations[0].pages) == 4100
  {
    SecondScanFetchesAgain();
    SecondFetchIsChargedToo();
    ReachNext(BOTH_RECEIVED, Finish(0, 2, 2, 0, true));
    var once := Next(BOTH_RECEIVED, Finish(0, 2, 2, 0, true));
    ReachNext(once, Finish(1, 2, 2, 0, true));
    var pages := map["p" := Page(2, 2, 0, 8)];
    RetainedSplit(pages, "p");
    assert pages - {"p"} == map[];
  }
}
