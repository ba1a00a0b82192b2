/** Every interleaving of list scans over the shared page generations, including fetches that
    outlive the scans that asked for them. */
module AssetListPageRuns {
  import opened AssetListPages

  /** The length of the shortest list, "[]". */
  const EMPTY_LIST: nat := 2

  /** A scan whose last read was cancelled, failed or refused reads no more; it only releases its generation. */
  datatype Waiting = Idle | On(call: nat) | Quit

  /** A scan holds one generation from Acquire to Release. */
  datatype Scan = Scan(gen: nat, acquired: nat, released: bool, waiting: Waiting)

  /** A shared call: queued, fetching since `began`, parsing what arrived, or done with that page; the supplier may
      have refused, and then nothing is retained. */
  datatype Phase = Queued | Fetching(began: nat) | Received(began: nat) | Done(began: nat, refused: bool) | Failed

  /** `registered` calls can still be joined under their page key; an unfinished call that is not has been cancelled. */
  datatype Call = Call(gen: nat, pageKey: string, registered: bool, phase: Phase)

  /** A page handed to a scan: when the scan acquired its generation, when the fetch began. */
  datatype Served = Served(acquired: nat, began: nat)

  datatype State = State(core: Core, scans: seq<Scan>, calls: seq<Call>, served: seq<Served>, time: nat)

  datatype Step =
    | Acquire(key: string, wall: int, timeout: int)
    | Start(scan: nat)
    | Hit(scan: nat, pageKey: string)
    | Join(scan: nat, pageKey: string)
    | ServeCached(call: nat)
    | Fetch(call: nat, share: Waiting)
    | Receive(call: nat)
    | Finish(call: nat, body: nat, items: nat, rows: nat, keep: bool)
    | Fail(call: nat)
    | Deliver(scan: nat)
    | Leave(scan: nat)
    | Release(scan: nat)

  predicate Unfinished(c: Call) { c.phase.Queued? || c.phase.Fetching? || c.phase.Received? }

  /** The call a reader of this page would join. */
  function FindCall(calls: seq<Call>, gen: nat, pageKey: string): (w: Waiting)
    ensures w.On? ==>
              && w.call < |calls| && calls[w.call].registered
              && calls[w.call].gen == gen && calls[w.call].pageKey == pageKey
    ensures !w.On? ==> w.Idle? && forall c :: c in calls && c.gen == gen && c.pageKey == pageKey ==> !c.registered
  {
    if calls == [] then Idle
    else
      var n := |calls| - 1;
      if calls[n].gen == gen && calls[n].pageKey == pageKey && calls[n].registered then On(n)
      else FindCall(calls[..n], gen, pageKey)
  }

  predicate Ready(s: State, scan: nat) {
    && scan < |s.scans| && !s.scans[scan].released && s.scans[scan].waiting.Idle?
    && s.scans[scan].gen < |s.core.generations|
  }

  predicate Releasable(s: State, scan: nat) {
    && scan < |s.scans| && !s.scans[scan].released && !s.scans[scan].waiting.On?
    && s.scans[scan].gen < |s.core.generations|
  }

  predicate Reading(s: State, scan: nat) {
    Ready(s, scan) && s.core.generations[s.scans[scan].gen].started
  }

  predicate Live(s: State, call: nat) {
    call < |s.calls| && Unfinished(s.calls[call]) && s.calls[call].gen < |s.core.generations|
  }

  predicate Awaited(scans: seq<Scan>, call: nat) {
    exists scan :: scan in scans && scan.waiting == On(call)
  }

  function SetPhase(s: State, call: nat, phase: Phase): State
    requires call < |s.calls|
  {
    s.(calls := s.calls[call := s.calls[call].(phase := phase,
                             registered := s.calls[call].registered && (phase.Fetching? || phase.Received?))])
  }

  function Serve(s: State, scan: nat, began: nat, after: Waiting): State
    requires scan < |s.scans|
  {
    s.(served := s.served + [Served(s.scans[scan].acquired, began)],
       scans := s.scans[scan := s.scans[scan].(waiting := after)])
  }

  function StopWaiting(s: State, scan: nat): State
    requires scan < |s.scans|
  {
    s.(scans := s.scans[scan := s.scans[scan].(waiting := Quit)])
  }

  /** What an enabled step does; the clock is advanced by Next. */
  function Effect(s: State, step: Step): State {
    match step
    case Acquire(key, wall, timeout) =>
      var (core, id) := AcquireSpec(s.core, key, wall, timeout);
      s.(core := core, scans := s.scans + [Scan(id, s.time, false, Idle)])
    case Start(scan) =>
      if Ready(s, scan) then s.(core := StartSpec(s.core, s.scans[scan].gen)) else s
    case Hit(scan, pageKey) =>
      if Reading(s, scan) && pageKey in s.core.generations[s.scans[scan].gen].pages then
        Serve(s, scan, s.core.generations[s.scans[scan].gen].pages[pageKey].began, Idle)
      else s
    case Join(scan, pageKey) =>
      if Reading(s, scan) then
        var found := FindCall(s.calls, s.scans[scan].gen, pageKey);
        if found.On? then s.(scans := s.scans[scan := s.scans[scan].(waiting := found)])
        else s.(scans := s.scans[scan := s.scans[scan].(waiting := On(|s.calls|))],
                calls := s.calls + [Call(s.scans[scan].gen, pageKey, true, Queued)])
      else s
    case ServeCached(call) =>
      if Live(s, call) && s.calls[call].phase.Queued?
         && s.calls[call].pageKey in s.core.generations[s.calls[call].gen].pages then
        SetPhase(s, call, Done(s.core.generations[s.calls[call].gen].pages[s.calls[call].pageKey].began, false))
      else s
    case Fetch(call, share) =>
      if Live(s, call) && s.calls[call].registered && s.calls[call].phase.Queued?
         && s.calls[call].pageKey !in s.core.generations[s.calls[call].gen].pages then
        if share.Idle? then SetPhase(s, call, Fetching(s.time))
        else if share.On? && share.call < |s.calls| && s.calls[share.call].phase.Fetching?
                && s.calls[share.call].gen == s.calls[call].gen
                && s.calls[share.call].pageKey == s.calls[call].pageKey then
          SetPhase(s, call, Fetching(s.calls[share.call].phase.began))
        else s
      else s
    case Receive(call) =>
      if Live(s, call) && s.calls[call].registered && s.calls[call].phase.Fetching? then
        SetPhase(s, call, Received(s.calls[call].phase.began))
      else s
    case Finish(call, body, items, rows, keep) =>
      if Live(s, call) && s.calls[call].phase.Received? && (keep ==> body >= EMPTY_LIST && items >= EMPTY_LIST) then
        var c := s.calls[call];
        var done := SetPhase(s, call, Done(c.phase.began, !keep));
        if keep then done.(core := KeepSpec(s.core, c.gen, c.pageKey, Page(body, items, rows, c.phase.began))) else done
      else s
    case Fail(call) =>
      if Live(s, call) then SetPhase(s, call, Failed) else s
    case Deliver(scan) =>
      if scan < |s.scans| && s.scans[scan].waiting.On? && s.scans[scan].waiting.call < |s.calls| then
        match s.calls[s.scans[scan].waiting.call].phase
        case Done(began, refused) => Serve(s, scan, began, if refused then Quit else Idle)
        case Failed => StopWaiting(s, scan)
        case _ => s
      else s
    case Leave(scan) =>
      if scan < |s.scans| && s.scans[scan].waiting.On? && s.scans[scan].waiting.call < |s.calls| then
        var call := s.scans[scan].waiting.call;
        var left := StopWaiting(s, scan);
        if Awaited(left.scans, call) then left
        else left.(calls := s.calls[call := s.calls[call].(registered := false)])
      else s
    case Release(scan) =>
      if Releasable(s, scan) then
        s.(core := ReleaseSpec(s.core, s.scans[scan].gen), scans := s.scans[scan := s.scans[scan].(released := true)])
      else s
  }

  function Next(s: State, step: Step): State {
    Effect(s, step).(time := s.time + 1)
  }

  function Run(steps: seq<Step>): State {
    if steps == [] then State(Core(map[], 0, []), [], [], [], 0)
    else Next(Run(steps[..|steps| - 1]), steps[|steps| - 1])
  }

  // ----- freshness -----

  /** Every scan of generation `id` had acquired it before `began`. */
  ghost predicate After(s: State, id: nat, began: nat) {
    began < s.time && forall k :: 0 <= k < |s.scans| && s.scans[k].gen == id ==> s.scans[k].acquired < began
  }

  ghost predicate WaitsInOwnGeneration(s: State, scan: Scan)
    requires scan.waiting.On?
  {
    !scan.released && scan.waiting.call < |s.calls| && s.calls[scan.waiting.call].gen == scan.gen
  }

  ghost predicate ScansFresh(s: State) {
    forall k :: 0 <= k < |s.scans| ==>
      && s.scans[k].acquired < s.time && s.scans[k].gen < |s.core.generations|
      && (s.scans[k].waiting.On? ==> WaitsInOwnGeneration(s, s.scans[k]))
  }

  ghost predicate CallsFresh(s: State) {
    forall c :: 0 <= c < |s.calls| ==>
      && s.calls[c].gen < |s.core.generations| && s.core.generations[s.calls[c].gen].started
      && (s.calls[c].phase.Fetching? || s.calls[c].phase.Received? || s.calls[c].phase.Done? ==>
            After(s, s.calls[c].gen, s.calls[c].phase.began))
  }

  ghost predicate PagesFresh(s: State) {
    forall i, pk :: 0 <= i < |s.core.generations| && pk in s.core.generations[i].pages ==>
      s.core.generations[i].started && After(s, i, s.core.generations[i].pages[pk].began)
  }

  ghost predicate ServedFresh(s: State) {
    forall v :: 0 <= v < |s.served| ==> s.served[v].acquired < s.served[v].began
  }

  ghost predicate FreshInv(s: State) {
    ScansFresh(s) && CallsFresh(s) && PagesFresh(s) && ServedFresh(s)
  }

  lemma AcquireFresh(s: State, key: string, wall: int, timeout: int)
    requires FreshInv(s)
    ensures FreshInv(Next(s, Acquire(key, wall, timeout)))
  {
    var s', id := Next(s, Acquire(key, wall, timeout)), AcquireSpec(s.core, key, wall, timeout).1;
    assert forall i: nat, began: nat :: i != id && After(s, i, began) ==> After(s', i, began);
    assert forall c :: 0 <= c < |s.calls| ==> s.calls[c].gen != id;
  }

  lemma StartFresh(s: State, scan: nat)
    requires FreshInv(s)
    ensures FreshInv(Next(s, Start(scan)))
  {
  }

  lemma HitFresh(s: State, scan: nat, pageKey: string)
    requires FreshInv(s)
    ensures FreshInv(Next(s, Hit(scan, pageKey)))
  {
  }

  lemma JoinFresh(s: State, scan: nat, pageKey: string)
    requires FreshInv(s)
    ensures FreshInv(Next(s, Join(scan, pageKey)))
  {
  }

  lemma ServeCachedFresh(s: State, call: nat)
    requires FreshInv(s)
    ensures FreshInv(Next(s, ServeCached(call)))
  {
  }

  lemma FetchFresh(s: State, call: nat, share: Waiting)
    requires FreshInv(s)
    ensures FreshInv(Next(s, Fetch(call, share)))
  {
  }

  lemma ReceiveFresh(s: State, call: nat)
    requires FreshInv(s)
    ensures FreshInv(Next(s, Receive(call)))
  {
  }

  lemma FinishFresh(s: State, call: nat, body: nat, items: nat, rows: nat, keep: bool)
    requires FreshInv(s)
    ensures FreshInv(Next(s, Finish(call, body, items, rows, keep)))
  {
  }

  lemma FailFresh(s: State, call: nat)
    requires FreshInv(s)
    ensures FreshInv(Next(s, Fail(call)))
  {
  }

  lemma DeliverFresh(s: State, scan: nat)
    requires FreshInv(s)
    ensures FreshInv(Next(s, Deliver(scan)))
  {
  }

  lemma LeaveFresh(s: State, scan: nat)
    requires FreshInv(s)
    ensures FreshInv(Next(s, Leave(scan)))
  {
  }

  lemma ReleaseFresh(s: State, scan: nat)
    requires FreshInv(s)
    ensures FreshInv(Next(s, Release(scan)))
  {
  }

  lemma StepFresh(s: State, step: Step)
    requires FreshInv(s)
    ensures FreshInv(Next(s, step))
  {
    match step {
      case Acquire(key, wall, timeout) => AcquireFresh(s, key, wall, timeout);
      case Start(scan) => StartFresh(s, scan);
      case Hit(scan, pageKey) => HitFresh(s, scan, pageKey);
      case Join(scan, pageKey) => JoinFresh(s, scan, pageKey);
      case ServeCached(call) => ServeCachedFresh(s, call);
      case Fetch(call, share) => FetchFresh(s, call, share);
      case Receive(call) => ReceiveFresh(s, call);
      case Finish(call, body, items, rows, keep) => FinishFresh(s, call, body, items, rows, keep);
      case Fail(call) => FailFresh(s, call);
      case Deliver(scan) => DeliverFresh(s, scan);
      case Leave(scan) => LeaveFresh(s, scan);
      case Release(scan) => ReleaseFresh(s, scan);
    }
  }

  // ----- the budget -----

  /** How many scans still hold a generation. */
  function Holders(scans: seq<Scan>, id: nat): nat {
    if scans == [] then 0
    else
      var last := scans[|scans| - 1];
      Holders(scans[..|scans| - 1], id) + if last.gen == id && !last.released then 1 else 0
  }

  function Holds(scan: Scan, id: nat): nat {
    if scan.gen == id && !scan.released then 1 else 0
  }

  lemma {:induction false} HoldersUpdate(scans: seq<Scan>, k: nat, scan: Scan, id: nat)
    requires k < |scans|
    ensures Holders(scans[k := scan], id) == Holders(scans, id) - Holds(scans[k], id) + Holds(scan, id)
  {
    var n := |scans| - 1;
    if k == n {
      assert scans[k := scan][..n] == scans[..n];
    } else {
      HoldersUpdate(scans[..n], k, scan, id);
      assert scans[k := scan][..n] == scans[..n][k := scan];
    }
  }

  lemma {:induction false} NoHolders(scans: seq<Scan>, id: nat)
    requires forall k :: 0 <= k < |scans| ==> scans[k].gen != id
    ensures Holders(scans, id) == 0
  {
    if scans != [] {
      NoHolders(scans[..|scans| - 1], id);
    }
  }

  lemma {:induction false} HolderCounts(scans: seq<Scan>, k: nat)
    requires k < |scans| && !scans[k].released
    ensures Holders(scans, scans[k].gen) > 0
  {
    if k < |scans| - 1 {
      HolderCounts(scans[..|scans| - 1], k);
    }
  }

  ghost predicate ReadersCounted(s: State) {
    forall i :: 0 <= i < |s.core.generations| ==> s.core.generations[i].readers == Holders(s.scans, i)
  }

  /** The budget is what the generations still in use charge, and readers are the scans holding on. */
  ghost predicate Inv(s: State) {
    FreshInv(s) && CoreInv(s.core) && ReadersCounted(s)
  }

  lemma AcquireInv(s: State, key: string, wall: int, timeout: int)
    requires Inv(s)
    ensures Inv(Next(s, Acquire(key, wall, timeout)))
  {
    var s' := Next(s, Acquire(key, wall, timeout));
    AcquireFresh(s, key, wall, timeout);
    AcquireKeepsInv(s.core, key, wall, timeout);
    NoHolders(s.scans, |s.core.generations|);
    assert s'.scans[..|s.scans|] == s.scans;
  }

  lemma ReleaseInv(s: State, scan: nat)
    requires Inv(s) && Releasable(s, scan)
    ensures Inv(Next(s, Release(scan)))
  {
    var x := s.scans[scan];
    ReleaseFresh(s, scan);
    HolderCounts(s.scans, scan);
    ReleaseKeepsInv(s.core, x.gen);
    forall i: nat | i < |s.core.generations| {
      HoldersUpdate(s.scans, scan, x.(released := true), i);
    }
  }

  /** The same scans hold the same generations, and the reader counts have not moved. */
  ghost predicate SameHolding(s: State, s': State) {
    && |s'.scans| == |s.scans| && |s'.core.generations| == |s.core.generations|
    && (forall k :: 0 <= k < |s.scans| ==>
          s'.scans[k].gen == s.scans[k].gen && s'.scans[k].released == s.scans[k].released)
    && (forall i :: 0 <= i < |s.core.generations| ==> s'.core.generations[i].readers == s.core.generations[i].readers)
  }

  lemma {:induction false} SameHolders(scans: seq<Scan>, scans': seq<Scan>, id: nat)
    requires |scans'| == |scans|
    requires forall k :: 0 <= k < |scans| ==> scans'[k].gen == scans[k].gen && scans'[k].released == scans[k].released
    ensures Holders(scans', id) == Holders(scans, id)
  {
    if scans != [] {
      SameHolders(scans[..|scans| - 1], scans'[..|scans| - 1], id);
    }
  }

  lemma OtherStepHolds(s: State, step: Step)
    requires !step.Acquire? && !step.Release?
    ensures SameHolding(s, Next(s, step))
  {
  }

  lemma OtherReadersCounted(s: State, step: Step)
    requires ReadersCounted(s) && !step.Acquire? && !step.Release?
    ensures ReadersCounted(Next(s, step))
  {
    OtherStepHolds(s, step);
    forall i: nat | i < |s.core.generations| {
      SameHolders(s.scans, Next(s, step).scans, i);
    }
  }

  lemma StepKeepsInv(s: State, step: Step)
    requires Inv(s)
    ensures Inv(Next(s, step))
  {
    StepFresh(s, step);
    match step {
      case Acquire(key, wall, timeout) => AcquireInv(s, key, wall, timeout);
      case Release(scan) => if Releasable(s, scan) { ReleaseInv(s, scan); }
      case Start(scan) =>
        OtherReadersCounted(s, step);
        if Ready(s, scan) { StartKeepsInv(s.core, s.scans[scan].gen); }
      case Finish(call, body, items, rows, keep) =>
        OtherReadersCounted(s, step);
        if Live(s, call) && s.calls[call].phase.Received? {
          var c := s.calls[call];
          KeepKeepsInv(s.core, c.gen, c.pageKey, Page(body, items, rows, c.phase.began));
        }
      case _ => OtherReadersCounted(s, step);
    }
  }

  lemma {:induction false} RunKeepsInv(steps: seq<Step>)
    ensures Inv(Run(steps))
  {
    if steps != [] {
      RunKeepsInv(steps[..|steps| - 1]);
      StepKeepsInv(Run(steps[..|steps| - 1]), steps[|steps| - 1]);
    }
  }

  // ----- main results -----

  /** No scan is ever handed a page whose fetch began before the scan acquired its generation. */
  lemma EveryServedPageIsFresh(steps: seq<Step>, v: nat)
    requires v < |Run(steps).served|
    ensures Run(steps).served[v].acquired < Run(steps).served[v].began
  {
    RunKeepsInv(steps);
  }

  /** The global count is the sum over generations with readers, displaced ones included, and stays in budget. */
  lemma BudgetIsConserved(steps: seq<Step>)
    ensures var c := Run(steps).core;
            && c.bytes == Charged(c.generations) && 0 <= c.bytes <= BUFFER_LIMIT
            && forall i :: 0 <= i < |c.generations| ==>
                 && c.generations[i].readers == Holders(Run(steps).scans, i)
                 && Retained(c.generations[i].pages) <= c.generations[i].bytes
  {
    RunKeepsInv(steps);
    ChargedNonNegative(Run(steps).core.generations);
  }

  lemma {:induction false} ChargedNonNegative(gs: seq<Generation>)
    requires forall i :: 0 <= i < |gs| ==> Sound(gs[i])
    ensures Charged(gs) >= 0
  {
    if gs != [] {
      ChargedNonNegative(gs[..|gs| - 1]);
    }
  }

  ghost predicate Dead(s: State, id: nat) {
    id < |s.core.generations| && s.core.generations[id].readers == 0
  }

  lemma DeadStep(s: State, step: Step, id: nat)
    requires Inv(s) && Dead(s, id)
    ensures Dead(Next(s, step), id)
  {
    if step.Release? {
      if Releasable(s, step.scan) {
        HolderCounts(s.scans, step.scan);
        DeadRelease(s.core, s.scans[step.scan].gen, id);
      }
    } else if step.Acquire? {
      DeadAcquire(s.core, step.key, step.wall, step.timeout, id);
    } else {
      DeadOtherwise(s, step, id);
    }
  }

  lemma DeadRelease(c: Core, gen: nat, id: nat)
    requires gen < |c.generations| && id < |c.generations| && c.generations[id].readers == 0
    requires c.generations[gen].readers > 0
    ensures var after := ReleaseSpec(c, gen);
            id < |after.generations| && after.generations[id].readers == 0
  {
  }

  lemma DeadAcquire(c: Core, key: string, wall: int, timeout: int, id: nat)
    requires CoreInv(c) && id < |c.generations| && c.generations[id].readers == 0
    ensures var after := AcquireSpec(c, key, wall, timeout).0;
            id < |after.generations| && after.generations[id].readers == 0
  {
  }

  lemma DeadOtherwise(s: State, step: Step, id: nat)
    requires Dead(s, id) && !step.Acquire? && !step.Release?
    ensures Dead(Effect(s, step), id)
  {
  }

  lemma {:induction false} DeadRun(before: seq<Step>, after: seq<Step>, id: nat)
    requires Dead(Run(before), id)
    ensures Dead(Run(before + after), id)
  {
    if after == [] {
      assert before + after == before;
    } else {
      var shorter := before + after[..|after| - 1];
      assert (before + after)[..|before + after| - 1] == shorter;
      DeadRun(before, after[..|after| - 1], id);
      RunKeepsInv(shorter);
      DeadStep(Run(shorter), after[|after| - 1], id);
    }
  }

  /** Once the last reader has left, a generation never gains a reader or a page again. */
  lemma DeadForever(before: seq<Step>, after: seq<Step>, id: nat)
    requires Dead(Run(before), id)
    ensures var s := Run(before + after);
            Dead(s, id) && s.core.generations[id].pages == map[] && s.core.generations[id].bytes == 0
  {
    DeadRun(before, after, id);
    RunKeepsInv(before + after);
  }
}
