/** The global usage counters under any interleaving of creations and closes, one atomic step at a time. */
module BodyAccounting {

  /**
   * How far a storage has come: one counter raised, both raised, closed by whoever wins the flag,
   * the first counter lowered (and, when it fell below zero, still to be clamped), the second too.
   */
  datatype Phase = Counting | Live | Closing | Lowered(clamp: bool) | Clamped | Gone(clamp: bool)

  datatype Store = Store(disk: bool, size: nat, phase: Phase)

  /** The active number and the total size of one kind of storage. */
  datatype Usage = Usage(active: int, bytes: int)

  datatype State = State(stores: seq<Store>, disk: Usage, memory: Usage)

  /** Steps that are not possible in a state change nothing, like closing a storage again. */
  datatype Step =
    | RaiseActive(disk: bool, size: nat)
    | RaiseBytes(k: nat)
    | Close(k: nat)
    | LowerActive(k: nat)
    | ClampActive(k: nat)
    | LowerBytes(k: nat)
    | ClampBytes(k: nat)

  function UsageOf(s: State, disk: bool): Usage {
    if disk then s.disk else s.memory
  }

  function WithUsage(s: State, disk: bool, u: Usage): State {
    if disk then s.(disk := u) else s.(memory := u)
  }

  function Moved(s: State, k: nat, phase: Phase): State
    requires k < |s.stores|
  {
    s.(stores := s.stores[k := s.stores[k].(phase := phase)])
  }

  predicate Possible(s: State, step: Step) {
    match step
    case RaiseActive(_, _) => true
    case RaiseBytes(k) => k < |s.stores| && s.stores[k].phase.Counting?
    case Close(k) => k < |s.stores| && s.stores[k].phase.Live?
    case LowerActive(k) => k < |s.stores| && s.stores[k].phase.Closing?
    case ClampActive(k) => k < |s.stores| && s.stores[k].phase == Lowered(true)
    case LowerBytes(k) => k < |s.stores| && (s.stores[k].phase == Lowered(false) || s.stores[k].phase.Clamped?)
    case ClampBytes(k) => k < |s.stores| && s.stores[k].phase == Gone(true)
  }

  /** Only the counters of files notice that they fell below zero. */
  function Next(s: State, step: Step): State {
    if !Possible(s, step) then s
    else
      match step
      case RaiseActive(disk, size) =>
        var u := UsageOf(s, disk);
        WithUsage(s, disk, u.(active := u.active + 1)).(stores := s.stores + [Store(disk, size, Counting)])
      case RaiseBytes(k) =>
        var u := UsageOf(s, s.stores[k].disk);
        Moved(WithUsage(s, s.stores[k].disk, u.(bytes := u.bytes + s.stores[k].size)), k, Live)
      case Close(k) => Moved(s, k, Closing)
      case LowerActive(k) =>
        var u := UsageOf(s, s.stores[k].disk);
        Moved(WithUsage(s, s.stores[k].disk, u.(active := u.active - 1)), k,
              Lowered(s.stores[k].disk && u.active - 1 < 0))
      case ClampActive(k) =>
        Moved(WithUsage(s, s.stores[k].disk, UsageOf(s, s.stores[k].disk).(active := 0)), k, Clamped)
      case LowerBytes(k) =>
        var u := UsageOf(s, s.stores[k].disk);
        var left := u.bytes - s.stores[k].size;
        Moved(WithUsage(s, s.stores[k].disk, u.(bytes := left)), k, Gone(s.stores[k].disk && left < 0))
      case ClampBytes(k) =>
        Moved(WithUsage(s, s.stores[k].disk, UsageOf(s, s.stores[k].disk).(bytes := 0)), k, Gone(false))
  }

  function Run(s: State, steps: seq<Step>): State {
    if steps == [] then s else Next(Run(s, steps[..|steps| - 1]), steps[|steps| - 1])
  }

  const EMPTY := State([], Usage(0, 0), Usage(0, 0))

  // ----- what the counters should say -----

  function ActiveShare(x: Store): nat {
    if x.phase.Counting? || x.phase.Live? || x.phase.Closing? then 1 else 0
  }

  function BytesShare(x: Store): nat {
    if x.phase.Counting? || x.phase.Gone? then 0 else x.size
  }

  /** The storages of one kind that are counted and not yet uncounted: how many, and how large. */
  function Sum(stores: seq<Store>, disk: bool): (u: Usage)
    ensures u.active >= 0 && u.bytes >= 0
  {
    if stores == [] then Usage(0, 0)
    else
      var u, x := Sum(stores[..|stores| - 1], disk), stores[|stores| - 1];
      if x.disk == disk then Usage(u.active + ActiveShare(x), u.bytes + BytesShare(x)) else u
  }

  lemma SumSnoc(stores: seq<Store>, x: Store, disk: bool)
    ensures Sum(stores + [x], disk) ==
              if x.disk == disk
              then Usage(Sum(stores, disk).active + ActiveShare(x), Sum(stores, disk).bytes + BytesShare(x))
              else Sum(stores, disk)
  {
    assert (stores + [x])[..|stores|] == stores;
  }

  lemma {:induction false} SumUpdate(stores: seq<Store>, k: nat, x: Store, disk: bool)
    requires k < |stores| && x.disk == stores[k].disk
    ensures var before, after := Sum(stores, disk), Sum(stores[k := x], disk);
            if x.disk == disk then
              && after.active == before.active - ActiveShare(stores[k]) + ActiveShare(x)
              && after.bytes == before.bytes - BytesShare(stores[k]) + BytesShare(x)
              && before.active >= ActiveShare(stores[k]) && before.bytes >= BytesShare(stores[k])
            else after == before
  {
    var n := |stores| - 1;
    if k < n {
      SumUpdate(stores[..n], k, x, disk);
      assert stores[k := x][..n] == stores[..n][k := x];
    } else {
      assert stores[k := x][..n] == stores[..n];
    }
  }

  /** The counters are exact, and no clamp is pending. */
  ghost predicate Balanced(s: State) {
    && s.disk == Sum(s.stores, true) && s.memory == Sum(s.stores, false)
    && forall k :: 0 <= k < |s.stores| ==> !Pending(s.stores[k].phase)
  }

  predicate Pending(phase: Phase) {
    phase == Lowered(true) || phase.Clamped? || phase == Gone(true)
  }

  /** A storage moves on and its kind's counters change by what its share changes. */
  lemma MoveKeepsBalance(s: State, k: nat, phase: Phase, u: Usage)
    requires Balanced(s) && k < |s.stores| && !Pending(phase)
    requires var x := s.stores[k];
             u == Usage(UsageOf(s, x.disk).active - ActiveShare(x) + ActiveShare(x.(phase := phase)),
                        UsageOf(s, x.disk).bytes - BytesShare(x) + BytesShare(x.(phase := phase)))
    ensures Balanced(Moved(WithUsage(s, s.stores[k].disk, u), k, phase))
  {
    var x := s.stores[k].(phase := phase);
    SumUpdate(s.stores, k, x, true);
    SumUpdate(s.stores, k, x, false);
  }

  lemma SharesAreCounted(s: State, k: nat)
    requires Balanced(s) && k < |s.stores|
    ensures var x := s.stores[k];
            UsageOf(s, x.disk).active >= ActiveShare(x) && UsageOf(s, x.disk).bytes >= BytesShare(x)
  {
    SumUpdate(s.stores, k, s.stores[k], s.stores[k].disk);
  }

  lemma RaiseKeepsBalance(s: State, step: Step)
    requires Balanced(s) && step.RaiseActive?
    ensures Balanced(Next(s, step))
  {
    SumSnoc(s.stores, Store(step.disk, step.size, Counting), true);
    SumSnoc(s.stores, Store(step.disk, step.size, Counting), false);
  }

  lemma NextKeepsBalance(s: State, step: Step)
    requires Balanced(s)
    ensures Balanced(Next(s, step))
  {
    if Possible(s, step) {
      if step.RaiseActive? {
        RaiseKeepsBalance(s, step);
      } else {
        var k := step.k;
        var u := UsageOf(s, s.stores[k].disk);
        SharesAreCounted(s, k);
        match step
        case RaiseBytes(_) => MoveKeepsBalance(s, k, Live, u.(bytes := u.bytes + s.stores[k].size));
        case Close(_) => MoveKeepsBalance(s, k, Closing, u);
        case LowerActive(_) => MoveKeepsBalance(s, k, Lowered(false), u.(active := u.active - 1));
        case LowerBytes(_) => MoveKeepsBalance(s, k, Gone(false), u.(bytes := u.bytes - s.stores[k].size));
        case _ =>
      }
    }
  }

  /** However creations and closes interleave, the counters are the number and size of
      what is counted; no clamp fires. */
  lemma {:induction false} RunsAreBalanced(steps: seq<Step>)
    ensures Balanced(Run(EMPTY, steps))
    ensures forall i :: 0 <= i < |steps| && (steps[i].ClampActive? || steps[i].ClampBytes?) ==>
            !Possible(Run(EMPTY, steps[..i]), steps[i])
  {
    if steps != [] {
      var n := |steps| - 1;
      RunsAreBalanced(steps[..n]);
      NextKeepsBalance(Run(EMPTY, steps[..n]), steps[n]);
      forall i | 0 <= i < |steps| && (steps[i].ClampActive? || steps[i].ClampBytes?)
        ensures !Possible(Run(EMPTY, steps[..i]), steps[i])
      {
        if i < n {
          assert steps[..n][i] == steps[i] && steps[..n][..i] == steps[..i];
        }
      }
    }
  }

  // ----- each storage is uncounted at most once -----

  function Rank(phase: Phase): nat {
    match phase
    case Counting => 0
    case Live => 1
    case Closing => 2
    case Lowered(clamp) => if clamp then 3 else 4
    case Clamped => 4
    case Gone(clamp) => if clamp then 5 else 6
  }

  /** No storage ever goes back, and every step that changes one takes it further. */
  lemma StepsGoForward(s: State, step: Step, k: nat)
    requires k < |s.stores|
    ensures var t := Next(s, step);
            && k < |t.stores| && t.stores[k].disk == s.stores[k].disk && t.stores[k].size == s.stores[k].size
            && Rank(t.stores[k].phase) >= Rank(s.stores[k].phase)
            && (!step.RaiseActive? && step.k == k && Possible(s, step) ==>
                  Rank(t.stores[k].phase) > Rank(s.stores[k].phase))
  {
  }

  lemma {:induction false} RanksGrow(s: State, steps: seq<Step>, k: nat)
    requires k < |s.stores|
    ensures k < |Run(s, steps).stores| && Rank(Run(s, steps).stores[k].phase) >= Rank(s.stores[k].phase)
  {
    if steps != [] {
      RanksGrow(s, steps[..|steps| - 1], k);
      StepsGoForward(Run(s, steps[..|steps| - 1]), steps[|steps| - 1], k);
    }
  }

  lemma {:induction false} RunOn(s: State, a: seq<Step>, b: seq<Step>)
    ensures Run(s, a + b) == Run(Run(s, a), b)
  {
    if b == [] {
      assert a + b == a;
    } else {
      RunOn(s, a, b[..|b| - 1]);
      assert (a + b)[..|a + b| - 1] == a + b[..|b| - 1];
    }
  }

  /** A step on a storage that has been taken is never possible again, however often it is asked for. */
  lemma TakenOnce(steps: seq<Step>, i: nat, j: nat)
    requires i < j < |steps| && steps[i] == steps[j] && !steps[i].RaiseActive?
    requires Possible(Run(EMPTY, steps[..i]), steps[i])
    ensures !Possible(Run(EMPTY, steps[..j]), steps[j])
  {
    var k := steps[i].k;
    var before := Run(EMPTY, steps[..i]);
    StepsGoForward(before, steps[i], k);
    assert steps[..i + 1][..i] == steps[..i];
    assert Run(EMPTY, steps[..i + 1]) == Next(before, steps[i]);
    RanksGrow(Run(EMPTY, steps[..i + 1]), steps[i + 1..j], k);
    assert steps[..j] == steps[..i + 1] + steps[i + 1..j];
    RunOn(EMPTY, steps[..i + 1], steps[i + 1..j]);
    if Possible(Run(EMPTY, steps[..j]), steps[i]) {
      SamePossibleSameRank(before, Run(EMPTY, steps[..j]), steps[i]);
    }
  }

  lemma SamePossibleSameRank(s: State, t: State, step: Step)
    requires !step.RaiseActive? && Possible(s, step) && Possible(t, step)
    ensures Rank(s.stores[step.k].phase) == Rank(t.stores[step.k].phase)
  {
  }

  lemma {:induction false} SumOfGone(stores: seq<Store>, disk: bool)
    requires forall k :: 0 <= k < |stores| ==> stores[k].phase.Gone?
    ensures Sum(stores, disk) == Usage(0, 0)
  {
    if stores != [] {
      SumOfGone(stores[..|stores| - 1], disk);
    }
  }

  /** Once a run has closed and uncounted every storage, all counters are back at zero. */
  lemma AllGoneMeansZero(steps: seq<Step>)
    requires forall k :: 0 <= k < |Run(EMPTY, steps).stores| ==> Run(EMPTY, steps).stores[k].phase.Gone?
    ensures Run(EMPTY, steps).disk == Usage(0, 0) && Run(EMPTY, steps).memory == Usage(0, 0)
  {
    RunsAreBalanced(steps);
    SumOfGone(Run(EMPTY, steps).stores, true);
    SumOfGone(Run(EMPTY, steps).stores, false);
  }
}
