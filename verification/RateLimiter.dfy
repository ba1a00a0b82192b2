/** The in-memory request limiter: one bounded queue of accepted times per key, plus a
    background sweep that forgets idle keys. It is compared with a limiter that forgets nothing. */
module RateLimiter {

  type Store = map<string, seq<int>>

  /** What a caller passes for one key: at most `max` requests per `duration` seconds. */
  datatype Limit = Limit(max: nat, duration: int)

  /** What can happen to the limiter, stamped with the wall clock in seconds. */
  datatype Event = Request(key: string, now: int) | Sweep(now: int)

  predicate NoEmptyQueue(store: Store) {
    forall k :: k in store ==> store[k] != []
  }

  function RequestSpec(store: Store, key: string, limit: Limit, now: int): (Store, bool)
    requires NoEmptyQueue(store)
  {
    if key !in store then (store[key := [now]], true)
    else
      var q := store[key];
      if |q| < limit.max then (store[key := q + [now]], true)
      else if now - q[0] >= limit.duration then (store[key := q[1..] + [now]], true)
      else (store, false)
  }

  predicate Idle(q: seq<int>, expiration: nat, now: int) {
    q == [] || now - q[|q| - 1] > expiration
  }

  function SweepSpec(store: Store, expiration: nat, now: int): Store {
    map k | k in store && !Idle(store[k], expiration, now) :: store[k]
  }

  class InMemoryRateLimiter {
    var store: map<string, seq<int>>
    /** The whole seconds of a positive duration; without one, no sweep ever runs. */
    const expiration: nat

    constructor (expiration: nat)
      ensures store == map[] && this.expiration == expiration
    {
      store := map[];
      this.expiration := expiration;
    }

    method Request(key: string, maxRequestNum: nat, duration: int, now: int) returns (ok: bool)
      requires NoEmptyQueue(store)
      modifies this
      ensures NoEmptyQueue(store)
      ensures (store, ok) == RequestSpec(old(store), key, Limit(maxRequestNum, duration), now)
    {
      if key in store {
        var queue := store[key];
        if |queue| < maxRequestNum {
          store := store[key := queue + [now]];
          return true;
        } else if now - queue[0] >= duration {
          queue := queue[1..];
          store := store[key := queue + [now]];
          return true;
        } else {
          return false;
        }
      }
      store := store[key := []];
      store := store[key := store[key] + [now]];
      assert store[key] == [now];
      assert store == old(store)[key := [now]];
      return true;
    }

    /** One round of the background sweep; Go walks the keys in any order. */
    method ClearExpiredItems(now: int)
      requires NoEmptyQueue(store)
      modifies this
      ensures NoEmptyQueue(store)
      ensures store == SweepSpec(old(store), expiration, now)
    {
      var todo := store.Keys;
      while todo != {}
        invariant todo <= store.Keys <= old(store).Keys
        invariant forall k :: k in store ==> store[k] == old(store)[k]
        invariant forall k :: k in old(store) && k !in todo ==>
                                (k in store <==> !Idle(old(store)[k], expiration, now))
      {
        var key :| key in todo;
        var queue := store[key];
        var size := |queue|;
        if size == 0 || now - queue[size - 1] > expiration {
          store := store - {key};
        }
        todo := todo - {key};
      }
    }
  }

  // ----- runs -----

  type Limits = string -> Limit

  function Time(e: Event): int { e.now }

  /** The wall clock never runs backwards. */
  predicate Monotone(es: seq<Event>) {
    forall i, j :: 0 <= i < j < |es| ==> Time(es[i]) <= Time(es[j])
  }

  /** What one event does to the queues. */
  function QueueStep(store: Store, limits: Limits, expiration: nat, e: Event): Store
    requires NoEmptyQueue(store)
  {
    match e
    case Request(k, now) => RequestSpec(store, k, limits(k), now).0
    case Sweep(now) => SweepSpec(store, expiration, now)
  }

  /** The limiter's queues after a run that started empty. */
  function StoreAfter(limits: Limits, expiration: nat, es: seq<Event>): (store: Store)
    ensures NoEmptyQueue(store)
  {
    if es == [] then map[]
    else
      var before := StoreAfter(limits, expiration, es[..|es| - 1]);
      QueueStep(before, limits, expiration, es[|es| - 1])
  }

  function Decision(limits: Limits, expiration: nat, es: seq<Event>, key: string, now: int): bool {
    RequestSpec(StoreAfter(limits, expiration, es), key, limits(key), now).1
  }

  /** All times at which `key` was let through. */
  function AcceptedTimes(limits: Limits, expiration: nat, es: seq<Event>, key: string): seq<int> {
    if es == [] then []
    else
      var before := es[..|es| - 1];
      var log := AcceptedTimes(limits, expiration, before, key);
      match es[|es| - 1]
      case Request(k, now) => if k == key && Decision(limits, expiration, before, key, now) then log + [now] else log
      case Sweep(_) => log
  }

  // ----- the reference limiter: it keeps the complete log -----

  /** How many logged times lie less than `duration` before `now`. */
  function Recent(log: seq<int>, duration: int, now: int): (n: nat)
    ensures n <= |log|
  {
    if log == [] then 0
    else Recent(log[..|log| - 1], duration, now) + if now - log[|log| - 1] < duration then 1 else 0
  }

  predicate Admits(log: seq<int>, limit: Limit, now: int) {
    Recent(log, limit.duration, now) < limit.max
  }

  function LogStep(log: seq<int>, limits: Limits, e: Event, key: string): seq<int> {
    if e.Request? && e.key == key && Admits(log, limits(key), e.now) then log + [e.now] else log
  }

  /** The reference log of one key; nothing but that key's own requests can touch it. */
  function FullLog(limits: Limits, es: seq<Event>, key: string): seq<int> {
    if es == [] then []
    else
      LogStep(FullLog(limits, es[..|es| - 1], key), limits, es[|es| - 1], key)
  }

  // ----- counting in a sorted log -----

  predicate Sorted(log: seq<int>) {
    forall i, j :: 0 <= i < j < |log| ==> log[i] <= log[j]
  }

  lemma {:induction false} RecentOfOldPart(log: seq<int>, cut: nat, duration: int, now: int)
    requires cut <= |log|
    requires forall i :: 0 <= i < cut ==> now - log[i] >= duration
    ensures Recent(log, duration, now) <= |log| - cut
  {
    if |log| > cut {
      RecentOfOldPart(log[..|log| - 1], cut, duration, now);
    } else if log != [] {
      RecentOfOldPart(log[..|log| - 1], cut - 1, duration, now);
    }
  }

  lemma {:induction false} RecentOfNewPart(log: seq<int>, cut: nat, duration: int, now: int)
    requires cut <= |log|
    requires forall i :: cut <= i < |log| ==> now - log[i] < duration
    ensures Recent(log, duration, now) >= |log| - cut
  {
    if |log| > cut {
      RecentOfNewPart(log[..|log| - 1], cut, duration, now);
    }
  }

  // ----- the queue against the log -----

  /** `q` is the end of the log; when it is not full, whatever was forgotten had expired by `clock`. */
  predicate Tracks(q: seq<int>, log: seq<int>, limit: Limit, expiration: nat, clock: int) {
    && |q| <= |log| && q == log[|log| - |q|..]
    && |q| <= limit.max
    && Sorted(log) && (log != [] ==> log[|log| - 1] <= clock)
    && (|q| < limit.max ==> forall i :: 0 <= i < |log| - |q| ==> clock - log[i] > expiration)
  }

  /** The exact bound on the configuration under which forgetting is harmless. */
  predicate Sound(limit: Limit, expiration: nat) {
    limit.max >= 1 && limit.duration <= expiration + 1
  }

  function Queue(store: Store, key: string): seq<int> {
    if key in store then store[key] else []
  }

  lemma DecisionMatchesLog(store: Store, key: string, log: seq<int>, limit: Limit, expiration: nat, clock: int,
      now: int)
    requires NoEmptyQueue(store) && Sound(limit, expiration) && clock <= now
    requires Tracks(Queue(store, key), log, limit, expiration, clock)
    ensures RequestSpec(store, key, limit, now).1 == Admits(log, limit, now)
  {
    var q := Queue(store, key);
    var cut := |log| - |q|;
    if |q| < limit.max {
      RecentOfOldPart(log, cut, limit.duration, now);
    } else if now - q[0] >= limit.duration {
      assert q[0] == log[cut];
      RecentOfOldPart(log, cut + 1, limit.duration, now);
    } else {
      assert q[0] == log[cut];
      RecentOfNewPart(log, cut, limit.duration, now);
    }
  }

  lemma RequestTracks(store: Store, key: string, log: seq<int>, limit: Limit, expiration: nat, clock: int, now: int)
    requires NoEmptyQueue(store) && Sound(limit, expiration) && clock <= now
    requires Tracks(Queue(store, key), log, limit, expiration, clock)
    ensures var (store', ok) := RequestSpec(store, key, limit, now);
            Tracks(Queue(store', key), if ok then log + [now] else log, limit, expiration, now)
  {
    var q := Queue(store, key);
    if |q| < limit.max {
      AppendTracks(q, log, limit, expiration, clock, now);
    } else if now - q[0] >= limit.duration {
      ShiftTracks(q, log, limit, expiration, clock, now);
    }
  }

  lemma AppendTracks(q: seq<int>, log: seq<int>, limit: Limit, expiration: nat, clock: int, now: int)
    requires Tracks(q, log, limit, expiration, clock) && clock <= now && |q| < limit.max
    ensures Tracks(q + [now], log + [now], limit, expiration, now)
  {
  }

  lemma ShiftTracks(q: seq<int>, log: seq<int>, limit: Limit, expiration: nat, clock: int, now: int)
    requires Tracks(q, log, limit, expiration, clock) && clock <= now && |q| == limit.max >= 1
    ensures Tracks(q[1..] + [now], log + [now], limit, expiration, now)
  {
  }

  lemma SweepTracks(store: Store, key: string, log: seq<int>, limit: Limit, expiration: nat, clock: int, now: int)
    requires NoEmptyQueue(store) && limit.max >= 1 && clock <= now
    requires Tracks(Queue(store, key), log, limit, expiration, clock)
    ensures Tracks(Queue(SweepSpec(store, expiration, now), key), log, limit, expiration, now)
  {
    var q := Queue(store, key);
    if q != [] && Idle(q, expiration, now) {
      assert q[|q| - 1] == log[|log| - 1];
    }
  }

  function Clock(es: seq<Event>, now: int): int {
    if es == [] then now else Time(es[|es| - 1])
  }

  lemma MonotonePrefix(es: seq<Event>, key: string, now: int)
    requires Monotone(es + [Request(key, now)])
    ensures Monotone(es) && Clock(es, now) <= now
    ensures forall e :: e in es ==> Time(e) <= now
    ensures es != [] ==> Monotone(es[..|es| - 1] + [Request(key, Time(es[|es| - 1]))])
  {
    var all := es + [Request(key, now)];
    assert forall i :: 0 <= i < |es| ==> es[i] == all[i];
    assert Time(all[|es|]) == now;
  }

  lemma StepTracks(store: Store, key: string, log: seq<int>, limits: Limits, expiration: nat, clock: int, e: Event)
    requires NoEmptyQueue(store) && Sound(limits(key), expiration) && clock <= Time(e)
    requires Tracks(Queue(store, key), log, limits(key), expiration, clock)
    ensures Tracks(Queue(QueueStep(store, limits, expiration, e), key),
                   LogStep(log, limits, e, key), limits(key), expiration, Time(e))
  {
    if e.Sweep? {
      SweepTracks(store, key, log, limits(key), expiration, clock, e.now);
    } else if e.key == key {
      DecisionMatchesLog(store, key, log, limits(key), expiration, clock, e.now);
      RequestTracks(store, key, log, limits(key), expiration, clock, e.now);
    } else {
      assert Queue(QueueStep(store, limits, expiration, e), key) == Queue(store, key);
    }
  }

  lemma {:induction false} RunTracks(limits: Limits, expiration: nat, es: seq<Event>, key: string, now: int)
    requires Monotone(es + [Request(key, now)])
    requires Sound(limits(key), expiration)
    ensures AcceptedTimes(limits, expiration, es, key) == FullLog(limits, es, key)
    ensures Tracks(Queue(StoreAfter(limits, expiration, es), key),
                   FullLog(limits, es, key), limits(key), expiration, Clock(es, now))
  {
    if es != [] {
      var before, last := es[..|es| - 1], es[|es| - 1];
      MonotonePrefix(es, key, now);
      RunTracks(limits, expiration, before, key, Time(last));
      MonotonePrefix(before, key, Time(last));
      var store, log, clock :=
        StoreAfter(limits, expiration, before), FullLog(limits, before, key), Clock(before, Time(last));
      DecisionMatchesLog(store, key, log, limits(key), expiration, clock, Time(last));
      StepTracks(store, key, log, limits, expiration, clock, last);
    }
  }

  // ----- main results -----

  /** Every decision, in every run, is the one the complete log calls for. */
  ghost predicate DecidesLikeFullLog(limits: Limits, expiration: nat) {
    forall es: seq<Event>, key, now {:trigger Decision(limits, expiration, es, key, now)} ::
      Monotone(es + [Request(key, now)]) ==>
        Decision(limits, expiration, es, key, now) == Admits(FullLog(limits, es, key), limits(key), now)
  }

  lemma DecisionRefines(limits: Limits, expiration: nat, es: seq<Event>, key: string, now: int)
    requires Monotone(es + [Request(key, now)])
    requires Sound(limits(key), expiration)
    ensures Decision(limits, expiration, es, key, now) == Admits(FullLog(limits, es, key), limits(key), now)
  {
    RunTracks(limits, expiration, es, key, now);
    MonotonePrefix(es, key, now);
    DecisionMatchesLog(StoreAfter(limits, expiration, es), key, FullLog(limits, es, key),
                       limits(key), expiration, Clock(es, now), now);
  }

  /** `n` requests of one key at time 0. */
  function Burst(key: string, n: nat): (es: seq<Event>)
    ensures |es| == n && forall i :: 0 <= i < n ==> es[i] == Request(key, 0)
  {
    seq(n, _ => Request(key, 0))
  }

  lemma {:induction false} BurstFillsQueue(limits: Limits, expiration: nat, key: string, n: nat)
    requires n <= limits(key).max && limits(key).duration > 0
    ensures var zeros := seq(n, _ => 0);
            && FullLog(limits, Burst(key, n), key) == zeros
            && Queue(StoreAfter(limits, expiration, Burst(key, n)), key) == zeros
  {
    if n > 0 {
      BurstFillsQueue(limits, expiration, key, n - 1);
      assert Burst(key, n)[..n - 1] == Burst(key, n - 1);
      assert seq(n, _ => 0) == seq(n - 1, _ => 0) + [0];
    }
  }

  /** A full burst at time 0, forgotten by a sweep as early as a sweep can forget it. */
  function ForgottenBurst(key: string, limit: Limit, expiration: nat): seq<Event> {
    if limit.max == 0 then [] else Burst(key, limit.max) + [Sweep(expiration + 1)]
  }

  lemma ForgottenBurstLog(limits: Limits, expiration: nat, key: string)
    requires limits(key).max > 0 && limits(key).duration > expiration + 1
    ensures var es := ForgottenBurst(key, limits(key), expiration);
            && FullLog(limits, es, key) == seq(limits(key).max, _ => 0)
            && key !in StoreAfter(limits, expiration, es)
  {
    var es, burst := ForgottenBurst(key, limits(key), expiration), Burst(key, limits(key).max);
    BurstFillsQueue(limits, expiration, key, limits(key).max);
    assert es[..|es| - 1] == burst;
    assert StoreAfter(limits, expiration, es) ==
        SweepSpec(StoreAfter(limits, expiration, burst), expiration, expiration + 1);
  }

  /** Outside the bound there is a run in which forgetting lets a request through. */
  lemma UnsoundLimitIsExceeded(limits: Limits, expiration: nat, key: string)
    requires !Sound(limits(key), expiration)
    ensures var es := ForgottenBurst(key, limits(key), expiration);
            && Monotone(es + [Request(key, expiration + 1)])
            && Decision(limits, expiration, es, key, expiration + 1)
            && !Admits(FullLog(limits, es, key), limits(key), expiration + 1)
  {
    if limits(key).max > 0 {
      ForgottenBurstLog(limits, expiration, key);
      RecentOfNewPart(seq(limits(key).max, _ => 0), 0, limits(key).duration, expiration + 1);
    }
  }

  /** The bounded queue with its sweep decides like the complete log, in every run, exactly when
      each key allows at least one request and its window is at most a second over the expiry. */
  lemma RefinesFullLogIff(limits: Limits, expiration: nat)
    ensures DecidesLikeFullLog(limits, expiration) <==> forall key :: Sound(limits(key), expiration)
  {
    if forall key :: Sound(limits(key), expiration) {
      forall es: seq<Event>, key, now | Monotone(es + [Request(key, now)])
        ensures Decision(limits, expiration, es, key, now) == Admits(FullLog(limits, es, key), limits(key), now)
      {
        DecisionRefines(limits, expiration, es, key, now);
      }
    } else {
      var key :| !Sound(limits(key), expiration);
      UnsoundLimitIsExceeded(limits, expiration, key);
      assert !DecidesLikeFullLog(limits, expiration);
    }
  }

  // ----- a limiter that never sweeps -----

  /** No background sweep was started. */
  predicate Unswept(es: seq<Event>) {
    forall e :: e in es ==> e.Request?
  }

  lemma {:induction false} ExpirationIsIdle(limits: Limits, expiration: nat, other: nat, es: seq<Event>)
    requires Unswept(es)
    ensures StoreAfter(limits, expiration, es) == StoreAfter(limits, other, es)
  {
    if es != [] {
      ExpirationIsIdle(limits, expiration, other, es[..|es| - 1]);
      assert es[|es| - 1] in es;
    }
  }

  ghost predicate DecidesLikeFullLogUnswept(limits: Limits, expiration: nat) {
    forall es: seq<Event>, key, now {:trigger Decision(limits, expiration, es, key, now)} ::
      Monotone(es + [Request(key, now)]) && Unswept(es) ==>
        Decision(limits, expiration, es, key, now) == Admits(FullLog(limits, es, key), limits(key), now)
  }

  lemma UnsweptDecisionRefines(limits: Limits, expiration: nat, es: seq<Event>, key: string, now: int)
    requires Monotone(es + [Request(key, now)]) && Unswept(es) && limits(key).max >= 1
    ensures Decision(limits, expiration, es, key, now) == Admits(FullLog(limits, es, key), limits(key), now)
  {
    var enough := if limits(key).duration > 0 then limits(key).duration else 0;
    ExpirationIsIdle(limits, expiration, enough, es);
    DecisionRefines(limits, enough, es, key, now);
  }

  /** Without sweeps the windows do not matter: the bounded queue decides like the complete log, in every run, exactly
      when each key allows at least one request. */
  lemma RefinesUnsweptIff(limits: Limits, expiration: nat)
    ensures DecidesLikeFullLogUnswept(limits, expiration) <==> forall key :: limits(key).max >= 1
  {
    if forall key :: limits(key).max >= 1 {
      forall es: seq<Event>, key, now | Monotone(es + [Request(key, now)]) && Unswept(es)
        ensures Decision(limits, expiration, es, key, now) == Admits(FullLog(limits, es, key), limits(key), now)
      {
        UnsweptDecisionRefines(limits, expiration, es, key, now);
      }
    } else {
      var key :| limits(key).max == 0;
      UnsoundLimitIsExceeded(limits, expiration, key);
      assert Unswept([]) && Decision(limits, expiration, [], key, expiration + 1);
    }
  }

  /** A run with the sweeps and every other key's requests removed. */
  function OnlyKey(es: seq<Event>, key: string): seq<Event> {
    if es == [] then []
    else
      var before, last := OnlyKey(es[..|es| - 1], key), es[|es| - 1];
      if last.Request? && last.key == key then before + [last] else before
  }

  lemma {:induction false} OnlyKeyKeepsLog(limits: Limits, es: seq<Event>, key: string)
    ensures FullLog(limits, OnlyKey(es, key), key) == FullLog(limits, es, key)
  {
    if es != [] {
      var before, last := es[..|es| - 1], es[|es| - 1];
      OnlyKeyKeepsLog(limits, before, key);
      if last.Request? && last.key == key {
        assert OnlyKey(es, key)[..|OnlyKey(es, key)| - 1] == OnlyKey(before, key);
      }
    }
  }

  lemma {:induction false} OnlyKeyIsMonotone(es: seq<Event>, key: string, now: int)
    requires Monotone(es) && forall e :: e in es ==> Time(e) <= now
    ensures Monotone(OnlyKey(es, key)) && forall e :: e in OnlyKey(es, key) ==> Time(e) <= now
  {
    if es != [] {
      OnlyKeyIsMonotone(es[..|es| - 1], key, Time(es[|es| - 1]));
    }
  }

  /** Neither the sweep nor any other key ever changes a decision. */
  lemma SweepsAndOtherKeysAreInvisible(limits: Limits, expiration: nat, es: seq<Event>, key: string, now: int)
    requires Monotone(es + [Request(key, now)])
    requires Sound(limits(key), expiration)
    ensures Decision(limits, expiration, es, key, now) == Decision(limits, expiration, OnlyKey(es, key), key, now)
  {
    MonotonePrefix(es, key, now);
    OnlyKeyIsMonotone(es, key, now);
    OnlyKeyKeepsLog(limits, es, key);
    DecisionRefines(limits, expiration, es, key, now);
    DecisionRefines(limits, expiration, OnlyKey(es, key), key, now);
  }

  lemma {:induction false} FullLogSpans(limits: Limits, es: seq<Event>, key: string, i: nat)
    requires var log := FullLog(limits, es, key); i + limits(key).max < |log| && Sorted(log)
    ensures var log := FullLog(limits, es, key);
            log[i + limits(key).max] - log[i] >= limits(key).duration
  {
    var before, log, limit := es[..|es| - 1], FullLog(limits, es, key), limits(key);
    var log0 := FullLog(limits, before, key);
    assert forall j :: 0 <= j < |log0| ==> log0[j] == log[j];
    if i + limit.max < |log0| {
      FullLogSpans(limits, before, key, i);
    } else if log[i + limit.max] - log[i] < limit.duration {
      RecentOfNewPart(log0, i, limit.duration, log[i + limit.max]);
      assert false;
    }
  }

  /** Any max + 1 consecutive accepts of a key span at least the window. */
  lemma AcceptsSpanTheWindow(limits: Limits, expiration: nat, es: seq<Event>, key: string, i: nat)
    requires Monotone(es) && Sound(limits(key), expiration)
    requires i + limits(key).max < |AcceptedTimes(limits, expiration, es, key)|
    ensures var times := AcceptedTimes(limits, expiration, es, key);
            times[i + limits(key).max] - times[i] >= limits(key).duration
  {
    var now := Clock(es, 0);
    RunTracks(limits, expiration, es, key, now);
    FullLogSpans(limits, es, key, i);
  }
}
