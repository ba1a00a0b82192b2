/** Which generation a list scan gets: how long a registration lasts, who joins it, and what a generation may hold. */
module AssetListRegistry {
  import opened AssetListPages
  import opened AssetListPageRuns

  // ----- one critical section -----

  /** A release takes away a registration only from its own generation, and only with its last reader. */
  lemma ReleasedRegistrationIff(c: Core, id: nat, key: string)
    requires CoreInv(c) && id < |c.generations|
    ensures key in ReleaseSpec(c, id).sets <==>
            key in c.sets && !(c.sets[key] == id && c.generations[id].readers == 1)
    ensures key in ReleaseSpec(c, id).sets ==> ReleaseSpec(c, id).sets[key] == c.sets[key]
  {
  }

  /** An acquire returns the registered generation exactly when that has not started and has not expired; otherwise a
      new one, which expires after the timeout. Either way the result is what the key is registered to. */
  lemma AcquiredIff(c: Core, key: string, wall: int, timeout: int)
    requires CoreInv(c)
    ensures var (after, id) := AcquireSpec(c, key, wall, timeout);
            && (id < |c.generations| <==>
                key in c.sets && !c.generations[c.sets[key]].started && wall <= c.generations[c.sets[key]].expires)
            && (id < |c.generations| ==> id == c.sets[key])
            && (id >= |c.generations| ==>
                && id == |c.generations| && !after.generations[id].started
                && after.generations[id].expires == wall + timeout)
            && key in after.sets && after.sets[key] == id
            && forall k :: k != key ==>
                 (k in after.sets <==> k in c.sets) && (k in c.sets ==> after.sets[k] == c.sets[k])
  {
  }

  // ----- over runs -----

  predicate RegisteredTo(s: State, key: string, id: nat) {
    key in s.core.sets && s.core.sets[key] == id
  }

  /** The step is the release by the generation's last reader. */
  predicate LastLeaves(s: State, step: Step, id: nat) {
    && step.Release? && Releasable(s, step.scan) && s.scans[step.scan].gen == id
    && id < |s.core.generations| && s.core.generations[id].readers == 1
  }

  /** The step acquires the key although its generation has started or expired. */
  predicate Displaces(s: State, step: Step, key: string, id: nat) {
    && step.Acquire? && step.key == key
    && id < |s.core.generations| && (s.core.generations[id].started || step.wall > s.core.generations[id].expires)
  }

  /** A registration ends exactly when its own last reader leaves or an acquire of its key displaces it. */
  lemma RegistrationEndsIff(s: State, step: Step, key: string, id: nat)
    requires Inv(s) && RegisteredTo(s, key, id)
    ensures RegisteredTo(Next(s, step), key, id) <==> !LastLeaves(s, step, id) && !Displaces(s, step, key, id)
  {
    if step.Release? && Releasable(s, step.scan) {
      ReleasedRegistrationIff(s.core, s.scans[step.scan].gen, key);
    } else if step.Acquire? {
      AcquiredIff(s.core, step.key, step.wall, step.timeout);
    }
  }

  lemma SnocOfSum<T>(a: seq<T>, b: seq<T>)
    requires b != []
    ensures |a + b| > 0 && (a + b)[..|a + b| - 1] == a + b[..|b| - 1] && (a + b)[|a + b| - 1] == b[|b| - 1]
  {
  }

  lemma RunPrefix(before: seq<Step>, after: seq<Step>)
    requires after != []
    ensures Run(before + after) == Next(Run(before + after[..|after| - 1]), after[|after| - 1])
  {
    SnocOfSum(before, after);
  }

  /** As long as its last reader stays and nobody displaces it, a generation stays registered, whatever else happens:
      the releases of the generations it displaced included. */
  lemma {:induction false} RegistrationLasts(before: seq<Step>, after: seq<Step>, key: string, id: nat)
    requires RegisteredTo(Run(before), key, id)
    requires forall i :: 0 <= i < |after| ==>
               !LastLeaves(Run(before + after[..i]), after[i], id)
               && !Displaces(Run(before + after[..i]), after[i], key, id)
    ensures RegisteredTo(Run(before + after), key, id)
  {
    if after == [] {
      assert before + after == before;
    } else {
      var shorter := after[..|after| - 1];
      forall i | 0 <= i < |shorter|
        ensures !LastLeaves(Run(before + shorter[..i]), shorter[i], id)
        ensures !Displaces(Run(before + shorter[..i]), shorter[i], key, id)
      {
        assert shorter[..i] == after[..i] && shorter[i] == after[i];
      }
      RegistrationLasts(before, shorter, key, id);
      RunKeepsInv(before + shorter);
      RegistrationEndsIff(Run(before + shorter), after[|after| - 1], key, id);
      RunPrefix(before, after);
    }
  }

  /** In every run, a scan that acquires a key gets the registered generation exactly when that is unstarted and
      unexpired. */
  lemma NextScanJoinsIff(steps: seq<Step>, key: string, wall: int, timeout: int)
    ensures var s := Run(steps);
            var t := Next(s, Acquire(key, wall, timeout));
            && |t.scans| == |s.scans| + 1
            && (t.scans[|s.scans|].gen < |s.core.generations| <==>
                key in s.core.sets && s.core.sets[key] < |s.core.generations|
                && !s.core.generations[s.core.sets[key]].started
                && wall <= s.core.generations[s.core.sets[key]].expires)
            && (t.scans[|s.scans|].gen < |s.core.generations| ==> t.scans[|s.scans|].gen == s.core.sets[key])
            && RegisteredTo(t, key, t.scans[|s.scans|].gen)
  {
    RunKeepsInv(steps);
    AcquiredIff(Run(steps).core, key, wall, timeout);
  }

  // ----- a generation once opened -----

  /** Its key, its expiry and, once set, its freeze never change. */
  ghost predicate SameTerms(s: State, t: State, id: nat) {
    && id < |s.core.generations| <= |t.core.generations|
    && t.core.generations[id].key == s.core.generations[id].key
    && t.core.generations[id].expires == s.core.generations[id].expires
    && (s.core.generations[id].started ==> t.core.generations[id].started)
  }

  lemma TermsStay(s: State, step: Step, id: nat)
    requires Inv(s) && id < |s.core.generations|
    ensures SameTerms(s, Next(s, step), id)
  {
    if step.Release? {
      if Releasable(s, step.scan) {
        ReleaseKeepsTerms(s.core, s.scans[step.scan].gen, id);
      }
    } else if step.Acquire? {
      AcquireKeepsTerms(s.core, step.key, step.wall, step.timeout, id);
    }
  }

  lemma ReleaseKeepsTerms(c: Core, gen: nat, id: nat)
    requires gen < |c.generations| && id < |c.generations|
    ensures var (g, after) := (c.generations[id], ReleaseSpec(c, gen).generations);
            && |after| == |c.generations|
            && after[id].key == g.key && after[id].expires == g.expires && after[id].started == g.started
  {
  }

  lemma AcquireKeepsTerms(c: Core, key: string, wall: int, timeout: int, id: nat)
    requires id < |c.generations|
    ensures var (g, after) := (c.generations[id], AcquireSpec(c, key, wall, timeout).0.generations);
            && |after| >= |c.generations|
            && after[id].key == g.key && after[id].expires == g.expires && after[id].started == g.started
  {
  }

  lemma {:induction false} TermsStayOverRun(before: seq<Step>, after: seq<Step>, id: nat)
    requires id < |Run(before).core.generations|
    ensures SameTerms(Run(before), Run(before + after), id)
  {
    if after == [] {
      assert before + after == before;
    } else {
      TermsStayOverRun(before, after[..|after| - 1], id);
      RunKeepsInv(before + after[..|after| - 1]);
      TermsStay(Run(before + after[..|after| - 1]), after[|after| - 1], id);
      RunPrefix(before, after);
    }
  }

  /** Once a scan has started reading, no later scan joins its generation. */
  lemma StartedIsNotJoined(before: seq<Step>, scan: nat, after: seq<Step>, key: string, wall: int, timeout: int)
    requires Ready(Run(before), scan)
    ensures var s := Run(before + [Start(scan)] + after);
            Next(s, Acquire(key, wall, timeout)).scans[|s.scans|].gen != Run(before).scans[scan].gen
  {
    var id, started := Run(before).scans[scan].gen, before + [Start(scan)];
    RunPrefix(before, [Start(scan)]);
    assert before + [Start(scan)][..0] == before;
    assert Run(started).core.generations[id].started;
    TermsStayOverRun(started, after, id);
    NextScanJoinsIff(started + after, key, wall, timeout);
  }

  /** A scan joins a generation no later than the timeout of the scan that opened it. */
  lemma JoinsInTime(before: seq<Step>, key: string, wall: int, timeout: int, after: seq<Step>,
      laterWall: int, laterTimeout: int)
    requires var first := Next(Run(before), Acquire(key, wall, timeout));
             first.scans[|Run(before).scans|].gen == |Run(before).core.generations|
    requires var s := Run(before + [Acquire(key, wall, timeout)] + after);
             Next(s, Acquire(key, laterWall, laterTimeout)).scans[|s.scans|].gen == |Run(before).core.generations|
    ensures laterWall <= wall + timeout
  {
    var first := before + [Acquire(key, wall, timeout)];
    var id := |Run(before).core.generations|;
    RunPrefix(before, [Acquire(key, wall, timeout)]);
    assert before + [Acquire(key, wall, timeout)][..0] == before;
    RunKeepsInv(before);
    AcquiredIff(Run(before).core, key, wall, timeout);
    TermsStayOverRun(first, after, id);
    NextScanJoinsIff(first + after, key, laterWall, laterTimeout);
  }

  // ----- what the budget bounds -----

  /** A fetched page is retained exactly while somebody reads the generation and the budget has room for it. */
  lemma KeptIff(c: Core, id: nat, pageKey: string, page: Page)
    requires CoreInv(c) && id < |c.generations|
    ensures var g := KeepSpec(c, id, pageKey, page).generations[id];
            (pageKey in g.pages && g.pages[pageKey] == page) <==>
              (pageKey in c.generations[id].pages && c.generations[id].pages[pageKey] == page)
              || (c.generations[id].readers > 0
                  && c.bytes + page.body + page.items + 128 * page.rows + 4096 <= 64 * 1024 * 1024)
  {
  }

  /** A measure of pages, summed over those retained. */
  ghost function TotalOf(pages: map<string, Page>, measure: Page -> nat): nat {
    if pages == map[] then 0
    else
      var k :| k in pages;
      measure(pages[k]) + TotalOf(pages - {k}, measure)
  }

  lemma {:induction false} RetainedCovers(pages: map<string, Page>, measure: Page -> nat)
    requires forall p :: measure(p) <= p.body + p.items + 128 * p.rows + 4096
    ensures TotalOf(pages, measure) <= Retained(pages)
  {
    if pages != map[] {
      var k :| k in pages && TotalOf(pages, measure) == measure(pages[k]) + TotalOf(pages - {k}, measure);
      RetainedCovers(pages - {k}, measure);
      RetainedSplit(pages, k);
    }
  }

  /** Whatever is counted, as long as a page counts for no more than its body, its list, 128 bytes a row and 4096 bytes:
      what any generation retains counts for at most 64 MiB. */
  lemma BudgetBoundsPages(steps: seq<Step>, id: nat, measure: Page -> nat)
    requires id < |Run(steps).core.generations|
    requires forall p :: measure(p) <= p.body + p.items + 128 * p.rows + 4096
    ensures TotalOf(Run(steps).core.generations[id].pages, measure) <= 64 * 1024 * 1024
  {
    var gs := Run(steps).core.generations;
    RunKeepsInv(steps);
    RetainedCovers(gs[id].pages, measure);
    ChargeFits(gs, id);
  }

  lemma {:induction false} ChargeFits(gs: seq<Generation>, g: nat)
    requires g < |gs| && forall i :: 0 <= i < |gs| ==> Sound(gs[i])
    ensures Charge(gs[g]) <= Charged(gs)
  {
    if g < |gs| - 1 {
      ChargeFits(gs[..|gs| - 1], g);
    } else {
      ChargedNonNegative(gs[..|gs| - 1]);
    }
  }
}
