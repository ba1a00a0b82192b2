/** Raw list pages shared by overlapping scans: reference-counted generations that freeze at
    their first fetch, under one global payload budget. */
module AssetListPages {

  const BUFFER_LIMIT: int := 64 * 0x10_0000

  /** A parsed page, by what it weighs and by when its fetch began. */
  datatype Page = Page(body: nat, items: nat, rows: nat, began: nat)

  function Weight(p: Page): nat { p.body + p.items + p.rows * 128 + 4096 }

  // ----- the value of one generation, and of the registry -----

  datatype Generation = Generation(key: string, readers: int, bytes: int, expires: int, started: bool,
                          pages: map<string, Page>)

  datatype Core = Core(sets: map<string, nat>, bytes: int, generations: seq<Generation>)

  function Update(c: Core, id: nat, g: Generation): Core
    requires id < |c.generations|
  {
    c.(generations := c.generations[id := g])
  }

  predicate Joinable(c: Core, key: string, wall: int)
  {
    key in c.sets && c.sets[key] < |c.generations| &&
    var g := c.generations[c.sets[key]]; !g.started && wall <= g.expires
  }

  /** A fresh generation takes over the key; the one it displaces lives on for its own readers. */
  function AddSpec(c: Core, key: string, expires: int): Core {
    Core(c.sets[key := |c.generations|], c.bytes, c.generations + [Generation(key, 0, 0, expires, false, map[])])
  }

  function CountReaderSpec(c: Core, id: nat, change: int): Core
    requires id < |c.generations|
  {
    Update(c, id, c.generations[id].(readers := c.generations[id].readers + change))
  }

  function AcquireSpec(c: Core, key: string, wall: int, timeout: int): (Core, nat) {
    if Joinable(c, key, wall) then (CountReaderSpec(c, c.sets[key], 1), c.sets[key])
    else (CountReaderSpec(AddSpec(c, key, wall + timeout), |c.generations|, 1), |c.generations|)
  }

  /** Forget a generation that nobody reads any more, and give its bytes back. */
  function RetireSpec(c: Core, id: nat): Core
    requires id < |c.generations|
  {
    var g := c.generations[id];
    Core(if g.key in c.sets && c.sets[g.key] == id then c.sets - {g.key} else c.sets,
         c.bytes - g.bytes,
         c.generations[id := g.(bytes := 0, pages := map[])])
  }

  function ReleaseSpec(c: Core, id: nat): Core
    requires id < |c.generations|
  {
    var counted := CountReaderSpec(c, id, -1);
    if counted.generations[id].readers == 0 then RetireSpec(counted, id) else counted
  }

  function StartSpec(c: Core, id: nat): Core
    requires id < |c.generations|
  {
    Update(c, id, c.generations[id].(started := true))
  }

  function KeepSpec(c: Core, id: nat, pageKey: string, page: Page): Core
    requires id < |c.generations|
  {
    var g := c.generations[id];
    if g.readers > 0 && c.bytes + Weight(page) <= BUFFER_LIMIT then
      Core(c.sets, c.bytes + Weight(page),
           c.generations[id := g.(pages := g.pages[pageKey := page], bytes := g.bytes + Weight(page))])
    else c
  }

  // ----- what every critical section keeps -----

  /** What a generation weighs in the budget: nothing once its last reader has left. */
  function Charge(g: Generation): int {
    if g.readers > 0 then g.bytes else 0
  }

  function Charged(gs: seq<Generation>): int {
    if gs == [] then 0 else Charged(gs[..|gs| - 1]) + Charge(gs[|gs| - 1])
  }

  lemma {:induction false} ChargedUpdate(gs: seq<Generation>, id: nat, g: Generation)
    requires id < |gs|
    ensures Charged(gs[id := g]) == Charged(gs) - Charge(gs[id]) + Charge(g)
  {
    var n := |gs| - 1;
    if id == n {
      assert gs[id := g][..n] == gs[..n];
    } else {
      ChargedUpdate(gs[..n], id, g);
      assert gs[id := g][..n] == gs[..n][id := g];
    }
  }

  /** The payload of the pages a generation still holds. */
  ghost function Retained(pages: map<string, Page>): nat {
    if pages == map[] then 0
    else
      var k :| k in pages;
      Weight(pages[k]) + Retained(pages - {k})
  }

  lemma {:induction false} RetainedSplit(pages: map<string, Page>, k: string)
    requires k in pages
    ensures Retained(pages) == Weight(pages[k]) + Retained(pages - {k})
  {
    var j :| j in pages && Retained(pages) == Weight(pages[j]) + Retained(pages - {j});
    if j != k {
      RetainedSplit(pages - {j}, k);
      RetainedSplit(pages - {k}, j);
      assert pages - {j} - {k} == pages - {k} - {j};
    }
  }

  lemma RetainedAfterKeep(pages: map<string, Page>, k: string, p: Page)
    ensures Retained(pages[k := p]) == Retained(pages - {k}) + Weight(p)
    ensures Retained(pages - {k}) == Retained(pages) - if k in pages then Weight(pages[k]) else 0
  {
    RetainedSplit(pages[k := p], k);
    assert pages[k := p] - {k} == pages - {k};
    if k in pages {
      RetainedSplit(pages, k);
    } else {
      assert pages - {k} == pages;
    }
  }

  ghost predicate Sound(g: Generation) {
    && g.readers >= 0
    && Retained(g.pages) <= g.bytes
    && (g.readers == 0 ==> g.bytes == 0 && g.pages == map[])
    && (!g.started ==> g.pages == map[])
  }

  ghost predicate CoreInv(c: Core) {
    && (forall k :: k in c.sets ==>
          c.sets[k] < |c.generations| && var g := c.generations[c.sets[k]]; g.key == k && g.readers > 0)
    && (forall i :: 0 <= i < |c.generations| ==> Sound(c.generations[i]))
    && c.bytes == Charged(c.generations) <= BUFFER_LIMIT
  }

  lemma AcquireKeepsInv(c: Core, key: string, wall: int, timeout: int)
    requires CoreInv(c)
    ensures CoreInv(AcquireSpec(c, key, wall, timeout).0)
  {
    if Joinable(c, key, wall) {
      var g := c.generations[c.sets[key]];
      ChargedUpdate(c.generations, c.sets[key], g.(readers := g.readers + 1));
    } else {
      var added := AddSpec(c, key, wall + timeout).generations;
      assert added[..|added| - 1] == c.generations;
      ChargedUpdate(added, |added| - 1, added[|added| - 1].(readers := 1));
    }
  }

  lemma ReleaseKeepsInv(c: Core, id: nat)
    requires CoreInv(c) && id < |c.generations| && c.generations[id].readers > 0
    ensures CoreInv(ReleaseSpec(c, id))
    ensures c.generations[id].readers == 1 ==>
              var g := ReleaseSpec(c, id).generations[id]; g.readers == 0 && g.bytes == 0 && g.pages == map[]
  {
    var g := c.generations[id];
    var counted := CountReaderSpec(c, id, -1);
    ChargedUpdate(c.generations, id, counted.generations[id]);
    if g.readers == 1 {
      ChargedUpdate(counted.generations, id, ReleaseSpec(c, id).generations[id]);
    }
  }

  lemma StartKeepsInv(c: Core, id: nat)
    requires CoreInv(c) && id < |c.generations|
    ensures CoreInv(StartSpec(c, id))
  {
    ChargedUpdate(c.generations, id, c.generations[id].(started := true));
  }

  lemma KeepKeepsInv(c: Core, id: nat, pageKey: string, page: Page)
    requires CoreInv(c) && id < |c.generations| && c.generations[id].started
    ensures CoreInv(KeepSpec(c, id, pageKey, page))
  {
    ChargedUpdate(c.generations, id, KeepSpec(c, id, pageKey, page).generations[id]);
    RetainedAfterKeep(c.generations[id].pages, pageKey, page);
  }

  // ----- the objects behind those values -----

  class PageSet {
    const key: string
    ghost const id: nat
    var readers: int
    var bytes: int
    var expires: int
    var started: bool
    var pages: map<string, Page>

    constructor (key: string, expires: int, ghost id: nat)
      ensures this.id == id && Record() == Generation(key, 0, 0, expires, false, map[])
    {
      this.key, this.expires, this.id := key, expires, id;
      readers, bytes, started, pages := 0, 0, false, map[];
    }

    ghost function Record(): Generation
      reads this
    {
      Generation(key, readers, bytes, expires, started, pages)
    }
  }

  ghost function Records(all: seq<PageSet>): (rs: seq<Generation>)
    reads all
    ensures |rs| == |all|
  {
    seq(|all|, i requires 0 <= i < |all| reads all => all[i].Record())
  }

  class PageSets {
    var sets: map<string, PageSet>
    var bytes: int
    ghost var all: seq<PageSet>

    ghost predicate Valid()
      reads this
    {
      && (forall i :: 0 <= i < |all| ==> all[i].id == i)
      && (forall k :: k in sets ==> sets[k].id < |all| && all[sets[k].id] == sets[k])
    }

    ghost function View(): (c: Core)
      requires Valid()
      reads this, all
      ensures |c.generations| == |all|
    {
      Core(Index(), bytes, Records(all))
    }

    ghost function Index(): map<string, nat>
      reads this
    {
      map k | k in sets :: sets[k].id
    }

    constructor ()
      ensures Valid() && View() == Core(map[], 0, [])
    {
      sets, bytes, all := map[], 0, [];
    }

    method Add(key: string, expires: int) returns (s: PageSet)
      requires Valid()
      modifies this
      ensures Valid() && fresh(s) && all == old(all) + [s] && s.id == |old(all)|
      ensures key in sets && sets[key] == s
      ensures View() == AddSpec(old(View()), key, expires)
    {
      s := new PageSet(key, expires, |all|);
      sets := sets[key := s];
      all := all + [s];
      assert Records(all) == old(Records(all)) + [s.Record()];
    }

    method Acquire(key: string, wall: int, timeout: int) returns (s: PageSet)
      requires Valid()
      modifies this, all
      ensures Valid() && s in all && s.id < |all| && all[s.id] == s
      ensures (View(), s.id) == AcquireSpec(old(View()), key, wall, timeout)
    {
      if key !in sets || sets[key].started || wall > sets[key].expires {
        s := Add(key, wall + timeout);
      } else {
        s := sets[key];
      }
      CountReader(s, 1);
    }

    method CountReader(s: PageSet, change: int)
      requires Valid() && s.id < |all| && all[s.id] == s
      modifies s
      ensures Valid() && View() == CountReaderSpec(old(View()), s.id, change)
    {
      s.readers := s.readers + change;
      assert Records(all) == old(Records(all))[s.id := s.Record()];
    }

    method Release(s: PageSet)
      requires Valid() && s.id < |all| && all[s.id] == s
      modifies this, s
      ensures Valid() && all == old(all)
      ensures View() == ReleaseSpec(old(View()), s.id)
    {
      CountReader(s, -1);
      if s.readers == 0 {
        Retire(s);
      }
    }

    method Retire(s: PageSet)
      requires Valid() && s.id < |all| && all[s.id] == s
      modifies this, s
      ensures Valid() && all == old(all)
      ensures View() == RetireSpec(old(View()), s.id)
    {
      if s.key in sets && sets[s.key] == s {
        sets := sets - {s.key};
      }
      bytes := bytes - s.bytes;
      s.bytes, s.pages := 0, map[];
      assert Records(all) == old(Records(all))[s.id := s.Record()];
    }

    method Cached(s: PageSet, pageKey: string) returns (p: Page, ok: bool)
      requires Valid() && s.id < |all| && all[s.id] == s
      ensures var g := View().generations[s.id];
              ok == (pageKey in g.pages) && (ok ==> p == g.pages[pageKey])
    {
      ok := pageKey in s.pages;
      p := if ok then s.pages[pageKey] else Page(0, 0, 0, 0);
    }

    /** The first critical section of a read: membership freezes before any fetch. */
    method Start(s: PageSet)
      requires Valid() && s.id < |all| && all[s.id] == s
      modifies s
      ensures Valid() && View() == StartSpec(old(View()), s.id)
    {
      s.started := true;
      assert Records(all) == old(Records(all))[s.id := s.Record()];
    }

    /** The last critical section of a read: retain a fetched page if it still may be. */
    method Keep(s: PageSet, pageKey: string, page: Page)
      requires Valid() && s.id < |all| && all[s.id] == s
      modifies this, s
      ensures Valid() && all == old(all)
      ensures View() == KeepSpec(old(View()), s.id, pageKey, page)
    {
      var size := Weight(page);
      if s.readers > 0 && bytes + size <= BUFFER_LIMIT {
        s.pages := s.pages[pageKey := page];
        s.bytes := s.bytes + size;
        bytes := bytes + size;
      }
      assert Records(all) == old(Records(all))[s.id := s.Record()];
    }
  }
}
