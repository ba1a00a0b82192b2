/** The duration of an Opus file: walking its Ogg pages, and finding the next one after anything else. */
module OggWalk {
  import opened BodyStorage

  const TWO_64 := 0x1_0000_0000_0000_0000
  const HEADER := 27

  /** "OggS". */
  const SYNC: seq<Byte> := [0x4F, 0x67, 0x67, 0x53]

  function Little(b: seq<Byte>): (x: nat) {
    if b == [] then 0 else b[0] + 256 * Little(b[1..])
  }

  function Signed(x: nat): int {
    if x > MAX_INT64 then x - TWO_64 else x
  }

  function SumOf(b: seq<Byte>): nat {
    if b == [] then 0 else SumOf(b[..|b| - 1]) + b[|b| - 1]
  }

  function Max(a: int, b: int): int {
    if a > b then a else b
  }

  /** A page seems to start here; its header is complete. */
  predicate SyncAt(data: seq<Byte>, pos: nat) {
    pos + HEADER <= |data| && data[pos..pos + 4] == SYNC
  }

  function GranuleAt(data: seq<Byte>, pos: nat): int
    requires SyncAt(data, pos)
  {
    Signed(Little(data[pos + 6..pos + 14]))
  }

  function SegmentsAt(data: seq<Byte>, pos: nat): nat
    requires SyncAt(data, pos)
  {
    data[pos + 26]
  }

  datatype Turn = Ends(best: int) | GoesOn(pos: nat, best: int)

  /** One turn of the loop: a page is skipped whole, anything else byte by byte. */
  function TurnAt(data: seq<Byte>, pos: nat, best: int): (t: Turn)
    ensures t.GoesOn? ==> pos < t.pos && pos + HEADER <= |data|
  {
    if pos + HEADER > |data| then Ends(best)
    else if !SyncAt(data, pos) then GoesOn(pos + 1, best)
    else
      var found, table := Max(best, GranuleAt(data, pos)), pos + HEADER + SegmentsAt(data, pos);
      if table > |data| then Ends(found) else GoesOn(table + SumOf(data[pos + HEADER..table]), found)
  }

  /** The largest granule position met from here on, or `best`. */
  function Walk(data: seq<Byte>, pos: nat, best: int): int
    decreases |data| - pos
  {
    match TurnAt(data, pos, best)
    case Ends(found) => found
    case GoesOn(to, found) => Walk(data, to, found)
  }

  /** The next `n` bytes, or as many as there are. */
  method ReadTable(r: BytesReader, n: nat) returns (bytes: seq<Byte>)
    requires r.pos <= |r.data|
    modifies r
    ensures r.pos == Min(old(r.pos) + n, |r.data|) && bytes == r.data[old(r.pos)..r.pos]
  {
    bytes := [];
    while |bytes| < n
      invariant old(r.pos) <= r.pos <= |r.data| && |bytes| <= n && bytes == r.data[old(r.pos)..r.pos]
    {
      var more := r.Read(n - |bytes|);
      if more.AtEnd? {
        break;
      }
      bytes := bytes + more.bytes;
    }
  }

  method PageSize(segments: seq<Byte>) returns (size: nat)
    ensures size == SumOf(segments) && size <= 255 * |segments|
  {
    size := 0;
    for k := 0 to |segments|
      invariant size == SumOf(segments[..k]) && size <= 255 * k
    {
      size := size + segments[k];
      assert segments[..k + 1][..k] == segments[..k];
    }
    assert segments[..|segments|] == segments;
  }

  /** A forward seek fails only when it would overflow. */
  lemma ForwardSeek(size: nat, pos: nat, offset: Int64)
    requires offset >= 0 && pos <= MAX_INT64
    ensures MemSeek(size, pos, offset, FromCurrent) ==
              if pos + offset <= MAX_INT64 then Moved(pos + offset) else BadSeek
  {
  }

  lemma BackSeek(size: nat, pos: nat)
    requires HEADER <= pos <= MAX_INT64
    ensures MemSeek(size, pos, -26, FromCurrent) == Moved(pos - 26)
  {
  }

  lemma WalkBeyond(data: seq<Byte>, pos: nat, best: int)
    requires pos + HEADER > |data|
    ensures Walk(data, pos, best) == best
  {
  }

  /** When the page's table or body is not all there, the walk ends with its granule position. */
  lemma TornPage(data: seq<Byte>, pos: nat, best: int)
    requires SyncAt(data, pos)
    requires var table := pos + HEADER + SegmentsAt(data, pos);
             table > |data| || table + SumOf(data[pos + HEADER..table]) > |data|
    ensures Walk(data, pos, best) == Max(best, GranuleAt(data, pos))
  {
    var t := TurnAt(data, pos, best);
    if t.GoesOn? {
      WalkBeyond(data, t.pos, t.best);
    }
  }

  /** After a page's header: its segment table and its body. */
  method SkipPage(r: BytesReader, count: Byte) returns (skipped: bool)
    requires r.pos <= |r.data| <= MAX_INT64
    modifies r
    ensures r.pos >= old(r.pos)
    ensures skipped ==>
              && old(r.pos) + count <= |r.data|
              && r.pos == old(r.pos) + count + SumOf(r.data[old(r.pos)..old(r.pos) + count])
    ensures !skipped ==>
              || old(r.pos) + count > |r.data|
              || old(r.pos) + count + SumOf(r.data[old(r.pos)..old(r.pos) + count]) > |r.data|
  {
    ghost var start := r.pos;
    var segments := ReadTable(r, count);
    if |segments| < count {
      return false;
    }
    assert segments == r.data[start..start + count];
    var size := PageSize(segments);
    ForwardSeek(|r.data|, r.pos, size);
    var to := r.Seek(size, FromCurrent);
    skipped := !to.BadSeek?;
  }

  lemma HeaderRead(data: seq<Byte>, pos: nat, buf: seq<Byte>)
    requires pos + HEADER <= |data| && buf == data[pos..pos + HEADER]
    ensures buf[0..4] == SYNC <==> SyncAt(data, pos)
    ensures SyncAt(data, pos) ==> GranuleAt(data, pos) == Signed(Little(buf[6..14])) && SegmentsAt(data, pos) == buf[26]
  {
    SliceOfSlice(data, pos, pos + HEADER, 0, 4);
    SliceOfSlice(data, pos, pos + HEADER, 6, 14);
  }

  lemma SliceOfSlice(data: seq<Byte>, from: nat, to: nat, i: nat, j: nat)
    requires i <= j <= to - from && to <= |data|
    ensures data[from..to][i..j] == data[from + i..from + j]
  {
    forall k | 0 <= k < j - i ensures data[from..to][i..j][k] == data[from + i..from + j][k] {
    }
  }

  method OneTurn(r: BytesReader, total: int) returns (t: Turn)
    requires |r.data| <= MAX_INT64
    modifies r
    ensures t.GoesOn? ==> t == TurnAt(r.data, old(r.pos), total) && r.pos == t.pos
    ensures t.Ends? ==> t.best == Walk(r.data, old(r.pos), total)
  {
    ghost var start := r.pos;
    var header := r.Read(HEADER);
    if header.AtEnd? || |header.bytes| < HEADER {
      WalkBeyond(r.data, start, total);
      return Ends(total);
    }
    var buf := header.bytes;
    HeaderRead(r.data, start, buf);
    if buf[0..4] != SYNC {
      BackSeek(|r.data|, r.pos);
      var _ := r.Seek(-26, FromCurrent);
      return GoesOn(r.pos, total);
    }
    var granule := Signed(Little(buf[6..14]));
    var found := if granule > total then granule else total;
    var skipped := SkipPage(r, buf[26]);
    if !skipped {
      TornPage(r.data, start, total);
    }
    t := if skipped then GoesOn(r.pos, found) else Ends(found);
  }

  /** The loop over the pages of a file. */
  method GetOpusDuration(r: BytesReader) returns (duration: real)
    requires |r.data| <= MAX_INT64
    modifies r
    ensures duration == Walk(r.data, 0, 0) as real / 48000.0
  {
    var _ := r.Seek(0, FromStart);
    var total := 0;
    while true
      invariant Walk(r.data, r.pos, total) == Walk(r.data, 0, 0)
      decreases |r.data| - r.pos
    {
      var turn := OneTurn(r, total);
      total := turn.best;
      if turn.Ends? {
        break;
      }
    }
    duration := total as real / 48000.0;
  }

  // ----- pages laid end to end, with anything but a page between them -----

  /** A page of RFC 3533, section 6: a version, flags, serial number, sequence number and checksum in `rest`. */
  datatype Page = Page(granule: Int64, flags: seq<Byte>, rest: seq<Byte>, table: seq<Byte>, body: seq<Byte>)

  predicate WellFormed(p: Page) {
    |p.flags| == 2 && |p.rest| == 12 && |p.table| <= 255 && |p.body| == SumOf(p.table)
  }

  function Bytes(x: nat, n: nat): (b: seq<Byte>)
    ensures |b| == n
  {
    if n == 0 then [] else [x % 256] + Bytes(x / 256, n - 1)
  }

  function Unsigned(x: Int64): nat {
    if x < 0 then x + TWO_64 else x
  }

  function Encode(p: Page): seq<Byte>
    requires WellFormed(p)
  {
    SYNC + p.flags + Bytes(Unsigned(p.granule), 8) + p.rest + [|p.table|] + p.table + p.body
  }

  function Power(n: nat): nat {
    if n == 0 then 1 else 256 * Power(n - 1)
  }

  lemma {:induction false} LittleBytes(x: nat, n: nat)
    requires x < Power(n)
    ensures Little(Bytes(x, n)) == x
  {
    if n > 0 {
      LittleBytes(x / 256, n - 1);
    }
  }

  lemma GranuleSurvives(x: Int64)
    ensures Signed(Little(Bytes(Unsigned(x), 8))) == x
  {
    assert Power(8) == 256 * Power(7) && Power(7) == 256 * Power(6)
    && Power(6) == 256 * Power(5) && Power(5) == 256 * Power(4);
    assert Power(4) == 256 * Power(3) && Power(3) == 256 * Power(2) && Power(2) == 256 * Power(1) && Power(1) == 256;
    LittleBytes(Unsigned(x), 8);
  }

  /** Some bytes in which no page begins, then a page. */
  datatype Chunk = Chunk(junk: seq<Byte>, page: Page)

  function Stream(chunks: seq<Chunk>, tail: seq<Byte>): seq<Byte>
    requires forall c :: c in chunks ==> WellFormed(c.page)
  {
    if chunks == [] then tail else chunks[0].junk + (Encode(chunks[0].page) + Stream(chunks[1..], tail))
  }

  /** No page begins in the first `n` bytes. */
  ghost predicate Silent(data: seq<Byte>, n: nat) {
    forall i :: 0 <= i < n ==> !SyncAt(data, i)
  }

  /** Every page is announced by the first "OggS" after the page before it; the tail has none. */
  ghost predicate Findable(chunks: seq<Chunk>, tail: seq<Byte>)
    requires forall c :: c in chunks ==> WellFormed(c.page)
  {
    if chunks == [] then Silent(tail, |tail|)
    else Silent(Stream(chunks, tail), |chunks[0].junk|) && Findable(chunks[1..], tail)
  }

  function Largest(chunks: seq<Chunk>, best: int): int {
    if chunks == [] then best else Largest(chunks[1..], Max(best, chunks[0].page.granule))
  }

  // ----- walking on does not depend on what was walked over -----

  lemma SuffixSlice(a: seq<Byte>, b: seq<Byte>, i: nat, j: nat)
    requires i <= j <= |b|
    ensures (a + b)[|a| + i..|a| + j] == b[i..j]
  {
    forall k | 0 <= k < j - i ensures (a + b)[|a| + i..|a| + j][k] == b[i..j][k] {
    }
  }

  lemma TurnShifts(a: seq<Byte>, b: seq<Byte>, pos: nat, best: int)
    ensures var t := TurnAt(b, pos, best);
            TurnAt(a + b, |a| + pos, best) == if t.Ends? then t else GoesOn(|a| + t.pos, t.best)
  {
    var all, at := a + b, |a| + pos;
    if pos + HEADER <= |b| {
      SuffixSlice(a, b, pos, pos + 4);
      SuffixSlice(a, b, pos + 6, pos + 14);
      var n := b[pos + 26];
      assert all[at + 26] == n;
      if pos + HEADER + n <= |b| {
        SuffixSlice(a, b, pos + HEADER, pos + HEADER + n);
      }
    }
  }

  lemma {:induction false} WalkShifts(a: seq<Byte>, b: seq<Byte>, pos: nat, best: int)
    ensures Walk(a + b, |a| + pos, best) == Walk(b, pos, best)
    decreases |b| - pos
  {
    TurnShifts(a, b, pos, best);
    var t := TurnAt(b, pos, best);
    if t.GoesOn? {
      WalkShifts(a, b, t.pos, t.best);
    }
  }

  lemma {:induction false} SilenceIsSkipped(data: seq<Byte>, pos: nat, n: nat, best: int)
    requires Silent(data, n) && pos <= n && n + HEADER <= |data|
    ensures Walk(data, pos, best) == Walk(data, n, best)
    decreases n - pos
  {
    if pos < n {
      SilenceIsSkipped(data, pos + 1, n, best);
    }
  }

  lemma {:induction false} SilenceChangesNothing(data: seq<Byte>, pos: nat, best: int)
    requires Silent(data, |data|)
    ensures Walk(data, pos, best) == best
    decreases |data| - pos
  {
    if pos + HEADER <= |data| {
      SilenceChangesNothing(data, pos + 1, best);
    }
  }

  lemma PageIsSkipped(p: Page, after: seq<Byte>, best: int)
    requires WellFormed(p)
    ensures TurnAt(Encode(p) + after, 0, best) == GoesOn(|Encode(p)|, Max(best, p.granule))
  {
    var data := Encode(p) + after;
    assert data[0..4] == SYNC;
    assert data[6..14] == Bytes(Unsigned(p.granule), 8);
    assert data[26] == |p.table|;
    assert data[27..27 + |p.table|] == p.table;
    GranuleSurvives(p.granule);
  }

  lemma OnePage(page: Page, rest: seq<Byte>, best: int)
    requires WellFormed(page)
    ensures Walk(Encode(page) + rest, 0, best) == Walk(rest, 0, Max(best, page.granule))
  {
    var bytes := Encode(page);
    PageIsSkipped(page, rest, best);
    assert Walk(bytes + rest, 0, best) == Walk(bytes + rest, |bytes|, Max(best, page.granule));
    WalkShifts(bytes, rest, 0, Max(best, page.granule));
  }

  lemma JunkIsSkipped(junk: seq<Byte>, rest: seq<Byte>, best: int)
    requires |rest| >= HEADER && Silent(junk + rest, |junk|)
    ensures Walk(junk + rest, 0, best) == Walk(rest, 0, best)
  {
    SilenceIsSkipped(junk + rest, 0, |junk|, best);
    WalkShifts(junk, rest, 0, best);
  }

  lemma OneChunk(junk: seq<Byte>, page: Page, rest: seq<Byte>, best: int)
    requires WellFormed(page) && Silent(junk + (Encode(page) + rest), |junk|)
    ensures Walk(junk + (Encode(page) + rest), 0, best) == Walk(rest, 0, Max(best, page.granule))
  {
    JunkIsSkipped(junk, Encode(page) + rest, best);
    OnePage(page, rest, best);
  }

  /** The walk returns the largest granule position of all pages, or 0, whatever lies between and after them. */
  lemma {:induction false} WalkFindsLargest(chunks: seq<Chunk>, tail: seq<Byte>, best: int)
    requires (forall c :: c in chunks ==> WellFormed(c.page)) && Findable(chunks, tail)
    ensures Walk(Stream(chunks, tail), 0, best) == Largest(chunks, best)
    decreases |chunks|
  {
    if chunks == [] {
      SilenceChangesNothing(tail, 0, best);
    } else {
      OneChunk(chunks[0].junk, chunks[0].page, Stream(chunks[1..], tail), best);
      WalkFindsLargest(chunks[1..], tail, Max(best, chunks[0].page.granule));
    }
  }

  /** On arbitrary bytes the result is 0 or the granule position of some complete header, and never negative. */
  lemma {:induction false} WalkFindsAHeader(data: seq<Byte>, pos: nat, best: int)
    ensures Walk(data, pos, best) >= best
    ensures Walk(data, pos, best) == best
    || exists i :: pos <= i < |data| && SyncAt(data, i) && Walk(data, pos, best) == GranuleAt(data, i)
    decreases |data| - pos
  {
    var t := TurnAt(data, pos, best);
    if t.GoesOn? {
      WalkFindsAHeader(data, t.pos, t.best);
    }
  }
}
