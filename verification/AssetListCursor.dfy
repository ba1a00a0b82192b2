/** The gateway's own list cursors: decimal offsets behind a per-user prefix. */
module AssetListCursor {
  import opened AssetListScan
  import opened AssetListExact

  const MAX_INT: nat := 0x7FFF_FFFF_FFFF_FFFF

  datatype Parsed = Ok(n: int) | Invalid

  // ----- strconv.Itoa and strconv.Atoi -----

  predicate IsDigit(c: char) { '0' <= c <= '9' }

  function Digit(c: char): nat
    requires IsDigit(c)
  {
    (c as int) - ('0' as int)
  }

  function Itoa(n: nat): string {
    if n < 10 then ['0' + n as char] else Itoa(n / 10) + ['0' + (n % 10) as char]
  }

  function Value(s: string): nat
    requires forall i :: 0 <= i < |s| ==> IsDigit(s[i])
  {
    if s == [] then 0 else 10 * Value(s[..|s| - 1]) + Digit(s[|s| - 1])
  }

  predicate Digits(s: string) {
    s != [] && forall i :: 0 <= i < |s| ==> IsDigit(s[i])
  }

  /** An optional sign and at least one digit, within the range of a 64-bit int. */
  function Atoi(s: string): Parsed {
    var signed := s != [] && (s[0] == '-' || s[0] == '+');
    var digits := if signed then s[1..] else s;
    if !Digits(digits) then Invalid
    else
      var n := if signed && s[0] == '-' then -(Value(digits) as int) else Value(digits);
      if -(MAX_INT as int) - 1 <= n <= MAX_INT then Ok(n) else Invalid
  }

  lemma {:induction false} ItoaIsCanonical(n: nat)
    ensures Digits(Itoa(n)) && Value(Itoa(n)) == n
    ensures Itoa(n)[0] == '0' ==> n == 0
  {
    if n >= 10 {
      ItoaIsCanonical(n / 10);
      assert Itoa(n)[..|Itoa(n)| - 1] == Itoa(n / 10);
    } else {
      assert Itoa(n)[..0] == [];
    }
  }

  /** Digits without a leading zero are exactly the text that Itoa prints. */
  lemma {:induction false} CanonicalDigits(s: string)
    requires Digits(s) && (s[0] == '0' ==> |s| == 1)
    ensures Itoa(Value(s)) == s
    ensures s[0] != '0' ==> Value(s) > 0
  {
    var last := s[|s| - 1];
    if |s| == 1 {
      assert s[..0] == [];
    } else {
      CanonicalDigits(s[..|s| - 1]);
      assert s == s[..|s| - 1] + [last];
      assert Value(s) / 10 == Value(s[..|s| - 1]) && Value(s) % 10 == Digit(last);
    }
  }

  // ----- tokens -----

  function Issue(prefix: string, offset: nat): string {
    prefix + Itoa(offset)
  }

  /** A token is accepted when it carries this user's prefix and leaves room for one more page. */
  function ParseToken(prefix: string, token: string, size: nat): Parsed {
    if !(prefix <= token) then Invalid
    else
      match Atoi(token[|prefix|..])
      case Invalid => Invalid
      case Ok(n) => if n < 0 || n > MAX_INT - size then Invalid else Ok(n)
  }

  /** An issued token is read back as its offset exactly when a page after it cannot overflow. */
  lemma IssueThenParse(prefix: string, offset: nat, size: nat)
    ensures ParseToken(prefix, Issue(prefix, offset), size) ==
              if offset <= MAX_INT - size then Ok(offset) else Invalid
  {
    ItoaIsCanonical(offset);
    assert Issue(prefix, offset)[|prefix|..] == Itoa(offset);
    assert IsDigit(Itoa(offset)[0]);
  }

  /** The text an accepted offset would be issued as: no sign, no leading zero. */
  predicate Plain(digits: string) {
    Digits(digits) && (digits[0] == '0' ==> |digits| == 1)
  }

  /** Reading then issuing gives back the token exactly when its number was written plainly. */
  lemma ParseThenIssue(prefix: string, token: string, size: nat)
    requires ParseToken(prefix, token, size).Ok?
    ensures Issue(prefix, ParseToken(prefix, token, size).n) == token <==> Plain(token[|prefix|..])
  {
    var digits, n := token[|prefix|..], ParseToken(prefix, token, size).n;
    assert token == prefix + digits;
    ItoaIsCanonical(n);
    if Plain(digits) {
      assert IsDigit(digits[0]);
      CanonicalDigits(digits);
    } else if Itoa(n) == digits {
      PlainItoa(n);
      assert false;
    } else {
      assert (prefix + Itoa(n))[|prefix|..] == Itoa(n);
    }
  }

  lemma {:induction false} PlainItoa(n: nat)
    ensures Plain(Itoa(n))
  {
    ItoaIsCanonical(n);
  }

  // ----- page numbers -----

  /** The offset of a page, refused when the end of that page would overflow. */
  function PageOffset(page: nat, size: nat): Parsed
    requires page >= 1 && 1 <= size <= BATCH
  {
    if page - 1 > (MAX_INT - size) / size then Invalid else Ok((page - 1) * size)
  }

  lemma PageOffsetIff(page: nat, size: nat)
    requires page >= 1 && 1 <= size <= BATCH
    ensures PageOffset(page, size).Ok? <==> (page - 1) * size + size <= MAX_INT
  {
    var room := MAX_INT - size;
    assert room == room / size * size + room % size;
    if page - 1 > room / size {
      Times(room / size + 1, page - 1, size);
    } else {
      Times(page - 1, room / size, size);
    }
  }

  lemma Times(a: nat, b: nat, size: nat)
    requires a <= b
    ensures a * size <= b * size
  {
    assert (b - a) * size >= 0;
  }

  /** An accepted page starts where the pages before it end. */
  lemma PageStarts(page: nat, size: nat)
    requires page >= 1 && 1 <= size <= BATCH && PageOffset(page, size).Ok?
    ensures page == 1 ==> PageOffset(page, size).n == 0
    ensures page > 1 ==> PageOffset(page - 1, size).Ok?
                         && PageOffset(page, size).n == PageOffset(page - 1, size).n + size
  {
    PageOffsetIff(page, size);
    if page > 1 {
      Times(page - 2, page - 1, size);
      PageOffsetIff(page - 1, size);
      assert (page - 1) * size == (page - 2) * size + size;
    }
  }

  /** All pages up to this one can be asked for. */
  lemma {:induction false} EarlierPages(n: nat, size: nat, page: nat)
    requires 1 <= page <= n && 1 <= size <= BATCH && PageOffset(n, size).Ok?
    ensures PageOffset(page, size).Ok?
    decreases n
  {
    if page < n {
      PageStarts(n, size);
      EarlierPages(n - 1, size, page);
    }
  }

  /** The items of the first `n` pages, one page after the other; the windows are asked for by page number. */
  function PagesOf(pager: Pager, size: nat, n: nat): seq<string>
    requires 1 <= size <= BATCH
  {
    if n == 0 then []
    else
      PagesOf(pager, size, n - 1) +
        match PageOffset(n, size)
        case Invalid => []
        case Ok(offset) =>
          if offset < 0 then [] else match pager(offset, size) case Finished(items, _, _) => items case _ => []
  }

  lemma WindowsJoin(list: seq<string>, offset: nat, size: nat)
    ensures list[..Min(offset, |list|)] + Window(list, offset, size) == list[..Min(offset + size, |list|)]
  {
  }

  /** Asking for page 1, 2, and so on gives the list from its start, without gap or repeat. */
  lemma {:induction false} PagesAreTheList(pager: Pager, list: seq<string>, size: nat, n: nat)
    requires Stable(pager, list) && 1 <= size <= BATCH && (n > 0 ==> PageOffset(n, size).Ok?)
    ensures PagesOf(pager, size, n) == list[..Min(n * size, |list|)]
    ensures n > 0 ==> PageOffset(n, size).n == (n - 1) * size
  {
    if n > 0 {
      PageStarts(n, size);
      PagesAreTheList(pager, list, size, n - 1);
      var offset: nat := PageOffset(n, size).n;
      assert AnswersWindow(pager, list, offset, size);
      assert n * size == (n - 1) * size + size;
      WindowsJoin(list, offset, size);
    }
  }

  // ----- the next token -----

  /** What the scan puts into its own response ("" when the listing ends here). */
  function ScanToken(prefix: string, offset: nat, size: nat, total: nat): string {
    var end := Min(offset + size, total);
    if end < total then Issue(prefix, end) else ""
  }

  /** What the official envelope computes again from the recorded total. */
  function EnvelopeToken(prefix: string, offset: nat, size: nat, total: nat): string {
    if offset + size < total then Issue(prefix, offset + size) else ""
  }

  lemma BothTokensAgree(prefix: string, offset: nat, size: nat, total: nat)
    ensures ScanToken(prefix, offset, size, total) == EnvelopeToken(prefix, offset, size, total)
  {
  }

  // ----- walking a stable list -----

  /** What one request for a window answers. */
  type Pager = (nat, nat) -> Outcome

  /** What a client does with one answer: stop, for good or at an error, or go on at an offset. */
  datatype Turn = Stops(items: seq<string>, ended: bool) | GoesOn(items: seq<string>, next: nat)

  function TurnAt(pager: Pager, prefix: string, offset: nat, size: nat, nextSize: nat): Turn {
    match pager(offset, size)
    case Finished(items, total, _) =>
      var token := ScanToken(prefix, offset, size, total);
      if token == "" then Stops(items, true)
      else
        (match ParseToken(prefix, token, nextSize)
         case Ok(next) => if next < 0 then Stops(items, false) else GoesOn(items, next)
         case Invalid => Stops(items, false))
    case _ => Stops([], false)
  }

  /** A client that follows tokens; request `k` asks for `sizes(k)` items, and at most `fuel` requests are made. */
  function Walk(pager: Pager, prefix: string, sizes: nat -> nat, k: nat, offset: nat, fuel: nat): (seq<string>, bool)
    decreases fuel
  {
    if fuel == 0 then ([], false)
    else
      match TurnAt(pager, prefix, offset, sizes(k), sizes(k + 1))
      case Stops(items, ended) => (items, ended)
      case GoesOn(items, next) =>
        var (rest, ended) := Walk(pager, prefix, sizes, k + 1, next, fuel - 1);
        (items + rest, ended)
  }

  predicate AnswersWindow(pager: Pager, list: seq<string>, offset: nat, size: nat) {
    var r := pager(offset, size);
    r.Finished? && r.total == |list| && r.items == Window(list, offset, size)
  }

  /** The list stays put: every window of it is answered exactly. */
  ghost predicate Stable(pager: Pager, list: seq<string>) {
    forall offset: nat, size: nat :: AnswersWindow(pager, list, offset, size)
  }

  /** Every request asks for at least `least` items and at most a batch. */
  ghost predicate AllowedSizes(sizes: nat -> nat, least: nat) {
    1 <= least && forall k :: least <= sizes(k) <= BATCH
  }

  /** How far `fuel` requests of at least `least` items get. */
  function Reach(fuel: nat, least: nat): nat {
    if fuel == 0 then 0 else least + Reach(fuel - 1, least)
  }

  lemma {:induction false} ReachIsProduct(fuel: nat, least: nat)
    ensures Reach(fuel, least) == fuel * least
  {
    if fuel > 0 {
      ReachIsProduct(fuel - 1, least);
    }
  }

  lemma TurnOverStableList(pager: Pager, prefix: string, list: seq<string>, offset: nat, size: nat, nextSize: nat)
    requires Stable(pager, list) && nextSize <= BATCH
    requires prefix != "" && |list| + BATCH <= MAX_INT && offset <= |list|
    ensures var end := Min(offset + size, |list|);
            TurnAt(pager, prefix, offset, size, nextSize) ==
              if end < |list| then GoesOn(list[offset..end], end) else Stops(list[offset..], true)
  {
    assert AnswersWindow(pager, list, offset, size);
    var end := Min(offset + size, |list|);
    IssueThenParse(prefix, end, nextSize);
    if end == |list| {
      assert list[offset..end] == list[offset..];
    }
  }

  lemma Rejoin(list: seq<string>, offset: nat, end: nat)
    requires offset <= end <= |list|
    ensures list[offset..end] + list[end..] == list[offset..]
  {
  }

  lemma {:induction false} WalkFrom(pager: Pager, prefix: string, sizes: nat -> nat, least: nat,
      list: seq<string>, k: nat, offset: nat, fuel: nat)
    requires Stable(pager, list) && AllowedSizes(sizes, least) && prefix != "" && |list| + BATCH <= MAX_INT
    requires offset <= |list| <= offset + Reach(fuel, least) && fuel > 0
    ensures Walk(pager, prefix, sizes, k, offset, fuel) == (list[offset..], true)
    decreases fuel
  {
    assert least <= sizes(k) && sizes(k + 1) <= BATCH;
    TurnOverStableList(pager, prefix, list, offset, sizes(k), sizes(k + 1));
    var end := Min(offset + sizes(k), |list|);
    if end < |list| {
      Rejoin(list, offset, end);
      WalkFrom(pager, prefix, sizes, least, list, k + 1, end, fuel - 1);
    }
  }

  /** Following the issued tokens from the start gives the whole list, without repeat or gap, and ends;
      the client may change its page size on the way. */
  lemma WalkIsWholeList(pager: Pager, prefix: string, sizes: nat -> nat, least: nat, list: seq<string>, fuel: nat)
    requires Stable(pager, list) && AllowedSizes(sizes, least) && prefix != "" && |list| + BATCH <= MAX_INT
    requires fuel > 0 && |list| <= fuel * least
    ensures Walk(pager, prefix, sizes, 0, 0, fuel) == (list, true)
  {
    ReachIsProduct(fuel, least);
    WalkFrom(pager, prefix, sizes, least, list, 0, 0, fuel);
  }

  // ----- the scan as a pager -----

  function WithWindow(q: Query, offset: nat, size: nat): Query {
    q.(offset := offset, size := size)
  }

  function Scanning(q: Query, up: Upstream, first: Page, deadline: nat): Pager
    requires Provable(q.o)
  {
    (offset: nat, size: nat) => ScanList(WithWindow(q, offset, size), up, first, deadline)
  }

  lemma {:induction false} WindowIgnored(q: Query, offset: nat, size: nat, rows: seq<Row>)
    ensures Wanted(WithWindow(q, offset, size), rows) == Wanted(q, rows)
  {
    if rows != [] {
      WindowIgnored(q, offset, size, rows[..|rows| - 1]);
    }
  }

  lemma ExactIsWindow(q: Query, offset: nat, size: nat, rows: seq<Row>)
    requires Provable(q.o)
    ensures var r := Exact(WithWindow(q, offset, size), rows);
            r.total == |Wanted(q, rows)| && r.items == Window(Raws(Wanted(q, rows)), offset, size)
  {
    WindowIgnored(q, offset, size, rows);
  }

  lemma NumberedIsStable(q: Query, parse: string -> seq<Row>, list: seq<Row>, up: Upstream, first: Page, deadline: nat)
    requires WellFormed(q) && !q.mode.UpstreamCursor? && DistinctRows(list)
    requires NumberedSupplier(q.mode, parse, list, up, first) && deadline >= |list| / BATCH + 1
    ensures Stable(Scanning(q, up, first, deadline), Raws(Wanted(q, list)))
  {
    forall offset: nat, size: nat
      ensures AnswersWindow(Scanning(q, up, first, deadline), Raws(Wanted(q, list)), offset, size)
    {
      NumberedScanIsExact(WithWindow(q, offset, size), parse, list, up, first, deadline);
      ExactIsWindow(q, offset, size, list);
    }
  }

  lemma CursorIsStable(q: Query, up: Upstream, pages: seq<Page>, deadline: nat)
    requires WellFormed(q) && q.mode.UpstreamCursor? && CursorChain(up, pages) && deadline >= |pages|
    ensures Stable(Scanning(q, up, pages[0], deadline), Raws(Wanted(q, AllRows(pages))))
  {
    forall offset: nat, size: nat
      ensures AnswersWindow(Scanning(q, up, pages[0], deadline), Raws(Wanted(q, AllRows(pages))), offset, size)
    {
      CursorScanIsExact(WithWindow(q, offset, size), up, pages, deadline);
      ExactIsWindow(q, offset, size, AllRows(pages));
    }
  }

  /** Over a page-number supplier with distinct rows, the token walk returns the whole filtered list. */
  lemma NumberedWalk(q: Query, parse: string -> seq<Row>, list: seq<Row>, up: Upstream, first: Page, deadline: nat,
                     prefix: string, sizes: nat -> nat, least: nat, fuel: nat)
    requires WellFormed(q) && !q.mode.UpstreamCursor? && DistinctRows(list)
    requires NumberedSupplier(q.mode, parse, list, up, first) && deadline >= |list| / BATCH + 1
    requires AllowedSizes(sizes, least) && prefix != "" && |Wanted(q, list)| + BATCH <= MAX_INT
    requires fuel > 0 && |Wanted(q, list)| <= fuel * least
    ensures Walk(Scanning(q, up, first, deadline), prefix, sizes, 0, 0, fuel) == (Raws(Wanted(q, list)), true)
  {
    NumberedIsStable(q, parse, list, up, first, deadline);
    WalkIsWholeList(Scanning(q, up, first, deadline), prefix, sizes, least, Raws(Wanted(q, list)), fuel);
  }

  /** So does the walk over a supplier that chains its pages by cursors. */
  lemma CursorWalk(q: Query, up: Upstream, pages: seq<Page>, deadline: nat,
                   prefix: string, sizes: nat -> nat, least: nat, fuel: nat)
    requires WellFormed(q) && q.mode.UpstreamCursor? && CursorChain(up, pages) && deadline >= |pages|
    requires AllowedSizes(sizes, least) && prefix != "" && |Wanted(q, AllRows(pages))| + BATCH <= MAX_INT
    requires fuel > 0 && |Wanted(q, AllRows(pages))| <= fuel * least
    ensures Walk(Scanning(q, up, pages[0], deadline), prefix, sizes, 0, 0, fuel) ==
            (Raws(Wanted(q, AllRows(pages))), true)
  {
    CursorIsStable(q, up, pages, deadline);
    WalkIsWholeList(Scanning(q, up, pages[0], deadline), prefix, sizes, least, Raws(Wanted(q, AllRows(pages))), fuel);
  }

  /** Page by page, clients of a page-number supplier see the filtered list from its first resource on. */
  lemma NumberedPages(q: Query, parse: string -> seq<Row>, list: seq<Row>, up: Upstream, first: Page, deadline: nat,
                      size: nat, n: nat)
    requires WellFormed(q) && !q.mode.UpstreamCursor? && DistinctRows(list)
    requires NumberedSupplier(q.mode, parse, list, up, first) && deadline >= |list| / BATCH + 1
    requires 1 <= size <= BATCH && (n > 0 ==> PageOffset(n, size).Ok?)
    ensures var wanted := Raws(Wanted(q, list));
            PagesOf(Scanning(q, up, first, deadline), size, n) == wanted[..Min(n * size, |wanted|)]
  {
    NumberedIsStable(q, parse, list, up, first, deadline);
    PagesAreTheList(Scanning(q, up, first, deadline), Raws(Wanted(q, list)), size, n);
  }

  /** So do those of a supplier that chains its pages by cursors. */
  lemma CursorPages(q: Query, up: Upstream, pages: seq<Page>, deadline: nat, size: nat, n: nat)
    requires WellFormed(q) && q.mode.UpstreamCursor? && CursorChain(up, pages) && deadline >= |pages|
    requires 1 <= size <= BATCH && (n > 0 ==> PageOffset(n, size).Ok?)
    ensures var wanted := Raws(Wanted(q, AllRows(pages)));
            PagesOf(Scanning(q, up, pages[0], deadline), size, n) == wanted[..Min(n * size, |wanted|)]
  {
    CursorIsStable(q, up, pages, deadline);
    PagesAreTheList(Scanning(q, up, pages[0], deadline), Raws(Wanted(q, AllRows(pages))), size, n);
  }

  // ----- tokens nobody issued -----

  lemma {:induction false} LeadingZero(s: string)
    requires Digits(s)
    ensures Digits("0" + s) && Value("0" + s) == Value(s)
  {
    if |s| == 1 {
      assert ("0" + s)[..1] == "0" && "0"[..0] == "" && s[..0] == "";
    } else {
      var last := s[|s| - 1];
      LeadingZero(s[..|s| - 1]);
      assert ("0" + s)[..|s|] == "0" + s[..|s| - 1] && ("0" + s)[|s|] == last;
    }
  }

  lemma AtoiOfDigits(digits: string)
    requires Digits(digits)
    ensures Atoi(digits) == if Value(digits) <= MAX_INT then Ok(Value(digits)) else Invalid
    ensures Atoi("+" + digits) == Atoi(digits)
    ensures Atoi("-" + digits) == if Value(digits) <= MAX_INT + 1 then Ok(-(Value(digits) as int)) else Invalid
  {
    assert IsDigit(digits[0]);
    assert ("+" + digits)[1..] == digits && ("-" + digits)[1..] == digits;
  }

  lemma AfterPrefix(prefix: string, rest: string)
    ensures prefix <= prefix + rest && (prefix + rest)[|prefix|..] == rest
  {
  }

  /** A plus sign before the number of an issued token changes nothing. */
  lemma PlusIsIgnored(prefix: string, n: nat, size: nat)
    ensures ParseToken(prefix, prefix + ("+" + Itoa(n)), size) == ParseToken(prefix, Issue(prefix, n), size)
  {
    ItoaIsCanonical(n);
    AtoiOfDigits(Itoa(n));
    AfterPrefix(prefix, Itoa(n));
    AfterPrefix(prefix, "+" + Itoa(n));
  }

  /** So does a leading zero. */
  lemma ZeroIsIgnored(prefix: string, n: nat, size: nat)
    ensures ParseToken(prefix, prefix + ("0" + Itoa(n)), size) == ParseToken(prefix, Issue(prefix, n), size)
  {
    ItoaIsCanonical(n);
    LeadingZero(Itoa(n));
    AtoiOfDigits(Itoa(n));
    AtoiOfDigits("0" + Itoa(n));
    AfterPrefix(prefix, Itoa(n));
    AfterPrefix(prefix, "0" + Itoa(n));
  }

  /** A minus sign is refused, but for a negative zero. */
  lemma MinusIsRefused(prefix: string, n: nat, size: nat)
    ensures ParseToken(prefix, prefix + ("-" + Itoa(n)), size) ==
              if n == 0 && size <= MAX_INT then Ok(0) else Invalid
  {
    ItoaIsCanonical(n);
    AtoiOfDigits(Itoa(n));
    AfterPrefix(prefix, "-" + Itoa(n));
  }

  /** A token with another prefix is refused. */
  lemma ForeignToken(prefix: string, token: string, size: nat)
    requires !(prefix <= token)
    ensures ParseToken(prefix, token, size) == Invalid
  {
  }
}
