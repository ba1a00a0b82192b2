/** The string operations the gateway relies on: trimming, splitting at a character, joining. */
module Text {

  datatype Option<+T> = None | Some(value: T)

  /** unicode.IsSpace. */
  predicate IsSpace(c: char) {
    || c in "\t\n\r " || c == '\U{0B}' || c == '\U{0C}' || c == '\U{85}' || c == '\U{A0}' || c == '\U{1680}'
    || '\U{2000}' <= c <= '\U{200A}' || c == '\U{2028}' || c == '\U{2029}'
    || c == '\U{202F}' || c == '\U{205F}' || c == '\U{3000}'
  }

  function TrimLeft(s: string, cut: char -> bool): string {
    if s != [] && cut(s[0]) then TrimLeft(s[1..], cut) else s
  }

  function TrimRight(s: string, cut: char -> bool): string {
    if s != [] && cut(s[|s| - 1]) then TrimRight(s[..|s| - 1], cut) else s
  }

  function Trim(s: string, cut: char -> bool): string {
    TrimRight(TrimLeft(s, cut), cut)
  }

  function TrimSpace(s: string): string {
    Trim(s, IsSpace)
  }

  predicate Trimmed(s: string, cut: char -> bool) {
    s == [] || (!cut(s[0]) && !cut(s[|s| - 1]))
  }

  lemma {:induction false} TrimLeftProps(s: string, cut: char -> bool)
    ensures var t := TrimLeft(s, cut);
            && |t| <= |s| && t == s[|s| - |t|..] && (t == [] || !cut(t[0]))
            && forall i :: 0 <= i < |s| - |t| ==> cut(s[i])
  {
    if s != [] && cut(s[0]) {
      TrimLeftProps(s[1..], cut);
      var t := TrimLeft(s, cut);
      forall i | 0 <= i < |s| - |t| ensures cut(s[i]) {
        if i > 0 { assert s[i] == s[1..][i - 1]; }
      }
    }
  }

  lemma {:induction false} TrimRightProps(s: string, cut: char -> bool)
    ensures var t := TrimRight(s, cut);
            |t| <= |s| && t == s[..|t|] && (t == [] || !cut(t[|t| - 1]))
  {
    if s != [] && cut(s[|s| - 1]) {
      TrimRightProps(s[..|s| - 1], cut);
    }
  }

  lemma TrimIsTrimmed(s: string, cut: char -> bool)
    ensures Trimmed(Trim(s, cut), cut)
  {
    TrimLeftProps(s, cut);
    TrimRightProps(TrimLeft(s, cut), cut);
  }

  lemma TrimOfTrimmed(s: string, cut: char -> bool)
    requires Trimmed(s, cut)
    ensures Trim(s, cut) == s
  {
  }

  lemma {:induction false} TrimRightOfSpace(s: string, cut: char -> bool)
    requires forall i :: 0 <= i < |s| ==> cut(s[i])
    ensures TrimRight(s, cut) == ""
  {
    if s != "" {
      TrimRightOfSpace(s[..|s| - 1], cut);
    }
  }

  /** Nothing is left of a text exactly when all of it is cut. */
  lemma BlankIff(s: string)
    ensures TrimSpace(s) == "" <==> forall i :: 0 <= i < |s| ==> IsSpace(s[i])
  {
    var t := TrimLeft(s, IsSpace);
    TrimLeftProps(s, IsSpace);
    TrimRightProps(t, IsSpace);
    if forall i :: 0 <= i < |s| ==> IsSpace(s[i]) {
      TrimRightOfSpace(t, IsSpace);
    } else if TrimRight(t, IsSpace) == "" {
      var i :| 0 <= i < |s| && !IsSpace(s[i]);
      assert t != "";
      TrimmedFront(t, IsSpace);
    }
  }

  lemma {:induction false} TrimmedFront(s: string, cut: char -> bool)
    requires s != "" && !cut(s[0])
    ensures TrimRight(s, cut) != "" && TrimRight(s, cut)[0] == s[0]
  {
    if cut(s[|s| - 1]) {
      TrimmedFront(s[..|s| - 1], cut);
    }
  }

  // ----- split and join at one character -----

  predicate Free(s: string, sep: char) {
    forall i :: 0 <= i < |s| ==> s[i] != sep
  }

  predicate AllFree(ss: seq<string>, sep: char) {
    forall i :: 0 <= i < |ss| ==> Free(ss[i], sep)
  }

  function Split(s: string, sep: char): (parts: seq<string>)
    ensures |parts| > 0
  {
    if s == [] then [""]
    else
      var rest := Split(s[1..], sep);
      if s[0] == sep then [""] + rest else [[s[0]] + rest[0]] + rest[1..]
  }

  function Join(ss: seq<string>, sep: char): string {
    if ss == [] then "" else if |ss| == 1 then ss[0] else ss[0] + [sep] + Join(ss[1..], sep)
  }

  lemma {:induction false} SplitParts(s: string, sep: char)
    ensures AllFree(Split(s, sep), sep)
    ensures Join(Split(s, sep), sep) == s
    ensures (Split(s, sep)[0] == "" <==> s == "" || s[0] == sep)
  {
    if s != [] {
      SplitParts(s[1..], sep);
      var rest, parts := Split(s[1..], sep), Split(s, sep);
      if s[0] != sep {
        assert parts[1..] == rest[1..];
        assert [s[0]] + s[1..] == s;
      } else {
        assert parts[1..] == rest;
      }
    }
  }

  lemma {:induction false} SplitFree(s: string, sep: char)
    requires Free(s, sep)
    ensures Split(s, sep) == [s]
  {
    if s != [] {
      assert Free(s[1..], sep);
      SplitFree(s[1..], sep);
      assert [s[0]] + s[1..] == s;
    }
  }

  function Prepend(c: char, parts: seq<string>, sep: char): seq<string>
    requires parts != []
  {
    if c == sep then [""] + parts else [[c] + parts[0]] + parts[1..]
  }

  lemma SplitCons(c: char, s: string, sep: char)
    ensures Split([c] + s, sep) == Prepend(c, Split(s, sep), sep)
  {
    assert ([c] + s)[1..] == s;
  }

  lemma PrependAppend(c: char, a: seq<string>, b: seq<string>, sep: char)
    requires a != []
    ensures Prepend(c, a + b, sep) == Prepend(c, a, sep) + b
  {
    assert (a + b)[1..] == a[1..] + b;
  }

  lemma {:induction false} SplitAppend(s: string, t: string, sep: char)
    ensures Split(s + [sep] + t, sep) == Split(s, sep) + Split(t, sep)
  {
    if s == [] {
      assert s + [sep] + t == [sep] + t;
      SplitCons(sep, t, sep);
    } else {
      var rest := s[1..];
      SplitAppend(rest, t, sep);
      assert s == [s[0]] + rest && s + [sep] + t == [s[0]] + (rest + [sep] + t);
      SplitCons(s[0], rest, sep);
      SplitCons(s[0], rest + [sep] + t, sep);
      PrependAppend(s[0], Split(rest, sep), Split(t, sep), sep);
    }
  }

  /** Splitting undoes joining for parts that do not contain the separator. */
  lemma {:induction false} SplitJoin(ss: seq<string>, sep: char)
    requires ss != [] && AllFree(ss, sep)
    ensures Split(Join(ss, sep), sep) == ss
  {
    if |ss| == 1 {
      SplitFree(ss[0], sep);
    } else {
      SplitJoin(ss[1..], sep);
      SplitFree(ss[0], sep);
      SplitAppend(ss[0], Join(ss[1..], sep), sep);
      assert ss == [ss[0]] + ss[1..];
    }
  }

  lemma {:induction false} SplitLast(s: string, sep: char)
    ensures var parts := Split(s, sep); parts[|parts| - 1] == "" <==> s == "" || s[|s| - 1] == sep
  {
    if s != [] {
      SplitLast(s[1..], sep);
    }
  }

  // ----- text lists: trim the separator at both ends, then split -----

  function SplitTrimmed(text: string, sep: char): seq<string> {
    if text == "" then [] else Split(Trim(text, c => c == sep), sep)
  }

  /** What survives joining and splitting again. */
  predicate Survives(ss: seq<string>, sep: char) {
    AllFree(ss, sep) && (ss != [] ==> ss[0] != "" && ss[|ss| - 1] != "")
  }

  lemma {:induction false} JoinEnds(ss: seq<string>, sep: char)
    requires ss != [] && ss[0] != "" && ss[|ss| - 1] != ""
    ensures Join(ss, sep) != "" && Join(ss, sep)[0] == ss[0][0]
    ensures Join(ss, sep)[|Join(ss, sep)| - 1] == ss[|ss| - 1][|ss[|ss| - 1]| - 1]
  {
    if |ss| > 1 {
      JoinLast(ss[1..], sep);
      assert ss[1..][|ss| - 2] == ss[|ss| - 1];
    }
  }

  lemma {:induction false} JoinLast(ss: seq<string>, sep: char)
    requires ss != [] && ss[|ss| - 1] != ""
    ensures Join(ss, sep) != "" && Join(ss, sep)[|Join(ss, sep)| - 1] == ss[|ss| - 1][|ss[|ss| - 1]| - 1]
  {
    if |ss| > 1 {
      JoinLast(ss[1..], sep);
      assert ss[1..][|ss| - 2] == ss[|ss| - 1];
    }
  }

  /** A list is read back unchanged exactly when no part holds the separator and neither end is blank. */
  lemma ReadBackIff(ss: seq<string>, sep: char)
    ensures SplitTrimmed(Join(ss, sep), sep) == ss <==> Survives(ss, sep)
  {
    var text, cut := Join(ss, sep), (c: char) => c == sep;
    if Survives(ss, sep) {
      if ss != [] {
        JoinEnds(ss, sep);
        TrimOfTrimmed(text, cut);
        SplitJoin(ss, sep);
      }
    } else if SplitTrimmed(text, sep) == ss && text != "" {
      var trimmed := Trim(text, cut);
      TrimIsTrimmed(text, cut);
      SplitParts(trimmed, sep);
      SplitLast(trimmed, sep);
    }
  }

  lemma SplitTrimmedSurvives(text: string, sep: char)
    requires Trim(text, c => c == sep) != ""
    ensures Survives(SplitTrimmed(text, sep), sep)
    ensures Join(SplitTrimmed(text, sep), sep) == Trim(text, c => c == sep)
  {
    var trimmed := Trim(text, c => c == sep);
    TrimIsTrimmed(text, c => c == sep);
    SplitParts(trimmed, sep);
    SplitLast(trimmed, sep);
  }

  // ----- a part that holds no separator is read back whatever the others hold -----

  lemma {:induction false} TrimLeftKeepsParts(s: string, sep: char, cut: char -> bool, part: string)
    requires (forall c :: cut(c) <==> c == sep) && part in Split(s, sep) && part != ""
    ensures part in Split(TrimLeft(s, cut), sep)
  {
    if s != [] && cut(s[0]) {
      TrimLeftKeepsParts(s[1..], sep, cut, part);
    }
  }

  lemma {:induction false} TrimRightKeepsParts(s: string, sep: char, cut: char -> bool, part: string)
    requires (forall c :: cut(c) <==> c == sep) && part in Split(s, sep) && part != ""
    ensures part in Split(TrimRight(s, cut), sep)
  {
    if s != [] && cut(s[|s| - 1]) {
      var before := s[..|s| - 1];
      SplitAppend(before, "", sep);
      assert s == before + [sep] + "";
      TrimRightKeepsParts(before, sep, cut, part);
    }
  }

  lemma {:induction false} JoinHasPart(ss: seq<string>, sep: char, k: nat)
    requires k < |ss| && Free(ss[k], sep)
    ensures ss[k] in Split(Join(ss, sep), sep)
  {
    if |ss| == 1 {
      SplitFree(ss[0], sep);
    } else {
      SplitAppend(ss[0], Join(ss[1..], sep), sep);
      if k == 0 {
        SplitFree(ss[0], sep);
      } else {
        JoinHasPart(ss[1..], sep, k - 1);
      }
    }
  }

  lemma PartIsReadBack(ss: seq<string>, sep: char, part: string)
    requires part in ss && Free(part, sep) && part != ""
    ensures part in SplitTrimmed(Join(ss, sep), sep)
  {
    var k :| 0 <= k < |ss| && ss[k] == part;
    var text, cut := Join(ss, sep), (c: char) => c == sep;
    JoinHasPart(ss, sep, k);
    TrimLeftKeepsParts(text, sep, cut, part);
    TrimRightKeepsParts(TrimLeft(text, cut), sep, cut, part);
  }

  // ----- the lines of joined texts -----

  /** The parts of every text, one text after the other. */
  function Lines(ss: seq<string>, sep: char): seq<string> {
    if ss == [] then [] else Split(ss[0], sep) + Lines(ss[1..], sep)
  }

  lemma {:induction false} SplitOfJoin(ss: seq<string>, sep: char)
    requires ss != []
    ensures Split(Join(ss, sep), sep) == Lines(ss, sep)
  {
    if |ss| > 1 {
      SplitOfJoin(ss[1..], sep);
      SplitAppend(ss[0], Join(ss[1..], sep), sep);
    }
  }

  /** Without blank parts at the start; one part always stays. */
  function DropBlanksLeft(parts: seq<string>): (r: seq<string>)
    requires parts != []
    ensures r != []
  {
    if |parts| > 1 && parts[0] == "" then DropBlanksLeft(parts[1..]) else parts
  }

  function DropBlanksRight(parts: seq<string>): (r: seq<string>)
    requires parts != []
    ensures r != []
  {
    if |parts| > 1 && parts[|parts| - 1] == "" then DropBlanksRight(parts[..|parts| - 1]) else parts
  }

  lemma {:induction false} SplitTrimLeft(s: string, sep: char, cut: char -> bool)
    requires forall c :: cut(c) <==> c == sep
    ensures Split(TrimLeft(s, cut), sep) == DropBlanksLeft(Split(s, sep))
  {
    if s != [] && cut(s[0]) {
      SplitTrimLeft(s[1..], sep, cut);
      assert Split(s, sep)[1..] == Split(s[1..], sep);
    }
  }

  lemma {:induction false} SplitTrimRight(s: string, sep: char, cut: char -> bool)
    requires forall c :: cut(c) <==> c == sep
    ensures Split(TrimRight(s, cut), sep) == DropBlanksRight(Split(s, sep))
  {
    SplitLast(s, sep);
    if s != [] && cut(s[|s| - 1]) {
      var before := s[..|s| - 1];
      SplitTrimRight(before, sep, cut);
      SplitAppend(before, "", sep);
      assert s == before + [sep] + "";
      assert Split(s, sep)[..|Split(s, sep)| - 1] == Split(before, sep);
    }
  }

  lemma LinesOfSome(ss: seq<string>, sep: char)
    ensures Lines(ss, sep) == [] <==> ss == []
  {
  }

  /** What joined texts are read back as, whatever they hold. */
  function ReadBack(ss: seq<string>, sep: char): seq<string> {
    LinesOfSome(ss, sep);
    if Join(ss, sep) == "" || ss == [] then [] else DropBlanksRight(DropBlanksLeft(Lines(ss, sep)))
  }

  lemma SplitTrimmedOfJoin(ss: seq<string>, sep: char)
    ensures SplitTrimmed(Join(ss, sep), sep) == ReadBack(ss, sep)
  {
    if ss != [] {
      var text, cut := Join(ss, sep), (c: char) => c == sep;
      SplitOfJoin(ss, sep);
      SplitTrimLeft(text, sep, cut);
      SplitTrimRight(TrimLeft(text, cut), sep, cut);
    }
  }
}
