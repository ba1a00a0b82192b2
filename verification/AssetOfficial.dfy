/** Turning supplier resources into official ones: one spelling per field, recursively. */
module AssetOfficial {
  import opened Text
  import opened AssetResponse
  import opened AssetAliases

  type Fields = map<string, Json>

  // ----- one entry of the alias table -----

  /** The best of these spellings that is present. */
  function FirstPresent(m: Fields, names: seq<string>): Option<string> {
    if names == [] then None
    else
      var before, last := FirstPresent(m, names[..|names| - 1]), names[|names| - 1];
      if before.Some? then before else if last in m then Some(last) else None
  }

  function SetOf(names: seq<string>): set<string> {
    set name | name in names
  }

  lemma {:induction false} FirstPresentProps(m: Fields, names: seq<string>)
    ensures match FirstPresent(m, names)
            case Some(name) => name in names && name in m
            case None => forall name :: name in names ==> name !in m
  {
    if names != [] {
      FirstPresentProps(m, names[..|names| - 1]);
      assert names == names[..|names| - 1] + [names[|names| - 1]];
    }
  }

  /** An official field keeps its value, or takes that of its best spelling; every spelling disappears. */
  function Renamed(m: Fields, e: Alias): Fields {
    FirstPresentProps(m, e.names);
    var found := FirstPresent(m, e.names);
    var named := if e.canonical in m || found.None? then m else m[e.canonical := m[found.value]];
    named - SetOf(e.names)
  }

  lemma RenamedSnoc(m: Fields, canonical: string, names: seq<string>, name: string)
    requires canonical !in names && canonical != name
    ensures var m' := Renamed(m, Alias(canonical, names));
            Renamed(m, Alias(canonical, names + [name])) ==
              if name !in m' then m'
              else (if canonical in m' then m' else m'[canonical := m'[name]]) - {name}
  {
    FirstPresentProps(m, names);
    assert (names + [name])[..|names|] == names;
    assert SetOf(names + [name]) == SetOf(names) + {name};
  }

  // ----- the whole table -----

  predicate Handled(t: seq<Alias>, done: set<nat>, name: string) {
    exists i :: i in done && i < |t| && name in t[i].names
  }

  function IndexOf(t: seq<Alias>, name: string): (r: Option<nat>)
    ensures r.Some? ==> r.value < |t| && t[r.value].canonical == name
    ensures r.None? ==> forall i :: 0 <= i < |t| ==> t[i].canonical != name
  {
    if t == [] then None
    else if t[|t| - 1].canonical == name then Some(|t| - 1)
    else IndexOf(t[..|t| - 1], name)
  }

  /** The field whose value `k` holds once the entries in `done` have been applied; no order is mentioned. */
  function SourceOf(t: seq<Alias>, done: set<nat>, m: Fields, k: string): (r: Option<string>)
    ensures r.Some? ==> r.value in m
  {
    if Handled(t, done, k) then None
    else if k in m then Some(k)
    else
      match IndexOf(t, k)
      case None => None
      case Some(i) =>
        FirstPresentProps(m, t[i].names);
        if i in done then FirstPresent(m, t[i].names) else None
  }

  function ValueOf(t: seq<Alias>, done: set<nat>, m: Fields, k: string): Option<Json> {
    match SourceOf(t, done, m, k) case None => None case Some(source) => Some(m[source])
  }

  function Names(t: seq<Alias>): set<string> {
    set i | 0 <= i < |t| :: t[i].canonical
  }

  function Aliased(t: seq<Alias>, done: set<nat>, m: Fields): Fields {
    map k | k in m.Keys + Names(t) && ValueOf(t, done, m, k).Some? :: ValueOf(t, done, m, k).value
  }

  lemma AliasedAt(t: seq<Alias>, done: set<nat>, m: Fields, k: string)
    ensures ValueOf(t, done, m, k) == if k in Aliased(t, done, m) then Some(Aliased(t, done, m)[k]) else None
  {
    if IndexOf(t, k).Some? {
      assert k in Names(t);
    }
  }

  lemma {:induction false} FirstPresentAgrees(m: Fields, m': Fields, names: seq<string>)
    requires forall name :: name in names ==> (name in m <==> name in m')
    ensures FirstPresent(m, names) == FirstPresent(m', names)
  {
    if names != [] {
      FirstPresentAgrees(m, m', names[..|names| - 1]);
      assert names[|names| - 1] in names;
    }
  }

  /** The spellings of an entry that is still to come are as they were. */
  lemma SpellingsUntouched(t: seq<Alias>, done: set<nat>, m: Fields, i: nat)
    requires Unambiguous(t) && i < |t| && i !in done
    ensures var cur, e := Aliased(t, done, m), t[i];
            && (forall name :: name in e.names ==> (name in cur <==> name in m) && (name in m ==> cur[name] == m[name]))
            && (e.canonical in cur <==> e.canonical in m) && (e.canonical in m ==> cur[e.canonical] == m[e.canonical])
            && FirstPresent(cur, e.names) == FirstPresent(m, e.names)
  {
    var cur, e := Aliased(t, done, m), t[i];
    forall name | name in e.names ensures (name in cur <==> name in m) && (name in m ==> cur[name] == m[name]) {
      AliasedAt(t, done, m, name);
    }
    AliasedAt(t, done, m, e.canonical);
    FirstPresentAgrees(cur, m, e.names);
  }

  lemma HandledGrows(t: seq<Alias>, done: set<nat>, i: nat, k: string)
    requires i < |t|
    ensures Handled(t, done + {i}, k) <==> Handled(t, done, k) || k in t[i].names
  {
  }

  lemma RenamedAt(t: seq<Alias>, done: set<nat>, m: Fields, i: nat, k: string)
    requires Unambiguous(t) && i < |t| && i !in done
    ensures var (cur, next) := (Renamed(Aliased(t, done, m), t[i]), Aliased(t, done + {i}, m));
            (k in cur <==> k in next) && (k in cur ==> cur[k] == next[k])
  {
    SpellingsUntouched(t, done, m, i);
    FirstPresentProps(m, t[i].names);
    AliasedAt(t, done, m, k);
    AliasedAt(t, done + {i}, m, k);
    HandledGrows(t, done, i, k);
  }

  lemma RenamedIsAliased(t: seq<Alias>, done: set<nat>, m: Fields, i: nat)
    requires Unambiguous(t) && i < |t| && i !in done
    ensures Renamed(Aliased(t, done, m), t[i]) == Aliased(t, done + {i}, m)
  {
    var cur, next := Renamed(Aliased(t, done, m), t[i]), Aliased(t, done + {i}, m);
    forall k ensures k in cur <==> k in next
             ensures k in cur ==> cur[k] == next[k]
    {
      RenamedAt(t, done, m, i, k);
    }
  }

  function Below(n: nat): (s: set<nat>)
    ensures forall i: nat :: i in s <==> i < n
  {
    if n == 0 then {} else Below(n - 1) + {n - 1}
  }

  /** The alias loop; Go walks the table in an arbitrary order, and so does this. */
  method NormalizeAliases(t: seq<Alias>, m: Fields) returns (result: Fields)
    requires Unambiguous(t)
    ensures result == Aliased(t, Below(|t|), m)
  {
    result := m;
    var todo := Below(|t|);
    ghost var done: set<nat> := {};
    assert result == Aliased(t, {}, m);
    while todo != {}
      invariant done + todo == Below(|t|) && done * todo == {}
      invariant result == Aliased(t, done, m)
    {
      var i :| i in todo;
      result := RenameEntry(result, t[i]);
      RenamedIsAliased(t, done, m, i);
      todo, done := todo - {i}, done + {i};
    }
  }

  method RenameEntry(m: Fields, e: Alias) returns (result: Fields)
    requires e.canonical !in e.names
    ensures result == Renamed(m, e)
  {
    result := m;
    for a := 0 to |e.names|
      invariant result == Renamed(m, Alias(e.canonical, e.names[..a]))
    {
      var name := e.names[a];
      assert e.names[..a + 1] == e.names[..a] + [name];
      RenamedSnoc(m, e.canonical, e.names[..a], name);
      if name in result {
        var value := result[name];
        if e.canonical !in result {
          result := result[e.canonical := value];
        }
        result := result - {name};
      }
    }
    assert e.names[..|e.names|] == e.names;
  }

  // ----- errors and statuses -----

  /** The first of these fields that holds a non-empty string or a number, as text. */
  function RawString(fields: Fields, names: seq<string>): string {
    if names == [] then ""
    else
      var here := if names[0] in fields then TextOf(fields[names[0]]) else "";
      if here != "" then here else RawString(fields, names[1..])
  }

  function TextOf(j: Json): string {
    match j
    case Str(s) => s
    case Num(raw, _, _) => raw
    case _ => ""
  }

  function Or(text: string, default: string): string {
    if text == "" then default else text
  }

  /** An error inside a resource: always an object with a string Code and Message. */
  function OfficialError(error: Json): Json {
    var fields := match error
      case Obj(fields) => fields
      case Str(s) => map["Message" := Str(s)]
      case _ => map[];
    var code := Or(RawString(fields, ["Code", "code", "type"]), "asset_request_failed");
    var message := Or(RawString(fields, ["Message", "message"]), "asset request failed");
    Obj((fields - {"code", "message", "type"})["Code" := Str(code)]["Message" := Str(message)])
  }

  lemma OfficialErrorTwice(error: Json)
    ensures OfficialError(OfficialError(error)) == OfficialError(error)
  {
    var once := OfficialError(error).fields;
    var code, message := once["Code"].s, once["Message"].s;
    assert RawString(once, ["Code", "code", "type"]) == code;
    assert RawString(once, ["Message", "message"]) == message;
    assert (once - {"code", "message", "type"})["Code" := Str(code)]["Message" := Str(message)] == once;
  }

  /** Simple case folding, for every character that folds to an ASCII letter. */
  function Fold(c: char): char {
    if 'A' <= c <= 'Z' then (c as int + 32) as char
    else if c == '\U{17F}' then 's'
    else if c == '\U{212A}' then 'k'
    else c
  }

  predicate EqualFold(a: string, b: string) {
    |a| == |b| && forall i :: 0 <= i < |a| ==> Fold(a[i]) == Fold(b[i])
  }

  const STATUSES := ["Processing", "Active", "Failed", "Expired"]

  function OfficialStatus(value: string, statuses: seq<string>): string {
    if statuses == [] then value
    else if EqualFold(value, statuses[0]) then statuses[0]
    else OfficialStatus(value, statuses[1..])
  }

  lemma {:induction false} OfficialStatusTwice(value: string, statuses: seq<string>)
    ensures OfficialStatus(OfficialStatus(value, statuses), statuses) == OfficialStatus(value, statuses)
  {
    if statuses != [] && !EqualFold(value, statuses[0]) {
      OfficialStatusTwice(value, statuses[1..]);
      OfficialStatusIsValueOrFolds(value, statuses[1..]);
      var once := OfficialStatus(value, statuses[1..]);
      assert !EqualFold(once, statuses[0]);
    }
  }

  lemma {:induction false} OfficialStatusIsValueOrFolds(value: string, statuses: seq<string>)
    ensures EqualFold(value, OfficialStatus(value, statuses))
  {
    if statuses != [] && !EqualFold(value, statuses[0]) {
      OfficialStatusIsValueOrFolds(value, statuses[1..]);
    }
  }
}
