/** What a check detects, told by names, and that an ignored model stays away from all later checks. */
module ModelSyncIgnores {
  import opened Text
  import opened ModelSync

  // ----- the names of a list -----

  lemma {:induction false} TrimAllMembers(names: seq<string>, name: string)
    ensures name in TrimAll(names) <==> name != "" && exists raw :: raw in names && TrimSpace(raw) == name
  {
    if names != [] {
      var before, last := names[..|names| - 1], names[|names| - 1];
      TrimAllMembers(before, name);
      assert names == before + [last];
    }
  }

  /** A normalized list holds the texts of the raw list without the spaces around them, blank ones apart. */
  lemma NormalizeMembers(names: seq<string>, name: string)
    ensures name in Normalize(names) <==> name != "" && exists raw :: raw in names && TrimSpace(raw) == name
  {
    TrimAllMembers(names, name);
    UniqProps(TrimAll(names));
  }

  lemma {:induction false} UniqSnoc(names: seq<string>, more: seq<string>)
    ensures Uniq(names) <= Uniq(names + more)
  {
    if more == [] {
      assert names + more == names;
    } else {
      var most := more[..|more| - 1];
      UniqSnoc(names, most);
      assert (names + more)[..|names + more| - 1] == names + most;
    }
  }

  function OneTrimmed(name: string): seq<string> {
    if TrimSpace(name) == "" then [] else [TrimSpace(name)]
  }

  lemma Joined(a: seq<string>, b: seq<string>, c: seq<string>)
    ensures a + (b + c) == a + b + c
  {
  }

  lemma TrimAllSnoc(names: seq<string>, name: string)
    ensures TrimAll(names + [name]) == TrimAll(names) + OneTrimmed(name)
  {
    assert (names + [name])[..|names|] == names;
  }

  lemma {:induction false} TrimAllJoins(names: seq<string>, more: seq<string>)
    ensures TrimAll(names + more) == TrimAll(names) + TrimAll(more)
  {
    if more == [] {
      assert names + more == names;
    } else {
      var most, last := more[..|more| - 1], more[|more| - 1];
      TrimAllJoins(names, most);
      TrimAllJoinsOne(names, most, last);
      assert more == most + [last];
    }
  }

  lemma TrimAllJoinsOne(names: seq<string>, most: seq<string>, last: string)
    requires TrimAll(names + most) == TrimAll(names) + TrimAll(most)
    ensures TrimAll(names + (most + [last])) == TrimAll(names) + TrimAll(most + [last])
  {
    Joined(names, most, [last]);
    Joined(TrimAll(names), TrimAll(most), OneTrimmed(last));
    TrimAllSnoc(most, last);
    TrimAllSnoc(names + most, last);
  }

  /** Names keep the order in which they first stand in the list. */
  lemma FirstOccurrencesStay(names: seq<string>, more: seq<string>)
    ensures Normalize(names) <= Normalize(names + more)
  {
    TrimAllJoins(names, more);
    UniqSnoc(TrimAll(names), TrimAll(more));
  }

  function Lacking(seen: seq<string>): string -> bool {
    name => name !in seen
  }

  lemma UniqOne(names: seq<string>, name: string)
    ensures Uniq(names + [name]) == if name in Uniq(names) then Uniq(names) else Uniq(names) + [name]
  {
    assert (names + [name])[..|names|] == names;
  }

  lemma FilterOne(names: seq<string>, name: string, keep: string -> bool)
    ensures Filter(names + [name], keep) == Filter(names, keep) + if keep(name) then [name] else []
  {
    assert (names + [name])[..|names|] == names;
  }

  lemma UniqJoinsOne(names: seq<string>, most: seq<string>, last: string, more: seq<string>)
    requires more == most + [last]
    requires Uniq(names + most) == Uniq(names) + Filter(Uniq(most), Lacking(Uniq(names)))
    ensures Uniq(names + more) == Uniq(names) + Filter(Uniq(more), Lacking(Uniq(names)))
  {
    var seen, found := Uniq(names), Uniq(most);
    var added := Filter(found, Lacking(seen));
    assert Uniq(names + more) == if last in seen + added then seen + added else seen + added + [last] by {
      Joined(names, most, [last]);
      UniqOne(names + most, last);
    }
    assert Uniq(more) == if last in found then found else found + [last] by {
      UniqOne(most, last);
    }
    assert last in added <==> last in found && last !in seen by {
      FilterProps(found, Lacking(seen));
    }
    assert Filter(found + [last], Lacking(seen)) == if last in seen then added else added + [last] by {
      FilterOne(found, last, Lacking(seen));
    }
    Joined(seen, added, [last]);
  }

  lemma {:induction false} UniqJoins(names: seq<string>, more: seq<string>)
    ensures Uniq(names + more) == Uniq(names) + Filter(Uniq(more), Lacking(Uniq(names)))
  {
    if more == [] {
      assert names + more == names;
    } else {
      var most, last := more[..|more| - 1], more[|more| - 1];
      UniqJoins(names, most);
      UniqJoinsOne(names, most, last, more);
    }
  }

  /** Merging two lists is normalizing one after the other: names keep the place where they first stand. */
  lemma MergeIsNormalize(base: seq<string>, appended: seq<string>)
    ensures Merge(base, appended) == Normalize(base + appended)
  {
    TrimAllJoins(base, appended);
    UniqJoins(TrimAll(base), TrimAll(appended));
    FilterAgrees(Normalize(appended), name => name !in Normalize(base), Lacking(Normalize(base)));
  }

  // ----- detection -----

  /** Some entry of the ignore list is a regular expression that the name matches. */
  ghost predicate Matched(entries: seq<string>, matches: (string, string) -> bool, name: string) {
    exists entry :: entry in Normalize(entries) && "regex:" <= entry && matches(TrimSpace(entry[6..]), name)
  }

  /** A name that is ignored by being listed; what begins as a regular expression is never a plain entry. */
  predicate Named(entries: seq<string>, name: string) {
    name in Normalize(entries) && !("regex:" <= name)
  }

  lemma IgnoresIff(rules: Rules, name: string)
    ensures Ignores(rules, name) <==>
              Named(rules.ignored, name) || Matched(rules.ignored, rules.regexMatches, name)
  {
  }

  /** An upstream name is detected exactly when the channel lacks it, no redirect leads to it, and no entry of the
      ignore list names or matches it. */
  lemma DetectedIff(r: Record, upstream: seq<string>, mapping: map<string, string>,
      matches: (string, string) -> bool, name: string)
    ensures name in CheckSpec(r, upstream, Rules(r.ignored, mapping, matches), false).0.detected <==>
              && name in Normalize(upstream) && name !in Local(r.models)
              && (forall source :: source in mapping ==> mapping[source] != name)
              && !Named(r.ignored, name) && !Matched(r.ignored, matches, name)
  {
    var rules := Rules(r.ignored, mapping, matches);
    PendingAddProps(Models(r.models), upstream, rules);
    IgnoresIff(rules, name);
  }

  /** What is missing upstream is recorded exactly for the models that no redirect starts from. */
  lemma MissingIff(r: Record, upstream: seq<string>, mapping: map<string, string>,
      matches: (string, string) -> bool, autoApply: bool, name: string)
    ensures name in CheckSpec(r, upstream, Rules(r.ignored, mapping, matches), autoApply).0.removed <==>
              name in Local(r.models) && name !in mapping && name !in Normalize(upstream)
  {
    PendingRemoveProps(Models(r.models), upstream, Rules(r.ignored, mapping, matches));
  }

  /** Detected names stand in the order of the upstream's list. */
  lemma DetectedInOrder(r: Record, upstream: seq<string>, rules: Rules)
    ensures var found := CheckSpec(r, upstream, rules, false).0.detected;
            found == Filter(Normalize(upstream), name => name in found)
  {
    var found := PendingAdd(Models(r.models), upstream, rules);
    var keep := (name: string) =>
        name !in Local(r.models) && name !in rules.mapping.Values && !Ignores(rules, name);
    NormalizeIsNormal(upstream);
    FilterProps(Normalize(upstream), keep);
    NormalizeOfNormal(Filter(Normalize(upstream), keep));
    PendingAddProps(Models(r.models), upstream, rules);
    FilterAgrees(Normalize(upstream), keep, name => name in found);
  }

  // ----- the models of a text -----

  lemma {:induction false} LeftBlanksDoNotMatter(parts: seq<string>, part: string)
    requires parts != [] && part != ""
    ensures part in DropBlanksLeft(parts) <==> part in parts
  {
    if |parts| > 1 && parts[0] == "" {
      LeftBlanksDoNotMatter(parts[1..], part);
      assert parts == [parts[0]] + parts[1..];
    }
  }

  lemma {:induction false} RightBlanksDoNotMatter(parts: seq<string>, part: string)
    requires parts != [] && part != ""
    ensures part in DropBlanksRight(parts) <==> part in parts
  {
    if |parts| > 1 && parts[|parts| - 1] == "" {
      RightBlanksDoNotMatter(parts[..|parts| - 1], part);
      assert parts == parts[..|parts| - 1] + [parts[|parts| - 1]];
    }
  }

  lemma PartsOfModels(text: string, part: string)
    requires part != ""
    ensures part in Models(text) <==> part in Split(text, ',')
  {
    if text != "" {
      var cut := (c: char) => c == ',';
      SplitTrimLeft(text, ',', cut);
      SplitTrimRight(TrimLeft(text, cut), ',', cut);
      LeftBlanksDoNotMatter(Split(text, ','), part);
      RightBlanksDoNotMatter(DropBlanksLeft(Split(text, ',')), part);
    }
  }

  ghost predicate HasPart(parts: seq<string>, name: string) {
    exists part :: part in parts && TrimSpace(part) == name
  }

  /** The models of a text are its parts between commas, without the spaces around them. */
  lemma LocalMembers(text: string, name: string)
    ensures name in Local(text) <==> name != "" && HasPart(Split(text, ','), name)
  {
    NormalizeMembers(Models(text), name);
    if name in Local(text) {
      var raw :| raw in Models(text) && TrimSpace(raw) == name;
      BlankOfBlank();
      PartsOfModels(text, raw);
    } else if name != "" && HasPart(Split(text, ','), name) {
      var part :| part in Split(text, ',') && TrimSpace(part) == name;
      BlankOfBlank();
      PartsOfModels(text, part);
    }
  }

  lemma BlankOfBlank()
    ensures TrimSpace("") == ""
  {
  }

  lemma {:induction false} PartsOfLines(names: seq<string>, part: string)
    ensures part in Lines(names, ',') <==> exists k :: 0 <= k < |names| && part in Split(names[k], ',')
  {
    if names != [] {
      PartsOfLines(names[1..], part);
      assert forall k :: 0 < k < |names| ==> names[k] == names[1..][k - 1];
      assert names[1..] == names[1..|names|];
      if part in Lines(names[1..], ',') {
        var k :| 0 <= k < |names| - 1 && part in Split(names[1..][k], ',');
        assert part in Split(names[k + 1], ',');
      }
    }
  }

  /** What joined names are read back as: the models of each of them. */
  lemma LocalOfJoin(names: seq<string>, name: string)
    ensures name in Local(Join(names, ',')) <==> exists k :: 0 <= k < |names| && name in Local(names[k])
  {
    LocalMembers(Join(names, ','), name);
    forall k | 0 <= k < |names| {
      LocalMembers(names[k], name);
    }
    if names == [] {
      BlankOfBlank();
    } else {
      SplitOfJoin(names, ',');
      forall part {
        PartsOfLines(names, part);
      }
    }
  }

  lemma LocalOfFree(name: string)
    requires Clean(name) && Free(name, ',')
    ensures Local(name) == [name]
  {
    JoinIsReadBack([name]);
  }

  lemma KeptOrAdded(merged: seq<string>, origin: seq<string>, add: seq<string>, name: string)
    requires merged == origin + add
    requires Normal(origin) && CommaFree(origin)
    ensures name in Local(Join(merged, ',')) <==>
              name in origin || exists added :: added in add && name in Local(added)
  {
    LocalOfJoin(merged, name);
    forall kept | kept in origin ensures Local(kept) == [kept] {
      LocalOfFree(kept);
    }
    if name in origin {
      var k :| 0 <= k < |origin| && origin[k] == name;
      assert merged[k] == name;
    }
    if added :| added in add && name in Local(added) {
      var k :| 0 <= k < |add| && add[k] == added;
      assert merged[|origin| + k] == added;
    }
  }

  /** The models after a check are those before it and those that the added names are read back as. */
  lemma ModelsAfterCheck(r: Record, upstream: seq<string>, rules: Rules, autoApply: bool, name: string)
    ensures var after := CheckSpec(r, upstream, rules, autoApply).0;
            name in Local(after.models) <==>
              name in Local(r.models)
              || exists added ::
                   autoApply && added in PendingAdd(Models(r.models), upstream, rules) && name in Local(added)
  {
    var origin, add := Local(r.models), PendingAdd(Models(r.models), upstream, rules);
    if autoApply && add != [] {
      LocalIsFree(r.models);
      AutoApplied(r, upstream, rules);
      PendingAddProps(Models(r.models), upstream, rules);
      NormalizeOfNormal(origin);
      NormalizeOfNormal(add);
      FilterAll(add, name => name !in origin);
      KeptOrAdded(Merge(origin, add), origin, add, name);
    }
  }

  // ----- whatever happens later -----

  /** A check with what the upstream lists, the redirects, and whether additions are applied at once; or an
      administrator's request. */
  datatype Event = Checked(upstream: seq<string>, mapping: map<string, string>, autoApply: bool)
      | Requested(s: Selection)

  function After(r: Record, event: Event, matches: (string, string) -> bool): Record {
    match event
    case Checked(upstream, mapping, autoApply) =>
      CheckSpec(r, upstream, Rules(r.ignored, mapping, matches), autoApply).0
    case Requested(s) => ApplySpec(r, s).0
  }

  /** The names that an event brings into the models. */
  function AddedBy(r: Record, event: Event, matches: (string, string) -> bool): seq<string> {
    match event
    case Checked(upstream, mapping, autoApply) =>
      if autoApply then PendingAdd(Models(r.models), upstream, Rules(r.ignored, mapping, matches)) else []
    case Requested(s) => ApplySpec(r, s).1.added
  }

  /** What a channel records after these events. */
  function Later(r: Record, events: seq<Event>, matches: (string, string) -> bool): Record {
    if events == [] then r
    else After(Later(r, events[..|events| - 1], matches), events[|events| - 1], matches)
  }

  /** The name is neither reported as detected nor added by this event. */
  predicate StaysAway(r: Record, event: Event, matches: (string, string) -> bool, name: string) {
    name !in Normalize(After(r, event, matches).detected) && name !in AddedBy(r, event, matches)
  }

  lemma IgnoredIsNotPending(r: Record, upstream: seq<string>, mapping: map<string, string>,
      matches: (string, string) -> bool, name: string)
    requires Named(r.ignored, name) || Matched(r.ignored, matches, name)
    ensures name !in PendingAdd(Models(r.models), upstream, Rules(r.ignored, mapping, matches))
  {
    IgnoresIff(Rules(r.ignored, mapping, matches), name);
    PendingAddProps(Models(r.models), upstream, Rules(r.ignored, mapping, matches));
  }

  /** What is detected after a check. */
  lemma DetectedByCheck(r: Record, upstream: seq<string>, rules: Rules, autoApply: bool)
    ensures var found := CheckSpec(r, upstream, rules, autoApply).0.detected;
            Normalize(found) == if autoApply then [] else PendingAdd(Models(r.models), upstream, rules)
  {
    PendingAddProps(Models(r.models), upstream, rules);
    NormalizeOfNormal(CheckSpec(r, upstream, rules, autoApply).0.detected);
  }

  lemma RequestedProps(r: Record, s: Selection, name: string)
    ensures name in Normalize(ApplySpec(r, s).0.detected) <==>
              name in Normalize(r.detected) && name !in Normalize(s.add) && name !in Normalize(s.ignore)
    ensures name in ApplySpec(r, s).1.added <==> name in Normalize(r.detected) && name in Normalize(s.add)
    ensures name in Normalize(ApplySpec(r, s).0.ignored) <==>
              && (name in Normalize(r.ignored) || (name in Normalize(r.detected) && name in Normalize(s.ignore)))
              && !(name in Normalize(r.detected) && name in Normalize(s.add))
  {
    var c, applied := Chosen(r, s), ApplySpec(r, s).0;
    ChosenProps(r, s);
    StoredIgnores(r, s);
    StoredIsNormal(r, s);
    NormalizeIsNormal(r.detected);
    SubtractPropsLoose(Normalize(r.detected), c.add + c.ignore);
    NormalizeOfNormal(applied.detected);
  }

  lemma StoredIsNormal(r: Record, s: Selection)
    ensures Normalize(ApplySpec(r, s).0.ignored) == ApplySpec(r, s).0.ignored
  {
    var c := Chosen(r, s);
    ChosenProps(r, s);
    MergeProps(r.ignored, c.ignore);
    SubtractProps(Merge(r.ignored, c.ignore), c.add);
    NormalizeOfNormal(ApplySpec(r, s).0.ignored);
  }

  /** The name is ignored by being listed and is not pending. */
  predicate Away(r: Record, name: string) {
    Named(r.ignored, name) && name !in Normalize(r.detected)
  }

  lemma AwayStays(r: Record, event: Event, matches: (string, string) -> bool, name: string)
    requires Away(r, name)
    ensures Away(After(r, event, matches), name) && StaysAway(r, event, matches, name)
  {
    match event {
      case Checked(upstream, mapping, autoApply) =>
        IgnoredIsNotPending(r, upstream, mapping, matches, name);
        DetectedByCheck(r, upstream, Rules(r.ignored, mapping, matches), autoApply);
      case Requested(s) =>
        RequestedProps(r, s, name);
    }
  }

  lemma {:induction false} AwayForGood(r: Record, events: seq<Event>, matches: (string, string) -> bool, name: string)
    requires Away(r, name)
    ensures Away(Later(r, events, matches), name)
  {
    if events != [] {
      var most := events[..|events| - 1];
      AwayForGood(r, most, matches, name);
      AwayStays(Later(r, most, matches), events[|events| - 1], matches, name);
    }
  }

  /** A pending name that a request ignored and did not add is never detected again and never added, whatever checks
      and requests follow. */
  lemma IgnoredForGood(r: Record, s: Selection, events: seq<Event>, event: Event, matches: (string, string) -> bool,
      name: string)
    requires name in Normalize(r.detected) && name in Normalize(s.ignore) && name !in Normalize(s.add)
    requires !("regex:" <= name)
    ensures StaysAway(Later(ApplySpec(r, s).0, events, matches), event, matches, name)
  {
    var applied := ApplySpec(r, s).0;
    RequestedProps(r, s, name);
    AwayForGood(applied, events, matches, name);
    AwayStays(Later(applied, events, matches), event, matches, name);
  }

  // ----- regular expressions -----

  /** The upstream of this event, if it has one, does not list the text of the entry as a model. */
  predicate NotOffered(event: Event, entry: string) {
    event.Checked? ==> entry !in Normalize(event.upstream)
  }

  predicate Stored(r: Record, entry: string) {
    entry in Normalize(r.ignored) && entry !in Normalize(r.detected)
  }

  lemma EntryStays(r: Record, event: Event, matches: (string, string) -> bool, entry: string)
    requires Stored(r, entry) && NotOffered(event, entry)
    ensures Stored(After(r, event, matches), entry)
  {
    match event {
      case Checked(upstream, mapping, autoApply) =>
        PendingAddProps(Models(r.models), upstream, Rules(r.ignored, mapping, matches));
        DetectedByCheck(r, upstream, Rules(r.ignored, mapping, matches), autoApply);
      case Requested(s) =>
        RequestedProps(r, s, entry);
    }
  }

  /** The name matches a stored entry and is not pending. */
  predicate MatchedAway(r: Record, matches: (string, string) -> bool, entry: string, name: string) {
    && Stored(r, entry) && "regex:" <= entry && matches(TrimSpace(entry[6..]), name)
    && name !in Normalize(r.detected)
  }

  lemma MatchedStays(r: Record, event: Event, matches: (string, string) -> bool, entry: string, name: string)
    requires MatchedAway(r, matches, entry, name) && NotOffered(event, entry)
    ensures MatchedAway(After(r, event, matches), matches, entry, name) && StaysAway(r, event, matches, name)
  {
    EntryStays(r, event, matches, entry);
    assert Matched(r.ignored, matches, name);
    match event {
      case Checked(upstream, mapping, autoApply) =>
        IgnoredIsNotPending(r, upstream, mapping, matches, name);
        DetectedByCheck(r, upstream, Rules(r.ignored, mapping, matches), autoApply);
      case Requested(s) =>
        RequestedProps(r, s, name);
    }
  }

  /** A name that matches a stored regular expression and is not pending stays away too, as long as no upstream offers
      the text of that entry as a model. */
  lemma {:induction false} MatchedForGood(r: Record, events: seq<Event>, matches: (string, string) -> bool,
      entry: string, name: string)
    requires MatchedAway(r, matches, entry, name)
    requires forall k :: 0 <= k < |events| ==> NotOffered(events[k], entry)
    ensures MatchedAway(Later(r, events, matches), matches, entry, name)
    ensures events != [] ==>
              StaysAway(Later(r, events[..|events| - 1], matches), events[|events| - 1], matches, name)
  {
    if events != [] {
      var most := events[..|events| - 1];
      MatchedForGood(r, most, matches, entry, name);
      MatchedStays(Later(r, most, matches), events[|events| - 1], matches, entry, name);
    }
  }

  // ----- an ignored name as a model -----

  predicate FreeUpstream(event: Event) {
    event.Checked? && CommaFree(Normalize(event.upstream))
  }

  /** Checks do not make an ignored name a model of the channel as long as no upstream name holds a comma. */
  lemma {:induction false} IgnoredIsNoModel(r: Record, checks: seq<Event>, matches: (string, string) -> bool,
      name: string)
    requires Named(r.ignored, name) || Matched(r.ignored, matches, name)
    requires forall k :: 0 <= k < |checks| ==> FreeUpstream(checks[k])
    ensures Later(r, checks, matches).ignored == r.ignored
    ensures name in Local(Later(r, checks, matches).models) <==> name in Local(r.models)
  {
    if checks != [] {
      var most, check := checks[..|checks| - 1], checks[|checks| - 1];
      var before := Later(r, most, matches);
      IgnoredIsNoModel(r, most, matches, name);
      CheckKeepsModels(before, check, matches, name);
    }
  }

  lemma CheckKeepsModels(r: Record, check: Event, matches: (string, string) -> bool, name: string)
    requires Named(r.ignored, name) || Matched(r.ignored, matches, name)
    requires FreeUpstream(check)
    ensures name in Local(After(r, check, matches).models) <==> name in Local(r.models)
  {
    var rules := Rules(r.ignored, check.mapping, matches);
    var add := PendingAdd(Models(r.models), check.upstream, rules);
    IgnoredIsNotPending(r, check.upstream, check.mapping, matches, name);
    ModelsAfterCheck(r, check.upstream, rules, check.autoApply, name);
    PendingAddProps(Models(r.models), check.upstream, rules);
    forall added | added in add ensures Local(added) == [added] {
      LocalOfFree(added);
    }
  }

  lemma ReadsBackAsTwo()
    ensures Local("a,b") == ["a", "b"]
  {
    assert Free("a", ',') && Free("b", ',') && "a" in ["a", "b"] && "b" in ["a", "b"];
    assert Normal(["a", "b"]);
    assert Join(["b"], ',') == "b" && Join(["a", "b"], ',') == "a,b";
    JoinIsReadBack(["a", "b"]);
  }

  lemma OneName(name: string, other: string)
    requires Clean(name)
    ensures other in Normalize([name]) <==> other == name
  {
    NormalizeKeepsClean([name]);
    assert name in [name];
  }

  lemma OnlyOneEntry(rules: Rules, entry: string, name: string)
    requires rules.ignored == [entry] && Clean(entry) && !(REGEX_PREFIX <= entry) && name != entry
    ensures !Ignores(rules, name)
  {
    forall other { OneName(entry, other); }
  }

  lemma OnlyOneOffered(local: seq<string>, rules: Rules, entry: string, name: string)
    requires local == [] && rules.mapping == map[] && Clean(name) && name != entry
    requires rules.ignored == [entry] && Clean(entry) && !(REGEX_PREFIX <= entry)
    ensures name in PendingAdd(local, [name], rules)
  {
    OnlyOneEntry(rules, entry, name);
    OneName(name, name);
    PendingAddProps(local, [name], rules);
  }

  /** With a comma it can: "a" is ignored, but the upstream offers "a,b", which is added and read back as two. */
  lemma IgnoredArrivesByComma(r: Record, matches: (string, string) -> bool)
    requires r == Record("", ["a"], [], [])
    ensures "a" in Local(After(r, Checked(["a,b"], map[], true), matches).models)
  {
    var rules := Rules(r.ignored, map[], matches);
    OnlyOneOffered(Models(""), rules, "a", "a,b");
    ReadsBackAsTwo();
    assert "a" in Local("a,b");
    ModelsAfterCheck(r, ["a,b"], rules, true, "a");
  }
}
