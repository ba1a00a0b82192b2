/** Reconciling a channel's model list with what its upstream offers. */
module ModelSync {
  import opened Text

  // ----- list helpers -----

  /** lo.Uniq: the first occurrence of each name. */
  function Uniq(names: seq<string>): seq<string> {
    if names == [] then []
    else
      var before, last := Uniq(names[..|names| - 1]), names[|names| - 1];
      if last in before then before else before + [last]
  }

  function TrimAll(names: seq<string>): seq<string> {
    if names == [] then []
    else
      var last := TrimSpace(names[|names| - 1]);
      TrimAll(names[..|names| - 1]) + if last == "" then [] else [last]
  }

  function Normalize(names: seq<string>): seq<string> {
    Uniq(TrimAll(names))
  }

  function Filter(names: seq<string>, keep: string -> bool): seq<string> {
    if names == [] then []
    else
      var last := names[|names| - 1];
      Filter(names[..|names| - 1], keep) + if keep(last) then [last] else []
  }

  function Merge(base: seq<string>, appended: seq<string>): seq<string> {
    var merged := Normalize(base);
    merged + Filter(Normalize(appended), name => name !in merged)
  }

  function Subtract(base: seq<string>, removed: seq<string>): seq<string> {
    var gone := Normalize(removed);
    Filter(Normalize(base), name => name !in gone)
  }

  function Intersect(base: seq<string>, allowed: seq<string>): seq<string> {
    var kept := Normalize(allowed);
    Filter(Normalize(base), name => name in kept)
  }

  /** Add wins when the same model appears in both selected lists. */
  function ApplySelected(origin: seq<string>, add: seq<string>, remove: seq<string>): seq<string> {
    var normalizedAdd := Normalize(add);
    var normalizedRemove := Subtract(Normalize(remove), normalizedAdd);
    Subtract(Merge(origin, normalizedAdd), normalizedRemove)
  }

  // ----- what the helpers guarantee -----

  predicate Distinct(names: seq<string>) {
    forall i, j :: 0 <= i < j < |names| ==> names[i] != names[j]
  }

  predicate Clean(name: string) {
    name != "" && Trimmed(name, IsSpace)
  }

  /** Normal lists: trimmed, non-blank, no duplicates. */
  predicate Normal(names: seq<string>) {
    Distinct(names) && forall name :: name in names ==> Clean(name)
  }

  lemma EmptyIff(names: seq<string>)
    ensures names == [] <==> forall name :: name !in names
  {
    if names != [] {
      assert names[0] in names;
    }
  }

  lemma {:induction false} UniqProps(names: seq<string>)
    ensures Distinct(Uniq(names)) && forall name :: name in Uniq(names) <==> name in names
  {
    if names != [] {
      UniqProps(names[..|names| - 1]);
      assert names == names[..|names| - 1] + [names[|names| - 1]];
    }
  }

  lemma {:induction false} TrimAllProps(names: seq<string>)
    ensures forall name :: name in TrimAll(names) ==> Clean(name)
  {
    if names != [] {
      TrimAllProps(names[..|names| - 1]);
      TrimIsTrimmed(names[|names| - 1], IsSpace);
    }
  }

  lemma NormalizeIsNormal(names: seq<string>)
    ensures Normal(Normalize(names))
  {
    TrimAllProps(names);
    UniqProps(TrimAll(names));
  }

  lemma {:induction false} NormalizeOfNormal(names: seq<string>)
    requires Normal(names)
    ensures Normalize(names) == names
  {
    if names != [] {
      var before, last := names[..|names| - 1], names[|names| - 1];
      assert last in names && forall name :: name in before ==> name in names;
      NormalizeOfNormal(before);
      TrimOfTrimmed(last, IsSpace);
      assert TrimAll(names) == TrimAll(before) + [last];
    }
  }

  lemma {:induction false} FilterProps(names: seq<string>, keep: string -> bool)
    ensures forall name :: name in Filter(names, keep) <==> name in names && keep(name)
    ensures Distinct(names) ==> Distinct(Filter(names, keep))
  {
    if names != [] {
      FilterProps(names[..|names| - 1], keep);
      assert names == names[..|names| - 1] + [names[|names| - 1]];
    }
  }

  /** Merging keeps the normalized base as it is and adds what it lacks, without duplicates. */
  lemma MergeProps(base: seq<string>, appended: seq<string>)
    ensures Normal(Merge(base, appended)) && Normalize(base) <= Merge(base, appended)
    ensures forall name ::
              name in Merge(base, appended) <==> name in Normalize(base) || name in Normalize(appended)
  {
    NormalizeIsNormal(base);
    NormalizeIsNormal(appended);
    NormalizeOfNormal(Normalize(base));
    NormalizeOfNormal(Normalize(appended));
    MergeOfNormal(Normalize(base), Normalize(appended));
  }

  lemma MergeOfNormal(base: seq<string>, appended: seq<string>)
    requires Normal(base) && Normal(appended)
    ensures Normal(Merge(base, appended)) && base <= Merge(base, appended)
    ensures forall name :: name in Merge(base, appended) <==> name in base || name in appended
  {
    NormalizeOfNormal(base);
    NormalizeOfNormal(appended);
    FilterProps(appended, name => name !in base);
    var extra := Filter(appended, name => name !in base);
    assert Merge(base, appended) == base + extra;
    forall i, j | 0 <= i < j < |base + extra| ensures (base + extra)[i] != (base + extra)[j] {
      if i < |base| <= j { assert (base + extra)[j] in extra; }
    }
  }

  lemma SubtractProps(base: seq<string>, removed: seq<string>)
    requires Normal(base) && Normal(removed)
    ensures Normal(Subtract(base, removed))
    ensures Subtract(base, removed) == Filter(base, name => name !in removed)
    ensures forall name :: name in Subtract(base, removed) <==> name in base && name !in removed
  {
    NormalizeOfNormal(base);
    NormalizeOfNormal(removed);
    FilterProps(base, name => name !in removed);
  }

  lemma IntersectProps(base: seq<string>, allowed: seq<string>)
    ensures Normal(Intersect(base, allowed))
    ensures forall name :: name in Intersect(base, allowed) <==> name in Normalize(base) && name in Normalize(allowed)
  {
    NormalizeIsNormal(base);
    FilterProps(Normalize(base), name => name in Normalize(allowed));
  }

  // ----- detection -----

  /** The upstream's own rules: model redirects, ignore list, and the regular-expression matcher. */
  datatype Rules = Rules(ignored: seq<string>, mapping: map<string, string>, regexMatches: (string, string) -> bool)

  const REGEX_PREFIX := "regex:"

  predicate Ignores(rules: Rules, name: string) {
    exists entry :: entry in Normalize(rules.ignored) &&
      if REGEX_PREFIX <= entry then rules.regexMatches(TrimSpace(entry[|REGEX_PREFIX|..]), name) else entry == name
  }

  function PendingAdd(local: seq<string>, upstream: seq<string>, rules: Rules): seq<string> {
    Normalize(Filter(Normalize(upstream),
      name => name !in Normalize(local) && name !in rules.mapping.Values && !Ignores(rules, name)))
  }

  function PendingRemove(local: seq<string>, upstream: seq<string>, rules: Rules): seq<string> {
    Normalize(Filter(Normalize(local), name => name !in rules.mapping.Keys && name !in Normalize(upstream)))
  }

  lemma PendingAddProps(local: seq<string>, upstream: seq<string>, rules: Rules)
    ensures Normal(PendingAdd(local, upstream, rules))
    ensures forall name :: name in PendingAdd(local, upstream, rules) <==>
              name in Normalize(upstream) && name !in Normalize(local)
              && name !in rules.mapping.Values && !Ignores(rules, name)
  {
    NormalizeIsNormal(upstream);
    var keep := (name: string) => name !in Normalize(local) && name !in rules.mapping.Values && !Ignores(rules, name);
    FilterProps(Normalize(upstream), keep);
    NormalizeOfNormal(Filter(Normalize(upstream), keep));
  }

  lemma PendingRemoveProps(local: seq<string>, upstream: seq<string>, rules: Rules)
    ensures Normal(PendingRemove(local, upstream, rules))
    ensures forall name :: name in PendingRemove(local, upstream, rules) <==>
              name in Normalize(local) && name !in rules.mapping.Keys && name !in Normalize(upstream)
  {
    NormalizeIsNormal(local);
    var keep := (name: string) => name !in rules.mapping.Keys && name !in Normalize(upstream);
    FilterProps(Normalize(local), keep);
    NormalizeOfNormal(Filter(Normalize(local), keep));
  }

  lemma PendingAreDisjoint(local: seq<string>, upstream: seq<string>, rules: Rules, name: string)
    ensures !(name in PendingAdd(local, upstream, rules) && name in PendingRemove(local, upstream, rules))
  {
    PendingAddProps(local, upstream, rules);
    PendingRemoveProps(local, upstream, rules);
  }

  // ----- the channel -----

  /** channel.GetModels on the comma-joined text. */
  function Models(text: string): seq<string> {
    SplitTrimmed(text, ',')
  }

  function Local(text: string): seq<string> {
    Normalize(Models(text))
  }

  /** A channel's model text and what its last detection recorded. */
  datatype Record = Record(models: string, ignored: seq<string>, detected: seq<string>, removed: seq<string>)

  datatype Report = Report(added: seq<string>, removed: seq<string>, remaining: seq<string>,
                             remainingRemove: seq<string>, changed: bool)

  datatype Selection = Selection(add: seq<string>, ignore: seq<string>, remove: seq<string>)

  /** The selection, cut down to what is pending. */
  function Chosen(r: Record, s: Selection): Selection {
    var pendingAdd, pendingRemove := Normalize(r.detected), Normalize(r.removed);
    var add := Intersect(s.add, pendingAdd);
    Selection(add, Intersect(s.ignore, pendingAdd), Subtract(Intersect(s.remove, pendingRemove), add))
  }

  function NextModels(r: Record, s: Selection): seq<string> {
    var chosen := Chosen(r, s);
    ApplySelected(Local(r.models), chosen.add, chosen.remove)
  }

  function ApplySpec(r: Record, s: Selection): (Record, Report) {
    var chosen := Chosen(r, s);
    var origin, next := Local(r.models), NextModels(r, s);
    var ignored := Merge(r.ignored, chosen.ignore);
    var remaining := Subtract(Normalize(r.detected), chosen.add + chosen.ignore);
    var remainingRemove := Subtract(Normalize(r.removed), chosen.remove);
    (Record(if origin == next then r.models else Join(next, ','),
            if chosen.add == [] then ignored else Subtract(ignored, chosen.add),
            remaining, remainingRemove),
     Report(chosen.add, chosen.remove, remaining, remainingRemove, origin != next))
  }

  /** What a check does with the pending lists it has collected. */
  function PersistSpec(r: Record, add: seq<string>, remove: seq<string>, autoApply: bool): (Record, bool, nat) {
    if autoApply && add != [] then
      var origin := Local(r.models);
      var merged := Merge(origin, add);
      if |merged| > |origin| then
        (r.(models := Join(merged, ','), detected := [], removed := remove), true, |merged| - |origin|)
      else (r.(detected := [], removed := remove), false, 0)
    else (r.(detected := add, removed := remove), false, 0)
  }

  /** A scheduled or manual check against the upstream list that was fetched. */
  function CheckSpec(r: Record, upstream: seq<string>, rules: Rules, autoApply: bool): (Record, bool, nat) {
    PersistSpec(r, PendingAdd(Models(r.models), upstream, rules),
                PendingRemove(Models(r.models), upstream, rules), autoApply)
  }

  class Channel {
    var models: string
    var ignored: seq<string>
    var lastDetected: seq<string>
    var lastRemoved: seq<string>

    function Snapshot(): Record
      reads this
    {
      Record(models, ignored, lastDetected, lastRemoved)
    }

    method Check(upstream: seq<string>, mapping: map<string, string>, regexMatches: (string, string) -> bool,
        autoApply: bool)
      returns (modelsChanged: bool, autoAdded: nat)
      modifies this
      ensures (Snapshot(), modelsChanged, autoAdded) ==
              CheckSpec(old(Snapshot()), upstream, Rules(old(ignored), mapping, regexMatches), autoApply)
    {
      var rules := Rules(ignored, mapping, regexMatches);
      var pendingAdd, pendingRemove := PendingAdd(Models(models), upstream, rules),
          PendingRemove(Models(models), upstream, rules);
      modelsChanged, autoAdded := Persist(pendingAdd, pendingRemove, autoApply);
    }

    method Persist(pendingAdd: seq<string>, pendingRemove: seq<string>, autoApply: bool)
      returns (modelsChanged: bool, autoAdded: nat)
      modifies this
      ensures (Snapshot(), modelsChanged, autoAdded) ==
              PersistSpec(old(Snapshot()), pendingAdd, pendingRemove, autoApply)
    {
      modelsChanged, autoAdded := false, 0;
      if autoApply && |pendingAdd| > 0 {
        var origin := Normalize(Models(models));
        var merged := Merge(origin, pendingAdd);
        if |merged| > |origin| {
          models := Join(merged, ',');
          autoAdded := |merged| - |origin|;
          modelsChanged := true;
        }
        lastDetected := [];
      } else {
        lastDetected := pendingAdd;
      }
      lastRemoved := pendingRemove;
    }

    method Apply(addInput: seq<string>, ignoreInput: seq<string>, removeInput: seq<string>) returns (report: Report)
      modifies this
      ensures (Snapshot(), report) == ApplySpec(old(Snapshot()), Selection(addInput, ignoreInput, removeInput))
    {
      var pendingAdd, pendingRemove := Normalize(lastDetected), Normalize(lastRemoved);
      var add := Intersect(addInput, pendingAdd);
      var ignore := Intersect(ignoreInput, pendingAdd);
      var remove := Intersect(removeInput, pendingRemove);
      remove := Subtract(remove, add);
      var origin := Normalize(Models(models));
      var next := ApplySelected(origin, add, remove);
      var changed := origin != next;
      if changed {
        models := Join(next, ',');
      }
      ignored := Merge(ignored, ignore);
      if |add| > 0 {
        ignored := Subtract(ignored, add);
      }
      lastDetected := Subtract(pendingAdd, add + ignore);
      lastRemoved := Subtract(pendingRemove, remove);
      report := Report(add, remove, lastDetected, lastRemoved, changed);
    }
  }

  // ----- the apply step -----

  /** What remains after a selection: the additions and whatever is not removed, in the order of the merged list. */
  lemma ApplySelectedProps(origin: seq<string>, add: seq<string>, remove: seq<string>)
    ensures var result := ApplySelected(origin, add, remove);
            && Normal(result)
            && (forall name :: name in result <==>
                  name in Normalize(add) || (name in Normalize(origin) && name !in Normalize(remove)))
            && result == Filter(Merge(origin, add), name => name in Normalize(add) || name !in Normalize(remove))
  {
    var o, a, r := Normalize(origin), Normalize(add), Normalize(remove);
    NormalizeIsNormal(origin);
    NormalizeIsNormal(add);
    NormalizeIsNormal(remove);
    NormalizeOfNormal(o);
    NormalizeOfNormal(a);
    NormalizeOfNormal(r);
    ApplySelectedOfNormal(o, a, r);
    assert ApplySelected(origin, add, remove) == ApplySelected(o, a, r);
  }

  lemma ApplySelectedOfNormal(origin: seq<string>, add: seq<string>, remove: seq<string>)
    requires Normal(origin) && Normal(add) && Normal(remove)
    ensures Normal(ApplySelected(origin, add, remove))
    ensures forall name :: name in ApplySelected(origin, add, remove) <==>
            name in add || (name in origin && name !in remove)
    ensures ApplySelected(origin, add, remove) == Filter(Merge(origin, add), name => name in add || name !in remove)
  {
    NormalizeOfNormal(add);
    NormalizeOfNormal(remove);
    SubtractProps(remove, add);
    MergeOfNormal(origin, add);
    var gone := Subtract(remove, add);
    SubtractProps(Merge(origin, add), gone);
    FilterAgrees(Merge(origin, add), name => name !in gone, name => name in add || name !in remove);
  }

  lemma {:induction false} FilterAgrees(names: seq<string>, p: string -> bool, q: string -> bool)
    requires forall name :: name in names ==> p(name) == q(name)
    ensures Filter(names, p) == Filter(names, q)
  {
    if names != [] {
      FilterAgrees(names[..|names| - 1], p, q);
      assert names[|names| - 1] in names;
    }
  }

  lemma ChosenProps(r: Record, s: Selection)
    ensures var c := Chosen(r, s);
            && Normal(c.add) && Normal(c.ignore) && Normal(c.remove)
            && (forall name :: name in c.add <==> name in Normalize(s.add) && name in Normalize(r.detected))
            && (forall name :: name in c.ignore <==> name in Normalize(s.ignore) && name in Normalize(r.detected))
            && (forall name :: name in c.remove <==>
                  name in Normalize(s.remove) && name in Normalize(r.removed) && name !in c.add)
  {
    var c := Chosen(r, s);
    IntersectProps(s.add, Normalize(r.detected));
    IntersectProps(s.ignore, Normalize(r.detected));
    IntersectProps(s.remove, Normalize(r.removed));
    NormalizeIsNormal(r.detected);
    NormalizeIsNormal(r.removed);
    NormalizeOfNormal(Normalize(r.detected));
    NormalizeOfNormal(Normalize(r.removed));
    SubtractProps(Intersect(s.remove, Normalize(r.removed)), c.add);
  }

  /** What a request leaves on the stored ignore list: adding a name takes it off, ignoring it puts it on. */
  lemma StoredIgnores(r: Record, s: Selection)
    ensures var c := Chosen(r, s);
            forall name :: name in ApplySpec(r, s).0.ignored <==>
              (name in Normalize(r.ignored) || name in c.ignore) && name !in c.add
  {
    var c := Chosen(r, s);
    ChosenProps(r, s);
    MergeProps(r.ignored, c.ignore);
    NormalizeOfNormal(c.ignore);
    SubtractProps(Merge(r.ignored, c.ignore), c.add);
    EmptyIff(c.add);
  }

  /** Every pending addition ends up in exactly one of: added, ignored but not added, remaining. */
  lemma PendingAddsArePartitioned(r: Record, s: Selection, name: string)
    requires name in Normalize(r.detected)
    ensures var c, report := Chosen(r, s), ApplySpec(r, s).1;
            && (name in report.added <==> name in Normalize(s.add))
            && (name in c.ignore <==> name in Normalize(s.ignore))
            && (name in report.remaining <==> name !in report.added && name !in c.ignore)
            && (name in report.added ==> name !in ApplySpec(r, s).0.ignored)
            && (name in c.ignore && name !in report.added ==> name in ApplySpec(r, s).0.ignored)
  {
    ChosenProps(r, s);
    StoredIgnores(r, s);
    NormalizeIsNormal(r.detected);
    SubtractPropsLoose(Normalize(r.detected), Chosen(r, s).add + Chosen(r, s).ignore);
  }

  /** Every pending removal ends up removed or remaining; a name that is also added is not removed. */
  lemma PendingRemovalsArePartitioned(r: Record, s: Selection, name: string)
    requires name in Normalize(r.removed)
    ensures var report := ApplySpec(r, s).1;
            && (name in report.removed <==> name in Normalize(s.remove) && name !in report.added)
            && (name in report.remainingRemove <==> name !in report.removed)
  {
    ChosenProps(r, s);
    NormalizeIsNormal(r.removed);
    SubtractProps(Normalize(r.removed), Chosen(r, s).remove);
  }

  /** The removed list need not be normal, as long as its names are. */
  lemma SubtractPropsLoose(base: seq<string>, removed: seq<string>)
    requires Normal(base) && forall name :: name in removed ==> Clean(name)
    ensures Normal(Subtract(base, removed))
    ensures forall name :: name in Subtract(base, removed) <==> name in base && name !in removed
  {
    NormalizeOfNormal(base);
    NormalizeKeepsClean(removed);
    FilterProps(base, name => name !in Normalize(removed));
  }

  lemma TrimOfClean(name: string)
    requires Clean(name)
    ensures TrimSpace(name) == name != ""
  {
    TrimOfTrimmed(name, IsSpace);
  }

  lemma {:induction false} TrimAllOfClean(names: seq<string>)
    requires forall name :: name in names ==> Clean(name)
    ensures TrimAll(names) == names
  {
    if names != [] {
      var before, last := names[..|names| - 1], names[|names| - 1];
      assert last in names && names == before + [last];
      TrimAllOfClean(before);
      TrimOfClean(last);
    }
  }

  lemma NormalizeKeepsClean(names: seq<string>)
    requires forall name :: name in names ==> Clean(name)
    ensures forall name :: name in Normalize(names) <==> name in names
  {
    TrimAllOfClean(names);
    UniqProps(names);
  }

  // ----- models as text -----

  lemma TrimIsFree(s: string, sep: char)
    requires Free(s, sep)
    ensures Free(TrimSpace(s), sep)
  {
    TrimLeftProps(s, IsSpace);
    TrimRightProps(TrimLeft(s, IsSpace), IsSpace);
  }

  lemma {:induction false} TrimAllIsFree(names: seq<string>, sep: char)
    requires AllFree(names, sep)
    ensures AllFree(TrimAll(names), sep)
  {
    if names != [] {
      TrimAllIsFree(names[..|names| - 1], sep);
      TrimIsFree(names[|names| - 1], sep);
    }
  }

  lemma LocalIsFree(text: string)
    ensures Normal(Local(text)) && forall name :: name in Local(text) ==> Free(name, ',')
  {
    var models := Models(text);
    NormalizeIsNormal(models);
    if text != "" {
      SplitParts(Trim(text, c => c == ','), ',');
    }
    TrimAllIsFree(models, ',');
    UniqProps(TrimAll(models));
  }

  /** A normal list of comma-free names is read back from its joined text. */
  lemma JoinIsReadBack(names: seq<string>)
    requires Normal(names) && forall name :: name in names ==> Free(name, ',')
    ensures Local(Join(names, ',')) == names
  {
    if names != [] {
      assert names[0] in names && names[|names| - 1] in names;
    }
    ReadBackIff(names, ',');
    NormalizeOfNormal(names);
  }

  predicate CommaFree(names: seq<string>) {
    forall name :: name in names ==> Free(name, ',')
  }

  lemma ModelsAfterApply(r: Record, s: Selection)
    requires CommaFree(Chosen(r, s).add)
    ensures Local(ApplySpec(r, s).0.models) == NextModels(r, s)
  {
    ChosenProps(r, s);
    LocalIsFree(r.models);
    ApplySelectedOfNormal(Local(r.models), Chosen(r, s).add, Chosen(r, s).remove);
    JoinIsReadBack(NextModels(r, s));
  }

  // ----- applying the same request again -----

  /** Names selected for addition and, in the same request, for a removal that was pending too. */
  predicate SelectedBothWays(r: Record, s: Selection, name: string) {
    name in Chosen(r, s).add && name in Normalize(s.remove) && name in Normalize(r.removed)
  }

  lemma ChosenAgain(r: Record, s: Selection)
    ensures var again := Chosen(ApplySpec(r, s).0, s);
            again.add == [] && forall name :: name in again.remove <==> SelectedBothWays(r, s, name)
  {
    var r' := ApplySpec(r, s).0;
    ChosenProps(r, s);
    ChosenProps(r', s);
    NormalizeIsNormal(r.detected);
    NormalizeIsNormal(r.removed);
    SubtractPropsLoose(Normalize(r.detected), Chosen(r, s).add + Chosen(r, s).ignore);
    SubtractProps(Normalize(r.removed), Chosen(r, s).remove);
    NormalizeOfNormal(r'.detected);
    NormalizeOfNormal(r'.removed);
    EmptyIff(Chosen(r', s).add);
  }

  /** Without additions, a request changes the list exactly when it removes a name that is there. */
  lemma OnlyRemovalsChange(origin: seq<string>, remove: seq<string>)
    requires Normal(origin) && Normal(remove)
    ensures ApplySelected(origin, [], remove) == origin <==> forall name :: name in remove ==> name !in origin
  {
    ApplySelectedOfNormal(origin, [], remove);
    MergeOfNormal(origin, []);
    assert Merge(origin, []) == origin;
    if forall name :: name in remove ==> name !in origin {
      FilterAll(origin, name => name in [] || name !in remove);
    }
  }

  lemma {:induction false} CleanStays(names: seq<string>, name: string)
    requires name in names && Clean(name)
    ensures name in TrimAll(names)
  {
    var before, last := names[..|names| - 1], names[|names| - 1];
    assert names == before + [last];
    if name == last {
      TrimOfClean(name);
    } else {
      CleanStays(before, name);
    }
  }

  /** A comma-free name is read back from the joined text, whatever the other names hold. */
  lemma MemberIsReadBack(names: seq<string>, name: string)
    requires name in names && Clean(name) && Free(name, ',')
    ensures name in Local(Join(names, ','))
  {
    PartIsReadBack(names, ',', name);
    CleanStays(Models(Join(names, ',')), name);
    UniqProps(TrimAll(Models(Join(names, ','))));
  }

  /** After a request, an added name is a model of the channel exactly when it holds no comma. */
  lemma AddedIsReadBackIff(r: Record, s: Selection, name: string)
    requires name in Chosen(r, s).add
    ensures name in Local(ApplySpec(r, s).0.models) <==> Free(name, ',')
  {
    var next := NextModels(r, s);
    ChosenProps(r, s);
    LocalIsFree(r.models);
    LocalIsFree(ApplySpec(r, s).0.models);
    ApplySelectedOfNormal(Local(r.models), Chosen(r, s).add, Chosen(r, s).remove);
    if Free(name, ',') {
      MemberIsReadBack(next, name);
    }
  }

  /** Repeating a request leaves the models alone exactly when no comma-free name was selected both ways. */
  lemma RepeatIsNoOpIff(r: Record, s: Selection)
    ensures !ApplySpec(ApplySpec(r, s).0, s).1.changed <==>
            forall name :: SelectedBothWays(r, s, name) ==> !Free(name, ',')
  {
    var r' := ApplySpec(r, s).0;
    var again := Chosen(r', s);
    ChosenAgain(r, s);
    ChosenProps(r', s);
    LocalIsFree(r'.models);
    OnlyRemovalsChange(Local(r'.models), again.remove);
    forall name | SelectedBothWays(r, s, name) ensures name in Local(r'.models) <==> Free(name, ',') {
      AddedIsReadBackIff(r, s, name);
    }
  }

  /** What a detection has just recorded can always be applied twice. */
  lemma DetectionRepeatsSafely(r: Record, upstream: seq<string>, rules: Rules, s: Selection)
    ensures var found := CheckSpec(r, upstream, rules, false).0;
            !ApplySpec(ApplySpec(found, s).0, s).1.changed
  {
    var found := CheckSpec(r, upstream, rules, false).0;
    PendingAddProps(Models(r.models), upstream, rules);
    PendingRemoveProps(Models(r.models), upstream, rules);
    NormalizeOfNormal(found.detected);
    NormalizeOfNormal(found.removed);
    ChosenProps(found, s);
    RepeatIsNoOpIff(found, s);
  }

  lemma {:induction false} FilterAll(names: seq<string>, keep: string -> bool)
    requires forall name :: name in names ==> keep(name)
    ensures Filter(names, keep) == names
  {
    if names != [] {
      FilterAll(names[..|names| - 1], keep);
      assert names[|names| - 1] in names;
    }
  }

  // ----- detection after apply -----

  /** Detect, then apply everything that was detected. */
  function SyncOnce(r: Record, upstream: seq<string>, rules: Rules): Record {
    var found := CheckSpec(r, upstream, rules, false).0;
    ApplySpec(found, Selection(found.detected, [], found.removed)).0
  }

  lemma SyncedModels(r: Record, upstream: seq<string>, rules: Rules)
    ensures var found := CheckSpec(r, upstream, rules, false).0;
            var c := Chosen(found, Selection(found.detected, [], found.removed));
            forall name :: (name in c.add <==> name in found.detected) && (name in c.remove <==> name in found.removed)
  {
    var found := CheckSpec(r, upstream, rules, false).0;
    PendingAddProps(Models(r.models), upstream, rules);
    PendingRemoveProps(Models(r.models), upstream, rules);
    ChosenProps(found, Selection(found.detected, [], found.removed));
    NormalizeOfNormal(found.detected);
    NormalizeOfNormal(found.removed);
  }

  /** After one sync, a second detection under the same rules finds nothing, exactly when no name it
      added holds a comma. */
  lemma SyncIsFixpointIff(r: Record, upstream: seq<string>, rules: Rules)
    ensures var models, add := Models(SyncOnce(r, upstream, rules).models),
                            PendingAdd(Models(r.models), upstream, rules);
            PendingAdd(models, upstream, rules) == [] && PendingRemove(models, upstream, rules) == [] <==>
            CommaFree(add)
  {
    var found, synced := CheckSpec(r, upstream, rules, false).0, SyncOnce(r, upstream, rules);
    var s := Selection(found.detected, [], found.removed);
    var add', remove' := PendingAdd(Models(synced.models), upstream, rules),
        PendingRemove(Models(synced.models), upstream, rules);
    SyncedModels(r, upstream, rules);
    PendingAddProps(Models(r.models), upstream, rules);
    PendingRemoveProps(Models(r.models), upstream, rules);
    PendingAddProps(Models(synced.models), upstream, rules);
    PendingRemoveProps(Models(synced.models), upstream, rules);
    LocalIsFree(synced.models);
    EmptyIff(add');
    EmptyIff(remove');
    if CommaFree(found.detected) {
      ModelsAfterApply(found, s);
      ChosenProps(found, s);
      LocalIsFree(r.models);
      ApplySelectedOfNormal(Local(r.models), Chosen(found, s).add, Chosen(found, s).remove);
    } else {
      var name :| name in found.detected && !Free(name, ',');
      assert name in add';
    }
  }

  /** The models after an automatic application. */
  lemma AutoApplied(r: Record, upstream: seq<string>, rules: Rules)
    requires PendingAdd(Models(r.models), upstream, rules) != []
    ensures CheckSpec(r, upstream, rules, true).0.models ==
              Join(Merge(Local(r.models), PendingAdd(Models(r.models), upstream, rules)), ',')
  {
    var origin, add := Local(r.models), PendingAdd(Models(r.models), upstream, rules);
    LocalIsFree(r.models);
    PendingAddProps(Models(r.models), upstream, rules);
    NormalizeOfNormal(origin);
    NormalizeOfNormal(add);
    FilterAll(add, name => name !in origin);
  }

  /** After an automatic application a second detection under the same rules has nothing to add, exactly when no name
      it added holds a comma. */
  lemma AutoApplyIsFixpointIff(r: Record, upstream: seq<string>, rules: Rules)
    ensures var after := CheckSpec(r, upstream, rules, true).0;
            PendingAdd(Models(after.models), upstream, rules) == [] <==>
            CommaFree(PendingAdd(Models(r.models), upstream, rules))
  {
    var origin, add := Local(r.models), PendingAdd(Models(r.models), upstream, rules);
    var after := CheckSpec(r, upstream, rules, true).0;
    var add' := PendingAdd(Models(after.models), upstream, rules);
    PendingAddProps(Models(r.models), upstream, rules);
    PendingAddProps(Models(after.models), upstream, rules);
    LocalIsFree(r.models);
    LocalIsFree(after.models);
    EmptyIff(add');
    EmptyIff(add);
    if add != [] {
      AutoApplied(r, upstream, rules);
      MergeOfNormal(origin, add);
      if CommaFree(add) {
        JoinIsReadBack(Merge(origin, add));
      } else {
        var name :| name in add && !Free(name, ',');
        assert name in add';
      }
    }
  }

  /** A detection run counts each detected model once, whether it was added on the spot or only reported. */
  lemma DetectedAreCountedOnce(r: Record, upstream: seq<string>, rules: Rules, autoApply: bool)
    ensures var (r', changed, autoAdded) := CheckSpec(r, upstream, rules, autoApply);
            && |Normalize(r'.detected)| + autoAdded == |PendingAdd(Models(r.models), upstream, rules)|
            && |Normalize(r'.removed)| == |PendingRemove(Models(r.models), upstream, rules)|
            && (changed <==> autoAdded > 0)
  {
    var add, origin := PendingAdd(Models(r.models), upstream, rules), Local(r.models);
    PendingAddProps(Models(r.models), upstream, rules);
    PendingRemoveProps(Models(r.models), upstream, rules);
    NormalizeOfNormal(add);
    NormalizeOfNormal(PendingRemove(Models(r.models), upstream, rules));
    NormalizeIsNormal(Models(r.models));
    NormalizeOfNormal(origin);
    FilterAll(add, name => name !in origin);
  }
}
