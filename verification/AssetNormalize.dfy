/** A supplier resource made official: its aliases, its items, its error and its status, at every depth. */
module AssetNormalize {
  import opened AssetResponse
  import opened AssetAliases
  import opened AssetOfficial

  // ----- one resource, recursively -----

  datatype Fault = BadItems | NullItem

  datatype Normalized = Normal(fields: Fields) | Rejected(why: Fault)

  /** The official fields that a resource's own conversion reads. */
  const FIELDS := {"Id", "Items", "Error", "Status"}

  function Canonical(t: seq<Alias>, m: Fields): Fields {
    Aliased(t, Below(|t|), m)
  }

  /** None of the fields handled below is a spelling of something else. */
  ghost predicate Table(t: seq<Alias>) {
    Unambiguous(t) && forall k :: k in FIELDS ==> !Handled(t, Below(|t|), k)
  }

  /** Group resources that only carry GroupId are identified by it. */
  function WithGroupId(group: bool, m: Fields): Fields {
    if group && "Id" !in m && "GroupId" in m then m["Id" := m["GroupId"]] - {"GroupId"} else m
  }

  function WithError(m: Fields): Fields {
    if "Error" in m && m["Error"] != Null && m["Error"] != Obj(map[])
      then m["Error" := OfficialError(m["Error"])] else m
  }

  function WithStatus(m: Fields): Fields {
    var value := if "Status" in m then TextOf(m["Status"]) else "";
    if value == "" || OfficialStatus(value, STATUSES) == value then m
    else m["Status" := Str(OfficialStatus(value, STATUSES))]
  }

  datatype ItemsResult = Converted(list: seq<Json>) | Unconverted(why: Fault)

  /** Items must be objects; a null among objects is only noticed when its turn comes. */
  predicate Decodes(items: seq<Json>) {
    forall i :: 0 <= i < |items| ==> items[i].Obj? || items[i].Null?
  }

  function Finished(m: Fields): Normalized {
    Normal(WithStatus(WithError(m)))
  }

  function Normalize(t: seq<Alias>, group: bool, j: Json): Normalized
    requires j.Obj?
    decreases j, 1
  {
    var m := WithGroupId(group, Canonical(t, j.fields));
    var source := SourceOf(t, Below(|t|), j.fields, "Items");
    if source.None? then Finished(m)
    else
      var list := j.fields[source.value];
      if list.Null? then Finished(m["Items" := Arr([])])
      else if !list.Arr? || !Decodes(list.items) then Rejected(BadItems)
      else
        var converted := NormalizeItems(t, group, list, |list.items|);
        if converted.Converted? then Finished(m["Items" := Arr(converted.list)]) else Rejected(converted.why)
  }

  function NormalizeItems(t: seq<Alias>, group: bool, list: Json, n: nat): ItemsResult
    requires list.Arr? && n <= |list.items| && Decodes(list.items)
    decreases list, n
  {
    if n == 0 then Converted([])
    else
      var before := NormalizeItems(t, group, list, n - 1);
      if before.Unconverted? then before
      else if list.items[n - 1].Null? then Unconverted(NullItem)
      else
        var one := Normalize(t, group, list.items[n - 1]);
        if one.Normal? then Converted(before.list + [Obj(one.fields)]) else Unconverted(one.why)
  }

  /** The recursive conversion: aliases in any order, then the group ID, the items, the error and the status. */
  method NormalizeFields(t: seq<Alias>, group: bool, j: Json) returns (r: Normalized)
    requires Table(t)
    requires j.Obj?
    ensures r == Normalize(t, group, j)
    decreases j, 1
  {
    var result := NormalizeAliases(t, j.fields);
    AliasedAt(t, Below(|t|), j.fields, "Items");
    if group && "Id" !in result && "GroupId" in result {
      result := result["Id" := result["GroupId"]];
      result := result - {"GroupId"};
    }
    if "Items" in result {
      match result["Items"] {
        case Null =>
          result := result["Items" := Arr([])];
        case Arr(items) =>
          if !Decodes(items) {
            return Rejected(BadItems);
          }
          var converted := ConvertItems(t, group, j.fields[SourceOf(t, Below(|t|), j.fields, "Items").value]);
          if converted.Unconverted? {
            return Rejected(converted.why);
          }
          result := result["Items" := Arr(converted.list)];
        case _ => return Rejected(BadItems);
      }
    }
    r := Finished(result);
  }

  function NormalizeItem(t: seq<Alias>, group: bool, item: Json): Normalized
    requires item.Obj? || item.Null?
  {
    if item.Null? then Rejected(NullItem) else Normalize(t, group, item)
  }

  /** One more item: a null or one that cannot be converted ends the conversion. */
  lemma ItemsNext(t: seq<Alias>, group: bool, list: Json, i: nat, before: seq<Json>)
    requires list.Arr? && Decodes(list.items) && i < |list.items|
    requires NormalizeItems(t, group, list, i) == Converted(before)
    ensures NormalizeItems(t, group, list, i + 1) ==
              match NormalizeItem(t, group, list.items[i])
              case Normal(fields) => Converted(before + [Obj(fields)])
              case Rejected(why) => Unconverted(why)
  {
  }

  method ConvertItem(t: seq<Alias>, group: bool, item: Json) returns (r: Normalized)
    requires Table(t) && (item.Obj? || item.Null?)
    ensures r == NormalizeItem(t, group, item)
    decreases item, 2
  {
    if item.Null? {
      return Rejected(NullItem);
    }
    r := NormalizeFields(t, group, item);
  }

  lemma ReplaceNext(items: seq<Json>, list: seq<Json>, i: nat, item: Json)
    requires |items| == |list| && i < |list| && items[i..] == list[i..]
    ensures items[i] == list[i]
    ensures items[i := item][..i + 1] == items[..i] + [item] && items[i := item][i + 1..] == list[i + 1..]
  {
    assert items[i] == items[i..][0] && list[i] == list[i..][0];
    assert items[i + 1..] == items[i..][1..] && list[i + 1..] == list[i..][1..];
  }

  method ConvertItems(t: seq<Alias>, group: bool, list: Json) returns (r: ItemsResult)
    requires Table(t)
    requires list.Arr? && Decodes(list.items)
    ensures r == NormalizeItems(t, group, list, |list.items|)
    decreases list, 0
  {
    var items := list.items;
    for i := 0 to |items|
      invariant |items| == |list.items| && items[i..] == list.items[i..]
      invariant NormalizeItems(t, group, list, i) == Converted(items[..i])
    {
      ItemsNext(t, group, list, i, items[..i]);
      var converted := ConvertItem(t, group, list.items[i]);
      if !converted.Normal? {
        FailedItemsFail(t, group, list, i + 1, |list.items|);
        return Unconverted(converted.why);
      }
      ReplaceNext(items, list.items, i, Obj(converted.fields));
      items := items[i := Obj(converted.fields)];
    }
    assert items[..|items|] == items;
    r := Converted(items);
  }

  lemma {:induction false} FailedItemsFail(t: seq<Alias>, group: bool, list: Json, i: nat, n: nat)
    requires list.Arr? && i <= n <= |list.items| && Decodes(list.items)
    requires NormalizeItems(t, group, list, i).Unconverted?
    ensures NormalizeItems(t, group, list, n) == NormalizeItems(t, group, list, i)
    decreases n
  {
    if i < n {
      FailedItemsFail(t, group, list, i, n - 1);
    }
  }

  // ----- normalizing twice -----

  /** No spelling of the table is left. */
  ghost predicate Clean(t: seq<Alias>, m: Fields) {
    forall k :: k in m ==> !Handled(t, Below(|t|), k)
  }

  lemma CleanIsFixed(t: seq<Alias>, m: Fields)
    requires Clean(t, m)
    ensures Canonical(t, m) == m
  {
    forall k ensures k in Canonical(t, m) <==> k in m
             ensures k in m ==> Canonical(t, m)[k] == m[k]
    {
      AliasedAt(t, Below(|t|), m, k);
      if k !in m && IndexOf(t, k).Some? {
        var i := IndexOf(t, k).value;
        FirstPresentProps(m, t[i].names);
        if FirstPresent(m, t[i].names).Some? {
          assert Handled(t, Below(|t|), FirstPresent(m, t[i].names).value);
        }
      }
    }
  }

  lemma CanonicalIsClean(t: seq<Alias>, m: Fields)
    ensures Clean(t, Canonical(t, m))
  {
  }

  lemma OfficialNamesStay(t: seq<Alias>)
    requires Unambiguous(t)
    ensures forall i :: 0 <= i < |t| ==> !Handled(t, Below(|t|), t[i].canonical)
  {
  }

  lemma EntryNames(t: seq<Alias>)
    requires |t| == 23 && forall i :: 0 <= i < 23 ==> t[i] == Entry(i)
    ensures t[0].canonical == "Id" && t[7].canonical == "Status" && t[21].canonical == "Items"
    ensures t[22].canonical == "Error"
  {
  }

  lemma TableIf(t: seq<Alias>)
    requires |t| == 23 && Unambiguous(t)
    requires t[0].canonical == "Id" && t[7].canonical == "Status" && t[21].canonical == "Items"
    requires t[22].canonical == "Error"
    ensures Table(t)
  {
    OfficialNamesStay(t);
  }

  lemma AliasTable()
    ensures Table(ALIASES)
  {
    AliasesAreUnambiguous();
    EntryNames(ALIASES);
    TableIf(ALIASES);
  }

  ghost predicate ItemsAreFixed(t: seq<Alias>, group: bool, list: Json) {
    list.Arr? && Decodes(list.items) && NormalizeItems(t, group, list, |list.items|) == Converted(list.items)
  }

  /** What every normalized resource looks like, item by item. */
  ghost predicate Settled(t: seq<Alias>, group: bool, m: Fields) {
    && Clean(t, m) && WithGroupId(group, m) == m && WithError(m) == m && WithStatus(m) == m
    && ("Items" in m ==> ItemsAreFixed(t, group, m["Items"]))
  }

  lemma SettledIsFixed(t: seq<Alias>, group: bool, m: Fields)
    requires Table(t)
    requires Settled(t, group, m)
    ensures Normalize(t, group, Obj(m)) == Normal(m)
  {
    CleanIsFixed(t, m);
    AliasedAt(t, Below(|t|), m, "Items");
    if "Items" in m {
      assert m["Items" := Arr(m["Items"].items)] == m;
    }
  }

  lemma ErrorSettles(m: Fields)
    ensures WithError(WithError(m)) == WithError(m)
    ensures forall k :: k in WithError(m) <==> k in m
    ensures forall k :: k in m && k != "Error" ==> WithError(m)[k] == m[k]
  {
    if "Error" in m {
      OfficialErrorTwice(m["Error"]);
    }
  }

  lemma StatusSettles(m: Fields)
    ensures WithStatus(WithStatus(m)) == WithStatus(m)
    ensures forall k :: k in WithStatus(m) <==> k in m
    ensures forall k :: k in m && k != "Status" ==> WithStatus(m)[k] == m[k]
  {
    OfficialStatusTwice(if "Status" in m then TextOf(m["Status"]) else "", STATUSES);
  }

  lemma FinishedIsSettled(t: seq<Alias>, group: bool, m: Fields)
    requires Table(t)
    requires Clean(t, m) && WithGroupId(group, m) == m
    requires "Items" in m ==> ItemsAreFixed(t, group, m["Items"])
    ensures Settled(t, group, Finished(m).fields)
  {
    var e := WithError(m);
    ErrorSettles(m);
    StatusSettles(e);
    assert WithError(WithStatus(e)) == WithStatus(e);
  }

  lemma {:induction false} NormalizedIsSettled(t: seq<Alias>, group: bool, j: Json)
    requires Table(t)
    requires j.Obj? && Normalize(t, group, j).Normal?
    ensures Settled(t, group, Normalize(t, group, j).fields)
    decreases j, 1
  {
    var m := WithGroupId(group, Canonical(t, j.fields));
    CanonicalIsClean(t, j.fields);
    AliasedAt(t, Below(|t|), j.fields, "Items");
    var source := SourceOf(t, Below(|t|), j.fields, "Items");
    if source.None? {
      FinishedIsSettled(t, group, m);
    } else if j.fields[source.value].Null? {
      FinishedIsSettled(t, group, m["Items" := Arr([])]);
    } else {
      var list := j.fields[source.value];
      assert list.Arr? && Decodes(list.items);
      var converted := NormalizeItems(t, group, list, |list.items|);
      assert converted.Converted?;
      ItemsAreSettled(t, group, list, |list.items|);
      FinishedIsSettled(t, group, m["Items" := Arr(converted.list)]);
    }
  }

  lemma {:induction false} ItemsAreSettled(t: seq<Alias>, group: bool, list: Json, n: nat)
    requires Table(t)
    requires list.Arr? && Decodes(list.items) && n <= |list.items| && NormalizeItems(t, group, list, n).Converted?
    ensures ItemsAreFixed(t, group, Arr(NormalizeItems(t, group, list, n).list))
    decreases list, n
  {
    if n > 0 {
      var before, one := NormalizeItems(t, group, list, n - 1), Normalize(t, group, list.items[n - 1]);
      assert before.Converted? && one.Normal?;
      ItemsAreSettled(t, group, list, n - 1);
      NormalizedIsSettled(t, group, list.items[n - 1]);
      SettledIsFixed(t, group, one.fields);
      FixedSnoc(t, group, before.list, Obj(one.fields));
    }
  }

  lemma FixedSnoc(t: seq<Alias>, group: bool, before: seq<Json>, item: Json)
    requires ItemsAreFixed(t, group, Arr(before)) && item.Obj? && Normalize(t, group, item) == Normal(item.fields)
    ensures ItemsAreFixed(t, group, Arr(before + [item]))
  {
    var after := before + [item];
    assert after[..|before|] == before && after[|before|] == item && Decodes(after);
    SamePrefix(t, group, Arr(before), Arr(after), |before|);
    ItemsNext(t, group, Arr(after), |before|, before);
  }

  lemma {:induction false} SamePrefix(t: seq<Alias>, group: bool, a: Json, b: Json, n: nat)
    requires a.Arr? && b.Arr? && Decodes(a.items) && Decodes(b.items) && n <= |a.items| && n <= |b.items|
    requires a.items[..n] == b.items[..n]
    ensures NormalizeItems(t, group, a, n) == NormalizeItems(t, group, b, n)
    decreases n
  {
    if n > 0 {
      assert a.items[..n - 1] == a.items[..n][..n - 1] && b.items[..n - 1] == b.items[..n][..n - 1];
      assert a.items[n - 1] == a.items[..n][n - 1] && b.items[n - 1] == b.items[..n][n - 1];
      SamePrefix(t, group, a, b, n - 1);
    }
  }

  /** Normalizing a normalized resource changes nothing, at any depth. */
  lemma NormalizeIsIdempotent(group: bool, j: Json)
    requires j.Obj? && Normalize(ALIASES, group, j).Normal?
    ensures Normalize(ALIASES, group, Obj(Normalize(ALIASES, group, j).fields)) == Normalize(ALIASES, group, j)
  {
    AliasTable();
    NormalizedIsSettled(ALIASES, group, j);
    SettledIsFixed(ALIASES, group, Normalize(ALIASES, group, j).fields);
  }
}
