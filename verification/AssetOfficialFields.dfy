/** What stands in each field of an official resource, in terms of the supplier's fields. */
module AssetOfficialFields {
  import opened Text
  import opened AssetResponse
  import opened AssetAliases
  import opened AssetOfficial
  import opened AssetNormalize

  // ----- aliases -----

  /** The first of these spellings that is present. */
  predicate Best(m: Fields, names: seq<string>, a: nat) {
    a < |names| && names[a] in m && forall b :: 0 <= b < a ==> names[b] !in m
  }

  lemma {:induction false} FirstPresentIff(m: Fields, names: seq<string>, a: nat)
    requires Best(m, names, a)
    ensures FirstPresent(m, names) == Some(names[a])
  {
    if a < |names| - 1 {
      FirstPresentIff(m, names[..|names| - 1], a);
    } else {
      FirstPresentProps(m, names[..|names| - 1]);
    }
  }

  /** An official field keeps its value; without one it takes the value of its best spelling. */
  lemma OfficialField(t: seq<Alias>, m: Fields, i: nat)
    requires Unambiguous(t) && i < |t|
    ensures var (name, spellings, r) := (t[i].canonical, t[i].names, Canonical(t, m));
            && (name in r <==> name in m || exists a :: 0 <= a < |spellings| && spellings[a] in m)
            && (name in m ==> r[name] == m[name])
            && (name !in m ==> forall a: nat :: Best(m, spellings, a) ==> name in r && r[name] == m[spellings[a]])
  {
    var name, spellings := t[i].canonical, t[i].names;
    OfficialNamesStay(t);
    AliasedAt(t, Below(|t|), m, name);
    FirstPresentProps(m, spellings);
    IndexIsUnique(t, i);
    forall a: nat | Best(m, spellings, a) ensures FirstPresent(m, spellings) == Some(spellings[a]) {
      FirstPresentIff(m, spellings, a);
    }
    if a :| 0 <= a < |spellings| && spellings[a] in m {
      assert FirstPresent(m, spellings).Some?;
    }
  }

  lemma IndexIsUnique(t: seq<Alias>, i: nat)
    requires Unambiguous(t) && i < |t|
    ensures IndexOf(t, t[i].canonical) == Some(i)
  {
  }

  /** No spelling is left, and a field that the table does not mention is as it was. */
  lemma OtherField(t: seq<Alias>, m: Fields, k: string)
    requires Unambiguous(t)
    ensures (exists i :: 0 <= i < |t| && k in t[i].names) ==> k !in Canonical(t, m)
    ensures (forall i :: 0 <= i < |t| ==> k !in t[i].names && k != t[i].canonical) ==>
              (k in Canonical(t, m) <==> k in m) && (k in m ==> Canonical(t, m)[k] == m[k])
  {
    AliasedAt(t, Below(|t|), m, k);
    if i :| 0 <= i < |t| && k in t[i].names {
      assert i in Below(|t|);
    }
  }

  // ----- groups -----

  /** A group without an identifier is identified by its GroupId, which moves; nothing else changes. */
  lemma GroupIdMoves(group: bool, m: Fields)
    ensures var r := WithGroupId(group, m);
            && ("Id" in r <==> "Id" in m || (group && "GroupId" in m))
            && ("Id" in m ==> r["Id"] == m["Id"])
            && (group && "Id" !in m && "GroupId" in m ==> r["Id"] == m["GroupId"])
            && ("GroupId" in r <==> "GroupId" in m && ("Id" in m || !group))
            && ("GroupId" in r ==> r["GroupId"] == m["GroupId"])
            && (forall k :: k != "Id" && k != "GroupId" ==> (k in r <==> k in m) && (k in m ==> r[k] == m[k]))
  {
  }

  // ----- errors -----

  /** The field holds this text, as a string or as a number. */
  predicate Says(fields: Fields, name: string, text: string) {
    text != "" && name in fields
    && (fields[name] == Str(text) || (fields[name].Num? && fields[name].raw == text))
  }

  ghost predicate Silent(fields: Fields, name: string) {
    forall text :: !Says(fields, name, text)
  }

  lemma TextOfField(fields: Fields, name: string)
    ensures var text := if name in fields then TextOf(fields[name]) else "";
            if text == "" then Silent(fields, name)
            else Says(fields, name, text) && forall other :: Says(fields, name, other) ==> other == text
  {
  }

  lemma FirstText(fields: Fields, names: seq<string>)
    requires names != []
    ensures forall text :: Says(fields, names[0], text) ==> RawString(fields, names) == text
    ensures Silent(fields, names[0]) ==> RawString(fields, names) == RawString(fields, names[1..])
  {
    TextOfField(fields, names[0]);
  }

  /** The code of an error is read from Code, code or type, in this order. */
  lemma ErrorCode(fields: Fields, text: string)
    ensures var r := OfficialError(Obj(fields)).fields;
            && "Code" in r
            && (Says(fields, "Code", text) ==> r["Code"] == Str(text))
            && (Silent(fields, "Code") && Says(fields, "code", text) ==> r["Code"] == Str(text))
            && (Silent(fields, "Code") && Silent(fields, "code") && Says(fields, "type", text) ==>
                  r["Code"] == Str(text))
            && (Silent(fields, "Code") && Silent(fields, "code") && Silent(fields, "type") ==>
                  r["Code"] == Str("asset_request_failed"))
  {
    FirstText(fields, ["Code", "code", "type"]);
    assert ["Code", "code", "type"][1..] == ["code", "type"];
    FirstText(fields, ["code", "type"]);
    assert ["code", "type"][1..] == ["type"];
    FirstText(fields, ["type"]);
  }

  /** Its message is read from Message or message. */
  lemma ErrorMessage(fields: Fields, text: string)
    ensures var r := OfficialError(Obj(fields)).fields;
            && "Message" in r
            && (Says(fields, "Message", text) ==> r["Message"] == Str(text))
            && (Silent(fields, "Message") && Says(fields, "message", text) ==> r["Message"] == Str(text))
            && (Silent(fields, "Message") && Silent(fields, "message") ==> r["Message"] == Str("asset request failed"))
  {
    FirstText(fields, ["Message", "message"]);
    assert ["Message", "message"][1..] == ["message"];
    FirstText(fields, ["message"]);
  }

  /** All other fields of an error stay, but for the spellings of code and message. */
  lemma ErrorKeepsTheRest(fields: Fields, k: string)
    requires k != "Code" && k != "Message"
    ensures var r := OfficialError(Obj(fields)).fields;
            && (k in r <==> k in fields && k != "code" && k != "message" && k != "type")
            && (k in r ==> r[k] == fields[k])
  {
  }

  /** A text is the message of the error it becomes; anything but a text or an object leaves nothing. */
  lemma ErrorOfText(error: Json)
    requires !error.Obj?
    ensures OfficialError(error) ==
              Obj(map["Code" := Str("asset_request_failed"),
                      "Message" := if error.Str? && error.s != "" then error else Str("asset request failed")])
  {
    var fields := if error.Str? then map["Message" := error] else map[];
    var r := OfficialError(error).fields;
    assert OfficialError(error) == OfficialError(Obj(fields));
    ErrorCode(fields, "");
    ErrorMessage(fields, if error.Str? then error.s else "");
    forall k | k != "Code" && k != "Message" ensures k !in r {
      ErrorKeepsTheRest(fields, k);
    }
  }

  // ----- statuses -----

  /** The same letter in either case; two letters have a third form that is not ASCII. */
  predicate SameLetter(c: char, d: char) {
    || c == d
    || ('A' <= c <= 'Z' && d as int == c as int + 32)
    || ('A' <= d <= 'Z' && c as int == d as int + 32)
    || (c == '\U{17F}' && (d == 's' || d == 'S'))
    || (c == '\U{212A}' && (d == 'k' || d == 'K'))
  }

  predicate SameLetters(text: string, name: string) {
    |text| == |name| && forall i :: 0 <= i < |text| ==> SameLetter(text[i], name[i])
  }

  predicate Ascii(name: string) {
    forall i :: 0 <= i < |name| ==> name[i] as int < 128
  }

  lemma FoldIff(text: string, name: string)
    requires Ascii(name)
    ensures EqualFold(text, name) <==> SameLetters(text, name)
  {
    forall i | 0 <= i < |text| && i < |name| ensures Fold(text[i]) == Fold(name[i]) <==> SameLetter(text[i], name[i]) {
    }
  }

  lemma {:induction false} StatusIff(value: string, names: seq<string>, i: nat)
    requires forall k :: 0 <= k < |names| ==> Ascii(names[k])
    requires i < |names| && SameLetters(value, names[i])
    requires forall k :: 0 <= k < i ==> !SameLetters(value, names[k])
    ensures OfficialStatus(value, names) == names[i]
  {
    FoldIff(value, names[0]);
    if i > 0 {
      StatusIff(value, names[1..], i - 1);
    }
  }

  lemma {:induction false} StatusStays(value: string, names: seq<string>)
    requires forall k :: 0 <= k < |names| ==> Ascii(names[k]) && !SameLetters(value, names[k])
    ensures OfficialStatus(value, names) == value
  {
    if names != [] {
      FoldIff(value, names[0]);
      StatusStays(value, names[1..]);
    }
  }

  lemma FirstStatuses(value: string)
    ensures SameLetters(value, "Processing") ==> OfficialStatus(value, STATUSES) == "Processing"
    ensures SameLetters(value, "Active") ==> OfficialStatus(value, STATUSES) == "Active"
  {
    if SameLetters(value, "Processing") {
      StatusIff(value, STATUSES, 0);
    } else if SameLetters(value, "Active") {
      StatusIff(value, STATUSES, 1);
    }
  }

  lemma LastStatuses(value: string)
    ensures SameLetters(value, "Failed") ==> OfficialStatus(value, STATUSES) == "Failed"
    ensures SameLetters(value, "Expired") ==> OfficialStatus(value, STATUSES) == "Expired"
  {
    assert SameLetters(value, "Active") ==> SameLetter(value[0], 'A');
    assert SameLetters(value, "Failed") ==> SameLetter(value[0], 'F');
    if SameLetters(value, "Failed") {
      StatusIff(value, STATUSES, 2);
    } else if SameLetters(value, "Expired") {
      StatusIff(value, STATUSES, 3);
    }
  }

  /** The four statuses are written as suppliers are told; every other text is left alone. */
  lemma StatusNames(value: string)
    ensures SameLetters(value, "Processing") ==> OfficialStatus(value, STATUSES) == "Processing"
    ensures SameLetters(value, "Active") ==> OfficialStatus(value, STATUSES) == "Active"
    ensures SameLetters(value, "Failed") ==> OfficialStatus(value, STATUSES) == "Failed"
    ensures SameLetters(value, "Expired") ==> OfficialStatus(value, STATUSES) == "Expired"
  {
    FirstStatuses(value);
    LastStatuses(value);
  }

  lemma OtherStatusStays(value: string)
    requires !SameLetters(value, "Processing") && !SameLetters(value, "Active")
    requires !SameLetters(value, "Failed") && !SameLetters(value, "Expired")
    ensures OfficialStatus(value, STATUSES) == value
  {
    StatusStays(value, STATUSES);
  }

  // ----- items -----

  predicate Convertible(t: seq<Alias>, group: bool, item: Json) {
    item.Obj? && Normalize(t, group, item).Normal?
  }

  /** The second list holds the official form of each item of the first. */
  predicate Each(t: seq<Alias>, group: bool, items: seq<Json>, list: seq<Json>) {
    |list| == |items| && forall i :: 0 <= i < |items| ==> IsOfficial(t, group, items[i], list[i])
  }

  predicate IsOfficial(t: seq<Alias>, group: bool, item: Json, converted: Json) {
    item.Obj? && converted.Obj? && Normalize(t, group, item) == Normal(converted.fields)
  }

  lemma ItemFits(t: seq<Alias>, group: bool, list: Json, n: nat)
    requires list.Arr? && 0 < n <= |list.items| && Decodes(list.items)
    ensures var (before, r, item) :=
              (NormalizeItems(t, group, list, n - 1), NormalizeItems(t, group, list, n), list.items[n - 1]);
            && (before.Unconverted? ==> r == before)
            && (before.Converted? ==>
                  if Convertible(t, group, item)
                  then r.Converted? && r.list == before.list + [Obj(Normalize(t, group, item).fields)]
                  else r.Unconverted?)
  {
  }

  lemma EachSnoc(t: seq<Alias>, group: bool, items: seq<Json>, list: seq<Json>, item: Json, converted: Json)
    requires Each(t, group, items, list) && IsOfficial(t, group, item, converted)
    ensures Each(t, group, items + [item], list + [converted])
  {
  }

  lemma {:induction false} ConvertedItems(t: seq<Alias>, group: bool, list: Json, n: nat)
    requires list.Arr? && n <= |list.items| && Decodes(list.items)
    requires NormalizeItems(t, group, list, n).Converted?
    ensures Each(t, group, list.items[..n], NormalizeItems(t, group, list, n).list)
  {
    if n > 0 {
      var before, item := NormalizeItems(t, group, list, n - 1), list.items[n - 1];
      assert list.items[..n] == list.items[..n - 1] + [item];
      ItemFits(t, group, list, n);
      ConvertedItems(t, group, list, n - 1);
      EachSnoc(t, group, list.items[..n - 1], before.list, item, Obj(Normalize(t, group, item).fields));
    }
  }

  lemma {:induction false} UnconvertedItems(t: seq<Alias>, group: bool, list: Json, n: nat)
    requires list.Arr? && n <= |list.items| && Decodes(list.items)
    requires NormalizeItems(t, group, list, n).Unconverted?
    ensures exists i :: 0 <= i < n && !Convertible(t, group, list.items[i])
  {
    ItemFits(t, group, list, n);
    if NormalizeItems(t, group, list, n - 1).Unconverted? {
      UnconvertedItems(t, group, list, n - 1);
    }
  }

  /** Items are converted one by one and in order, and only if all of them can be. */
  lemma ItemByItem(t: seq<Alias>, group: bool, list: Json, n: nat)
    requires list.Arr? && n <= |list.items| && Decodes(list.items)
    ensures var r := NormalizeItems(t, group, list, n);
            if r.Converted? then Each(t, group, list.items[..n], r.list)
            else exists i :: 0 <= i < n && !Convertible(t, group, list.items[i])
  {
    if NormalizeItems(t, group, list, n).Converted? {
      ConvertedItems(t, group, list, n);
    } else {
      UnconvertedItems(t, group, list, n);
    }
  }

  lemma EachIsConvertible(t: seq<Alias>, group: bool, items: seq<Json>, list: seq<Json>, i: nat)
    requires Each(t, group, items, list) && i < |items|
    ensures Convertible(t, group, items[i])
  {
    assert IsOfficial(t, group, items[i], list[i]);
  }

  /** The first item that cannot be converted says why not. */
  lemma {:induction false} FirstFault(t: seq<Alias>, group: bool, list: Json, i: nat, n: nat)
    requires list.Arr? && i < n <= |list.items| && Decodes(list.items)
    requires forall k :: 0 <= k < i ==> Convertible(t, group, list.items[k])
    requires !Convertible(t, group, list.items[i])
    ensures NormalizeItems(t, group, list, n) ==
              Unconverted(if list.items[i].Null? then NullItem else Normalize(t, group, list.items[i]).why)
  {
    ItemByItem(t, group, list, i);
    FailedItemsFail(t, group, list, i + 1, n);
  }

  // ----- a whole resource -----

  lemma ItemsField(t: seq<Alias>, j: Json)
    requires Table(t) && j.Obj?
    ensures var source := SourceOf(t, Below(|t|), j.fields, "Items");
            && (source.Some? <==> "Items" in Canonical(t, j.fields))
            && (source.Some? ==> j.fields[source.value] == Canonical(t, j.fields)["Items"])
  {
    AliasedAt(t, Below(|t|), j.fields, "Items");
  }

  /** Nothing to list, or a list of resources that can be converted. */
  predicate ListsResources(t: seq<Alias>, group: bool, j: Json) {
    j.Null? || (j.Arr? && forall i :: 0 <= i < |j.items| ==> Convertible(t, group, j.items[i]))
  }

  lemma ListsResourcesIff(t: seq<Alias>, group: bool, list: Json)
    requires list.Arr?
    ensures ListsResources(t, group, list) <==>
              Decodes(list.items) && NormalizeItems(t, group, list, |list.items|).Converted?
  {
    if Decodes(list.items) {
      var r := NormalizeItems(t, group, list, |list.items|);
      ItemByItem(t, group, list, |list.items|);
      assert list.items[..|list.items|] == list.items;
      if r.Converted? {
        forall i | 0 <= i < |list.items| ensures Convertible(t, group, list.items[i]) {
          EachIsConvertible(t, group, list.items, r.list, i);
        }
      }
    } else {
      var i :| 0 <= i < |list.items| && !(list.items[i].Obj? || list.items[i].Null?);
      assert !Convertible(t, group, list.items[i]);
    }
  }

  /** A resource is rejected exactly when its items are something else than a list of resources that are not. */
  lemma RejectedIff(t: seq<Alias>, group: bool, j: Json)
    requires Table(t) && j.Obj?
    ensures var m := Canonical(t, j.fields);
            Normalize(t, group, j).Rejected? <==> "Items" in m && !ListsResources(t, group, m["Items"])
  {
    var m := Canonical(t, j.fields);
    ItemsField(t, j);
    if "Items" in m && m["Items"].Arr? {
      ListsResourcesIff(t, group, m["Items"]);
    }
  }

  /** The items of an official resource: none for null, otherwise the items in their official form. */
  predicate OfficialItems(t: seq<Alias>, group: bool, before: Json, after: Json) {
    after.Arr? && if before.Null? then after.items == [] else before.Arr? && Each(t, group, before.items, after.items)
  }

  /** The fields before error and status are handled. */
  function Unfinished(t: seq<Alias>, group: bool, j: Json): Fields
    requires j.Obj?
  {
    var m := WithGroupId(group, Canonical(t, j.fields));
    if "Items" !in m then m
    else if m["Items"].Arr? && Decodes(m["Items"].items) then
      match NormalizeItems(t, group, m["Items"], |m["Items"].items|)
      case Converted(list) => m["Items" := Arr(list)]
      case Unconverted(_) => m
    else m["Items" := Arr([])]
  }

  lemma BeforeFinish(t: seq<Alias>, group: bool, j: Json)
    requires Table(t) && j.Obj? && Normalize(t, group, j).Normal?
    ensures Normalize(t, group, j) == Finished(Unfinished(t, group, j))
  {
    ItemsField(t, j);
  }

  lemma UnfinishedFields(t: seq<Alias>, group: bool, j: Json)
    requires Table(t) && j.Obj? && Normalize(t, group, j).Normal?
    ensures var (m, u) := (WithGroupId(group, Canonical(t, j.fields)), Unfinished(t, group, j));
            && u.Keys == m.Keys && (forall k :: k in m && k != "Items" ==> u[k] == m[k])
            && ("Items" in m ==> OfficialItems(t, group, m["Items"], u["Items"]))
  {
    var m := Canonical(t, j.fields);
    ItemsField(t, j);
    if "Items" in m {
      ItemsAreOfficial(t, group, j, m["Items"]);
    }
  }

  lemma ItemsAreOfficial(t: seq<Alias>, group: bool, j: Json, list: Json)
    requires Table(t) && j.Obj? && Normalize(t, group, j).Normal?
    requires SourceOf(t, Below(|t|), j.fields, "Items").Some?
    requires list == j.fields[SourceOf(t, Below(|t|), j.fields, "Items").value]
    ensures list.Null? || (list.Arr? && Decodes(list.items))
    ensures list.Arr? ==>
              var r := NormalizeItems(t, group, list, |list.items|);
              r.Converted? && OfficialItems(t, group, list, Arr(r.list))
  {
    if list.Arr? && Decodes(list.items) {
      ItemByItem(t, group, list, |list.items|);
      assert list.items[..|list.items|] == list.items;
    }
  }

  lemma ErrorField(m: Fields)
    requires "Error" in m
    ensures WithError(m)["Error"] == if m["Error"].Null? || m["Error"] == Obj(map[]) then m["Error"]
                                     else OfficialError(m["Error"])
  {
  }

  lemma StatusField(m: Fields, text: string)
    ensures Says(m, "Status", text) ==>
              WithStatus(m)["Status"] == if OfficialStatus(text, STATUSES) == text then m["Status"]
                                         else Str(OfficialStatus(text, STATUSES))
    ensures Silent(m, "Status") ==> WithStatus(m) == m
  {
    TextOfField(m, "Status");
  }

  /** Field by field: the items and an error in their official form, the rest as the aliases left it. */
  lemma OfficialResource(t: seq<Alias>, group: bool, j: Json)
    requires Table(t) && j.Obj? && Normalize(t, group, j).Normal?
    ensures var (m, r) := (WithGroupId(group, Canonical(t, j.fields)), Normalize(t, group, j).fields);
            && r.Keys == m.Keys
            && (forall k :: k in m && k != "Items" && k != "Error" && k != "Status" ==> r[k] == m[k])
            && ("Items" in m ==> OfficialItems(t, group, m["Items"], r["Items"]))
            && ("Error" in m ==> r["Error"] == if m["Error"].Null? || m["Error"] == Obj(map[]) then m["Error"]
                                               else OfficialError(m["Error"]))
  {
    var u := Unfinished(t, group, j);
    BeforeFinish(t, group, j);
    UnfinishedFields(t, group, j);
    ErrorSettles(u);
    StatusSettles(WithError(u));
    if "Error" in u {
      ErrorField(u);
    }
  }

  /** And a status in its official form, if it is a text or a number. */
  lemma ResourceStatus(t: seq<Alias>, group: bool, j: Json)
    requires Table(t) && j.Obj? && Normalize(t, group, j).Normal?
    ensures var (m, r) := (WithGroupId(group, Canonical(t, j.fields)), Normalize(t, group, j).fields);
            && (forall text :: Says(m, "Status", text) ==>
                  "Status" in r
                  && r["Status"] == if OfficialStatus(text, STATUSES) == text then m["Status"]
                                    else Str(OfficialStatus(text, STATUSES)))
            && (Silent(m, "Status") && "Status" in m ==> "Status" in r && r["Status"] == m["Status"])
  {
    var m, u := WithGroupId(group, Canonical(t, j.fields)), Unfinished(t, group, j);
    BeforeFinish(t, group, j);
    UnfinishedFields(t, group, j);
    ErrorSettles(u);
    SameStatus(m, WithError(u));
  }

  lemma SameStatus(m: Fields, e: Fields)
    requires e.Keys == m.Keys && ("Status" in m ==> e["Status"] == m["Status"])
    ensures forall text :: Says(m, "Status", text) ==>
              "Status" in WithStatus(e)
              && WithStatus(e)["Status"] == if OfficialStatus(text, STATUSES) == text then m["Status"]
                                            else Str(OfficialStatus(text, STATUSES))
    ensures Silent(m, "Status") && "Status" in m ==> WithStatus(e) == e
  {
    forall text | Says(m, "Status", text) {
      StatusField(e, text);
    }
    TextOfField(e, "Status");
    TextOfField(m, "Status");
  }

  // ----- the identifier -----

  const ID_SPELLINGS := ["id", "asset_id", "AssetId"]
  const GROUP_SPELLINGS := ["group_id", "groupId"]

  lemma IdEntries()
    ensures ALIASES[0] == Alias("Id", ID_SPELLINGS) && ALIASES[5] == Alias("GroupId", GROUP_SPELLINGS)
  {
    assert ALIASES[0] == Entry(0) && ALIASES[5] == Entry(5);
  }

  /** The field of a supplier that holds this official field: the field itself or its best spelling. */
  ghost predicate Holds(m: Fields, name: string, spellings: seq<string>, value: Json) {
    if name in m then m[name] == value
    else exists a: nat :: Best(m, spellings, a) && m[spellings[a]] == value
  }

  lemma {:induction false} SomeBest(m: Fields, names: seq<string>, a: nat)
    requires a < |names| && names[a] in m
    ensures exists b :: Best(m, names, b)
    decreases a
  {
    if b :| 0 <= b < a && names[b] in m {
      SomeBest(m, names, b);
    } else {
      assert Best(m, names, a);
    }
  }

  lemma HoldsIff(t: seq<Alias>, m: Fields, i: nat, value: Json)
    requires Unambiguous(t) && i < |t|
    ensures Holds(m, t[i].canonical, t[i].names, value) <==>
              t[i].canonical in Canonical(t, m) && Canonical(t, m)[t[i].canonical] == value
  {
    var name, names := t[i].canonical, t[i].names;
    OfficialField(t, m, i);
    if name !in m && name in Canonical(t, m) {
      var a :| 0 <= a < |names| && names[a] in m;
      SomeBest(m, names, a);
    }
  }

  /** A resource is identified by what its supplier calls its identifier; a group without one by what the supplier
      calls its group. */
  lemma Identifier(group: bool, j: Json, value: Json)
    requires j.Obj? && Normalize(ALIASES, group, j).Normal?
    ensures var r := Normalize(ALIASES, group, j).fields;
            "Id" in r && r["Id"] == value <==>
              Holds(j.fields, "Id", ID_SPELLINGS, value)
              || (group && (forall other :: !Holds(j.fields, "Id", ID_SPELLINGS, other))
                  && Holds(j.fields, "GroupId", GROUP_SPELLINGS, value))
  {
    AliasTable();
    IdEntries();
    IdentifierOf(ALIASES, group, j, value);
  }

  lemma IdentifierOf(t: seq<Alias>, group: bool, j: Json, value: Json)
    requires j.Obj? && Table(t) && Normalize(t, group, j).Normal?
    requires |t| > 5 && t[0].canonical == "Id" && t[5].canonical == "GroupId"
    ensures var r := Normalize(t, group, j).fields;
            "Id" in r && r["Id"] == value <==>
              Holds(j.fields, "Id", t[0].names, value)
              || (group && (forall other :: !Holds(j.fields, "Id", t[0].names, other))
                  && Holds(j.fields, "GroupId", t[5].names, value))
  {
    var c := Canonical(t, j.fields);
    forall other {
      HoldsIff(t, j.fields, 0, other);
    }
    HoldsIff(t, j.fields, 5, value);
    assert "Id" in c ==> Holds(j.fields, "Id", t[0].names, c["Id"]);
    GroupIdMoves(group, Canonical(t, j.fields));
    OfficialResource(t, group, j);
  }
}
