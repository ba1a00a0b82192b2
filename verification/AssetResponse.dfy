/** Redacting supplier responses without changing whether they report success. */
module AssetResponse {
  import opened Text

  /** A JSON tree with duplicate-free objects. A number carries its source text, the text it
      prints as, and whether it is zero. */
  datatype Json = Null | Bool(b: bool) | Num(raw: string, text: string, zero: bool)
      | Str(s: string) | Arr(items: seq<Json>) | Obj(fields: map<string, Json>)

  const MAX_DEPTH: nat := 128

  // ----- internal keys -----

  /** unicode.ToLower, for every character whose lower case is an ASCII letter. */
  function Lower(c: char): char {
    if 'A' <= c <= 'Z' then (c as int + 32) as char
    else if c == '\U{212A}' then 'k'
    else if c == '\U{130}' then 'i'
    else c
  }

  /** strings.ToLower after every underscore is gone. */
  function Squeezed(key: string): string {
    if key == "" then ""
    else
      var before := Squeezed(key[..|key| - 1]);
      if key[|key| - 1] == '_' then before else before + [Lower(key[|key| - 1])]
  }

  const INTERNAL: set<string> :=
    {"channel", "channelid", "channelname", "channeltype", "admininfo", "auditinfo", "retryrouteeventids",
     "assetsecret", "assetcredentials", "apikey", "accesskeyid", "secretaccesskey"}

  predicate Internal(key: string) {
    Squeezed(key) in INTERNAL
  }

  // ----- the field filter -----

  datatype Filtered = Ok(j: Json) | TooDeep

  function Filter(j: Json, depth: nat): Filtered
    decreases j, 1
  {
    if depth > MAX_DEPTH then TooDeep
    else
      match j
      case Obj(_) =>
        var rs := FilterEntries(j, depth);
        if exists k :: k in rs && rs[k].TooDeep? then TooDeep else Ok(Obj(map k | k in rs :: rs[k].j))
      case Arr(_) =>
        var rs := FilterItems(j, depth);
        if exists i :: 0 <= i < |rs| && rs[i].TooDeep? then TooDeep
        else Ok(Arr(seq(|rs|, i requires 0 <= i < |rs| => rs[i].j)))
      case _ => Ok(j)
  }

  function FilterEntries(j: Json, depth: nat): map<string, Filtered>
    requires j.Obj?
    decreases j, 0
  {
    map k | k in j.fields && !Internal(k) :: Filter(j.fields[k], depth + 1)
  }

  function FilterItems(j: Json, depth: nat): seq<Filtered>
    requires j.Arr?
    decreases j, 0
  {
    seq(|j.items|, i requires 0 <= i < |j.items| => Filter(j.items[i], depth + 1))
  }

  method FilterFields(j: Json, depth: nat) returns (r: Filtered)
    ensures r == Filter(j, depth)
    decreases j, 1
  {
    if depth > MAX_DEPTH {
      return TooDeep;
    }
    match j {
      case Obj(_) => r := FilterObject(j, depth);
      case Arr(_) => r := FilterArray(j, depth);
      case _ => r := Ok(j);
    }
  }

  /** Entries of the decoded object are deleted and replaced in place, in any order. */
  method FilterObject(j: Json, depth: nat) returns (r: Filtered)
    requires j.Obj? && depth <= MAX_DEPTH
    ensures r == Filter(j, depth)
    decreases j, 0
  {
    var fields, todo := j.fields, j.fields.Keys;
    ghost var rs := FilterEntries(j, depth);
    while todo != {}
      invariant todo <= j.fields.Keys && fields.Keys == todo + (rs.Keys - todo)
      invariant forall k :: k in todo ==> fields[k] == j.fields[k]
      invariant forall k :: k in rs && k !in todo ==> rs[k] == Ok(fields[k])
    {
      var key :| key in todo;
      if Internal(key) {
        fields := fields - {key};
      } else {
        var filtered := FilterFields(j.fields[key], depth + 1);
        assert filtered == rs[key];
        if filtered.TooDeep? {
          return TooDeep;
        }
        if filtered.j != j.fields[key] {
          fields := fields[key := filtered.j];
        }
      }
      todo := todo - {key};
    }
    assert fields == map k | k in rs :: rs[k].j;
    r := Ok(Obj(fields));
  }

  method FilterArray(j: Json, depth: nat) returns (r: Filtered)
    requires j.Arr? && depth <= MAX_DEPTH
    ensures r == Filter(j, depth)
    decreases j, 0
  {
    var items := j.items;
    ghost var rs := FilterItems(j, depth);
    for i := 0 to |j.items|
      invariant |items| == |j.items|
      invariant forall n :: 0 <= n < i ==> rs[n] == Ok(items[n])
      invariant forall n :: i <= n < |items| ==> items[n] == j.items[n]
    {
      var filtered := FilterFields(j.items[i], depth + 1);
      assert filtered == rs[i];
      if filtered.TooDeep? {
        return TooDeep;
      }
      if filtered.j != j.items[i] {
        items := items[i := filtered.j];
      }
    }
    assert items == seq(|rs|, i requires 0 <= i < |rs| => rs[i].j);
    r := Ok(Arr(items));
  }

  // ----- what is left: reference -----

  /** The tree without its internal entries, at any depth. */
  function Strip(j: Json): Json {
    match j
    case Obj(fields) => Obj(map k | k in fields && !Internal(k) :: Strip(fields[k]))
    case Arr(items) => Arr(seq(|items|, i requires 0 <= i < |items| => Strip(items[i])))
    case _ => j
  }

  datatype Step = Key(k: string) | Index(i: nat)

  function Lookup(j: Json, path: seq<Step>): Option<Json>
    decreases path
  {
    if path == [] then Some(j)
    else
      match (j, path[0])
      case (Obj(fields), Key(k)) => if k in fields then Lookup(fields[k], path[1..]) else None
      case (Arr(items), Index(i)) => if i < |items| then Lookup(items[i], path[1..]) else None
      case _ => None
  }

  predicate PublicPath(path: seq<Step>) {
    forall n :: 0 <= n < |path| && path[n].Key? ==> !Internal(path[n].k)
  }

  /** Exactly the places reached without an internal key survive, each stripped in turn. */
  lemma {:induction false} StripLookup(j: Json, path: seq<Step>)
    ensures Lookup(Strip(j), path) ==
              match Lookup(j, path)
              case None => None
              case Some(sub) => if PublicPath(path) then Some(Strip(sub)) else None
    decreases path
  {
    if path != [] {
      assert PublicPath(path) <==> (path[0].Key? ==> !Internal(path[0].k)) && PublicPath(path[1..]) by {
        assert forall n :: 0 <= n < |path| - 1 ==> path[n + 1] == path[1..][n];
      }
      match (j, path[0]) {
        case (Obj(fields), Key(k)) => if k in fields { StripLookup(fields[k], path[1..]); }
        case (Arr(items), Index(i)) => if i < |items| { StripLookup(items[i], path[1..]); }
        case _ =>
      }
    }
  }

  /** The tree goes on beyond the depth limit along public keys. */
  ghost predicate ReachesBeyond(j: Json, depth: nat) {
    exists path :: PublicPath(path) && Lookup(j, path).Some? && depth + |path| > MAX_DEPTH
  }

  lemma PathTail(path: seq<Step>)
    requires path != [] && PublicPath(path)
    ensures PublicPath(path[1..]) && (path[0].Key? ==> !Internal(path[0].k))
  {
    assert forall n :: 0 <= n < |path| - 1 ==> path[n + 1] == path[1..][n];
  }

  lemma PathExtends(step: Step, path: seq<Step>)
    requires PublicPath(path) && (step.Key? ==> !Internal(step.k))
    ensures PublicPath([step] + path) && ([step] + path)[1..] == path
  {
  }

  lemma {:induction false} FilterOfPath(j: Json, depth: nat, path: seq<Step>)
    requires PublicPath(path) && Lookup(j, path).Some? && depth + |path| > MAX_DEPTH
    ensures Filter(j, depth).TooDeep?
    decreases path
  {
    if depth <= MAX_DEPTH {
      PathTail(path);
      if j.Obj? {
        FilterOfPath(j.fields[path[0].k], depth + 1, path[1..]);
        assert FilterEntries(j, depth)[path[0].k].TooDeep?;
      } else {
        FilterOfPath(j.items[path[0].i], depth + 1, path[1..]);
        assert FilterItems(j, depth)[path[0].i].TooDeep?;
      }
    }
  }

  /** A child that goes too deep makes its parent go too deep. */
  lemma ChildReachesBeyond(j: Json, step: Step, depth: nat)
    requires step.Key? ==> !Internal(step.k)
    requires Lookup(j, [step]).Some? && ReachesBeyond(Lookup(j, [step]).value, depth + 1)
    ensures ReachesBeyond(j, depth)
  {
    var child := Lookup(j, [step]).value;
    var path :| PublicPath(path) && Lookup(child, path).Some? && depth + 1 + |path| > MAX_DEPTH;
    PathExtends(step, path);
    assert Lookup(j, [step] + path) == Lookup(child, path);
  }

  lemma ChildStaysWithin(j: Json, step: Step, depth: nat)
    requires !ReachesBeyond(j, depth) && (step.Key? ==> !Internal(step.k)) && Lookup(j, [step]).Some?
    ensures !ReachesBeyond(Lookup(j, [step]).value, depth + 1)
  {
    if ReachesBeyond(Lookup(j, [step]).value, depth + 1) {
      ChildReachesBeyond(j, step, depth);
    }
  }

  lemma {:induction false} EntriesStrip(j: Json, depth: nat)
    requires j.Obj? && !ReachesBeyond(j, depth)
    ensures forall k :: k in FilterEntries(j, depth) ==> FilterEntries(j, depth)[k] == Ok(Strip(j.fields[k]))
    decreases j, 0
  {
    forall k | k in j.fields && !Internal(k) ensures FilterEntries(j, depth)[k] == Ok(Strip(j.fields[k])) {
      assert Lookup(j, [Key(k)]) == Some(j.fields[k]);
      ChildStaysWithin(j, Key(k), depth);
      FilterStripsWithin(j.fields[k], depth + 1);
    }
  }

  lemma {:induction false} ItemsStrip(j: Json, depth: nat)
    requires j.Arr? && !ReachesBeyond(j, depth)
    ensures forall i :: 0 <= i < |j.items| ==> FilterItems(j, depth)[i] == Ok(Strip(j.items[i]))
    decreases j, 0
  {
    forall i | 0 <= i < |j.items| ensures FilterItems(j, depth)[i] == Ok(Strip(j.items[i])) {
      assert Lookup(j, [Index(i)]) == Some(j.items[i]);
      ChildStaysWithin(j, Index(i), depth);
      FilterStripsWithin(j.items[i], depth + 1);
    }
  }

  lemma EntriesCombine(j: Json, depth: nat)
    requires j.Obj? && depth <= MAX_DEPTH
    requires forall k :: k in FilterEntries(j, depth) ==> FilterEntries(j, depth)[k] == Ok(Strip(j.fields[k]))
    ensures Filter(j, depth) == Ok(Strip(j))
  {
    var rs := FilterEntries(j, depth);
    assert (map k | k in rs :: rs[k].j) == Strip(j).fields;
  }

  lemma ItemsCombine(j: Json, depth: nat)
    requires j.Arr? && depth <= MAX_DEPTH
    requires forall i :: 0 <= i < |j.items| ==> FilterItems(j, depth)[i] == Ok(Strip(j.items[i]))
    ensures Filter(j, depth) == Ok(Strip(j))
  {
    var rs := FilterItems(j, depth);
    assert seq(|rs|, i requires 0 <= i < |rs| => rs[i].j) == Strip(j).items;
  }

  lemma {:induction false} FilterStripsWithin(j: Json, depth: nat)
    requires !ReachesBeyond(j, depth)
    ensures Filter(j, depth) == Ok(Strip(j))
    decreases j, 1
  {
    assert Lookup(j, []).Some? && PublicPath([]);
    if j.Obj? {
      EntriesStrip(j, depth);
      EntriesCombine(j, depth);
    } else if j.Arr? {
      ItemsStrip(j, depth);
      ItemsCombine(j, depth);
    }
  }

  /** The filter gives up exactly on trees too deep along public keys, and otherwise strips. */
  lemma FilterStrips(j: Json, depth: nat)
    ensures Filter(j, depth) == if ReachesBeyond(j, depth) then TooDeep else Ok(Strip(j))
  {
    if ReachesBeyond(j, depth) {
      var path :| PublicPath(path) && Lookup(j, path).Some? && depth + |path| > MAX_DEPTH;
      FilterOfPath(j, depth, path);
    } else {
      FilterStripsWithin(j, depth);
    }
  }

  lemma {:induction false} StripTwice(j: Json)
    ensures Strip(Strip(j)) == Strip(j)
    decreases j
  {
    match j {
      case Obj(fields) => forall k | k in fields { StripTwice(fields[k]); }
      case Arr(items) => forall i | 0 <= i < |items| { StripTwice(items[i]); }
      case _ =>
    }
  }

  /** Stripping adds no depth, so filtering what was filtered changes nothing. */
  lemma FilterIsIdempotent(j: Json, depth: nat)
    requires Filter(j, depth).Ok?
    ensures Filter(Filter(j, depth).j, depth) == Filter(j, depth)
  {
    FilterStrips(j, depth);
    FilterStrips(Strip(j), depth);
    StripTwice(j);
    if ReachesBeyond(Strip(j), depth) {
      var path :| PublicPath(path) && Lookup(Strip(j), path).Some? && depth + |path| > MAX_DEPTH;
      StripLookup(j, path);
    }
  }

  // ----- success and failure -----

  function Field(j: Json, key: string): Option<Json> {
    if j.Obj? && key in j.fields then Some(j.fields[key]) else None
  }

  /** The three places where a response may report an error, in the order they are read. */
  datatype Place = LowerError | UpperError | MetadataError

  function At(j: Json, place: Place): Option<Json> {
    match place
    case LowerError => Field(j, "error")
    case UpperError => Field(j, "Error")
    case MetadataError =>
      match Field(j, "ResponseMetadata")
      case Some(metadata) => Field(metadata, "Error")
      case None => None
  }

  predicate HasError(value: Option<Json>) {
    match value
    case None => false
    case Some(Null) => false
    case Some(Bool(b)) => b
    case Some(Obj(fields)) => |fields| > 0
    case Some(Arr(items)) => |items| > 0
    case Some(Num(_, _, zero)) => !zero
    case Some(Str(s)) => TrimSpace(s) != ""
  }

  predicate Denied(value: Option<Json>) {
    value == Some(Bool(false))
  }

  predicate AcceptableCode(value: Option<Json>) {
    match value
    case None => true
    case Some(Null) => true
    case Some(Num(_, text, _)) => text == "0" || text == "200"
    case Some(Str(s)) => s == "0" || s == "200"
    case _ => false
  }

  predicate Successful(j: Json) {
    && (j.Obj? || j.Arr?)
    && !HasError(At(j, LowerError)) && !HasError(At(j, UpperError)) && !HasError(At(j, MetadataError))
    && !Denied(Field(j, "success")) && !Denied(Field(j, "Success"))
    && AcceptableCode(Field(j, "code")) && AcceptableCode(Field(j, "Code"))
  }

  /** What reports no error: nothing but spaces, zero, or an empty list or object. */
  predicate Harmless(j: Json) {
    || j == Null || j == Bool(false) || j == Obj(map[]) || j == Arr([])
    || (j.Num? && j.zero)
    || (j.Str? && forall i :: 0 <= i < |j.s| ==> IsSpace(j.s[i]))
  }

  predicate SuccessCode(j: Json) {
    j == Null || j == Str("0") || j == Str("200") || (j.Num? && (j.text == "0" || j.text == "200"))
  }

  predicate NotFalse(j: Json) {
    j != Bool(false)
  }

  /** What stands at this place of a response, if anything does. */
  predicate Passes(j: Json, path: seq<Step>, ok: Json -> bool) {
    Lookup(j, path).Some? ==> ok(Lookup(j, path).value)
  }

  lemma LookupOne(j: Json, key: string)
    ensures Lookup(j, [Key(key)]) == Field(j, key)
  {
  }

  lemma LookupTwo(j: Json, outer: string, inner: string)
    ensures Lookup(j, [Key(outer), Key(inner)]) ==
              match Field(j, outer) case Some(m) => Field(m, inner) case None => None
  {
    if Field(j, outer).Some? {
      LookupOne(Field(j, outer).value, inner);
      assert [Key(outer), Key(inner)][1..] == [Key(inner)];
    }
  }

  lemma HarmlessIff(j: Json)
    ensures HasError(Some(j)) <==> !Harmless(j)
  {
    if j.Str? { BlankIff(j.s); }
  }

  lemma ErrorsIff(j: Json)
    ensures !HasError(At(j, LowerError)) <==> Passes(j, [Key("error")], Harmless)
    ensures !HasError(At(j, UpperError)) <==> Passes(j, [Key("Error")], Harmless)
    ensures !HasError(At(j, MetadataError)) <==> Passes(j, [Key("ResponseMetadata"), Key("Error")], Harmless)
  {
    LookupOne(j, "error");
    LookupOne(j, "Error");
    LookupTwo(j, "ResponseMetadata", "Error");
    forall v { HarmlessIff(v); }
  }

  lemma FlagsIff(j: Json, key: string)
    ensures !Denied(Field(j, key)) <==> Passes(j, [Key(key)], NotFalse)
    ensures AcceptableCode(Field(j, key)) <==> Passes(j, [Key(key)], SuccessCode)
  {
    LookupOne(j, key);
  }

  /** A response is successful exactly when it is an object or a list, reports no error at the three places,
      does not say that it failed, and carries no other code than the two of success. */
  lemma SuccessfulIff(j: Json)
    ensures Successful(j) <==>
              && (j.Obj? || j.Arr?)
              && Passes(j, [Key("error")], Harmless) && Passes(j, [Key("Error")], Harmless)
              && Passes(j, [Key("ResponseMetadata"), Key("Error")], Harmless)
              && Passes(j, [Key("success")], NotFalse) && Passes(j, [Key("Success")], NotFalse)
              && Passes(j, [Key("code")], SuccessCode) && Passes(j, [Key("Code")], SuccessCode)
  {
    ErrorsIff(j);
    FlagsIff(j, "success");
    FlagsIff(j, "Success");
    FlagsIff(j, "code");
    FlagsIff(j, "Code");
  }

  function Marker(place: Place): Json {
    if place.LowerError? then Obj(map["code" := Str("asset_request_failed"), "message" := Str("asset request failed")])
    else Obj(map["Code" := Str("asset_request_failed"), "Message" := Str("asset request failed")])
  }

  function SetField(j: Json, key: string, value: Json): Json {
    if j.Obj? then Obj(j.fields[key := value]) else Obj(map[key := value])
  }

  function SetAt(j: Json, place: Place, value: Json): Json {
    match place
    case LowerError => SetField(j, "error", value)
    case UpperError => SetField(j, "Error", value)
    case MetadataError =>
      var metadata := match Field(j, "ResponseMetadata") case Some(m) => m case None => Obj(map[]);
      SetField(j, "ResponseMetadata", SetField(metadata, "Error", value))
  }

  /** publicAssetResponse: redact, and mark an error that redaction emptied. */
  function PublicResponse(j: Json): Filtered {
    match Filter(j, 0)
    case TooDeep => TooDeep
    case Ok(filtered) =>
      if Successful(j) || !Successful(filtered) then Ok(filtered)
      else if HasError(At(j, LowerError)) then Ok(SetAt(filtered, LowerError, Marker(LowerError)))
      else if HasError(At(j, UpperError)) then Ok(SetAt(filtered, UpperError, Marker(UpperError)))
      else if HasError(At(j, MetadataError)) then Ok(SetAt(filtered, MetadataError, Marker(MetadataError)))
      else Ok(filtered)
  }

  // ----- redaction keeps the outcome -----

  lemma {:induction false} SqueezedStart(key: string)
    requires key != "" && key[0] != '_'
    ensures 0 < |Squeezed(key)| <= |key| && Squeezed(key)[0] == Lower(key[0])
  {
    if |key| == 1 {
      assert key[..0] == "";
    } else {
      SqueezedStart(key[..|key| - 1]);
    }
  }

  lemma InternalNames(name: string)
    requires name in INTERNAL
    ensures |name| >= 6 && name[0] in "cars"
    ensures (name[0] == 'r' ==> |name| > 16) && (name[0] == 's' ==> |name| > 7)
  {
  }

  lemma IsPublic(key: string)
    requires key != "" && key[0] != '_'
    requires |key| < 6 || Lower(key[0]) !in "cars" || (Lower(key[0]) == 'r' && |key| <= 16)
             || (Lower(key[0]) == 's' && |key| <= 7)
    ensures !Internal(key)
  {
    SqueezedStart(key);
    if Internal(key) {
      InternalNames(Squeezed(key));
    }
  }

  /** None of the fields that decide about success is internal. */
  lemma OutcomeFieldsArePublic()
    ensures forall key | key in {"error", "Error", "ResponseMetadata", "success", "Success", "code", "Code",
                                 "message", "Message"} :: !Internal(key)
  {
    IsPublic("error");
    IsPublic("Error");
    IsPublic("ResponseMetadata");
    IsPublic("success");
    IsPublic("Success");
    IsPublic("code");
    IsPublic("Code");
    IsPublic("message");
    IsPublic("Message");
  }

  lemma FieldOfStrip(j: Json, key: string)
    requires !Internal(key)
    ensures Field(Strip(j), key) == match Field(j, key) case Some(v) => Some(Strip(v)) case None => None
  {
  }

  lemma AtOfStrip(j: Json, place: Place)
    ensures At(Strip(j), place) == match At(j, place) case Some(v) => Some(Strip(v)) case None => None
  {
    OutcomeFieldsArePublic();
    match place {
      case LowerError => FieldOfStrip(j, "error");
      case UpperError => FieldOfStrip(j, "Error");
      case MetadataError =>
        FieldOfStrip(j, "ResponseMetadata");
        if Field(j, "ResponseMetadata").Some? { FieldOfStrip(Field(j, "ResponseMetadata").value, "Error"); }
    }
  }

  /** Stripping never turns a harmless value into an error. */
  lemma StripAddsNoError(v: Json)
    ensures HasError(Some(Strip(v))) ==> HasError(Some(v))
    ensures Denied(Some(Strip(v))) <==> Denied(Some(v))
    ensures AcceptableCode(Some(Strip(v))) <==> AcceptableCode(Some(v))
  {
    if v.Obj? && |v.fields| == 0 {
      assert Strip(v).fields == map[];
    }
  }

  lemma StripOutcome(j: Json)
    ensures Successful(j) ==> Successful(Strip(j))
    ensures !Successful(j) && Successful(Strip(j)) ==> exists place :: HasError(At(j, place))
    ensures forall place :: HasError(At(Strip(j), place)) ==> HasError(At(j, place))
  {
    OutcomeFieldsArePublic();
    forall place ensures HasError(At(Strip(j), place)) ==> HasError(At(j, place)) {
      AtOfStrip(j, place);
      if At(j, place).Some? { StripAddsNoError(At(j, place).value); }
    }
    forall key | key in {"success", "Success", "code", "Code"}
      ensures Denied(Field(Strip(j), key)) <==> Denied(Field(j, key))
      ensures AcceptableCode(Field(Strip(j), key)) <==> AcceptableCode(Field(j, key))
    {
      FieldOfStrip(j, key);
      if Field(j, key).Some? { StripAddsNoError(Field(j, key).value); }
    }
  }

  lemma SetAtIsRead(j: Json, place: Place, value: Json)
    ensures At(SetAt(j, place, value), place) == Some(value)
  {
  }

  lemma MarkerFails(j: Json, place: Place)
    ensures !Successful(SetAt(j, place, Marker(place)))
  {
    SetAtIsRead(j, place, Marker(place));
    assert |Marker(place).fields| > 0 by {
      assert (if place.LowerError? then "code" else "Code") in Marker(place).fields;
    }
  }

  /** The public response succeeds exactly when the original did, and is withheld exactly when it is too deep. */
  lemma PublicKeepsOutcome(j: Json)
    ensures PublicResponse(j).TooDeep? <==> ReachesBeyond(j, 0)
    ensures PublicResponse(j).Ok? ==> (Successful(PublicResponse(j).j) <==> Successful(j))
  {
    FilterStrips(j, 0);
    StripOutcome(j);
    forall place { MarkerFails(Strip(j), place); }
  }

  /** Everything outside the error marker is the stripped original, and
        the marker is there only for an emptied error. */
  lemma PublicIsStripped(j: Json)
    requires PublicResponse(j).Ok?
    ensures var p := PublicResponse(j).j;
            if Successful(j) || !Successful(Strip(j)) then p == Strip(j)
            else exists place :: HasError(At(j, place)) && !HasError(At(Strip(j), place))
                                && p == SetAt(Strip(j), place, Marker(place))
  {
    FilterStrips(j, 0);
    StripOutcome(j);
  }

  // ----- what is read at each place of the public response -----

  function PathOf(place: Place): seq<Step> {
    match place
    case LowerError => [Key("error")]
    case UpperError => [Key("Error")]
    case MetadataError => [Key("ResponseMetadata"), Key("Error")]
  }

  predicate Apart(path: seq<Step>, other: seq<Step>) {
    !(path <= other) && !(other <= path)
  }

  lemma SetFieldLookup(j: Json, key: string, value: Json, path: seq<Step>)
    requires path != [] && j.Obj?
    ensures path[0] == Key(key) ==> Lookup(SetField(j, key, value), path) == Lookup(value, path[1..])
    ensures path[0] != Key(key) ==> Lookup(SetField(j, key, value), path) == Lookup(j, path)
  {
  }

  /** The marker is read at its place, and every other place is as it was. */
  lemma SetAtLookup(j: Json, place: Place, value: Json, path: seq<Step>)
    requires j.Obj? && (place.MetadataError? ==> Field(j, "ResponseMetadata").Some?
                                                 && Field(j, "ResponseMetadata").value.Obj?)
    ensures Apart(path, PathOf(place)) ==> Lookup(SetAt(j, place, value), path) == Lookup(j, path)
    ensures PathOf(place) <= path ==>
              Lookup(SetAt(j, place, value), path) == Lookup(value, path[|PathOf(place)|..])
  {
    var at := PathOf(place);
    if path != [] {
      match place {
        case LowerError => SetFieldLookup(j, "error", value, path);
        case UpperError => SetFieldLookup(j, "Error", value, path);
        case MetadataError =>
          var metadata := Field(j, "ResponseMetadata").value;
          SetFieldLookup(j, "ResponseMetadata", SetField(metadata, "Error", value), path);
          if |path| > 1 {
            SetFieldLookup(metadata, "Error", value, path[1..]);
            assert path[1..][1..] == path[2..];
          } else if path[0] == Key("ResponseMetadata") {
            assert path == at[..1];
          }
      }
    }
  }

  predicate Reports(j: Json, place: Place) {
    HasError(At(j, place))
  }

  predicate FirstToReport(j: Json, place: Place) {
    && Reports(j, place)
    && (place != LowerError ==> !Reports(j, LowerError))
    && (place == MetadataError ==> !Reports(j, UpperError))
  }

  lemma FirstIsMarked(j: Json, place: Place)
    requires PublicResponse(j).Ok? && !Successful(j) && Successful(Strip(j)) && FirstToReport(j, place)
    ensures PublicResponse(j).j == SetAt(Strip(j), place, Marker(place))
  {
    FilterStrips(j, 0);
  }

  lemma SomeoneReports(j: Json) returns (place: Place)
    requires !Successful(j) && Successful(Strip(j))
    ensures FirstToReport(j, place)
  {
    StripOutcome(j);
    place := if Reports(j, LowerError) then LowerError else if Reports(j, UpperError) then UpperError
             else MetadataError;
  }

  lemma ReportingObjects(j: Json, place: Place)
    requires Reports(j, place)
    ensures Strip(j).Obj?
    ensures place.MetadataError? ==> Field(Strip(j), "ResponseMetadata").Some?
                                     && Field(Strip(j), "ResponseMetadata").value.Obj?
  {
    OutcomeFieldsArePublic();
    FieldOfStrip(j, "ResponseMetadata");
  }

  /** Away from the three places of an error, the public response shows what the original shows on public paths. */
  lemma PublicLookup(j: Json, path: seq<Step>)
    requires PublicResponse(j).Ok? && forall place :: Apart(path, PathOf(place))
    ensures Lookup(PublicResponse(j).j, path) ==
              match Lookup(j, path)
              case None => None
              case Some(sub) => if PublicPath(path) then Some(Strip(sub)) else None
  {
    StripLookup(j, path);
    if Successful(j) || !Successful(Strip(j)) {
      PublicIsStripped(j);
    } else {
      var place := SomeoneReports(j);
      FirstIsMarked(j, place);
      ReportingObjects(j, place);
      SetAtLookup(Strip(j), place, Marker(place), path);
    }
  }

  lemma MarkerShows(j: Json, place: Place, key: string)
    requires PublicResponse(j).Ok? && !Successful(j) && Successful(Strip(j)) && FirstToReport(j, place)
    ensures Lookup(PublicResponse(j).j, PathOf(place) + [Key(key)]) == Field(Marker(place), key)
  {
    FirstIsMarked(j, place);
    ReportingObjects(j, place);
    SetAtLookup(Strip(j), place, Marker(place), PathOf(place) + [Key(key)]);
    assert (PathOf(place) + [Key(key)])[|PathOf(place)|..] == [Key(key)];
    LookupOne(Marker(place), key);
  }

  /** An error that redaction emptied is replaced where it is first reported, by a code and a message. */
  lemma EmptiedErrorIsMarked(j: Json, place: Place)
    requires PublicResponse(j).Ok? && !Successful(j) && Successful(Strip(j)) && FirstToReport(j, place)
    ensures var shown := PublicResponse(j).j;
            if place == LowerError then
              && Lookup(shown, PathOf(place) + [Key("code")]) == Some(Str("asset_request_failed"))
              && Lookup(shown, PathOf(place) + [Key("message")]) == Some(Str("asset request failed"))
            else
              && Lookup(shown, PathOf(place) + [Key("Code")]) == Some(Str("asset_request_failed"))
              && Lookup(shown, PathOf(place) + [Key("Message")]) == Some(Str("asset request failed"))
  {
    if place == LowerError {
      MarkerShows(j, place, "code");
      MarkerShows(j, place, "message");
    } else {
      MarkerShows(j, place, "Code");
      MarkerShows(j, place, "Message");
    }
  }

  predicate Redacted(j: Json) {
    Strip(j) == j
  }

  lemma SetFieldIsRedacted(j: Json, key: string, value: Json)
    requires Redacted(j) && Redacted(value) && !Internal(key)
    ensures Redacted(SetField(j, key, value))
  {
    if j.Obj? {
      assert forall k :: k in j.fields ==> !Internal(k) && Strip(j.fields[k]) == j.fields[k] by {
        forall k | k in j.fields ensures !Internal(k) && Strip(j.fields[k]) == j.fields[k] {
          assert k in Strip(j).fields;
        }
      }
      assert Strip(SetField(j, key, value)).fields == SetField(j, key, value).fields;
    } else {
      assert Strip(SetField(j, key, value)).fields == map[key := value];
    }
  }

  lemma MarkerIsRedacted(place: Place)
    ensures Redacted(Marker(place))
  {
    OutcomeFieldsArePublic();
    assert Strip(Marker(place)).fields == Marker(place).fields;
  }

  lemma SetAtIsRedacted(j: Json, place: Place)
    requires Redacted(j)
    ensures Redacted(SetAt(j, place, Marker(place)))
  {
    OutcomeFieldsArePublic();
    MarkerIsRedacted(place);
    match place {
      case LowerError => SetFieldIsRedacted(j, "error", Marker(place));
      case UpperError => SetFieldIsRedacted(j, "Error", Marker(place));
      case MetadataError =>
        var metadata := match Field(j, "ResponseMetadata") case Some(m) => m case None => Obj(map[]);
        assert Redacted(metadata) by {
          if Field(j, "ResponseMetadata").Some? { FieldOfStrip(j, "ResponseMetadata"); }
          assert Strip(Obj(map[])).fields == map[];
        }
        SetFieldIsRedacted(metadata, "Error", Marker(place));
        SetFieldIsRedacted(j, "ResponseMetadata", SetField(metadata, "Error", Marker(place)));
    }
  }

  /** No internal key survives in the public response, at any depth. */
  lemma NoInternalKeySurvives(j: Json, path: seq<Step>)
    requires PublicResponse(j).Ok? && Lookup(PublicResponse(j).j, path).Some?
    ensures PublicPath(path)
  {
    var p := PublicResponse(j).j;
    FilterStrips(j, 0);
    StripTwice(j);
    forall place { SetAtIsRedacted(Strip(j), place); }
    assert Redacted(p);
    StripLookup(p, path);
  }
}
