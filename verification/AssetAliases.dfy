/** The spellings of asset fields that suppliers use, and why the table of them is unambiguous. */
module AssetAliases {

  /** A canonical field name and the spellings it replaces, best first. */
  datatype Alias = Alias(canonical: string, names: seq<string>)

  // ----- length and first two letters tell all names in the table apart -----

  /** What identifies a name in the table: its length and its first two letters. */
  datatype Mark = Mark(length: nat, first: char, second: char)

  function MarkOf(name: string): Mark {
    if |name| < 2 then Mark(|name|, ' ', ' ') else Mark(|name|, name[0], name[1])
  }

  const NOBODY := 23

  /** The position of the entry that has a spelling with this mark. */
  function SpellingOwner(mark: Mark): nat {
    match mark
    case Mark(2, 'i', 'd') => 0
    case Mark(8, 'a', 's') => 0
    case Mark(7, 'A', 's') => 0
    case Mark(4, 'n', 'a') => 1
    case Mark(11, 'd', 'e') => 2
    case Mark(3, 'u', 'r') => 3
    case Mark(10, 'a', 's') => 4
    case Mark(9, 'a', 's') => 4
    case Mark(8, 'g', 'r') => 5
    case Mark(7, 'g', 'r') => 5
    case Mark(10, 'g', 'r') => 6
    case Mark(9, 'g', 'r') => 6
    case Mark(6, 's', 't') => 7
    case Mark(12, 'p', 'r') => 8
    case Mark(11, 'p', 'r') => 8
    case Mark(11, 'c', 'r') => 9
    case Mark(10, 'c', 'r') => 9
    case Mark(11, 'u', 'p') => 10
    case Mark(10, 'u', 'p') => 10
    case Mark(19, 'l', 'a') => 11
    case Mark(17, 'l', 'a') => 11
    case Mark(11, 'e', 'x') => 12
    case Mark(10, 'e', 'x') => 12
    case Mark(10, 'b', 'y') => 13
    case Mark(11, 'b', 'y') => 13
    case Mark(7, 'h', '5') => 14
    case Mark(6, 'h', '5') => 14
    case Mark(12, 'c', 'a') => 15
    case Mark(11, 'c', 'a') => 15
    case Mark(5, 't', 'o') => 16
    case Mark(11, 't', 'o') => 16
    case Mark(5, 'c', 'o') => 16
    case Mark(4, 'p', 'a') => 17
    case Mark(11, 'p', 'a') => 17
    case Mark(9, 'p', 'a') => 18
    case Mark(10, 'n', 'e') => 19
    case Mark(11, 'm', 'a') => 20
    case Mark(5, 'i', 't') => 21
    case Mark(4, 'l', 'i') => 21
    case Mark(6, 'a', 's') => 21
    case Mark(5, 'e', 'r') => 22
    case _ => NOBODY
  }

  /** The position of the entry whose field name has this mark. */
  function NameOwner(mark: Mark): nat {
    match mark
    case Mark(2, 'I', 'd') => 0
    case Mark(4, 'N', 'a') => 1
    case Mark(11, 'D', 'e') => 2
    case Mark(3, 'U', 'R') => 3
    case Mark(9, 'A', 's') => 4
    case Mark(7, 'G', 'r') => 5
    case Mark(9, 'G', 'r') => 6
    case Mark(6, 'S', 't') => 7
    case Mark(11, 'P', 'r') => 8
    case Mark(10, 'C', 'r') => 9
    case Mark(10, 'U', 'p') => 10
    case Mark(17, 'L', 'a') => 11
    case Mark(10, 'E', 'x') => 12
    case Mark(10, 'B', 'y') => 13
    case Mark(6, 'H', '5') => 14
    case Mark(11, 'C', 'a') => 15
    case Mark(10, 'T', 'o') => 16
    case Mark(10, 'P', 'a') => 17
    case Mark(8, 'P', 'a') => 18
    case Mark(9, 'N', 'e') => 19
    case Mark(10, 'M', 'a') => 20
    case Mark(5, 'I', 't') => 21
    case Mark(5, 'E', 'r') => 22
    case _ => NOBODY
  }

  /** The marks of an entry's names lead back to its position. */
  predicate Marked(e: Alias, i: nat) {
    && NameOwner(MarkOf(e.canonical)) == i && |e.names| <= 3
    && (|e.names| > 0 ==> IsSpelling(e.names[0], i))
    && (|e.names| > 1 ==> IsSpelling(e.names[1], i))
    && (|e.names| > 2 ==> IsSpelling(e.names[2], i))
  }

  predicate IsSpelling(name: string, i: nat) {
    SpellingOwner(MarkOf(name)) == i && NameOwner(MarkOf(name)) == NOBODY
  }

  // ----- the table -----

  function Entries0To2(i: nat): (e: Alias)
    requires 0 <= i <= 2
    ensures Marked(e, i)
  {
    match i
    case 0 => Alias("Id", ["id", "asset_id", "AssetId"])
    case 1 => Alias("Name", ["name"])
    case _ => Alias("Description", ["description"])
  }

  function Entries3To5(i: nat): (e: Alias)
    requires 3 <= i <= 5
    ensures Marked(e, i)
  {
    match i
    case 3 => Alias("URL", ["url"])
    case 4 => Alias("AssetType", ["asset_type", "assetType"])
    case _ => Alias("GroupId", ["group_id", "groupId"])
  }

  function Entries6To8(i: nat): (e: Alias)
    requires 6 <= i <= 8
    ensures Marked(e, i)
  {
    match i
    case 6 => Alias("GroupType", ["group_type", "groupType"])
    case 7 => Alias("Status", ["status"])
    case _ => Alias("ProjectName", ["project_name", "projectName"])
  }

  function Entries9To10(i: nat): (e: Alias)
    requires 9 <= i <= 10
    ensures Marked(e, i)
  {
    if i == 9 then Alias("CreateTime", ["create_time", "createTime", "created_at"])
    else Alias("UpdateTime", ["update_time", "updateTime", "updated_at"])
  }

  function Entries11To12(i: nat): (e: Alias)
    requires 11 <= i <= 12
    ensures Marked(e, i)
  {
    if i == 11 then Alias("LastInferenceTime", ["last_inference_time", "lastInferenceTime"])
    else Alias("ExpireTime", ["expire_time", "expireTime"])
  }

  function Entries13To14(i: nat): (e: Alias)
    requires 13 <= i <= 14
    ensures Marked(e, i)
  {
    if i == 13 then Alias("BytedToken", ["bytedToken", "byted_token"])
    else Alias("H5Link", ["h5_link", "h5Link"])
  }

  function Entries15To17(i: nat): (e: Alias)
    requires 15 <= i <= 17
    ensures Marked(e, i)
  {
    match i
    case 15 => Alias("CallbackURL", ["callback_url", "callbackUrl"])
    case 16 => Alias("TotalCount", ["total", "total_count", "count"])
    case _ => Alias("PageNumber", ["page", "page_number"])
  }

  function Entries18To20(i: nat): (e: Alias)
    requires 18 <= i <= 20
    ensures Marked(e, i)
  {
    match i
    case 18 => Alias("PageSize", ["page_size"])
    case 19 => Alias("NextToken", ["next_token"])
    case _ => Alias("MaxResults", ["max_results"])
  }

  function Entries21To22(i: nat): (e: Alias)
    requires 21 <= i <= 22
    ensures Marked(e, i)
  {
    match i
    case 21 => Alias("Items", ["items", "list", "assets"])
    case _ => Alias("Error", ["error"])
  }

  function Entry(i: nat): (e: Alias)
    requires i < 23
    ensures Marked(e, i)
  {
    if i < 3 then Entries0To2(i) else if i < 6 then Entries3To5(i) else if i < 9 then Entries6To8(i)
    else if i < 11 then Entries9To10(i) else if i < 13 then Entries11To12(i) else if i < 15 then Entries13To14(i)
    else if i < 18 then Entries15To17(i) else if i < 21 then Entries18To20(i) else Entries21To22(i)
  }

  function Entries(n: nat): (t: seq<Alias>)
    requires n <= 23
    ensures |t| == n && forall i :: 0 <= i < n ==> t[i] == Entry(i)
  {
    if n == 0 then [] else Entries(n - 1) + [Entry(n - 1)]
  }

  const ALIASES: seq<Alias> := Entries(23)

  /** Every spelling stands for one field only, and no field name is itself a spelling or listed twice. */
  predicate Unambiguous(t: seq<Alias>) {
    && (forall i, j :: 0 <= i < j < |t| ==> t[i].canonical != t[j].canonical)
    && (forall i, j, a :: 0 <= i < |t| && 0 <= j < |t| && 0 <= a < |t[i].names| ==> t[i].names[a] != t[j].canonical)
    && (forall i, j, a, b :: 0 <= i < j < |t| && 0 <= a < |t[i].names| && 0 <= b < |t[j].names| ==>
          t[i].names[a] != t[j].names[b])
  }

  lemma MarksTellApart(t: seq<Alias>)
    requires |t| <= 23 && forall i :: 0 <= i < |t| ==> Marked(t[i], i)
    ensures Unambiguous(t)
  {
    forall i, a | 0 <= i < |t| && 0 <= a < |t[i].names|
      ensures IsSpelling(t[i].names[a], i)
    {
      assert a == 0 || a == 1 || a == 2;
    }
  }

  lemma AliasesAreUnambiguous()
    ensures Unambiguous(ALIASES)
  {
    MarksTellApart(ALIASES);
  }
}
