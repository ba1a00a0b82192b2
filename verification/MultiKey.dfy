/** Multi-key channels: one text of keys, and status, time and reason of disabled keys by index. */
module MultiKey {
  import opened Text

  /** Decodes a JSON array into the texts of its elements; the text is known to start with '['. */
  type ArrayParser = string -> Option<seq<string>>

  datatype Info = Info(key: string, size: nat, status: map<int, int>, time: map<int, int>, reason: map<int, string>)

  predicate LooksLikeArray(text: string) {
    var trimmed := TrimSpace(text);
    trimmed != "" && trimmed[0] == '['
  }

  /** channel.GetKeys: a JSON array if it parses as one, otherwise one key per line. */
  function GetKeys(parse: ArrayParser, text: string): seq<string> {
    if text == "" then []
    else if LooksLikeArray(text) && parse(TrimSpace(text)).Some? then parse(TrimSpace(text)).value
    else SplitTrimmed(text, '\n')
  }

  const ENABLED := 1
  const MANUALLY_DISABLED := 2
  const AUTO_DISABLED := 3

  /** One row of get_key_status. */
  datatype KeyStatus = KeyStatus(key: string, status: int, time: int, reason: string)

  function StatusOf(info: Info, i: int): int {
    if i in info.status then info.status[i] else ENABLED
  }

  function RowOf(info: Info, key: string, i: int): KeyStatus {
    if StatusOf(info, i) == ENABLED then KeyStatus(key, ENABLED, 0, "")
    else KeyStatus(key, StatusOf(info, i),
                   if i in info.time then info.time[i] else 0, if i in info.reason then info.reason[i] else "")
  }

  function Rows(info: Info, keys: seq<string>): seq<KeyStatus> {
    seq(|keys|, i requires 0 <= i < |keys| => RowOf(info, keys[i], i))
  }

  function View(parse: ArrayParser, info: Info): seq<KeyStatus> {
    Rows(info, GetKeys(parse, info.key))
  }

  // ----- keeping some positions -----

  /** The positions that are kept, in order. */
  function Kept(n: nat, keep: nat -> bool): (ps: seq<nat>)
    ensures forall j :: 0 <= j < |ps| ==> ps[j] < n
  {
    if n == 0 then [] else if keep(n - 1) then Kept(n - 1, keep) + [n - 1] else Kept(n - 1, keep)
  }

  function Pick<T>(s: seq<T>, ps: seq<nat>): seq<T>
    requires forall j :: 0 <= j < |ps| ==> ps[j] < |s|
  {
    seq(|ps|, j requires 0 <= j < |ps| => s[ps[j]])
  }

  /** Carry over what a map says about the kept positions, under their new indices. */
  function Reindex<V>(m: map<int, V>, ps: seq<nat>, carried: nat -> bool): map<int, V> {
    map j: int | 0 <= j < |ps| && ps[j] in m && carried(ps[j]) :: m[ps[j]]
  }

  lemma ReindexSnoc<V>(m: map<int, V>, ps: seq<nat>, p: nat, carried: nat -> bool)
    ensures Reindex(m, ps + [p], carried) ==
              if p in m && carried(p) then Reindex(m, ps, carried)[|ps| := m[p]] else Reindex(m, ps, carried)
  {
    var all := ps + [p];
    assert all[|ps|] == p && forall j :: 0 <= j < |ps| ==> all[j] == ps[j];
  }

  lemma PickSnoc<T>(s: seq<T>, ps: seq<nat>, p: nat)
    requires p < |s| && forall j :: 0 <= j < |ps| ==> ps[j] < |s|
    ensures Pick(s, ps + [p]) == Pick(s, ps) + [s[p]]
  {
  }

  function NotAt(index: int): nat -> bool { i => i != index }

  function NotAutoDisabled(info: Info): nat -> bool { i => StatusOf(info, i) != AUTO_DISABLED }

  function NotEnabled(info: Info): nat -> bool { i => StatusOf(info, i) != ENABLED }

  function Always(): nat -> bool { i => true }

  /** The kept keys and what is carried over for them, reindexed. */
  datatype Rest = Rest(keys: seq<string>, status: map<int, int>, time: map<int, int>, reason: map<int, string>)

  function RestOf(info: Info, keys: seq<string>, ps: seq<nat>, carried: nat -> bool): Rest
    requires forall j :: 0 <= j < |ps| ==> ps[j] < |keys|
  {
    Rest(Pick(keys, ps), Reindex(info.status, ps, NotEnabled(info)),
         Reindex(info.time, ps, carried), Reindex(info.reason, ps, carried))
  }

  function Shrunk(rest: Rest): Info {
    Info(Join(rest.keys, '\n'), |rest.keys|, rest.status, rest.time, rest.reason)
  }

  datatype Reply = Done | NoIndex | OutOfRange | LastKey | NothingToDelete

  function DeleteKeySpec(parse: ArrayParser, info: Info, index: Option<int>): (Info, Reply) {
    if index.None? then (info, NoIndex)
    else if index.value < 0 || index.value >= info.size then (info, OutOfRange)
    else
      var keys := GetKeys(parse, info.key);
      var ps := Kept(|keys|, NotAt(index.value));
      if ps == [] then (info, LastKey)
      else
        (Shrunk(RestOf(info, keys, ps, Always())), Done)
  }

  function DeleteDisabledSpec(parse: ArrayParser, info: Info): (Info, Reply) {
    var keys := GetKeys(parse, info.key);
    var ps := Kept(|keys|, NotAutoDisabled(info));
    if |ps| == |keys| then (info, NothingToDelete)
    else (Shrunk(RestOf(info, keys, ps, NotEnabled(info))), Done)
  }

  function DisableKeySpec(info: Info, index: Option<int>): (Info, Reply) {
    if index.None? then (info, NoIndex)
    else if index.value < 0 || index.value >= info.size then (info, OutOfRange)
    else (info.(status := info.status[index.value := MANUALLY_DISABLED]), Done)
  }

  function EnableKeySpec(info: Info, index: Option<int>): (Info, Reply) {
    if index.None? then (info, NoIndex)
    else if index.value < 0 || index.value >= info.size then (info, OutOfRange)
    else
      var gone := {index.value};
      (info.(status := info.status - gone, time := info.time - gone, reason := info.reason - gone), Done)
  }

  /** Statuses after every enabled key below `n` has been disabled by hand. */
  function DisabledUpTo(info: Info, n: nat): map<int, int> {
    if n == 0 then info.status
    else
      var before := DisabledUpTo(info, n - 1);
      if StatusOf(info, n - 1) == ENABLED then before[n - 1 := MANUALLY_DISABLED] else before
  }

  lemma {:induction false} DisabledAt(info: Info, n: nat, i: int)
    ensures StatusOf(info.(status := DisabledUpTo(info, n)), i) ==
              if 0 <= i < n && StatusOf(info, i) == ENABLED then MANUALLY_DISABLED else StatusOf(info, i)
  {
    if n > 0 {
      DisabledAt(info, n - 1, i);
    }
  }

  /** The enabled positions below `n`. */
  function EnabledBelow(info: Info, n: nat): set<nat> {
    set j: nat | j < n && StatusOf(info, j) == ENABLED
  }

  lemma EnabledBelowNext(info: Info, n: nat)
    ensures |EnabledBelow(info, n + 1)| == |EnabledBelow(info, n)| + if StatusOf(info, n) == ENABLED then 1 else 0
  {
    assert EnabledBelow(info, n + 1) == EnabledBelow(info, n) + if StatusOf(info, n) == ENABLED then {n} else {};
  }

  function DisableAllSpec(info: Info): (Info, Reply) {
    (info.(status := DisabledUpTo(info, info.size)),
     if EnabledBelow(info, info.size) == {} then NothingToDelete else Done)
  }

  /** One turn of a reindexing loop: keep key `i` under the next index. */
  function KeepKey(info: Info, keys: seq<string>, rest: Rest, i: nat, carry: bool): Rest
    requires i < |keys|
  {
    var n := |rest.keys|;
    Rest(rest.keys + [keys[i]],
         if StatusOf(info, i) != ENABLED then rest.status[n := StatusOf(info, i)] else rest.status,
         if i in info.time && carry then rest.time[n := info.time[i]] else rest.time,
         if i in info.reason && carry then rest.reason[n := info.reason[i]] else rest.reason)
  }

  function RestUpTo(info: Info, keys: seq<string>, n: nat, keep: nat -> bool, carried: nat -> bool): Rest
    requires n <= |keys|
  {
    if n == 0 then Rest([], map[], map[], map[])
    else
      var before := RestUpTo(info, keys, n - 1, keep, carried);
      if keep(n - 1) then KeepKey(info, keys, before, n - 1, carried(n - 1)) else before
  }

  lemma RestSnoc(info: Info, keys: seq<string>, ps: seq<nat>, p: nat, carried: nat -> bool)
    requires p < |keys| && forall j :: 0 <= j < |ps| ==> ps[j] < |keys|
    ensures RestOf(info, keys, ps + [p], carried) == KeepKey(info, keys, RestOf(info, keys, ps, carried), p, carried(p))
  {
    PickSnoc(keys, ps, p);
    ReindexSnoc(info.status, ps, p, NotEnabled(info));
    ReindexSnoc(info.time, ps, p, carried);
    ReindexSnoc(info.reason, ps, p, carried);
  }

  lemma RestOfNothing(info: Info, keys: seq<string>, carried: nat -> bool)
    ensures RestOf(info, keys, [], carried) == Rest([], map[], map[], map[])
  {
  }

  lemma RestUpToNext(info: Info, keys: seq<string>, n: nat, keep: nat -> bool, carried: nat -> bool, ps: seq<nat>)
    requires n < |keys| && ps == Kept(n, keep)
    requires RestUpTo(info, keys, n, keep, carried) == RestOf(info, keys, ps, carried)
    ensures RestUpTo(info, keys, n + 1, keep, carried) == RestOf(info, keys, if keep(n) then ps + [n] else ps, carried)
  {
    if keep(n) {
      RestSnoc(info, keys, ps, n, carried);
    }
  }

  lemma {:induction false} RestUpToIsRestOf(info: Info, keys: seq<string>, n: nat, keep: nat -> bool,
      carried: nat -> bool)
    requires n <= |keys|
    ensures RestUpTo(info, keys, n, keep, carried) == RestOf(info, keys, Kept(n, keep), carried)
  {
    if n == 0 {
      RestOfNothing(info, keys, carried);
    } else {
      RestUpToIsRestOf(info, keys, n - 1, keep, carried);
      RestUpToNext(info, keys, n - 1, keep, carried, Kept(n - 1, keep));
      assert Kept(n, keep) == if keep(n - 1) then Kept(n - 1, keep) + [n - 1] else Kept(n - 1, keep);
    }
  }

  /** The reindexing loop of delete_key. */
  method Without(info: Info, keys: seq<string>, keyIndex: int) returns (rest: Rest)
    ensures rest == RestOf(info, keys, Kept(|keys|, NotAt(keyIndex)), Always())
  {
    rest := Rest([], map[], map[], map[]);
    var newIndex := 0;
    for i := 0 to |keys|
      invariant rest == RestUpTo(info, keys, i, NotAt(keyIndex), Always()) && newIndex == |rest.keys|
    {
      if i == keyIndex {
        continue;
      }
      rest := rest.(keys := rest.keys + [keys[i]]);
      if i in info.status && info.status[i] != ENABLED {
        rest := rest.(status := rest.status[newIndex := info.status[i]]);
      }
      if i in info.time {
        rest := rest.(time := rest.time[newIndex := info.time[i]]);
      }
      if i in info.reason {
        rest := rest.(reason := rest.reason[newIndex := info.reason[i]]);
      }
      newIndex := newIndex + 1;
    }
    RestUpToIsRestOf(info, keys, |keys|, NotAt(keyIndex), Always());
  }

  /** The reindexing loop of delete_disabled_keys. */
  method WithoutDisabled(info: Info, keys: seq<string>) returns (rest: Rest, deletedCount: nat)
    ensures rest == RestOf(info, keys, Kept(|keys|, NotAutoDisabled(info)), NotEnabled(info))
    ensures deletedCount == |keys| - |rest.keys|
  {
    rest, deletedCount := Rest([], map[], map[], map[]), 0;
    var newIndex := 0;
    for i := 0 to |keys|
      invariant rest == RestUpTo(info, keys, i, NotAutoDisabled(info), NotEnabled(info))
      invariant newIndex == |rest.keys| && deletedCount == i - newIndex
    {
      var status := if i in info.status then info.status[i] else ENABLED;
      if status == AUTO_DISABLED {
        deletedCount := deletedCount + 1;
        continue;
      }
      rest := rest.(keys := rest.keys + [keys[i]]);
      if status != ENABLED {
        rest := rest.(status := rest.status[newIndex := status]);
        if i in info.time {
          rest := rest.(time := rest.time[newIndex := info.time[i]]);
        }
        if i in info.reason {
          rest := rest.(reason := rest.reason[newIndex := info.reason[i]]);
        }
      }
      newIndex := newIndex + 1;
    }
    RestUpToIsRestOf(info, keys, |keys|, NotAutoDisabled(info), NotEnabled(info));
  }

  class Channel {
    var key: string
    var multiKeySize: nat
    var statusList: map<int, int>
    var disabledTime: map<int, int>
    var disabledReason: map<int, string>

    function Snapshot(): Info
      reads this
    {
      Info(key, multiKeySize, statusList, disabledTime, disabledReason)
    }

    method Replace(rest: Rest)
      modifies this
      ensures Snapshot() == Shrunk(rest)
    {
      key := Join(rest.keys, '\n');
      multiKeySize := |rest.keys|;
      statusList, disabledTime, disabledReason := rest.status, rest.time, rest.reason;
    }

    method DeleteKey(parse: ArrayParser, index: Option<int>) returns (reply: Reply)
      modifies this
      ensures (Snapshot(), reply) == DeleteKeySpec(parse, old(Snapshot()), index)
    {
      if index.None? {
        return NoIndex;
      }
      if index.value < 0 || index.value >= multiKeySize {
        return OutOfRange;
      }
      var rest := Without(Snapshot(), GetKeys(parse, key), index.value);
      if |rest.keys| == 0 {
        return LastKey;
      }
      Replace(rest);
      return Done;
    }

    method DeleteDisabledKeys(parse: ArrayParser) returns (reply: Reply, deletedCount: nat)
      modifies this
      ensures (Snapshot(), reply) == DeleteDisabledSpec(parse, old(Snapshot()))
      ensures deletedCount == |old(GetKeys(parse, key))| -
              |Kept(|old(GetKeys(parse, key))|, NotAutoDisabled(old(Snapshot())))|
    {
      var rest, deleted := WithoutDisabled(Snapshot(), GetKeys(parse, key));
      if deleted == 0 {
        return NothingToDelete, 0;
      }
      Replace(rest);
      return Done, deleted;
    }

    method DisableKey(index: Option<int>) returns (reply: Reply)
      modifies this`statusList
      ensures (Snapshot(), reply) == DisableKeySpec(old(Snapshot()), index)
    {
      if index.None? {
        return NoIndex;
      }
      if index.value < 0 || index.value >= multiKeySize {
        return OutOfRange;
      }
      statusList := statusList[index.value := MANUALLY_DISABLED];
      return Done;
    }

    method EnableKey(index: Option<int>) returns (reply: Reply)
      modifies this
      ensures (Snapshot(), reply) == EnableKeySpec(old(Snapshot()), index)
    {
      if index.None? {
        return NoIndex;
      }
      if index.value < 0 || index.value >= multiKeySize {
        return OutOfRange;
      }
      statusList := statusList - {index.value};
      disabledTime := disabledTime - {index.value};
      disabledReason := disabledReason - {index.value};
      return Done;
    }

    method EnableAllKeys() returns (enabledCount: nat)
      modifies this
      ensures Snapshot() == old(Snapshot()).(status := map[], time := map[], reason := map[])
      ensures enabledCount == |old(statusList)|
    {
      enabledCount := |statusList|;
      statusList, disabledTime, disabledReason := map[], map[], map[];
    }

    method DisableAllKeys() returns (reply: Reply, disabledCount: nat)
      modifies this`statusList
      ensures (Snapshot(), reply) == DisableAllSpec(old(Snapshot()))
      ensures disabledCount == |EnabledBelow(old(Snapshot()), old(multiKeySize))|
    {
      disabledCount := 0;
      for i := 0 to multiKeySize
        invariant multiKeySize == old(multiKeySize)
        invariant statusList == DisabledUpTo(old(Snapshot()), i)
        invariant disabledCount == |EnabledBelow(old(Snapshot()), i)|
      {
        DisabledAt(old(Snapshot()), i, i);
        EnabledBelowNext(old(Snapshot()), i);
        var status := if i in statusList then statusList[i] else ENABLED;
        if status == ENABLED {
          statusList := statusList[i := MANUALLY_DISABLED];
          disabledCount := disabledCount + 1;
        }
      }
      reply := if disabledCount == 0 then NothingToDelete else Done;
    }
  }

  // ----- the status view -----

  lemma RowsOfRest(info: Info, keys: seq<string>, ps: seq<nat>, carried: nat -> bool)
    requires forall j :: 0 <= j < |ps| ==> ps[j] < |keys|
    requires forall i: nat :: StatusOf(info, i) != ENABLED ==> carried(i)
    ensures Rows(Shrunk(RestOf(info, keys, ps, carried)), Pick(keys, ps)) == Pick(Rows(info, keys), ps)
  {
  }

  /** The kept keys, joined, are read back as they are. */
  predicate ReadsBack(parse: ArrayParser, keys: seq<string>) {
    GetKeys(parse, Join(keys, '\n')) == keys
  }

  /** For joined text that is not a JSON array: no key breaks a line, and neither end is blank. */
  lemma ReadsBackIff(parse: ArrayParser, keys: seq<string>)
    requires var text := Join(keys, '\n'); LooksLikeArray(text) ==> parse(TrimSpace(text)).None?
    ensures ReadsBack(parse, keys) <==> Survives(keys, '\n')
  {
    ReadBackIff(keys, '\n');
  }

  /** The view after deletion is the old view at the kept positions exactly when the kept keys are read back. */
  lemma ShrunkViewIff(parse: ArrayParser, info: Info, ps: seq<nat>, carried: nat -> bool)
    requires forall j :: 0 <= j < |ps| ==> ps[j] < |GetKeys(parse, info.key)|
    requires forall i: nat :: StatusOf(info, i) != ENABLED ==> carried(i)
    ensures var keys := GetKeys(parse, info.key);
            View(parse, Shrunk(RestOf(info, keys, ps, carried))) == Pick(View(parse, info), ps) <==>
            ReadsBack(parse, Pick(keys, ps))
  {
    var keys := GetKeys(parse, info.key);
    var shrunk := Shrunk(RestOf(info, keys, ps, carried));
    RowsOfRest(info, keys, ps, carried);
    KeysOfRows(shrunk, GetKeys(parse, shrunk.key), shrunk, Pick(keys, ps));
  }

  lemma KeysOfRows(a: Info, ks: seq<string>, b: Info, ls: seq<string>)
    ensures Rows(a, ks) == Rows(b, ls) ==> ks == ls
  {
    if Rows(a, ks) == Rows(b, ls) {
      assert |ks| == |Rows(a, ks)| == |Rows(b, ls)| == |ls|;
      forall i | 0 <= i < |ks| ensures ks[i] == ls[i] {
        assert Rows(a, ks)[i].key == Rows(b, ls)[i].key;
      }
    }
  }

  function RemoveAt<T>(s: seq<T>, i: int): seq<T> {
    if 0 <= i < |s| then s[..i] + s[i + 1..] else s
  }

  lemma RemoveAtSnoc<T>(s: seq<T>, x: T, i: int)
    ensures RemoveAt(s + [x], i) == if i == |s| then s else RemoveAt(s, i) + [x]
  {
    if 0 <= i < |s| {
      assert (s + [x])[..i] + (s + [x])[i + 1..] == s[..i] + s[i + 1..] + [x];
    } else if i == |s| {
      assert (s + [x])[..i] == s;
    }
  }

  lemma {:induction false} PickNotAt<T>(s: seq<T>, n: nat, i: int)
    requires n <= |s|
    ensures Pick(s, Kept(n, NotAt(i))) == RemoveAt(s[..n], i)
  {
    if n > 0 {
      PickNotAt(s, n - 1, i);
      if n - 1 != i {
        PickSnoc(s, Kept(n - 1, NotAt(i)), n - 1);
      }
      assert s[..n] == s[..n - 1] + [s[n - 1]];
      RemoveAtSnoc(s[..n - 1], s[n - 1], i);
    }
  }

  function Filter<T>(s: seq<T>, keep: T -> bool): seq<T> {
    if s == [] then []
    else if keep(s[|s| - 1]) then Filter(s[..|s| - 1], keep) + [s[|s| - 1]]
    else Filter(s[..|s| - 1], keep)
  }

  lemma {:induction false} PickWhere<T>(s: seq<T>, n: nat, keep: nat -> bool, p: T -> bool)
    requires n <= |s| && forall i: nat :: i < |s| ==> p(s[i]) == keep(i)
    ensures Pick(s, Kept(n, keep)) == Filter(s[..n], p)
  {
    if n > 0 {
      PickWhere(s, n - 1, keep, p);
      assert s[..n][..n - 1] == s[..n - 1];
      if keep(n - 1) {
        PickSnoc(s, Kept(n - 1, keep), n - 1);
      }
    }
  }

  /** After delete_key the view is the old one without that row, exactly when the remaining keys are read back. */
  lemma DeleteKeyViewIff(parse: ArrayParser, info: Info, index: int)
    requires DeleteKeySpec(parse, info, Some(index)).1 == Done
    ensures View(parse, DeleteKeySpec(parse, info, Some(index)).0) == RemoveAt(View(parse, info), index) <==>
            ReadsBack(parse, RemoveAt(GetKeys(parse, info.key), index))
  {
    var keys, view := GetKeys(parse, info.key), View(parse, info);
    PickNotAt(keys, |keys|, index);
    PickNotAt(view, |keys|, index);
    assert keys[..|keys|] == keys && view[..|keys|] == view;
    ShrunkViewIff(parse, info, Kept(|keys|, NotAt(index)), Always());
  }

  function NotAutoDisabledRow(): KeyStatus -> bool { (row: KeyStatus) => row.status != AUTO_DISABLED }

  /** After delete_disabled_keys the view is the old one without its auto-disabled rows, on the same condition. */
  lemma DeleteDisabledViewIff(parse: ArrayParser, info: Info)
    requires DeleteDisabledSpec(parse, info).1 == Done
    ensures var keys := GetKeys(parse, info.key);
            View(parse, DeleteDisabledSpec(parse, info).0) == Filter(View(parse, info), NotAutoDisabledRow()) <==>
            ReadsBack(parse, Pick(keys, Kept(|keys|, NotAutoDisabled(info))))
  {
    var keys, view := GetKeys(parse, info.key), View(parse, info);
    PickWhere(view, |keys|, NotAutoDisabled(info), NotAutoDisabledRow());
    assert view[..|keys|] == view;
    ShrunkViewIff(parse, info, Kept(|keys|, NotAutoDisabled(info)), NotEnabled(info));
  }

  // ----- channels that keep one key per line -----

  /** The text is read as a JSON array. */
  predicate ParsesAsArray(parse: ArrayParser, text: string) {
    LooksLikeArray(text) && parse(TrimSpace(text)).Some?
  }

  predicate BlankEnd(keys: seq<string>) {
    keys != [] && (keys[0] == "" || keys[|keys| - 1] == "")
  }

  lemma LinesAreFree(parse: ArrayParser, text: string)
    requires !ParsesAsArray(parse, text)
    ensures AllFree(GetKeys(parse, text), '\n')
  {
    if text != "" {
      SplitParts(Trim(text, c => c == '\n'), '\n');
    }
  }

  /** Deleting a key of a line-kept channel removes exactly its row, unless a blank key comes to stand at an end. */
  lemma DeleteLineViewIff(parse: ArrayParser, info: Info, index: int)
    requires DeleteKeySpec(parse, info, Some(index)).1 == Done
    requires !ParsesAsArray(parse, info.key) && !ParsesAsArray(parse, DeleteKeySpec(parse, info, Some(index)).0.key)
    ensures View(parse, DeleteKeySpec(parse, info, Some(index)).0) == RemoveAt(View(parse, info), index) <==>
            !BlankEnd(RemoveAt(GetKeys(parse, info.key), index))
  {
    var keys := GetKeys(parse, info.key);
    DeleteKeyViewIff(parse, info, index);
    LinesAreFree(parse, info.key);
    PickNotAt(keys, |keys|, index);
    assert keys[..|keys|] == keys;
    ReadsBackIff(parse, RemoveAt(keys, index));
  }

  /** So does deleting its auto-disabled keys. */
  lemma DeleteDisabledLinesViewIff(parse: ArrayParser, info: Info)
    requires DeleteDisabledSpec(parse, info).1 == Done
    requires !ParsesAsArray(parse, info.key) && !ParsesAsArray(parse, DeleteDisabledSpec(parse, info).0.key)
    ensures var keys := GetKeys(parse, info.key);
            View(parse, DeleteDisabledSpec(parse, info).0) == Filter(View(parse, info), NotAutoDisabledRow()) <==>
            !BlankEnd(Pick(keys, Kept(|keys|, NotAutoDisabled(info))))
  {
    var keys := GetKeys(parse, info.key);
    var kept := Pick(keys, Kept(|keys|, NotAutoDisabled(info)));
    DeleteDisabledViewIff(parse, info);
    LinesAreFree(parse, info.key);
    assert AllFree(kept, '\n');
    ReadsBackIff(parse, kept);
  }

  const BLANK_LINE := Info("a\n\nb", 3, map[2 := MANUALLY_DISABLED], map[], map[])

  lemma BlankLineBefore(parse: ArrayParser)
    ensures GetKeys(parse, BLANK_LINE.key) == ["a", "", "b"]
  {
    var keys := ["a", "", "b"];
    assert keys[1..] == ["", "b"] && keys[1..][1..] == ["b"];
    assert Join(keys[1..], '\n') == "\nb";
    assert Join(keys, '\n') == "a\n\nb";
    ReadBackIff(keys, '\n');
    TrimSpaceStart("a\n\nb");
  }

  lemma BlankLineAfter(parse: ArrayParser)
    ensures GetKeys(parse, "\nb") == ["b"]
  {
    assert TrimLeft("\nb", c => c == '\n') == "b";
    assert TrimLeft("\nb", IsSpace) == "b";
    TrimSpaceStart("\nb");
    SplitFree("b", '\n');
  }

  lemma BlankLineDeleted(parse: ArrayParser)
    ensures var (after, reply) := DeleteKeySpec(parse, BLANK_LINE, Some(0));
            reply == Done && after.key == "\nb" && 0 !in after.status
  {
    BlankLineBefore(parse);
    var keys, ps := ["a", "", "b"], Kept(3, NotAt(0));
    assert Kept(1, NotAt(0)) == [] && Kept(2, NotAt(0)) == [1];
    assert Pick(keys, ps) == ["", "b"] && ["", "b"][1..] == ["b"];
  }

  /** A blank line in the middle of the text becomes a blank end, is trimmed away, and shifts every index:
      deleting the first key also drops the second row, and enables the disabled third key. */
  lemma BlankLineShiftsIndices(parse: ArrayParser)
    ensures var after := DeleteKeySpec(parse, BLANK_LINE, Some(0)).0;
            && |View(parse, BLANK_LINE)| == 3 && View(parse, BLANK_LINE)[2] == KeyStatus("b", MANUALLY_DISABLED, 0, "")
            && View(parse, after) == [KeyStatus("b", ENABLED, 0, "")]
  {
    BlankLineBefore(parse);
    BlankLineAfter(parse);
    BlankLineDeleted(parse);
  }

  /** Disabling by hand changes one row's status, and shows whatever time and reason are stored for it;
      enabling clears one row; both leave all other rows alone. */
  lemma ToggleRows(parse: ArrayParser, info: Info, index: nat)
    requires index < info.size
    ensures var disabled, enabled := DisableKeySpec(info, Some(index)).0, EnableKeySpec(info, Some(index)).0;
            && |View(parse, disabled)| == |View(parse, enabled)| == |View(parse, info)|
            && forall i :: 0 <= i < |View(parse, info)| ==>
                 var key := GetKeys(parse, info.key)[i];
                 && View(parse, disabled)[i] == (if i == index then
                      KeyStatus(key, MANUALLY_DISABLED, if i in info.time then info.time[i] else 0,
                                if i in info.reason then info.reason[i] else "")
                    else View(parse, info)[i])
                 && View(parse, enabled)[i] == (if i == index
                     then KeyStatus(key, ENABLED, 0, "") else View(parse, info)[i])
  {
  }

  /** Enabling a key forgets why and when it was disabled: disabled by hand later, it shows neither. */
  lemma EnabledIsForgotten(parse: ArrayParser, info: Info, index: nat)
    requires index < info.size && index < |GetKeys(parse, info.key)|
    ensures var enabled := EnableKeySpec(info, Some(index)).0;
            View(parse, DisableKeySpec(enabled, Some(index)).0)[index] ==
              KeyStatus(GetKeys(parse, info.key)[index], MANUALLY_DISABLED, 0, "")
  {
  }

  // ----- appending keys -----

  /** Decodes one array element: the text of a string, any other value printed again; fails on what cannot be held. */
  type ElementReader = string -> Option<string>

  function Decoded(raws: seq<string>, value: ElementReader): (r: Option<seq<string>>)
    ensures r.Some? <==> forall raw :: raw in raws ==> value(raw).Some?
    ensures r.Some? ==> |r.value| == |raws| && forall i :: 0 <= i < |raws| ==> value(raws[i]) == Some(r.value[i])
  {
    if raws == [] then Some([])
    else
      var before, last := Decoded(raws[..|raws| - 1], value), value(raws[|raws| - 1]);
      assert raws == raws[..|raws| - 1] + [raws[|raws| - 1]];
      if before.Some? && last.Some? then Some(before.value + [last.value]) else None
  }

  /** The elements of a key text that is an array, decoded all together. */
  function ArrayKeys(parse: ArrayParser, value: ElementReader, origin: string): Option<seq<string>> {
    match parse(TrimSpace(origin))
    case Some(raws) => Decoded(raws, value)
    case None => None
  }

  /** The keys an append starts from; a text that looks like an array but cannot be decoded yields none. */
  function ExistingKeys(parse: ArrayParser, value: ElementReader, origin: string): seq<string> {
    if !LooksLikeArray(origin) then SplitTrimmed(origin, '\n')
    else
      match ArrayKeys(parse, value, origin) case Some(keys) => keys case None => []
  }

  function AppendSpec(parse: ArrayParser, value: ElementReader, origin: string, newKeys: seq<string>): seq<string> {
    var existing := ExistingKeys(parse, value, origin);
    existing + Fresh(existing, newKeys)
  }

  /** Trimmed, non-blank forms of these keys. */
  function Normals(keys: seq<string>): set<string> {
    set i | 0 <= i < |keys| && TrimSpace(keys[i]) != "" :: TrimSpace(keys[i])
  }

  /** What an append adds after `existing`. */
  function Fresh(existing: seq<string>, newKeys: seq<string>): seq<string> {
    if newKeys == [] then []
    else
      var before, last := Fresh(existing, newKeys[..|newKeys| - 1]), TrimSpace(newKeys[|newKeys| - 1]);
      if last == "" || last in Normals(existing) || last in before then before else before + [last]
  }

  method AppendKeys(existing: seq<string>, newKeys: seq<string>) returns (allKeys: seq<string>)
    ensures allKeys == existing + Fresh(existing, newKeys)
  {
    var seen: set<string> := {};
    for i := 0 to |existing|
      invariant seen == Normals(existing[..i])
    {
      var normalized := TrimSpace(existing[i]);
      NormalsSnoc(existing, i);
      if normalized == "" {
        continue;
      }
      seen := seen + {normalized};
    }
    assert existing[..|existing|] == existing;
    var deduped: seq<string> := [];
    for i := 0 to |newKeys|
      invariant deduped == Fresh(existing, newKeys[..i])
      invariant forall key :: key in seen <==> key in Normals(existing) || key in deduped
    {
      assert newKeys[..i + 1][..i] == newKeys[..i];
      var normalized := TrimSpace(newKeys[i]);
      if normalized == "" || normalized in seen {
        continue;
      }
      seen := seen + {normalized};
      deduped := deduped + [normalized];
    }
    assert newKeys[..|newKeys|] == newKeys;
    allKeys := existing + deduped;
  }

  lemma NormalsSnoc(keys: seq<string>, i: nat)
    requires i < |keys|
    ensures Normals(keys[..i + 1]) == Normals(keys[..i]) + if TrimSpace(keys[i]) == "" then {} else {TrimSpace(keys[i])}
  {
    var all, before := keys[..i + 1], keys[..i];
    assert forall j :: 0 <= j < i ==> all[j] == before[j];
    assert all[i] == keys[i];
  }

  /** Only new, distinct, trimmed, non-blank keys are added, and none of them is forgotten. */
  lemma {:induction false} FreshIsExact(existing: seq<string>, newKeys: seq<string>, key: string)
    ensures key in Fresh(existing, newKeys) <==> key in Normals(newKeys) && key !in Normals(existing)
    ensures forall i, j :: 0 <= i < j < |Fresh(existing, newKeys)| ==>
            Fresh(existing, newKeys)[i] != Fresh(existing, newKeys)[j]
    ensures key in Fresh(existing, newKeys) ==> key != "" && Trimmed(key, IsSpace)
  {
    if newKeys != [] {
      var n := |newKeys| - 1;
      FreshIsExact(existing, newKeys[..n], key);
      NormalsSnoc(newKeys, n);
      assert newKeys[..n + 1] == newKeys;
      TrimIsTrimmed(newKeys[n], IsSpace);
    }
  }

  /** Added keys stand in the order in which they are first given. */
  lemma {:induction false} FreshKeepsOrder(existing: seq<string>, newKeys: seq<string>, more: seq<string>)
    ensures Fresh(existing, newKeys) <= Fresh(existing, newKeys + more)
  {
    if more == [] {
      assert newKeys + more == newKeys;
    } else {
      FreshKeepsOrder(existing, newKeys, more[..|more| - 1]);
      assert (newKeys + more)[..|newKeys + more| - 1] == newKeys + more[..|more| - 1];
    }
  }

  // ----- the appended text -----

  lemma {:induction false} TrimLeftAppend(a: string, b: string, cut: char -> bool)
    requires TrimLeft(a, cut) != ""
    ensures TrimLeft(a + b, cut) == TrimLeft(a, cut) + b
  {
    if cut(a[0]) {
      TrimLeftAppend(a[1..], b, cut);
      assert (a + b)[1..] == a[1..] + b;
    }
  }

  lemma {:induction false} TrimLeftSkips(a: string, b: string, cut: char -> bool)
    requires forall i :: 0 <= i < |a| ==> cut(a[i])
    ensures TrimLeft(a + b, cut) == TrimLeft(b, cut)
  {
    if a == [] {
      assert a + b == b;
    } else {
      TrimLeftSkips(a[1..], b, cut);
      assert (a + b)[1..] == a[1..] + b;
    }
  }

  lemma TrimSpaceStart(s: string)
    ensures TrimSpace(s) == "" <==> TrimLeft(s, IsSpace) == ""
    ensures TrimSpace(s) != "" ==> TrimSpace(s)[0] == TrimLeft(s, IsSpace)[0]
  {
    var t := TrimLeft(s, IsSpace);
    TrimLeftProps(s, IsSpace);
    TrimRightProps(t, IsSpace);
    if t != "" && TrimRight(t, IsSpace) == "" {
      TrimRightKeepsStart(t, IsSpace);
    }
  }

  lemma {:induction false} TrimRightKeepsStart(t: string, cut: char -> bool)
    requires t != "" && !cut(t[0])
    ensures TrimRight(t, cut) != ""
  {
    if cut(t[|t| - 1]) {
      TrimRightKeepsStart(t[..|t| - 1], cut);
    }
  }

  lemma {:induction false} TrimRightCutsOnly(s: string, cut: char -> bool)
    ensures var t := TrimRight(s, cut); |t| <= |s| && t == s[..|t|] && forall i :: |t| <= i < |s| ==> cut(s[i])
  {
    if s != [] && cut(s[|s| - 1]) {
      TrimRightCutsOnly(s[..|s| - 1], cut);
    }
  }

  /** Cutting newlines does not change the first visible character. */
  lemma FirstVisible(origin: string, more: string)
    requires TrimSpace(origin) != ""
    ensures var t := Trim(origin, c => c == '\n');
            TrimSpace(t + more) != "" && TrimSpace(t + more)[0] == TrimSpace(origin)[0]
  {
    var cut := (c: char) => c == '\n';
    var left := TrimLeft(origin, cut);
    var t := TrimRight(left, cut);
    TrimLeftProps(origin, cut);
    TrimRightCutsOnly(left, cut);
    var pre, post := origin[..|origin| - |left|], left[|t|..];
    assert origin == pre + left && left == t + post;
    TrimLeftSkips(pre, left, IsSpace);
    TrimSpaceStart(origin);
    TrimLeftSkips(post, "", IsSpace);
    assert post + "" == post;
    if TrimLeft(t, IsSpace) == "" {
      TrimLeftProps(t, IsSpace);
      TrimLeftSkips(t, post, IsSpace);
    }
    TrimLeftAppend(t, post, IsSpace);
    TrimLeftAppend(t, more, IsSpace);
    TrimSpaceStart(t + more);
  }

  lemma {:induction false} JoinAppend(a: seq<string>, b: seq<string>, sep: char) returns (rest: string)
    requires a != []
    ensures Join(a + b, sep) == Join(a, sep) + rest
  {
    if |a| == 1 {
      rest := if b == [] then "" else [sep] + Join(b, sep);
      assert (a + b)[1..] == b;
    } else {
      rest := JoinAppend(a[1..], b, sep);
      assert (a + b)[1..] == a[1..] + b;
    }
  }

  lemma VisibleAppend(parse: ArrayParser, origin: string, more: seq<string>)
    requires TrimSpace(origin) != "" && !LooksLikeArray(origin)
    ensures var existing := SplitTrimmed(origin, '\n');
            && existing != [] && Survives(existing, '\n') && Trim(origin, c => c == '\n') != ""
            && !LooksLikeArray(Join(existing + more, '\n'))
  {
    var existing := SplitTrimmed(origin, '\n');
    FirstVisible(origin, "");
    assert Trim(origin, c => c == '\n') + "" == Trim(origin, c => c == '\n');
    SplitTrimmedSurvives(origin, '\n');
    var rest := JoinAppend(existing, more, '\n');
    FirstVisible(origin, rest);
  }

  predicate AllSpace(s: string) {
    forall i :: 0 <= i < |s| ==> IsSpace(s[i])
  }

  lemma AllSpaceIff(s: string)
    ensures TrimSpace(s) == "" <==> AllSpace(s)
  {
    TrimSpaceStart(s);
    TrimLeftProps(s, IsSpace);
    if AllSpace(s) {
      TrimLeftSkips(s, "", IsSpace);
      assert s + "" == s;
    }
  }

  lemma {:induction false} FirstPartIsPrefix(s: string, sep: char)
    ensures Split(s, sep)[0] <= s
  {
    if s != [] {
      FirstPartIsPrefix(s[1..], sep);
    }
  }

  lemma BlankAppend(origin: string)
    requires origin != "" && TrimSpace(origin) == ""
    ensures var existing := SplitTrimmed(origin, '\n');
            && existing != [] && TrimSpace(existing[0]) == ""
            && (existing[0] == "" || Survives(existing, '\n'))
            && (Survives(existing, '\n') <==> Trim(origin, c => c == '\n') != "")
  {
    var cut := (c: char) => c == '\n';
    var left := TrimLeft(origin, cut);
    var trimmed := TrimRight(left, cut);
    AllSpaceIff(origin);
    TrimLeftProps(origin, cut);
    TrimRightProps(left, cut);
    FirstPartIsPrefix(trimmed, '\n');
    AllSpaceIff(SplitTrimmed(origin, '\n')[0]);
    if trimmed != "" {
      SplitTrimmedSurvives(origin, '\n');
    }
  }

  /** The elements of a JSON array are never blank. */
  ghost predicate VisibleElements(parse: ArrayParser) {
    forall text :: parse(text).Some? ==>
      forall i :: 0 <= i < |parse(text).value| ==> TrimSpace(parse(text).value[i]) != ""
  }

  /** When appending to lines keeps every old key at its index and adds exactly the fresh ones. */
  predicate AppendKeeps(parse: ArrayParser, origin: string, added: seq<string>) {
    && AllFree(added, '\n') && Trim(origin, c => c == '\n') != ""
    && !ParsesAsArray(parse, Join(SplitTrimmed(origin, '\n') + added, '\n'))
  }

  lemma AddedEnds(existing: seq<string>, newKeys: seq<string>)
    ensures var added := Fresh(existing, newKeys); added != [] ==> added[0] != "" && added[|added| - 1] != ""
  {
    var added := Fresh(existing, newKeys);
    if added != [] {
      FreshIsExact(existing, newKeys, added[0]);
      FreshIsExact(existing, newKeys, added[|added| - 1]);
    }
  }

  /** Appending to a text that is no array keeps every old key at its index and adds exactly the fresh ones, if and
      only if no added key holds a line break, the text is more than line breaks, and the result is no array. */
  lemma AppendReadsBackIff(parse: ArrayParser, value: ElementReader, origin: string, newKeys: seq<string>)
    requires VisibleElements(parse) && origin != "" && !LooksLikeArray(origin)
    ensures var existing, all := ExistingKeys(parse, value, origin), AppendSpec(parse, value, origin, newKeys);
            && existing == GetKeys(parse, origin)
            && (GetKeys(parse, Join(all, '\n')) == all <==> AppendKeeps(parse, origin, Fresh(existing, newKeys)))
  {
    var existing := SplitTrimmed(origin, '\n');
    var added := Fresh(existing, newKeys);
    AddedEnds(existing, newKeys);
    if TrimSpace(origin) != "" {
      VisibleAppend(parse, origin, added);
    } else {
      BlankAppend(origin);
    }
    SplitParts(Trim(origin, c => c == '\n'), '\n');
    AppendedIff(parse, existing, added);
  }

  lemma AppendedIff(parse: ArrayParser, existing: seq<string>, added: seq<string>)
    requires VisibleElements(parse) && existing != [] && (added != [] ==> added[|added| - 1] != "")
    requires AllFree(existing, '\n') && (existing[0] == "" || Survives(existing, '\n'))
    requires ParsesAsArray(parse, Join(existing + added, '\n')) ==> TrimSpace(existing[0]) == ""
    ensures GetKeys(parse, Join(existing + added, '\n')) == existing + added <==>
            AllFree(added, '\n') && Survives(existing, '\n') && !ParsesAsArray(parse, Join(existing + added, '\n'))
  {
    var all := existing + added;
    assert all[0] == existing[0];
    if !ParsesAsArray(parse, Join(all, '\n')) {
      ReadsBackIff(parse, all);
      if existing[0] != "" {
        SurvivesAppend(existing, added, '\n');
      }
    }
  }

  /** Then the old rows are untouched, and one row is added for each fresh key. */
  lemma AppendKeepsRows(parse: ArrayParser, value: ElementReader, info: Info, newKeys: seq<string>)
    requires VisibleElements(parse) && info.key != "" && !LooksLikeArray(info.key)
    requires AppendKeeps(parse, info.key, Fresh(GetKeys(parse, info.key), newKeys))
    ensures var existing, all := GetKeys(parse, info.key), AppendSpec(parse, value, info.key, newKeys);
            var appended := info.(key := Join(all, '\n'));
            View(parse, info) <= View(parse, appended)
            && |View(parse, appended)| == |existing| + |Fresh(existing, newKeys)|
  {
    AppendReadsBackIff(parse, value, info.key, newKeys);
  }

  // ----- appending to a text that looks like an array -----

  lemma RowsGrowIff(info: Info, keys: seq<string>, longer: seq<string>)
    ensures Rows(info, keys) <= Rows(info, longer) <==> keys <= longer
  {
    if Rows(info, keys) <= Rows(info, longer) {
      assert |keys| == |Rows(info, keys)| <= |Rows(info, longer)| == |longer|;
      forall i | 0 <= i < |keys| ensures keys[i] == longer[i] {
        assert Rows(info, keys)[i].key == Rows(info, longer)[i].key;
      }
    }
  }

  /** Appending to an array rewrites it as lines of decoded elements: the rows of the view stay exactly when every
      element is written as it is decoded, so that no quoted string keeps its row. */
  lemma ArrayAppendIff(parse: ArrayParser, value: ElementReader, info: Info, newKeys: seq<string>)
    requires LooksLikeArray(info.key) && ArrayKeys(parse, value, info.key).Some?
    requires var all := AppendSpec(parse, value, info.key, newKeys);
             Survives(all, '\n') && !ParsesAsArray(parse, Join(all, '\n'))
    ensures var appended := info.(key := Join(AppendSpec(parse, value, info.key, newKeys), '\n'));
            View(parse, info) <= View(parse, appended) <==>
            forall raw :: raw in parse(TrimSpace(info.key)).value ==> value(raw) == Some(raw)
  {
    var raws, all := parse(TrimSpace(info.key)).value, AppendSpec(parse, value, info.key, newKeys);
    var existing := ExistingKeys(parse, value, info.key);
    RewrittenRowsIff(parse, info, all);
    DecodedPrefixIff(raws, value, existing, Fresh(existing, newKeys));
  }

  /** When the rows stay after the text has been replaced by lines that are read back. */
  lemma RewrittenRowsIff(parse: ArrayParser, info: Info, keys: seq<string>)
    requires Survives(keys, '\n') && !ParsesAsArray(parse, Join(keys, '\n'))
    ensures View(parse, info) <= View(parse, info.(key := Join(keys, '\n'))) <==> GetKeys(parse, info.key) <= keys
  {
    var earlier, after := GetKeys(parse, info.key), info.(key := Join(keys, '\n'));
    ReadsBackIff(parse, keys);
    RowsGrowIff(info, earlier, keys);
    assert Rows(after, keys) == Rows(info, keys);
  }

  lemma DecodedPrefixIff(raws: seq<string>, value: ElementReader, values: seq<string>, more: seq<string>)
    requires Decoded(raws, value) == Some(values)
    ensures raws <= values + more <==> forall raw :: raw in raws ==> value(raw) == Some(raw)
  {
    assert (values + more)[..|raws|] == values;
    if forall raw :: raw in raws ==> value(raw) == Some(raw) {
      assert raws == values;
    }
    if raws == values {
      forall raw | raw in raws ensures value(raw) == Some(raw) {
        var i :| 0 <= i < |raws| && raws[i] == raw;
        assert value(raws[i]) == Some(values[i]);
      }
    }
  }

  /** The keys that are read from joined keys: the elements of the array they happen to form, or their lines. */
  function ReadKeys(parse: ArrayParser, keys: seq<string>): seq<string> {
    var text := Join(keys, '\n');
    if ParsesAsArray(parse, text) then parse(TrimSpace(text)).value else ReadBack(keys, '\n')
  }

  lemma ReadKeysAreRead(parse: ArrayParser, keys: seq<string>)
    ensures GetKeys(parse, Join(keys, '\n')) == ReadKeys(parse, keys)
  {
    SplitTrimmedOfJoin(keys, '\n');
    TrimSpaceStart("");
  }

  /** Whatever is appended to an array, line breaks included: its rows stay exactly when the joined keys are read
      from their start as the old elements. */
  lemma ArrayAppendRowsIff(parse: ArrayParser, value: ElementReader, info: Info, newKeys: seq<string>)
    requires LooksLikeArray(info.key) && ArrayKeys(parse, value, info.key).Some?
    ensures var all := AppendSpec(parse, value, info.key, newKeys);
            View(parse, info) <= View(parse, info.(key := Join(all, '\n'))) <==>
            parse(TrimSpace(info.key)).value <= ReadKeys(parse, all)
  {
    var all := AppendSpec(parse, value, info.key, newKeys);
    ReadKeysAreRead(parse, all);
    AppendedRowsIff(parse, info, all);
  }

  lemma AppendedRowsIff(parse: ArrayParser, info: Info, keys: seq<string>)
    ensures View(parse, info) <= View(parse, info.(key := Join(keys, '\n'))) <==>
            GetKeys(parse, info.key) <= GetKeys(parse, Join(keys, '\n'))
  {
    var after := info.(key := Join(keys, '\n'));
    RowsGrowIff(info, GetKeys(parse, info.key), GetKeys(parse, after.key));
    assert Rows(after, GetKeys(parse, after.key)) == Rows(info, GetKeys(parse, after.key));
  }

  /** New keys neither start nor end with a line break, so that all their lines are read. */
  lemma AddedLines(parse: ArrayParser, newKeys: seq<string>)
    requires !ParsesAsArray(parse, Join(Fresh([], newKeys), '\n'))
    ensures GetKeys(parse, Join(Fresh([], newKeys), '\n')) == Lines(Fresh([], newKeys), '\n')
  {
    var added := Fresh([], newKeys);
    if added != [] {
      var text := Join(added, '\n');
      AddedEnds([], newKeys);
      FreshIsExact([], newKeys, added[0]);
      FreshIsExact([], newKeys, added[|added| - 1]);
      JoinEnds(added, '\n');
      TrimOfTrimmed(text, c => c == '\n');
      SplitOfJoin(added, '\n');
    }
  }

  /** A text that looks like an array but cannot be decoded is forgotten by an append: the rows of the view stay
      exactly when the lines of the new keys spell them out again. */
  lemma UndecodedArrayIsLost(parse: ArrayParser, value: ElementReader, info: Info, newKeys: seq<string>)
    requires LooksLikeArray(info.key) && ArrayKeys(parse, value, info.key).None?
    ensures AppendSpec(parse, value, info.key, newKeys) == Fresh([], newKeys)
    ensures var added := Fresh([], newKeys);
            View(parse, info) <= View(parse, info.(key := Join(added, '\n'))) <==>
            GetKeys(parse, info.key) <=
              (if ParsesAsArray(parse, Join(added, '\n')) then parse(TrimSpace(Join(added, '\n'))).value
               else Lines(added, '\n'))
  {
    var added := Fresh([], newKeys);
    assert [] + added == added;
    AppendedRowsIff(parse, info, added);
    if ParsesAsArray(parse, Join(added, '\n')) {
      ReadKeysAreRead(parse, added);
    } else {
      AddedLines(parse, newKeys);
    }
  }

  lemma SurvivesAppend(existing: seq<string>, added: seq<string>, sep: char)
    requires existing != [] && Survives(existing, sep) && (added != [] ==> added[|added| - 1] != "")
    ensures Survives(existing + added, sep) <==> AllFree(added, sep)
  {
    assert forall i :: 0 <= i < |added| ==> (existing + added)[|existing| + i] == added[i];
  }
}
