/** What deleting keys answers, and what the size and the maps of a channel say afterwards. */
module MultiKeyDeletion {
  import opened Text
  import opened MultiKey

  // ----- delete_key -----

  predicate InRange(info: Info, index: Option<int>) {
    index.Some? && 0 <= index.value < info.size
  }

  /** No key stands anywhere else. */
  predicate Alone(keys: seq<string>, index: int) {
    keys == [] || (|keys| == 1 && index == 0)
  }

  lemma {:induction false} KeptNotAt(n: nat, index: int)
    ensures var ps := Kept(n, NotAt(index));
            && |ps| == (if 0 <= index < n then n - 1 else n)
            && forall j :: 0 <= j < |ps| ==> ps[j] == if 0 <= index <= j then j + 1 else j
  {
    if n > 0 {
      KeptNotAt(n - 1, index);
    }
  }

  /** Which answer a deletion gets: the last key is refused, and only that one, whatever the recorded size is. */
  lemma DeleteKeyReplies(parse: ArrayParser, info: Info, index: Option<int>)
    ensures var (after, reply) := DeleteKeySpec(parse, info, index);
            && (reply == NoIndex <==> index.None?)
            && (reply == OutOfRange <==> index.Some? && !InRange(info, index))
            && (reply == LastKey <==> InRange(info, index) && Alone(GetKeys(parse, info.key), index.value))
            && (reply == Done <==> InRange(info, index) && !Alone(GetKeys(parse, info.key), index.value))
            && (reply != Done ==> after == info)
  {
    if index.Some? {
      var keys := GetKeys(parse, info.key);
      KeptNotAt(|keys|, index.value);
    }
  }

  /** Where the key that is now at `j` was before. */
  function Before(index: int, j: int): int {
    if j < index then j else j + 1
  }

  /** Under the new indices a map says what it said, where it said something that is carried over. */
  ghost predicate Carried<V(!new)>(m: map<int, V>, after: map<int, V>, size: nat, source: int -> int,
      carried: int -> bool)
  {
    forall j ::
      && (j in after <==> 0 <= j < size && source(j) in m && carried(source(j)))
      && (j in after ==> source(j) in m && after[j] == m[source(j)])
  }

  function Any(): int -> bool { i => true }

  function Unless(info: Info): int -> bool { i => StatusOf(info, i) != ENABLED }

  function Shifted(index: int): int -> int { j => Before(index, j) }

  lemma CarriedOver<V(!new)>(m: map<int, V>, n: nat, index: int, carried: nat -> bool, where: int -> bool)
    requires 0 <= index && forall i: nat :: carried(i) == where(i)
    ensures var ps := Kept(n, NotAt(index));
            Carried(m, Reindex(m, ps, carried), |ps|, Shifted(index), where)
  {
    KeptNotAt(n, index);
  }

  /** After a deletion the size is one less, if the index named a key; the keys behind it move up by one, each with its
      status unless it is enabled, and with its time and reason in any case. */
  lemma AfterDeleteKey(parse: ArrayParser, info: Info, index: int)
    requires DeleteKeySpec(parse, info, Some(index)).1 == Done
    ensures var (after, keys) := (DeleteKeySpec(parse, info, Some(index)).0, GetKeys(parse, info.key));
            && after.size == (if index < |keys| then |keys| - 1 else |keys|)
            && after.key == Join(if index < |keys| then keys[..index] + keys[index + 1..] else keys, '\n')
            && Carried(info.status, after.status, after.size, Shifted(index), Unless(info))
            && Carried(info.time, after.time, after.size, Shifted(index), Any())
            && Carried(info.reason, after.reason, after.size, Shifted(index), Any())
  {
    var keys := GetKeys(parse, info.key);
    KeptNotAt(|keys|, index);
    PickNotAt(keys, |keys|, index);
    assert keys[..|keys|] == keys;
    CarriedOver(info.status, |keys|, index, NotEnabled(info), Unless(info));
    CarriedOver(info.time, |keys|, index, Always(), Any());
    CarriedOver(info.reason, |keys|, index, Always(), Any());
  }

  // ----- delete_disabled_keys -----

  predicate AutoDisabled(info: Info, i: int) {
    i in info.status && info.status[i] == 3
  }

  /** How many of the first `n` keys stay. */
  function Staying(info: Info, n: nat): nat {
    if n == 0 then 0 else Staying(info, n - 1) + if AutoDisabled(info, n - 1) then 0 else 1
  }

  lemma {:induction false} KeptStays(info: Info, n: nat, j: nat)
    requires j < |Kept(n, NotAutoDisabled(info))|
    ensures var i := Kept(n, NotAutoDisabled(info))[j]; !AutoDisabled(info, i) && Staying(info, i) == j
  {
    KeptAreStaying(info, n - 1);
    if j < |Kept(n - 1, NotAutoDisabled(info))| {
      KeptStays(info, n - 1, j);
    }
  }

  lemma {:induction false} KeptAreStaying(info: Info, n: nat)
    ensures |Kept(n, NotAutoDisabled(info))| == Staying(info, n)
  {
    if n > 0 {
      KeptAreStaying(info, n - 1);
    }
  }

  lemma {:induction false} StaysKept(info: Info, n: nat, i: nat)
    requires i < n && !AutoDisabled(info, i)
    ensures Staying(info, i) < |Kept(n, NotAutoDisabled(info))|
    ensures Kept(n, NotAutoDisabled(info))[Staying(info, i)] == i
  {
    KeptAreStaying(info, n - 1);
    if i < n - 1 {
      StaysKept(info, n - 1, i);
    }
  }

  /** Nothing is deleted exactly when no key was disabled automatically. */
  lemma DeleteDisabledReplies(parse: ArrayParser, info: Info)
    ensures var (after, reply) := DeleteDisabledSpec(parse, info);
            var keys := GetKeys(parse, info.key);
            && (reply == NothingToDelete <==> forall i :: 0 <= i < |keys| ==> !AutoDisabled(info, i))
            && (reply == Done <==> reply != NothingToDelete)
            && (reply == NothingToDelete ==> after == info)
  {
    var keys := GetKeys(parse, info.key);
    KeptAreStaying(info, |keys|);
    AllStayIff(info, |keys|);
  }

  lemma {:induction false} AllStayIff(info: Info, n: nat)
    ensures Staying(info, n) <= n
    ensures Staying(info, n) == n <==> forall i :: 0 <= i < n ==> !AutoDisabled(info, i)
  {
    if n > 0 {
      AllStayIff(info, n - 1);
    }
  }

  /** What a key that stays is found with at its new index; time and reason go with a status that is not enabled. */
  ghost predicate MovedTo(info: Info, after: Info, i: int, j: int) {
    && (j in after.status <==> StatusOf(info, i) != ENABLED)
    && (j in after.status ==> after.status[j] == StatusOf(info, i))
    && (j in after.time <==> i in info.time && StatusOf(info, i) != ENABLED)
    && (j in after.time && i in info.time ==> after.time[j] == info.time[i])
    && (j in after.reason <==> i in info.reason && StatusOf(info, i) != ENABLED)
    && (j in after.reason && i in info.reason ==> after.reason[j] == info.reason[i])
  }

  /** Afterwards every key that stays stands behind the ones that stayed before it, and nothing else is recorded. */
  lemma AfterDeleteDisabled(parse: ArrayParser, info: Info)
    requires DeleteDisabledSpec(parse, info).1 == Done
    ensures var (after, keys) := (DeleteDisabledSpec(parse, info).0, GetKeys(parse, info.key));
            && after.size == Staying(info, |keys|)
            && (forall i: nat :: i < |keys| && !AutoDisabled(info, i) ==>
                  MovedTo(info, after, i, Staying(info, i)))
            && forall j :: j in after.status.Keys + after.time.Keys + after.reason.Keys ==> 0 <= j < after.size
  {
    var after, keys := DeleteDisabledSpec(parse, info).0, GetKeys(parse, info.key);
    KeptAreStaying(info, |keys|);
    forall i: nat | i < |keys| && !AutoDisabled(info, i) ensures MovedTo(info, after, i, Staying(info, i)) {
      StaysKept(info, |keys|, i);
    }
  }

  /** These are the keys that stay, in their order. */
  ghost predicate AreStaying(info: Info, keys: seq<string>, kept: seq<string>) {
    && |kept| == Staying(info, |keys|)
    && forall i: nat :: i < |keys| && !AutoDisabled(info, i) ==>
         Staying(info, i) < |kept| && kept[Staying(info, i)] == keys[i]
  }

  /** Its text is that of the keys that stay. */
  lemma KeysAfterDeleteDisabled(parse: ArrayParser, info: Info)
    requires DeleteDisabledSpec(parse, info).1 == Done
    ensures exists kept ::
              AreStaying(info, GetKeys(parse, info.key), kept)
              && DeleteDisabledSpec(parse, info).0.key == Join(kept, '\n')
  {
    var keys := GetKeys(parse, info.key);
    var kept := Pick(keys, Kept(|keys|, NotAutoDisabled(info)));
    KeptAreStaying(info, |keys|);
    forall i: nat | i < |keys| && !AutoDisabled(info, i) {
      StaysKept(info, |keys|, i);
    }
    assert AreStaying(info, keys, kept);
  }

  /** Unlike a single deletion this one can delete every key, and does so exactly when all were disabled. */
  lemma NoneStaysIff(parse: ArrayParser, info: Info)
    requires DeleteDisabledSpec(parse, info).1 == Done
    ensures DeleteDisabledSpec(parse, info).0.size == 0 <==>
              forall i :: 0 <= i < |GetKeys(parse, info.key)| ==> AutoDisabled(info, i)
  {
    AfterDeleteDisabled(parse, info);
    NoneOfIff(info, |GetKeys(parse, info.key)|);
  }

  lemma {:induction false} NoneOfIff(info: Info, n: nat)
    ensures Staying(info, n) == 0 <==> forall i :: 0 <= i < n ==> AutoDisabled(info, i)
  {
    if n > 0 {
      NoneOfIff(info, n - 1);
    }
  }
}
