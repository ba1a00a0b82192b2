/** Which keys are internal, told without the text they are reduced to. */
module AssetInternalKeys {
  import opened Text
  import opened AssetResponse

  predicate SmallLetter(c: char) {
    'a' <= c <= 'z'
  }

  /** The names that suppliers' answers must not show. */
  predicate Listed(name: string) {
    || name == "channel" || name == "channelid" || name == "channelname" || name == "channeltype"
    || name == "admininfo" || name == "auditinfo" || name == "retryrouteeventids"
    || name == "assetsecret" || name == "assetcredentials"
    || name == "apikey" || name == "accesskeyid" || name == "secretaccesskey"
  }

  // ----- underscores -----

  lemma {:induction false} SqueezedJoins(a: string, b: string)
    ensures Squeezed(a + b) == Squeezed(a) + Squeezed(b)
  {
    if b == "" {
      assert a + b == a;
    } else {
      var most := b[..|b| - 1];
      assert (a + b)[..|a + b| - 1] == a + most;
      SqueezedJoins(a, most);
    }
  }

  lemma SqueezedChar(c: char)
    ensures Squeezed([c]) == if c == '_' then "" else [Lower(c)]
  {
    assert [c][..0] == "";
  }

  /** An underscore can stand anywhere in a key, or be left out. */
  lemma UnderscoresDoNotMatter(a: string, b: string)
    ensures Internal(a + "_" + b) <==> Internal(a + b)
  {
    SqueezedJoins(a + "_", b);
    SqueezedJoins(a, "_");
    SqueezedJoins(a, b);
    SqueezedChar('_');
  }

  // ----- capitals -----

  /** A capital and its small letter are the same letter. */
  lemma CapitalsDoNotMatter(a: string, c: char, b: string)
    requires 'A' <= c <= 'Z'
    ensures Internal(a + [c] + b) <==> Internal(a + [(c as int - 'A' as int + 'a' as int) as char] + b)
  {
    var small := (c as int - 'A' as int + 'a' as int) as char;
    SqueezedChar(c);
    SqueezedChar(small);
    SqueezedAround(a, c, b);
    SqueezedAround(a, small, b);
  }

  lemma SqueezedAround(a: string, c: char, b: string)
    ensures Squeezed(a + [c] + b) == Squeezed(a) + Squeezed([c]) + Squeezed(b)
  {
    SqueezedJoins(a + [c], b);
    SqueezedJoins(a, [c]);
  }

  // ----- keys of small letters -----

  lemma {:induction false} SmallIsSqueezed(key: string)
    requires forall i :: 0 <= i < |key| ==> SmallLetter(key[i])
    ensures Squeezed(key) == key
  {
    if key != "" {
      SmallIsSqueezed(key[..|key| - 1]);
      assert key == key[..|key| - 1] + [key[|key| - 1]];
    }
  }

  /** A key of small letters is internal exactly when it is listed. */
  lemma SmallIsInternalIff(key: string)
    requires forall i :: 0 <= i < |key| ==> SmallLetter(key[i])
    ensures Internal(key) <==> Listed(key)
  {
    SmallIsSqueezed(key);
  }

  // ----- spellings -----

  /** A character whose lower case is this small letter; two of them are not ASCII. */
  predicate LowersTo(c: char, letter: char) {
    || c == letter
    || ('A' <= c <= 'Z' && c as int - 'A' as int == letter as int - 'a' as int)
    || (letter == 'k' && c == '\U{212A}')
    || (letter == 'i' && c == '\U{130}')
  }

  /** The key is the name with any letters raised and any underscores put in. */
  predicate Spells(key: string, name: string) {
    if key == "" then name == ""
    else if key[0] == '_' then Spells(key[1..], name)
    else name != "" && LowersTo(key[0], name[0]) && Spells(key[1..], name[1..])
  }

  lemma {:induction false} SpellsIff(key: string, name: string)
    requires forall i :: 0 <= i < |name| ==> SmallLetter(name[i])
    ensures Spells(key, name) <==> Squeezed(key) == name
  {
    if key != "" {
      var first, rest := key[0], key[1..];
      assert key == [first] + rest;
      SqueezedJoins([first], rest);
      SqueezedChar(first);
      if first == '_' {
        SpellsIff(rest, name);
      } else if name != "" {
        SpellsIff(rest, name[1..]);
        assert name == [name[0]] + name[1..];
      }
    }
  }

  lemma ListedIsSmall(name: string)
    requires Listed(name)
    ensures forall i :: 0 <= i < |name| ==> SmallLetter(name[i])
  {
  }

  /** A key is internal exactly when it spells a listed name. */
  lemma InternalIff(key: string)
    ensures Internal(key) <==> exists name :: Listed(name) && Spells(key, name)
  {
    forall name | Listed(name) ensures Spells(key, name) <==> Squeezed(key) == name {
      ListedIsSmall(name);
      SpellsIff(key, name);
    }
    if Internal(key) {
      assert Listed(Squeezed(key));
    }
  }

  // ----- the public response -----

  /** No spelling of a listed name stands on any path of the public response. */
  lemma NoListedNameSurvives(j: Json, path: seq<Step>, i: nat, name: string)
    requires PublicResponse(j).Ok? && Lookup(PublicResponse(j).j, path).Some?
    requires i < |path| && path[i].Key? && Listed(name)
    ensures !Spells(path[i].k, name)
  {
    NoInternalKeySurvives(j, path);
    InternalIff(path[i].k);
  }

  /** What spells no listed name is kept: a place of a successful answer is public exactly when no key on
      its path spells one. */
  lemma OthersSurvive(j: Json, path: seq<Step>)
    requires PublicResponse(j).Ok? && Successful(j)
    ensures Lookup(PublicResponse(j).j, path).Some? <==>
              Lookup(j, path).Some?
              && forall i, name :: 0 <= i < |path| && path[i].Key? && Listed(name) ==> !Spells(path[i].k, name)
  {
    PublicIsStripped(j);
    StripLookup(j, path);
    forall i | 0 <= i < |path| && path[i].Key?
      ensures Internal(path[i].k) <==> exists name :: Listed(name) && Spells(path[i].k, name)
    {
      InternalIff(path[i].k);
    }
  }
}
