/**
  The package manifest (`package.json`) and the destructuring
  `const { packageManager, exports, main, module, bin, files, scripts, ...config } = packageJson`
  that both compile scripts use to drop the distribution-only fields.
*/
module Manifests {
  import opened Wrappers

  /** A JSON value; a manifest is the member list of the top-level object. */
  datatype Json =
    | JNull
    | JBool(b: bool)
    | JNumber(n: real)
    | JString(s: string)
    | JArray(items: seq<Json>)
    | JObject(members: seq<Member>)

  datatype Member = Member(key: string, value: Json)

  /** The top-level members of `package.json`, in their order. */
  type Manifest = seq<Member>

  /** The seven keys the scripts name before `...config`. */
  const StrippedKeys: set<string> :=
    {"packageManager", "exports", "main", "module", "bin", "files", "scripts"}

  /** A JavaScript object has at most one member per key. */
  ghost predicate UniqueKeys(m: Manifest) {
    forall i, j :: 0 <= i < j < |m| ==> m[i].key != m[j].key
  }

  /** `config`: the manifest without the seven keys. */
  function Strip(m: Manifest): (r: Manifest)
    ensures |r| <= |m|
    decreases |m|
  {
    if m == [] then []
    else if m[0].key in StrippedKeys then Strip(m[1..])
    else [m[0]] + Strip(m[1..])
  }

  /**
    The value of the first member named `key`. For a manifest with unique
    keys this is what property access `m[key]` gives; with repeated keys
    `JSON.parse` would keep the last one instead.
  */
  function Lookup(m: Manifest, key: string): Option<Json>
    decreases |m|
  {
    if m == [] then None
    else if m[0].key == key then Some(m[0].value)
    else Lookup(m[1..], key)
  }

  /** `r` is `s` with some members left out and the rest kept in order. */
  predicate Subsequence(r: Manifest, s: Manifest)
    decreases |s|
  {
    if r == [] then true
    else if s == [] then false
    else if r[0] == s[0] then Subsequence(r[1..], s[1..])
    else Subsequence(r, s[1..])
  }

  /** The stripped manifest holds exactly the members of the input whose key is not one of the seven. */
  lemma {:induction false} StripMembers(m: Manifest)
    ensures forall x :: x in Strip(m) <==> x in m && x.key !in StrippedKeys
    decreases |m|
  {
    if m != [] {
      StripMembers(m[1..]);
      assert m == [m[0]] + m[1..];
    }
  }

  /** None of the seven keys survives. */
  lemma StripRemovesKeys(m: Manifest)
    ensures forall i :: 0 <= i < |Strip(m)| ==> Strip(m)[i].key !in StrippedKeys
  {
    StripMembers(m);
    forall i | 0 <= i < |Strip(m)| ensures Strip(m)[i].key !in StrippedKeys {
      assert Strip(m)[i] in Strip(m);
    }
  }

  /** The kept members keep their relative order. */
  lemma {:induction false} StripKeepsOrder(m: Manifest)
    ensures Subsequence(Strip(m), m)
    decreases |m|
  {
    if m != [] {
      StripKeepsOrder(m[1..]);
      if m[0].key in StrippedKeys {
        SubsequenceOfTail(Strip(m[1..]), m);
      } else {
        assert ([m[0]] + Strip(m[1..]))[1..] == Strip(m[1..]);
      }
    }
  }

  lemma {:induction false} SubsequenceOfTail(r: Manifest, s: Manifest)
    requires s != [] && Subsequence(r, s[1..])
    ensures Subsequence(r, s)
    decreases |s|, 0
  {
    if r != [] && r[0] == s[0] {
      SubsequenceDropFirst(r, s[1..]);
    }
  }

  lemma {:induction false} SubsequenceDropFirst(r: Manifest, s: Manifest)
    requires r != [] && Subsequence(r, s)
    ensures Subsequence(r[1..], s)
    decreases |s|, 1
  {
    if r[1..] != [] {
      assert s != [];
      if r[0] == s[0] {
        SubsequenceOfTail(r[1..], s);
      } else {
        SubsequenceDropFirst(r, s[1..]);
        SubsequenceOfTail(r[1..], s);
      }
    }
  }

  /** Reading any key of the stripped manifest gives nothing for the seven keys and the input's value otherwise. */
  lemma {:induction false} StripLookup(m: Manifest, key: string)
    ensures Lookup(Strip(m), key) == if key in StrippedKeys then None else Lookup(m, key)
    decreases |m|
  {
    if m != [] {
      StripLookup(m[1..], key);
    }
  }

  /** Stripping an already stripped manifest changes nothing. */
  lemma {:induction false} StripIdempotent(m: Manifest)
    ensures Strip(Strip(m)) == Strip(m)
    decreases |m|
  {
    if m != [] {
      StripIdempotent(m[1..]);
      if m[0].key !in StrippedKeys {
        assert ([m[0]] + Strip(m[1..]))[1..] == Strip(m[1..]);
      }
    }
  }

  /** A manifest with one member per key is stripped to one with one member per key. */
  lemma StripUniqueKeys(m: Manifest)
    requires UniqueKeys(m)
    ensures UniqueKeys(Strip(m))
  {
    StripKeepsOrder(m);
    SubsequenceUniqueKeys(Strip(m), m);
  }

  lemma {:induction false} SubsequenceUniqueKeys(r: Manifest, s: Manifest)
    requires Subsequence(r, s) && UniqueKeys(s)
    ensures UniqueKeys(r)
    decreases |s|
  {
    if r != [] {
      assert s != [];
      if r[0] == s[0] {
        SubsequenceUniqueKeys(r[1..], s[1..]);
        SubsequenceMembers(r[1..], s[1..]);
        forall j | 0 < j < |r| ensures r[0].key != r[j].key {
          assert r[j] == r[1..][j - 1];
          assert r[j] in s[1..];
          var k :| 0 <= k < |s[1..]| && s[1..][k] == r[j];
          assert s[k + 1] == r[j];
        }
      } else {
        SubsequenceUniqueKeys(r, s[1..]);
      }
    }
  }

  lemma {:induction false} SubsequenceMembers(r: Manifest, s: Manifest)
    requires Subsequence(r, s)
    ensures forall x :: x in r ==> x in s
    decreases |s|
  {
    if r != [] {
      assert s != [];
      if r[0] == s[0] {
        SubsequenceMembers(r[1..], s[1..]);
        assert r == [r[0]] + r[1..];
      } else {
        SubsequenceMembers(r, s[1..]);
      }
    }
  }
}
