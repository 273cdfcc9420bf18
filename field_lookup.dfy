/**
 * `_get`: look a logical field up in a raw schedule item under an ordered
 * list of alias keys, trying each alias as given, lower-cased and
 * upper-cased, and taking the first value that is not `None`.
 */
module FieldLookup {
  import opened Text
  import opened Wrappers

  /** A raw schedule item: each key maps to `str()` of its value, or to `None` for a JSON null. */
  type RawItem = map<string, Option<string>>

  /** The spellings tried for one alias, in order: `key`, `key.lower()`, `key.upper()`. */
  function Candidates(key: string): seq<string> {
    [key, Lower(key), Upper(key)]
  }

  /** `data.get(c) is not None` */
  predicate HasValue(data: RawItem, c: string) {
    c in data && data[c].Some?
  }

  /** The value of the first candidate that has one. */
  function FirstPresent(data: RawItem, cands: seq<string>): Option<string> {
    if |cands| == 0 then None
    else if HasValue(data, cands[0]) then data[cands[0]]
    else FirstPresent(data, cands[1..])
  }

  /** `FirstPresent` finds no value exactly when no candidate has one. */
  lemma {:induction false} FirstPresentNone(data: RawItem, cands: seq<string>)
    ensures FirstPresent(data, cands).None? <==> forall i :: 0 <= i < |cands| ==> !HasValue(data, cands[i])
  {
    if |cands| > 0 {
      var rest := cands[1..];
      FirstPresentNone(data, rest);
      assert forall i :: 0 < i < |cands| ==> cands[i] == rest[i - 1];
    }
  }

  /** `FirstPresent` gives the value of the first candidate that has one. */
  lemma {:induction false} FirstPresentFirst(data: RawItem, cands: seq<string>, i: nat)
    requires i < |cands| && HasValue(data, cands[i])
    requires forall j :: 0 <= j < i ==> !HasValue(data, cands[j])
    ensures FirstPresent(data, cands) == data[cands[i]]
  {
    if i > 0 {
      var rest := cands[1..];
      assert forall j :: 0 <= j < i - 1 ==> rest[j] == cands[j + 1];
      FirstPresentFirst(data, rest, i - 1);
    }
  }


  /** The value found for one alias under any of its spellings. */
  function AliasValue(data: RawItem, key: string): Option<string> {
    FirstPresent(data, Candidates(key))
  }

  /** What `_get(data, *keys, default=default)` returns. */
  function Lookup(data: RawItem, keys: seq<string>, default: string): string {
    if |keys| == 0 then default
    else match AliasValue(data, keys[0])
      case Some(v) => Strip(v)
      case None => Lookup(data, keys[1..], default)
  }

  /** `_get` returns `default` when no alias has a value under any spelling. */
  lemma {:induction false} LookupDefault(data: RawItem, keys: seq<string>, default: string)
    requires forall i :: 0 <= i < |keys| ==> AliasValue(data, keys[i]).None?
    ensures Lookup(data, keys, default) == default
  {
    if |keys| > 0 {
      var rest := keys[1..];
      assert forall i :: 0 <= i < |rest| ==> rest[i] == keys[i + 1];
      LookupDefault(data, rest, default);
    }
  }

  /**
   * `_get` returns the stripped value of the first alias, in argument order,
   * that has a value under some spelling.
   */
  lemma {:induction false} LookupFirstMatch(data: RawItem, keys: seq<string>, i: nat, default: string)
    requires i < |keys| && AliasValue(data, keys[i]).Some?
    requires forall j :: 0 <= j < i ==> AliasValue(data, keys[j]).None?
    ensures Lookup(data, keys, default) == Strip(AliasValue(data, keys[i]).value)
  {
    if i > 0 {
      var rest := keys[1..];
      assert forall j :: 0 <= j < i - 1 ==> rest[j] == keys[j + 1];
      LookupFirstMatch(data, rest, i - 1, default);
    }
  }


  /** A match among the first aliases is never overridden by aliases listed after them. */
  lemma {:induction false} LaterAliasesNeverOverride(data: RawItem, keys: seq<string>, more: seq<string>, default: string)
    requires exists i :: 0 <= i < |keys| && AliasValue(data, keys[i]).Some?
    ensures Lookup(data, keys + more, default) == Lookup(data, keys, default)
  {
    var i :| 0 <= i < |keys| && AliasValue(data, keys[i]).Some?;
    assert (keys + more)[i] == keys[i];
    if AliasValue(data, keys[0]).None? {
      assert (keys + more)[1..] == keys[1..] + more;
      assert i > 0 && keys[1..][i - 1] == keys[i];
      LaterAliasesNeverOverride(data, keys[1..], more, default);
    }
  }

  /** `_get` itself: the nested search with an early return. */
  method Get(data: RawItem, keys: seq<string>, default: string) returns (r: string)
    ensures r == Lookup(data, keys, default)
  {
    var i := 0;
    while i < |keys|
      invariant 0 <= i <= |keys|
      invariant Lookup(data, keys, default) == Lookup(data, keys[i..], default)
    {
      var cands := Candidates(keys[i]);
      var j := 0;
      while j < |cands|
        invariant 0 <= j <= |cands|
        invariant FirstPresent(data, cands) == FirstPresent(data, cands[j..])
      {
        var c := cands[j];
        if c in data && data[c].Some? {
          assert AliasValue(data, keys[i..][0]) == data[c];
          return Strip(data[c].value);
        }
        assert cands[j..][1..] == cands[j + 1..];
        j := j + 1;
      }
      assert AliasValue(data, keys[i..][0]).None?;
      assert keys[i..][1..] == keys[i + 1..];
      i := i + 1;
    }
    return default;
  }
}
