/** The options of a version-2 data source: an immutable string-to-string
    map whose keys are case-insensitive. */
module SourcesV2 {
  import opened Wrappers
  import opened CaseFolding

  /** The lower-cased keys of a key set. */
  function LoweredKeys(keys: set<string>): set<string> {
    set k | k in keys :: ToLowerCase(k)
  }

  /** No two different keys of `original` differ only in case. */
  ghost predicate NoCaseCollisions(original: map<string, JavaString>) {
    CaseDistinct(original.Keys)
  }

  /** What the constructor promises of the map it stores: its keys are the
      lower-cased input keys, and the value held under each of them is the
      value of one of the input entries whose key lower-cases to it. Which
      one is left open, because it depends on the input's iteration order. */
  ghost predicate LowerCasedView(original: map<string, JavaString>, lowered: map<string, JavaString>) {
    && lowered.Keys == LoweredKeys(original.Keys)
    && forall lk :: lk in lowered ==>
         exists k :: k in original && ToLowerCase(k) == lk && original[k] == lowered[lk]
  }

  /** `keyLowerCasedMap.get(k)`: Java's `HashMap.get` gives null for an
      absent key. */
  function MapGet(m: map<string, JavaString>, k: string): JavaString {
    if k in m then m[k] else Null
  }

  class DataSourceV2Options {
    /** The map handed to the constructor; it only appears in specifications. */
    ghost const originalMap: map<string, JavaString>
    /** `private final Map<String, String> keyLowerCasedMap` */
    const keyLowerCasedMap: map<string, JavaString>

    ghost predicate Valid() {
      LowerCasedView(originalMap, keyLowerCasedMap)
    }

    /** Visits the entries of `originalMap` in an unspecified order and puts
        each value under its lower-cased key; a later entry whose key
        collides with an earlier one replaces the earlier value. */
    constructor (originalMap: map<string, JavaString>)
      ensures this.originalMap == originalMap
      ensures Valid()
    {
      var lowered: map<string, JavaString> := map[];
      var remaining := originalMap.Keys;
      while remaining != {}
        invariant remaining <= originalMap.Keys
        invariant LowerCasedView(originalMap - remaining, lowered)
        decreases remaining
      {
        var key :| key in remaining;
        ghost var visited := originalMap - remaining;
        lowered := lowered[ToLowerCase(key) := originalMap[key]];
        remaining := remaining - {key};
        assert (originalMap - remaining).Keys == visited.Keys + {key};
        assert LoweredKeys((originalMap - remaining).Keys) == LoweredKeys(visited.Keys) + {ToLowerCase(key)};
      }
      assert originalMap - remaining == originalMap;
      this.originalMap := originalMap;
      keyLowerCasedMap := lowered;
    }

    /** `get(key)`: looks the lower-cased key up. The result is empty when no
        input key equals `key` ignoring case, or when the value chosen for it
        is null; otherwise it is the value of an input entry whose key equals
        `key` ignoring case. */
    function Get(key: string): (r: Option<string>)
      requires Valid()
      ensures r.Some? ==>
        exists k :: k in originalMap && EqualsIgnoreCase(k, key) && originalMap[k] == Str(r.value)
      ensures (forall k :: k in originalMap ==> !EqualsIgnoreCase(k, key)) ==> r.None?
      ensures r.None? ==>
        || (forall k :: k in originalMap ==> !EqualsIgnoreCase(k, key))
        || (exists k :: k in originalMap && EqualsIgnoreCase(k, key) && originalMap[k].Null?)
    {
      LookupMatchesOriginal(originalMap, keyLowerCasedMap, key);
      OfNullable(MapGet(keyLowerCasedMap, ToLowerCase(key)))
    }
  }

  /** The value stored for a lower-cased probe key is absent exactly when no
      input key equals the probe ignoring case, and otherwise it is the value
      of one of the input entries that equal the probe ignoring case. */
  lemma LookupMatchesOriginal(original: map<string, JavaString>, lowered: map<string, JavaString>, key: string)
    requires LowerCasedView(original, lowered)
    ensures ToLowerCase(key) in lowered <==> exists k :: k in original && EqualsIgnoreCase(k, key)
    ensures ToLowerCase(key) in lowered ==>
      exists k :: k in original && EqualsIgnoreCase(k, key) && original[k] == lowered[ToLowerCase(key)]
  {
    var lk := ToLowerCase(key);
    if lk in lowered {
      var k :| k in original && ToLowerCase(k) == lk && original[k] == lowered[lk];
      SameLowerCaseIffEqualsIgnoreCase(k, key);
    }
    forall k | k in original && EqualsIgnoreCase(k, key) ensures lk in lowered {
      SameLowerCaseIffEqualsIgnoreCase(k, key);
    }
  }

  /** Every key of the stored map is already lower-cased: lower-casing it
      again gives the key itself. */
  lemma StoredKeysAreLowerCased(original: map<string, JavaString>, lowered: map<string, JavaString>)
    requires LowerCasedView(original, lowered)
    ensures forall lk :: lk in lowered ==> IsLowerCased(lk) && ToLowerCase(lk) == lk
  {
    forall lk | lk in lowered ensures IsLowerCased(lk) && ToLowerCase(lk) == lk {
      var k :| k in original && ToLowerCase(k) == lk;
      ToLowerCaseIsIdempotent(k);
    }
  }

  /** No two different keys of the set differ only in case. */
  ghost predicate CaseDistinct(keys: set<string>) {
    forall k1, k2 :: k1 in keys && k2 in keys && k1 != k2 ==> ToLowerCase(k1) != ToLowerCase(k2)
  }

  /** Lower-casing a key set never makes it larger, and keeps its size
      exactly when no two of its keys differ only in case. */
  lemma {:induction false} LoweredKeysSize(keys: set<string>)
    ensures |LoweredKeys(keys)| <= |keys|
    ensures |LoweredKeys(keys)| == |keys| <==> CaseDistinct(keys)
  {
    if keys == {} {
      assert LoweredKeys(keys) == {};
    } else {
      var x :| x in keys;
      var rest := keys - {x};
      LoweredKeysSize(rest);
      var lx := ToLowerCase(x);
      assert LoweredKeys(keys) == LoweredKeys(rest) + {lx};
      if lx in LoweredKeys(rest) {
        var y :| y in rest && ToLowerCase(y) == lx;
        assert LoweredKeys(keys) == LoweredKeys(rest);
        assert !CaseDistinct(keys) by {
          assert x in keys && y in keys && x != y;
        }
      } else {
        assert |LoweredKeys(keys)| == |LoweredKeys(rest)| + 1;
        assert CaseDistinct(keys) <==> CaseDistinct(rest) by {
          if CaseDistinct(rest) {
            forall k1, k2 | k1 in keys && k2 in keys && k1 != k2 ensures ToLowerCase(k1) != ToLowerCase(k2) {
              if k1 != x && k2 != x {
              } else if k1 == x {
                assert k2 in rest;
              } else {
                assert k1 in rest;
              }
            }
          }
        }
      }
    }
  }

  /** The stored map has at most as many entries as the input map; it has
      exactly as many when no two input keys collide after lower-casing. */
  lemma StoredSizeAtMostOriginal(original: map<string, JavaString>, lowered: map<string, JavaString>)
    requires LowerCasedView(original, lowered)
    ensures |lowered| <= |original|
    ensures |lowered| == |original| <==> NoCaseCollisions(original)
  {
    LoweredKeysSize(original.Keys);
    assert |lowered| == |lowered.Keys| && |original| == |original.Keys|;
  }

  /** An input key that no other input key equals ignoring case keeps its
      value: the lower-cased form of it, or of any case variant of it, is
      stored with exactly that value. */
  lemma UniqueKeyKeepsValue(original: map<string, JavaString>, lowered: map<string, JavaString>, key: string, probe: string)
    requires LowerCasedView(original, lowered)
    requires key in original
    requires forall k :: k in original && EqualsIgnoreCase(k, key) ==> k == key
    requires EqualsIgnoreCase(probe, key)
    ensures ToLowerCase(probe) in lowered && lowered[ToLowerCase(probe)] == original[key]
  {
    SameLowerCaseIffEqualsIgnoreCase(probe, key);
    var lk := ToLowerCase(probe);
    assert lk in lowered;
    var k :| k in original && ToLowerCase(k) == lk && original[k] == lowered[lk];
    SameLowerCaseIffEqualsIgnoreCase(k, key);
  }

  /** Lookups ignore case: keys that are equal ignoring case give the same
      result. */
  lemma GetIgnoresCase(options: DataSourceV2Options, k1: string, k2: string)
    requires options.Valid()
    requires EqualsIgnoreCase(k1, k2)
    ensures options.Get(k1) == options.Get(k2)
  {
    SameLowerCaseIffEqualsIgnoreCase(k1, k2);
  }

  /** A key with exactly one input entry that equals it ignoring case gives
      that entry's value, with null read as empty. */
  lemma GetUniqueKey(options: DataSourceV2Options, key: string, probe: string)
    requires options.Valid()
    requires key in options.originalMap
    requires forall k :: k in options.originalMap && EqualsIgnoreCase(k, key) ==> k == key
    requires EqualsIgnoreCase(probe, key)
    ensures options.Get(probe) == OfNullable(options.originalMap[key])
  {
    UniqueKeyKeepsValue(options.originalMap, options.keyLowerCasedMap, key, probe);
  }

  /** A small input: one ordinary option and one whose value is null. */
  function ExampleInput(): map<string, JavaString> {
    map["Path" := Str("/tmp/data"), "Header" := Null]
  }

  /** A key in another case finds the value. */
  lemma ExampleCaseVariantLookup(options: DataSourceV2Options)
    requires options.Valid() && options.originalMap == ExampleInput()
    ensures options.Get("PATH") == Some("/tmp/data")
  {
    assert EqualsIgnoreCase("PATH", "Path");
    GetUniqueKey(options, "Path", "PATH");
  }

  /** A key whose value is null gives the empty result. */
  lemma ExampleNullValueLookup(options: DataSourceV2Options)
    requires options.Valid() && options.originalMap == ExampleInput()
    ensures options.Get("HEADER") == None
  {
    assert EqualsIgnoreCase("HEADER", "Header");
    GetUniqueKey(options, "Header", "HEADER");
  }

  /** A key that is not there gives the empty result. */
  lemma ExampleAbsentKeyLookup(options: DataSourceV2Options)
    requires options.Valid() && options.originalMap == ExampleInput()
    ensures options.Get("sep") == None
  {
    assert options.originalMap.Keys == {"Path", "Header"};
  }

  /** A client: the contracts of the constructor and of Get are enough to
      predict lookups on a small input. */
  method LookupExample() {
    var options := new DataSourceV2Options(ExampleInput());
    ExampleCaseVariantLookup(options);
    ExampleNullValueLookup(options);
    ExampleAbsentKeyLookup(options);
    assert options.Get("PATH") == Some("/tmp/data");
    assert options.Get("HEADER") == options.Get("sep") == None;
  }
}
