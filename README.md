# Case-insensitive data source options

A Dafny model of `DataSourceV2Options`, the options object handed to a
version-2 data source in Spark SQL: an immutable string-to-string map whose
keys are case-insensitive. The constructor copies an input map, storing every
value under its key lower-cased; `get` lower-cases the requested key, looks it
up and wraps the answer in an `Optional`, so that an absent key and a key
stored with a `null` value both give the empty result.

Files:

- `wrappers.dfy` (module `Wrappers`): `Option` for `java.util.Optional`,
  `JavaString` for a nullable Java `String`, and `OfNullable` for
  `Optional.ofNullable`.
- `case_folding.dfy` (module `CaseFolding`): the private `toLowerCase` helper,
  modelled as ASCII case folding, together with an independent reference
  notion of equality ignoring case (`EqualsIgnoreCase`) and the lemmas tying
  the two together.
- `data_source_v2_options.dfy` (module `SourcesV2`): the class
  `DataSourceV2Options`, the predicate `LowerCasedView` that says what the
  constructor builds, and the lemmas about lookups.

How the source's form is kept:

- The field `keyLowerCasedMap` is `final` and is never written after the
  constructor returns; in the model it is a `const` field of the class. `Get`
  therefore needs no `reads` clause: no change to the heap can change what a
  lookup returns, which is how the model states that the object is immutable.
- The constructor is the source's loop over `originalMap.entrySet()`. The
  order of a `HashMap`'s entries is unspecified, so the loop picks the next
  key nondeterministically (`var key :| key in remaining`). Each step `put`s
  the value under the lower-cased key, so a later entry whose key collides
  with an earlier one overwrites it. The contract therefore promises only
  that the value stored under a key is the value of SOME input entry that
  lower-cases to it (`LowerCasedView`).
- The input map is a Dafny `map` value: the constructor cannot modify it, and
  later changes made by the caller to their own map cannot reach the copy,
  as in the source, which copies the entries into a fresh `HashMap`.
- Java `HashMap.get` returns `null` for a missing key; `MapGet` does the same,
  and `Get` applies `OfNullable` to it.

## Model

| member | source | states |
|---|---|---|
| `Wrappers.OfNullable` | sql/core/src/main/java/org/apache/spark/sql/sources/v2/DataSourceV2Options.java:50 | the result is empty exactly when the reference is null, and otherwise holds the referenced string |
| `CaseFolding.ToLowerChar` | sql/core/src/main/java/org/apache/spark/sql/sources/v2/DataSourceV2Options.java:35-37 | a lowered character is not an upper-case letter and is a case variant of the original |
| `CaseFolding.ToLowerCase` | sql/core/src/main/java/org/apache/spark/sql/sources/v2/DataSourceV2Options.java:35-37 | the lowered key has the same length, contains no upper-case letter, and equals the original ignoring case |
| `CaseFolding.LowerCasedVariantIsUnique` | sql/core/src/main/java/org/apache/spark/sql/sources/v2/DataSourceV2Options.java:35-37 | a string has only one case variant without upper-case letters, so the contract of `ToLowerCase` determines its result |
| `CaseFolding.LowerCasedIsFixedPoint` | sql/core/src/main/java/org/apache/spark/sql/sources/v2/DataSourceV2Options.java:35-37 | lower-casing a string that has no upper-case letter returns it unchanged |
| `CaseFolding.ToLowerCaseIsIdempotent` | sql/core/src/main/java/org/apache/spark/sql/sources/v2/DataSourceV2Options.java:35-37 | lower-casing twice is the same as lower-casing once |
| `CaseFolding.CharEqualsIgnoreCaseThrough` | sql/core/src/main/java/org/apache/spark/sql/sources/v2/DataSourceV2Options.java:35-37 | two characters that are case variants of a common character are case variants of each other |
| `CaseFolding.SameLowerCaseIffEqualsIgnoreCase` | sql/core/src/main/java/org/apache/spark/sql/sources/v2/DataSourceV2Options.java:46-51 | two keys lower-case to the same string if and only if they are equal ignoring case |
| `SourcesV2.DataSourceV2Options.constructor` | sql/core/src/main/java/org/apache/spark/sql/sources/v2/DataSourceV2Options.java:39-44 | the stored map's keys are exactly the lower-cased input keys, and each stored value is the value of one of the input entries whose key lower-cases to that key |
| `SourcesV2.DataSourceV2Options.Get` | sql/core/src/main/java/org/apache/spark/sql/sources/v2/DataSourceV2Options.java:46-51 | a present result is the non-null value of an input entry equal to the key ignoring case; with no such entry the result is empty; an empty result means no such entry exists or a null-valued one does |
| `SourcesV2.LookupMatchesOriginal` | sql/core/src/main/java/org/apache/spark/sql/sources/v2/DataSourceV2Options.java:39-51 | the lowered probe key is stored if and only if some input key equals the probe ignoring case, and then its value comes from one such entry |
| `SourcesV2.StoredKeysAreLowerCased` | sql/core/src/main/java/org/apache/spark/sql/sources/v2/DataSourceV2Options.java:35-42 | every stored key has no upper-case letter and is a fixed point of lower-casing |
| `SourcesV2.LoweredKeysSize` | sql/core/src/main/java/org/apache/spark/sql/sources/v2/DataSourceV2Options.java:40-43 | lower-casing a key set never enlarges it, and keeps its size if and only if no two keys differ only in case |
| `SourcesV2.StoredSizeAtMostOriginal` | sql/core/src/main/java/org/apache/spark/sql/sources/v2/DataSourceV2Options.java:40-43 | the stored map has at most as many entries as the input, and as many exactly when no input keys collide after lower-casing |
| `SourcesV2.UniqueKeyKeepsValue` | sql/core/src/main/java/org/apache/spark/sql/sources/v2/DataSourceV2Options.java:41-42 | an input key without a case-colliding partner has its value stored under the lowered form of every case variant of it |
| `SourcesV2.GetIgnoresCase` | sql/core/src/main/java/org/apache/spark/sql/sources/v2/DataSourceV2Options.java:46-51 | keys equal ignoring case give the same lookup result |
| `SourcesV2.GetUniqueKey` | sql/core/src/main/java/org/apache/spark/sql/sources/v2/DataSourceV2Options.java:39-51 | for an input key without a case-colliding partner, a lookup of any case variant returns its value, with null read as empty |
| `SourcesV2.ExampleCaseVariantLookup` | sql/core/src/main/java/org/apache/spark/sql/sources/v2/DataSourceV2Options.java:49-51 | on a concrete input, `PATH` finds the value stored as `Path` |
| `SourcesV2.ExampleNullValueLookup` | sql/core/src/main/java/org/apache/spark/sql/sources/v2/DataSourceV2Options.java:49-51 | on a concrete input, a key stored with a null value gives the empty result |
| `SourcesV2.ExampleAbsentKeyLookup` | sql/core/src/main/java/org/apache/spark/sql/sources/v2/DataSourceV2Options.java:49-51 | on a concrete input, a key that no input key matches gives the empty result |

`SourcesV2.LookupExample` is a client method without a contract that
constructs an object and uses the three example lemmas.

## Left out

- Full Unicode lower-casing: `String.toLowerCase(Locale.ROOT)` uses Java's
  Unicode case tables, which are not part of this model. The model folds only
  the ASCII letters 'A'..'Z' and leaves every other character as it is;
  characters whose lower-case form has a different length do not arise.
- `HashMap` hashing and iteration order: not modelled; the loop visits the
  keys in an arbitrary order, and which of several colliding entries wins is
  stated nondeterministically.
- The initial capacity passed to `new HashMap<>(originalMap.size())`: a
  performance hint with no observable effect.
- Null keys: `toLowerCase` on a null key throws in the source; keys are
  non-null strings in the model. Null values are modelled.
- The `@InterfaceStability.Evolving` annotation: no behaviour.
- The columnar vectors, batches, batch codec and the worker exchange session
  of the wider system: their source files are not part of this model.
