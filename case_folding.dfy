/** Lower-casing of option keys, `key.toLowerCase(Locale.ROOT)`, restricted
    to the ASCII letters: 'A'..'Z' become 'a'..'z', every other character is
    kept as it is. */
module CaseFolding {

  predicate IsUpperAscii(c: char) {
    'A' <= c <= 'Z'
  }

  predicate IsLowerAscii(c: char) {
    'a' <= c <= 'z'
  }

  /** Two characters are the same letter up to case: equal, or an ASCII
      upper-case letter and its lower-case partner (32 code points apart). */
  predicate CharEqualsIgnoreCase(a: char, b: char) {
    || a == b
    || (IsUpperAscii(a) && IsLowerAscii(b) && b as int == a as int + 32)
    || (IsLowerAscii(a) && IsUpperAscii(b) && a as int == b as int + 32)
  }

  /** The reference notion of "the same key, ignoring case". */
  predicate EqualsIgnoreCase(a: string, b: string) {
    |a| == |b| && forall i :: 0 <= i < |a| ==> CharEqualsIgnoreCase(a[i], b[i])
  }

  /** A string with no upper-case letter in it. */
  predicate IsLowerCased(s: string) {
    forall i :: 0 <= i < |s| ==> !IsUpperAscii(s[i])
  }

  function ToLowerChar(c: char): (r: char)
    ensures !IsUpperAscii(r) && CharEqualsIgnoreCase(c, r)
  {
    if IsUpperAscii(c) then (c as int + 32) as char else c
  }

  /** `toLowerCase(key)`: the result is a case variant of `key`, position by
      position, with no upper-case letter left. These two facts determine the
      result completely (see LowerCasedVariantIsUnique). */
  function ToLowerCase(key: string): (r: string)
    ensures |r| == |key| && IsLowerCased(r) && EqualsIgnoreCase(key, r)
  {
    if key == [] then [] else [ToLowerChar(key[0])] + ToLowerCase(key[1..])
  }

  /** Of the case variants of a string, only one has no upper-case letter. */
  lemma LowerCasedVariantIsUnique(s: string, r1: string, r2: string)
    requires EqualsIgnoreCase(s, r1) && IsLowerCased(r1)
    requires EqualsIgnoreCase(s, r2) && IsLowerCased(r2)
    ensures r1 == r2
  {
    assert |r1| == |r2|;
    forall i | 0 <= i < |r1| ensures r1[i] == r2[i] {
      assert CharEqualsIgnoreCase(s[i], r1[i]) && CharEqualsIgnoreCase(s[i], r2[i]);
    }
  }

  /** A key that is already lower-cased is a fixed point of ToLowerCase. */
  lemma {:induction false} LowerCasedIsFixedPoint(s: string)
    requires IsLowerCased(s)
    ensures ToLowerCase(s) == s
  {
    if s != [] {
      assert IsLowerCased(s[1..]) by {
        forall i | 0 <= i < |s[1..]| ensures !IsUpperAscii(s[1..][i]) {
          assert s[1..][i] == s[i + 1];
        }
      }
      LowerCasedIsFixedPoint(s[1..]);
    }
  }

  /** Lower-casing twice is lower-casing once. */
  lemma ToLowerCaseIsIdempotent(s: string)
    ensures ToLowerCase(ToLowerCase(s)) == ToLowerCase(s)
  {
    LowerCasedIsFixedPoint(ToLowerCase(s));
  }

  /** Case variants are an equivalence: two characters that are each a case
      variant of the same character are case variants of each other. */
  lemma CharEqualsIgnoreCaseThrough(a: char, m: char, b: char)
    requires CharEqualsIgnoreCase(a, m) && CharEqualsIgnoreCase(b, m)
    ensures CharEqualsIgnoreCase(a, b)
  {
  }

  /** Two keys lower-case to the same string exactly when they are equal
      ignoring case, which is what makes lookups case-insensitive. */
  lemma SameLowerCaseIffEqualsIgnoreCase(a: string, b: string)
    ensures ToLowerCase(a) == ToLowerCase(b) <==> EqualsIgnoreCase(a, b)
  {
    var la, lb := ToLowerCase(a), ToLowerCase(b);
    if la == lb {
      forall i | 0 <= i < |a| ensures CharEqualsIgnoreCase(a[i], b[i]) {
        CharEqualsIgnoreCaseThrough(a[i], la[i], b[i]);
      }
    }
    if EqualsIgnoreCase(a, b) {
      assert EqualsIgnoreCase(a, lb) by {
        forall i | 0 <= i < |a| ensures CharEqualsIgnoreCase(a[i], lb[i]) {
          CharEqualsIgnoreCaseThrough(lb[i], b[i], a[i]);
        }
      }
      LowerCasedVariantIsUnique(a, la, lb);
    }
  }
}
