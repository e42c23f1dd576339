/** The two string operations the search relies on: lower-casing (Python's
    `str.lower`, restricted here to ASCII letters) and the substring test
    (Python's `needle in hay` on two strings). */
module Strings {

  /** ASCII lower-casing of one character; every other character is kept. */
  function LowerChar(c: char): char {
    if 'A' <= c <= 'Z' then (c as int + 32) as char else c
  }

  /** ASCII upper-casing of one character; every other character is kept. */
  function UpperChar(c: char): char {
    if 'a' <= c <= 'z' then (c as int - 32) as char else c
  }

  /** `s.lower()`, character by character. */
  function Lower(s: string): string {
    seq(|s|, i requires 0 <= i < |s| => LowerChar(s[i]))
  }

  /** `s.upper()`, character by character. */
  function Upper(s: string): string {
    seq(|s|, i requires 0 <= i < |s| => UpperChar(s[i]))
  }

  /** No ASCII upper-case letter is left in a lower-cased string. */
  predicate NoUpper(s: string) {
    forall i :: 0 <= i < |s| ==> !('A' <= s[i] <= 'Z')
  }

  /** Lower-casing keeps the length, removes every upper-case letter, and
      changes nothing in a string that has none. */
  lemma LowerNormalises(s: string)
    ensures |Lower(s)| == |s|
    ensures NoUpper(Lower(s))
    ensures NoUpper(s) ==> Lower(s) == s
  {
  }

  /** Lower-casing is idempotent. */
  lemma LowerIdempotent(s: string)
    ensures Lower(Lower(s)) == Lower(s)
  {
  }

  /** Changing the case of a string first does not change its lower-cased
      form: `s.upper().lower() == s.lower()` for ASCII. */
  lemma LowerOfUpper(s: string)
    ensures Lower(Upper(s)) == Lower(s)
  {
  }

  /** The substring test `needle in hay`: `needle` is a prefix of `hay` or
      of one of its suffixes. The empty needle is in every string. */
  function Contains(hay: string, needle: string): bool
    decreases |hay|
  {
    needle <= hay || (hay != [] && Contains(hay[1..], needle))
  }

  /** Reference definition of "occurs as a substring": some position `i`
      of `hay` starts a copy of `needle`. */
  ghost predicate Occurs(needle: string, hay: string) {
    exists i :: 0 <= i <= |hay| && needle <= hay[i..]
  }

  /** `Contains` is exactly the substring relation, in both directions. */
  lemma {:induction false} ContainsIffOccurs(hay: string, needle: string)
    ensures Contains(hay, needle) <==> Occurs(needle, hay)
    decreases |hay|
  {
    if hay == [] {
      if Occurs(needle, hay) {
        var i :| 0 <= i <= |hay| && needle <= hay[i..];
        assert hay[i..] == hay;
      }
    } else {
      ContainsIffOccurs(hay[1..], needle);
      if Contains(hay[1..], needle) {
        var i :| 0 <= i <= |hay[1..]| && needle <= hay[1..][i..];
        assert hay[1..][i..] == hay[i + 1..];
      }
      if Occurs(needle, hay) && !(needle <= hay) {
        var i :| 0 <= i <= |hay| && needle <= hay[i..];
        assert i != 0 by { assert hay[0..] == hay; }
        assert hay[1..][i - 1..] == hay[i..];
      }
    }
  }

  /** A needle is never found in a shorter string. */
  lemma {:induction false} ContainsNeedsRoom(hay: string, needle: string)
    ensures Contains(hay, needle) ==> |needle| <= |hay|
    decreases |hay|
  {
    if hay != [] {
      ContainsNeedsRoom(hay[1..], needle);
    }
  }
}
