/**
 * SQLite's text comparisons as the registry's queries use them: the default
 * BINARY collation behind `ORDER BY name` (app.py:62) and the default,
 * ASCII case-insensitive `LIKE` behind `name LIKE 'F%'` (app.py:71).
 *
 * Characters are Unicode scalar values; BINARY compares UTF-8 bytes, and
 * UTF-8 byte order coincides with code point order, so comparing characters
 * gives the same order.
 */
module Collation {

  /** `a <= b` under the BINARY collation: lexicographic, a proper prefix first. */
  predicate NameLe(a: string, b: string)
    decreases |a|
  {
    if a == [] then true
    else if b == [] then false
    else if a[0] != b[0] then a[0] < b[0]
    else NameLe(a[1..], b[1..])
  }

  lemma {:induction false} NameLeReflexive(a: string)
    ensures NameLe(a, a)
  {
    if a != [] {
      NameLeReflexive(a[1..]);
    }
  }

  lemma {:induction false} NameLeTotal(a: string, b: string)
    ensures NameLe(a, b) || NameLe(b, a)
    decreases |a|
  {
    if a != [] && b != [] && a[0] == b[0] {
      NameLeTotal(a[1..], b[1..]);
    }
  }

  lemma {:induction false} NameLeTransitive(a: string, b: string, c: string)
    requires NameLe(a, b) && NameLe(b, c)
    ensures NameLe(a, c)
    decreases |a|
  {
    if a != [] && b != [] && c != [] && a[0] == b[0] && b[0] == c[0] {
      NameLeTransitive(a[1..], b[1..], c[1..]);
    }
  }

  lemma {:induction false} NameLeAntisymmetric(a: string, b: string)
    requires NameLe(a, b) && NameLe(b, a)
    ensures a == b
    decreases |a|
  {
    if a != [] && b != [] {
      NameLeAntisymmetric(a[1..], b[1..]);
      assert a == [a[0]] + a[1..] && b == [b[0]] + b[1..];
    }
  }

  /** SQLite's folding of a character for `LIKE`: ASCII upper case to lower case, nothing else. */
  function AsciiLower(c: char): (l: char)
    ensures l != c <==> 'A' <= c <= 'Z'
    ensures 'A' <= c <= 'Z' ==> l as int == c as int + 32
  {
    if 'A' <= c <= 'Z' then (c as int + 32) as char else c
  }

  /**
   * `s LIKE p || '%'` for a pattern prefix `p` free of wildcards: `s` begins
   * with `p` up to ASCII case.
   */
  predicate LikePrefix(s: string, p: string) {
    |p| <= |s| && forall i :: 0 <= i < |p| ==> AsciiLower(s[i]) == AsciiLower(p[i])
  }

  /** `name LIKE 'F%'` holds exactly for the names whose first character is `F` or `f`. */
  lemma LikeF(name: string)
    ensures LikePrefix(name, "F") <==> |name| > 0 && (name[0] == 'F' || name[0] == 'f')
  {
  }
}
