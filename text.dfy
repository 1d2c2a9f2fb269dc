/** Upper-casing of surnames (`last.text.upper()` in bin/fix-names.py),
    restricted to the ASCII letters. */
module Text {

  /** An ASCII lower-case letter. */
  predicate IsLower(c: char) {
    'a' <= c <= 'z'
  }

  /** The upper-case form of one character: `a`..`z` map to `A`..`Z`,
      every other character is left alone. */
  function UpperChar(c: char): (u: char)
    ensures !IsLower(u)
    ensures u == c <==> !IsLower(c)
  {
    if IsLower(c) then (c as int - 32) as char else c
  }

  /** A string with no lower-case letter left in it. */
  predicate NoLower(s: string) {
    forall i :: 0 <= i < |s| ==> !IsLower(s[i])
  }

  /** The upper-case form of a string, character by character. */
  function Upper(s: string): (r: string)
    ensures |r| == |s|
    ensures forall i :: 0 <= i < |s| ==> r[i] == UpperChar(s[i])
  {
    if s == [] then [] else [UpperChar(s[0])] + Upper(s[1..])
  }

  /** Upper-casing leaves no lower-case letter behind. */
  lemma UpperNoLower(s: string)
    ensures NoLower(Upper(s))
  {
  }

  /** A string is its own upper-case form exactly when it has no
      lower-case letter. */
  lemma UpperFixed(s: string)
    ensures Upper(s) == s <==> NoLower(s)
  {
    if NoLower(s) {
      assert forall i :: 0 <= i < |s| ==> Upper(s)[i] == s[i];
    } else {
      var i :| 0 <= i < |s| && IsLower(s[i]);
      assert Upper(s)[i] != s[i];
    }
  }

  /** Upper-casing twice is upper-casing once. */
  lemma UpperIdempotent(s: string)
    ensures Upper(Upper(s)) == Upper(s)
  {
    UpperNoLower(s);
    UpperFixed(Upper(s));
  }
}
