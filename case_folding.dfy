/**
 * ASCII case folding, standing for `String.toLowerCase()` in Java and `LOWER(...)` in SQL,
 * which the name search uses to compare names without regard to letter case.
 */
module CaseFolding {

  predicate IsUpper(c: char) { 'A' <= c <= 'Z' }

  function LowerChar(c: char): char
  {
    if IsUpper(c) then (c as int + 32) as char else c
  }

  /** The lower-cased string: same length, every character lower-cased. */
  function Lower(s: string): (r: string)
    ensures |r| == |s|
    ensures forall i :: 0 <= i < |s| ==> r[i] == LowerChar(s[i])
  {
    if s == [] then [] else [LowerChar(s[0])] + Lower(s[1..])
  }

  /** Two characters are the same letter up to case: equal, or one the upper-case form of the other. */
  predicate SameIgnoringCase(c: char, d: char)
  {
    c == d || (IsUpper(c) && d == (c as int + 32) as char) || (IsUpper(d) && c == (d as int + 32) as char)
  }

  /** Two strings differ only in the letter case of some of their characters. */
  predicate EqualIgnoringCase(a: string, b: string)
  {
    |a| == |b| && forall i :: 0 <= i < |a| ==> SameIgnoringCase(a[i], b[i])
  }

  lemma LowerCharAgrees(c: char, d: char)
    ensures LowerChar(c) == LowerChar(d) <==> SameIgnoringCase(c, d)
  {
  }

  /** Lower-casing identifies exactly the strings that differ only in letter case. */
  lemma LowerEqualIff(a: string, b: string)
    ensures Lower(a) == Lower(b) <==> EqualIgnoringCase(a, b)
  {
    if Lower(a) == Lower(b) {
      forall i | 0 <= i < |a| ensures SameIgnoringCase(a[i], b[i]) {
        LowerCharAgrees(a[i], b[i]);
      }
    }
    if EqualIgnoringCase(a, b) {
      forall i | 0 <= i < |a| ensures Lower(a)[i] == Lower(b)[i] {
        LowerCharAgrees(a[i], b[i]);
      }
    }
  }

  /** The search example: "Ada", "ada" and "ADA" fold to the same string. */
  lemma AdaExample()
    ensures Lower("Ada") == Lower("ada") == Lower("ADA") == "ada"
  {
    LowerEqualIff("Ada", "ada");
    LowerEqualIff("ADA", "ada");
    assert Lower("ada") == "ada";
  }
}
