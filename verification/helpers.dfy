/** `helpers`: `capitalize`. Upper-casing is modelled on ASCII letters, where
    it maps one character to one character. */
module Helpers {
  import opened Common

  /** `str.charAt(0).toUpperCase() + str.slice(1)`. */
  function Capitalize(s: string): (r: string)
    ensures |r| == |s|
    ensures s == "" ==> r == ""
    ensures |s| > 0 ==> r[0] == ToUpperChar(s[0]) && !IsAsciiLower(r[0])
    ensures forall i :: 1 <= i < |s| ==> r[i] == s[i]
  {
    if |s| == 0 then "" else [ToUpperChar(s[0])] + s[1..]
  }

  /** Capitalising twice is capitalising once, and the result differs from
      the input at most in the case of its first letter. */
  lemma CapitalizeIdempotent(s: string)
    ensures Capitalize(Capitalize(s)) == Capitalize(s)
    ensures |s| > 0 ==> ToLowerChar(Capitalize(s)[0]) == ToLowerChar(s[0])
  {
    if |s| > 0 {
      assert Capitalize(s)[1..] == s[1..];
    }
  }
}
