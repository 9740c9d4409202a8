/** Currency symbols and their normalisation to upper case. */
module Symbols {

  /** True when `c` is an ASCII lower-case letter. */
  predicate IsLower(c: char) {
    'a' <= c <= 'z'
  }

  /** Upper-cases one character: an ASCII lower-case letter becomes its capital, anything else is kept. */
  function UpperChar(c: char): (u: char)
    ensures !IsLower(u)
    ensures !IsLower(c) ==> u == c
    ensures IsLower(c) ==> u as int + 32 == c as int
  {
    if IsLower(c) then (c as int - 32) as char else c
  }

  /**
   * The normaliser applied to every currency symbol (Python's `str.upper`,
   * restricted to ASCII): same length, no lower-case letter left, every
   * lower-case letter replaced by its capital, and every other character
   * kept where it was.
   */
  function Upper(s: string): (u: string)
    ensures |u| == |s|
    ensures forall i :: 0 <= i < |u| ==> !IsLower(u[i])
    ensures forall i :: 0 <= i < |s| && IsLower(s[i]) ==> u[i] as int + 32 == s[i] as int
    ensures forall i :: 0 <= i < |s| && !IsLower(s[i]) ==> u[i] == s[i]
  {
    seq(|s|, i requires 0 <= i < |s| => UpperChar(s[i]))
  }

  /** A symbol with no lower-case letter is already normalised. */
  lemma UpperKeepsNormalised(s: string)
    requires forall i :: 0 <= i < |s| ==> !IsLower(s[i])
    ensures Upper(s) == s
  {
  }

  /** True when `c` and `d` are equal or are the two cases of one ASCII letter. */
  predicate SameLetter(c: char, d: char) {
    c == d
    || (IsLower(c) && c as int == d as int + 32)
    || (IsLower(d) && d as int == c as int + 32)
  }

  /**
   * Symbols that differ only in the case of their ASCII letters normalise
   * to the same string, so every lookup by normalised symbol is blind to case.
   */
  lemma UpperCaseBlind(s: string, t: string)
    requires |s| == |t|
    requires forall i :: 0 <= i < |s| ==> SameLetter(s[i], t[i])
    ensures Upper(s) == Upper(t)
  {
    forall i | 0 <= i < |s|
      ensures Upper(s)[i] == Upper(t)[i]
    {
      assert SameLetter(s[i], t[i]);
    }
  }

  /** Normalising twice is normalising once. */
  lemma UpperIdempotent(s: string)
    ensures Upper(Upper(s)) == Upper(s)
  {
  }
}
