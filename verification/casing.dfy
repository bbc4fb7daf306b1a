/**
 Username normalisation. The server lowercases every username before it is
 stored and before it is looked up; this module folds ASCII capitals only
 (the full Unicode case mapping of `toLowerCase` is not modelled).
 */
module Casing {

  /** True of the 26 ASCII capital letters. */
  predicate IsAsciiUpper(c: char) {
    'A' <= c <= 'Z'
  }

  /** Two characters that are equal once ASCII capitals are ignored, stated
      without folding either of them. */
  predicate CharsMatchIgnoringCase(a: char, b: char) {
    || a == b
    || (IsAsciiUpper(a) && b as int == a as int + 32)
    || (IsAsciiUpper(b) && a as int == b as int + 32)
  }

  /** Two strings that are equal once ASCII capitals are ignored. */
  predicate SameIgnoringCase(x: string, y: string) {
    |x| == |y| && forall i :: 0 <= i < |x| ==> CharsMatchIgnoringCase(x[i], y[i])
  }

  /** A string without ASCII capitals. */
  predicate IsLowerCase(s: string) {
    forall i :: 0 <= i < |s| ==> !IsAsciiUpper(s[i])
  }

  /** Folds one character. */
  function LowerChar(c: char): (d: char)
    ensures !IsAsciiUpper(d)
    ensures CharsMatchIgnoringCase(c, d)
  {
    if IsAsciiUpper(c) then (c as int + 32) as char else c
  }

  /** Folds a whole string, character by character. */
  function ToLower(s: string): (r: string)
    ensures |r| == |s|
    ensures IsLowerCase(r)
    ensures SameIgnoringCase(s, r)
  {
    if s == [] then [] else [LowerChar(s[0])] + ToLower(s[1..])
  }

  lemma {:induction false} ToLowerAt(s: string, i: nat)
    requires i < |s|
    ensures ToLower(s)[i] == LowerChar(s[i])
  {
    if i > 0 {
      ToLowerAt(s[1..], i - 1);
    }
  }

  /** Folding two characters gives the same result exactly when they match
      ignoring case. */
  lemma LowerCharAgreesIffMatch(a: char, b: char)
    ensures LowerChar(a) == LowerChar(b) <==> CharsMatchIgnoringCase(a, b)
  {
  }

  /** Two usernames land on the same key exactly when they are equal ignoring
      ASCII case: this is what makes registration and login case-insensitive. */
  lemma {:induction false} ToLowerEqualIffSameIgnoringCase(x: string, y: string)
    ensures ToLower(x) == ToLower(y) <==> SameIgnoringCase(x, y)
  {
    if ToLower(x) == ToLower(y) {
      forall i | 0 <= i < |x|
        ensures CharsMatchIgnoringCase(x[i], y[i])
      {
        ToLowerAt(x, i);
        ToLowerAt(y, i);
        LowerCharAgreesIffMatch(x[i], y[i]);
      }
    }
    if SameIgnoringCase(x, y) {
      forall i | 0 <= i < |x|
        ensures ToLower(x)[i] == ToLower(y)[i]
      {
        ToLowerAt(x, i);
        ToLowerAt(y, i);
        LowerCharAgreesIffMatch(x[i], y[i]);
      }
    }
  }

  /** A string is already normalised exactly when folding leaves it as it is;
      in particular folding twice is folding once. */
  lemma {:induction false} LowerCaseIffFixedPoint(s: string)
    ensures IsLowerCase(s) <==> ToLower(s) == s
    ensures ToLower(ToLower(s)) == ToLower(s)
  {
    if IsLowerCase(s) {
      forall i | 0 <= i < |s|
        ensures ToLower(s)[i] == s[i]
      {
        ToLowerAt(s, i);
      }
    }
    var t := ToLower(s);
    forall i | 0 <= i < |t|
      ensures ToLower(t)[i] == t[i]
    {
      ToLowerAt(t, i);
    }
  }
}
