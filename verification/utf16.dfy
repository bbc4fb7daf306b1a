/**
 String length as JavaScript measures it. `password.length` counts UTF-16
 code units, so a character outside the Basic Multilingual Plane counts twice;
 a Dafny string counts Unicode scalar values.
 */
module Utf16 {

  /** True of a character that UTF-16 encodes in one code unit. */
  predicate InBasicPlane(c: char) {
    c as int < 0x1_0000
  }

  /** Number of UTF-16 code units that encode `c`: a surrogate pair outside
      the Basic Multilingual Plane. */
  function UnitsOf(c: char): nat {
    if InBasicPlane(c) then 1 else 2
  }

  /** The JavaScript `length` of `s`. */
  function Length(s: string): (n: nat)
    ensures |s| <= n <= 2 * |s|
    ensures n == |s| <==> forall i :: 0 <= i < |s| ==> InBasicPlane(s[i])
    ensures n == 2 * |s| <==> forall i :: 0 <= i < |s| ==> !InBasicPlane(s[i])
    ensures |s| == 1 ==> n == UnitsOf(s[0])
  {
    if s == [] then 0
    else
      assert forall i :: 1 <= i < |s| ==> s[1..][i - 1] == s[i];
      UnitsOf(s[0]) + Length(s[1..])
  }

  /** Length is additive over concatenation; with the one-character case it
      fixes the length of every string: one unit per character plus one more
      per character outside the Basic Multilingual Plane. */
  lemma {:induction false} LengthAppend(a: string, b: string)
    ensures Length(a + b) == Length(a) + Length(b)
  {
    if a == [] {
      assert a + b == b;
    } else {
      assert (a + b)[1..] == a[1..] + b;
      LengthAppend(a[1..], b);
    }
  }
}
