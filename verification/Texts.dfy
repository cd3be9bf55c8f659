/** Searching a text. */
module Texts {

  /** `s.find(c)`, the length of the text standing for `npos`. */
  function FindChar(s: string, c: char): (n: nat)
    ensures n <= |s| && (n < |s| ==> s[n] == c)
    ensures forall k :: 0 <= k < n ==> s[k] != c
  {
    if s == "" || s[0] == c then 0
    else
      var n := FindChar(s[1..], c);
      assert forall k :: 1 <= k < n + 1 ==> s[k] == s[1..][k - 1];
      n + 1
  }
}
