/** Runs of one character: padding, leading zeros, repeated delimiters. */
module Runs {

  function Repeat(c: char, k: nat): (s: string)
    ensures |s| == k && forall i :: 0 <= i < k ==> s[i] == c
  {
    seq(k, _ => c)
  }
}
