/** Lower-casing of command names, as done by Go's strings.ToLower.

    The model is ASCII-only: it maps 'A'..'Z' to 'a'..'z' and leaves every
    other character as it is. Go's function also lowers non-ASCII letters
    through the Unicode case tables, which this model does not.
 */
module Strings {

  /** An ASCII upper-case letter. */
  predicate IsUpper(c: char) {
    'A' <= c <= 'Z'
  }

  /** Lower-cases one character; exactly the upper-case letters change. */
  function LowerChar(c: char): (d: char)
    ensures !IsUpper(d)
    ensures d != c <==> IsUpper(c)
    ensures IsUpper(c) ==> d as int == c as int - 'A' as int + 'a' as int
  {
    if IsUpper(c) then (c as int - 'A' as int + 'a' as int) as char else c
  }

  /** True when some character of `s` is an upper-case letter. */
  predicate HasUpper(s: string) {
    exists i :: 0 <= i < |s| && IsUpper(s[i])
  }

  /** strings.ToLower, character by character. */
  function ToLower(s: string): (r: string)
    ensures |r| == |s|
    ensures forall i :: 0 <= i < |s| ==> r[i] == LowerChar(s[i])
    ensures !HasUpper(r)
  {
    if s == [] then [] else [LowerChar(s[0])] + ToLower(s[1..])
  }

  /** Lower-casing twice is lower-casing once. */
  lemma ToLowerIdempotent(s: string)
    ensures ToLower(ToLower(s)) == ToLower(s)
  {
  }

  /** A string is its own lower-case form exactly when it has no upper-case letter. */
  lemma ToLowerFixpoint(s: string)
    ensures ToLower(s) == s <==> !HasUpper(s)
  {
  }
}
