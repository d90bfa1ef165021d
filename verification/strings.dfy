/** String helpers shared by the network helpers and the probability model. */
module Strings {

  /** The text of `s` before the first occurrence of `sep`, or all of `s`
      when `sep` does not occur: Python's `s.split(sep)[0]`. */
  function SplitFirst(s: string, sep: char): (r: string)
    ensures r <= s
    ensures sep !in r
    ensures |r| < |s| ==> s[|r|] == sep
  {
    if |s| == 0 then ""
    else if s[0] == sep then ""
    else [s[0]] + SplitFirst(s[1..], sep)
  }

  /** `SplitFirst` changes nothing once the separator is gone. */
  lemma SplitFirstIdempotent(s: string, sep: char)
    ensures SplitFirst(SplitFirst(s, sep), sep) == SplitFirst(s, sep)
  {
    NoSeparatorUnchanged(SplitFirst(s, sep), sep);
  }

  /** A string without the separator is its own first part. */
  lemma {:induction false} NoSeparatorUnchanged(s: string, sep: char)
    requires sep !in s
    ensures SplitFirst(s, sep) == s
  {
    if |s| > 0 {
      assert s[1..][..] == s[1..];
      assert forall k :: 0 <= k < |s[1..]| ==> s[1..][k] == s[k + 1];
      NoSeparatorUnchanged(s[1..], sep);
      assert s == [s[0]] + s[1..];
    }
  }

  /** Python's `sub in s` on strings: `sub` occurs as a contiguous piece of `s`. */
  predicate ContainsSubstring(s: string, sub: string)
  {
    sub <= s || (|s| > 0 && ContainsSubstring(s[1..], sub))
  }
}
