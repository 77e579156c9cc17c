/** The string operations the locale pipeline relies on, each as JavaScript
    defines it on the inputs the pipeline gives it. */
module Strings {

  /** `s.split(sep)[0]`: the text before the first `sep`, or all of `s`
      when `sep` does not occur. */
  function BeforeFirst(s: string, sep: char): (r: string)
    ensures r <= s
    ensures sep !in r
    ensures r == s || s[|r|] == sep
  {
    if s == [] || s[0] == sep then [] else [s[0]] + BeforeFirst(s[1..], sep)
  }

  /** The three facts above pin the first segment down: any prefix free of
      `sep` that ends at `sep` or at the end of `s` is that segment. */
  lemma BeforeFirstIsUnique(s: string, sep: char, k: nat)
    requires k <= |s|
    requires sep !in s[..k]
    requires k == |s| || s[k] == sep
    ensures BeforeFirst(s, sep) == s[..k]
  {
    var r := BeforeFirst(s, sep);
    if |r| < k {
      assert false;
    } else if |r| > k {
      assert false;
    }
  }

  /** A prefix free of `sep` lies inside the first segment. */
  lemma {:induction false} BeforeFirstCoversFreePrefix(s: string, sep: char, k: nat)
    requires k <= |s|
    requires sep !in s[..k]
    ensures s[..k] <= BeforeFirst(s, sep)
  {
    if k > 0 {
      assert s[0] == s[..k][0];
      assert s[1..][..k - 1] == s[..k][1..];
      BeforeFirstCoversFreePrefix(s[1..], sep, k - 1);
    }
  }

  /** The last `sep`-separated segment of `s`: the text after the last
      `sep`, or all of `s` when `sep` does not occur. */
  function AfterLast(s: string, sep: char): (r: string)
    ensures |r| <= |s| && r == s[|s| - |r|..]
    ensures sep !in r
    ensures r == s || s[|s| - |r| - 1] == sep
  {
    if s == [] || s[|s| - 1] == sep then []
    else AfterLast(s[..|s| - 1], sep) + [s[|s| - 1]]
  }

  /** Joining with `sep` and taking the last segment gives back the part
      after the separator, whatever comes before it. */
  lemma {:induction false} AfterLastOfJoin(a: string, sep: char, b: string)
    requires sep !in b
    ensures AfterLast(a + [sep] + b, sep) == b
  {
    var s := a + [sep] + b;
    if b != [] {
      var init := b[..|b| - 1];
      assert s[..|s| - 1] == a + [sep] + init;
      AfterLastOfJoin(a, sep, init);
      assert b == init + [b[|b| - 1]];
    }
  }

  /** `toLowerCase` on one character, for the ASCII letters A-Z. */
  function LowerChar(c: char): char
  {
    if 'A' <= c <= 'Z' then (c as int + 32) as char else c
  }

  /** `s.toLowerCase()`, character by character. */
  function ToLower(s: string): (r: string)
    ensures |r| == |s|
    ensures forall i :: 0 <= i < |s| ==> r[i] == LowerChar(s[i])
  {
    if s == [] then [] else [LowerChar(s[0])] + ToLower(s[1..])
  }
}
