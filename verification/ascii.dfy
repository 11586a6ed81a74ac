/** ASCII case folding and case-insensitive suffix matching.

    A JavaScript regular expression with the `i` flag and without the `u` flag
    canonicalises characters by upper-casing them, but refuses to map a
    non-ASCII character onto an ASCII one.  For patterns made of ASCII letters
    and `.`, as used by the zstd handler, that is exactly ASCII case folding. */
module Ascii {

  predicate IsUpper(c: char) {
    'A' <= c <= 'Z'
  }

  /** Lower-cases ASCII letters and leaves every other character alone. */
  function ToLower(c: char): (r: char)
    ensures !IsUpper(r)
    ensures IsUpper(c) || r == c
  {
    if IsUpper(c) then (c as int + 32) as char else c
  }

  /** The string with every ASCII upper-case letter lower-cased. */
  function Fold(s: string): (r: string)
    ensures |r| == |s|
    ensures forall i :: 0 <= i < |s| ==> r[i] == ToLower(s[i])
  {
    seq(|s|, i requires 0 <= i < |s| => ToLower(s[i]))
  }

  lemma FoldSlice(s: string, lo: int, hi: int)
    requires 0 <= lo <= hi <= |s|
    ensures Fold(s[lo..hi]) == Fold(s)[lo..hi]
  {
  }

  lemma FoldAppend(a: string, b: string)
    ensures Fold(a + b) == Fold(a) + Fold(b)
  {
    assert forall i :: 0 <= i < |a + b| ==> Fold(a + b)[i] == (Fold(a) + Fold(b))[i];
  }

  /** Matching a non-empty suffix folded is matching its last character
      folded and then the remaining suffix against the remaining string. */
  lemma FoldedSuffixStep(s: string, suffix: string)
    requires s != [] && suffix != []
    ensures var s', suffix' := s[..|s| - 1], suffix[..|suffix| - 1];
      (|suffix| <= |s| && Fold(s[|s| - |suffix|..]) == Fold(suffix))
      <==>
      (ToLower(s[|s| - 1]) == ToLower(suffix[|suffix| - 1])
       && |suffix'| <= |s'| && Fold(s'[|s'| - |suffix'|..]) == Fold(suffix'))
  {
    var s', suffix' := s[..|s| - 1], suffix[..|suffix| - 1];
    assert suffix == suffix' + [suffix[|suffix| - 1]];
    FoldAppend(suffix', [suffix[|suffix| - 1]]);
    if |suffix| <= |s| {
      assert s[|s| - |suffix|..] == s'[|s'| - |suffix'|..] + [s[|s| - 1]];
      FoldAppend(s'[|s'| - |suffix'|..], [s[|s| - 1]]);
    }
  }

  /** Case-insensitive (ASCII) test that `s` ends with `suffix`, comparing
      from the last character backwards. */
  function EndsWithIgnoringCase(s: string, suffix: string): (b: bool)
    ensures b <==> |suffix| <= |s| && Fold(s[|s| - |suffix|..]) == Fold(suffix)
    decreases |suffix|
  {
    if suffix == [] then
      true
    else if s == [] then
      false
    else
      FoldedSuffixStep(s, suffix);
      ToLower(s[|s| - 1]) == ToLower(suffix[|suffix| - 1])
      && EndsWithIgnoringCase(s[..|s| - 1], suffix[..|suffix| - 1])
  }
}
