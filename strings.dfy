/**
 * Strings as the sign-in hook uses them: a string is a sequence of
 * characters, and the only operation it needs is the suffix test of
 * JavaScript's `String.prototype.endsWith`.
 */
module Strings {

  /**
   * `s.endsWith(suffix)` with no position argument: compares `suffix` with the
   * characters at the very end of `s`, last character first, exactly
   * (no case folding, no trimming). The empty suffix ends every string.
   */
  function EndsWith(s: string, suffix: string): (r: bool)
    ensures r <==> |suffix| <= |s| && s[|s| - |suffix|..] == suffix
    decreases |suffix|
  {
    if |suffix| == 0 then
      true
    else if |s| == 0 then
      false
    else
      var rest := EndsWith(s[..|s| - 1], suffix[..|suffix| - 1]);
      assert s == s[..|s| - 1] + [s[|s| - 1]];
      assert suffix == suffix[..|suffix| - 1] + [suffix[|suffix| - 1]];
      assert |suffix| <= |s| ==>
        s[|s| - |suffix|..] == s[..|s| - 1][|s| - |suffix|..] + [s[|s| - 1]];
      s[|s| - 1] == suffix[|suffix| - 1] && rest
  }

  /**
   * `s` ends with `suffix` exactly when `s` is some (possibly empty) prefix
   * followed by `suffix`: whatever comes before the suffix is unconstrained.
   */
  lemma EndsWithIffSplit(s: string, suffix: string)
    ensures EndsWith(s, suffix) <==> exists front: string :: s == front + suffix
  {
    if EndsWith(s, suffix) {
      var front := s[..|s| - |suffix|];
      assert s == front + suffix;
    }
    if exists front: string :: s == front + suffix {
      var front: string :| s == front + suffix;
      assert s[|front|..] == suffix;
    }
  }
}
