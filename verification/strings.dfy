/** The one string operation the planner relies on besides concatenation. */
module Strings {

  /** `s` with every occurrence of `pat` removed, scanning left to right and
      resuming after each match: the ordinal `String.Replace(pat, "")`. */
  function RemoveAll(s: string, pat: string): (r: string)
    requires pat != []
    ensures |r| <= |s|
    decreases |s|
  {
    if |s| < |pat| then s
    else if s[..|pat|] == pat then RemoveAll(s[|pat|..], pat)
    else [s[0]] + RemoveAll(s[1..], pat)
  }

  /** A leading occurrence of the pattern is removed and the scan goes on
      with what follows it. */
  lemma RemoveAllLeading(pat: string, s: string)
    requires pat != []
    ensures RemoveAll(pat + s, pat) == RemoveAll(s, pat)
  {
    assert (pat + s)[..|pat|] == pat;
    assert (pat + s)[|pat|..] == s;
  }

  /** A string that never contains the pattern's first character is left
      unchanged. */
  lemma {:induction false} RemoveAllWithoutFirstChar(s: string, pat: string)
    requires pat != []
    requires pat[0] !in s
    ensures RemoveAll(s, pat) == s
  {
    if |s| >= |pat| {
      assert s[..|pat|] != pat by {
        assert s[0] in s;
      }
      assert pat[0] !in s[1..] by {
        forall i | 0 <= i < |s| - 1 ensures s[1..][i] != pat[0] {
          assert s[1..][i] == s[i + 1];
        }
      }
      RemoveAllWithoutFirstChar(s[1..], pat);
      assert s == [s[0]] + s[1..];
    }
  }
}
