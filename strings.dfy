/** First-occurrence substring search and replacement on strings, the part of
    JavaScript's `String.prototype.replace` with a string pattern that the
    feed pipeline relies on. */
module Strings {

  import opened Wrappers

  /** `pat` occurs in `s` starting at index `i`. */
  predicate OccursAt(s: string, pat: string, i: nat) {
    i + |pat| <= |s| && s[i..i + |pat|] == pat
  }

  /** `pat` occurs somewhere in `s`. */
  ghost predicate Contains(s: string, pat: string) {
    exists i: nat :: OccursAt(s, pat, i)
  }

  /** `i` is the leftmost index at which `pat` occurs in `s`. */
  ghost predicate FirstOccurrence(s: string, pat: string, i: nat) {
    OccursAt(s, pat, i) && forall j: nat :: j < i ==> !OccursAt(s, pat, j)
  }

  /** The leftmost index, not below `from`, at which `pat` occurs in `s`. */
  function IndexOfFrom(s: string, pat: string, from: nat): (r: Option<nat>)
    decreases |s| - from
    ensures r.Some? ==> from <= r.value && OccursAt(s, pat, r.value)
    ensures r.Some? ==> forall j: nat :: from <= j < r.value ==> !OccursAt(s, pat, j)
    ensures r.None? ==> forall j: nat :: from <= j ==> !OccursAt(s, pat, j)
  {
    if from + |pat| > |s| then None
    else if s[from..from + |pat|] == pat then Some(from)
    else
      assert |pat| > 0;
      IndexOfFrom(s, pat, from + 1)
  }

  /** The leftmost index at which `pat` occurs in `s`, or None when it does not occur. */
  function IndexOf(s: string, pat: string): (r: Option<nat>)
    ensures r.Some? <==> Contains(s, pat)
    ensures r.Some? ==> FirstOccurrence(s, pat, r.value)
  {
    IndexOfFrom(s, pat, 0)
  }

  /** `s` with the first occurrence of `pat` replaced by `rep`; `s` itself when
      `pat` does not occur. */
  function ReplaceFirst(s: string, pat: string, rep: string): (r: string)
    ensures !Contains(s, pat) ==> r == s
    ensures forall i: nat :: FirstOccurrence(s, pat, i) ==>
      r == s[..i] + rep + s[i + |pat|..]
  {
    match IndexOf(s, pat)
    case None => s
    case Some(i) => s[..i] + rep + s[i + |pat|..]
  }

  /** An occurrence of `pat` at `i` is the first one when the second
      character of `pat` does not occur in `s` at positions 1 to `i`. */
  lemma FirstOccurrenceBySecondChar(s: string, pat: string, i: nat)
    requires |pat| >= 2 && OccursAt(s, pat, i)
    requires forall m :: 0 < m <= i ==> s[m] != pat[1]
    ensures FirstOccurrence(s, pat, i)
  {
    forall j: nat | j < i
      ensures !OccursAt(s, pat, j)
    {
      if j + |pat| <= |s| {
        assert s[j..j + |pat|][1] == s[j + 1];
      }
    }
  }

  /** Only the first occurrence is replaced: every later occurrence of `pat`
      that does not overlap the first one is still in the result, shifted by
      the difference in length between `rep` and `pat`. */
  lemma ReplaceFirstKeepsLaterOccurrences(s: string, pat: string, rep: string, i: nat, k: nat)
    requires FirstOccurrence(s, pat, i)
    requires i + |pat| <= k
    requires OccursAt(s, pat, k)
    ensures OccursAt(ReplaceFirst(s, pat, rep), pat, k - |pat| + |rep|)
  {
    var r := ReplaceFirst(s, pat, rep);
    var k' := k - |pat| + |rep|;
    assert r == s[..i] + rep + s[i + |pat|..];
    var tail := s[i + |pat|..];
    var d := k - i - |pat|;
    assert r == (s[..i] + rep) + tail;
    assert r[k'..k' + |pat|] == tail[d..d + |pat|];
    assert tail[d..d + |pat|] == s[k..k + |pat|];
  }
}
