/**
  The JavaScript string operation the upload loop relies on,
  `replace(pattern, "")` for a string pattern, which removes the first
  occurrence of the pattern and nothing else, and the first-occurrence
  search it performs (the same search `indexOf` does).
 */
module StringSearch {

  /** `pattern` occurs in `s` starting at index `k`. */
  predicate OccursAt(s: string, pattern: string, k: int)
  {
    0 <= k && k + |pattern| <= |s| && s[k..k + |pattern|] == pattern
  }

  /** The first occurrence of `pattern` at or after `from`, or -1 when there is none. */
  function SearchFrom(s: string, pattern: string, from: nat): (r: int)
    requires from <= |s|
    ensures r == -1 || (from <= r && OccursAt(s, pattern, r))
    ensures r == -1 ==> forall k :: from <= k ==> !OccursAt(s, pattern, k)
    ensures r != -1 ==> forall k :: from <= k < r ==> !OccursAt(s, pattern, k)
    decreases |s| - from
  {
    if from + |pattern| > |s| then -1
    else if s[from..from + |pattern|] == pattern then from
    else SearchFrom(s, pattern, from + 1)
  }

  /** The first occurrence of `pattern` in `s`, or -1: the search of `replace`, as `s.indexOf(pattern)`. */
  function IndexOf(s: string, pattern: string): (r: int)
    ensures r == -1 <==> forall k :: !OccursAt(s, pattern, k)
    ensures r != -1 ==> OccursAt(s, pattern, r) && forall k :: 0 <= k < r ==> !OccursAt(s, pattern, k)
  {
    SearchFrom(s, pattern, 0)
  }

  /**
    `s.replace(pattern, "")`: without an occurrence the string is unchanged;
    otherwise putting `pattern` back where the first occurrence was restores
    `s`, and when `s` starts with `pattern` what is left is the rest of `s`.
   */
  function RemoveFirst(s: string, pattern: string): (r: string)
    ensures (forall k :: !OccursAt(s, pattern, k)) ==> r == s
    ensures (exists k :: OccursAt(s, pattern, k)) ==> |r| == |s| - |pattern|
    ensures IndexOf(s, pattern) >= 0 ==>
      var k := IndexOf(s, pattern); r[..k] + pattern + r[k..] == s
    ensures |pattern| <= |s| && s[..|pattern|] == pattern ==> pattern + r == s && r == s[|pattern|..]
  {
    var k := IndexOf(s, pattern);
    if k < 0 then s
    else
      assert OccursAt(s, pattern, k);
      s[..k] + s[k + |pattern|..]
  }
}
