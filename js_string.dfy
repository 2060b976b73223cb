/** The parts of JavaScript's `String.prototype` that the client relies on:
    `indexOf` with a string pattern and `replace` with a string pattern and a
    string replacement (only the first occurrence is replaced). */
module JsString {
  import opened Wrappers

  /** `pat` occurs in `s` starting at index `p`. */
  predicate OccursAt(s: string, pat: string, p: nat) {
    p + |pat| <= |s| && s[p..p + |pat|] == pat
  }

  /** The first index at or after `from` where `pat` occurs in `s`. */
  function IndexFrom(s: string, pat: string, from: nat): (r: Option<nat>)
    decreases |s| - from
    ensures r.Some? ==> from <= r.value && OccursAt(s, pat, r.value)
    ensures r.Some? ==> forall q :: from <= q < r.value ==> !OccursAt(s, pat, q)
    ensures r.None? ==> forall q :: from <= q ==> !OccursAt(s, pat, q)
  {
    if from + |pat| > |s| then None
    else if s[from..from + |pat|] == pat then Some(from)
    else IndexFrom(s, pat, from + 1)
  }

  /** `s.indexOf(pat)`, with `None` for JavaScript's -1. */
  function IndexOf(s: string, pat: string): Option<nat> {
    IndexFrom(s, pat, 0)
  }

  /** `s.replace(pat, rep)` for a string `pat`: the first occurrence of `pat`
      is replaced by `rep`; without an occurrence `s` is returned unchanged.
      JavaScript expands `$&`, `$'` and the like in `rep`; every replacement
      the client makes is free of `$`, which the precondition records. */
  function Replace(s: string, pat: string, rep: string): (r: string)
    requires '$' !in rep
    ensures IndexOf(s, pat).None? ==> r == s
    ensures IndexOf(s, pat).Some? ==> |r| + |pat| == |s| + |rep|
  {
    match IndexOf(s, pat)
    case None => s
    case Some(p) => s[..p] + rep + s[p + |pat|..]
  }

  /** Replacing acts exactly at the first occurrence of the pattern. */
  lemma ReplaceAtFirst(s: string, pat: string, rep: string, p: nat)
    requires '$' !in rep
    requires OccursAt(s, pat, p)
    requires forall q: nat :: q < p ==> !OccursAt(s, pat, q)
    ensures Replace(s, pat, rep) == s[..p] + rep + s[p + |pat|..]
  {
  }

  /** Without an occurrence of the pattern, replacing changes nothing. */
  lemma ReplaceAbsent(s: string, pat: string, rep: string)
    requires '$' !in rep
    requires forall q :: !OccursAt(s, pat, q)
    ensures Replace(s, pat, rep) == s
  {
  }
}
