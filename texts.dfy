/**
  The string operations of JavaScript the post-formatter calls besides
  `replace` with a regular expression: `indexOf`, `split` and `join` on a
  separator, and `trim`.
*/
module Texts {
  import opened Chars

  datatype Option<T> = None | Some(value: T)

  /** `pat` occurs in `t` at position `k`. */
  predicate OccursAt(t: seq<char>, pat: seq<char>, k: int) {
    0 <= k && k + |pat| <= |t| && t[k..k + |pat|] == pat
  }

  /** `pat` occurs in `t` at no position of `[a, b)`. */
  predicate NoOccurrence(t: seq<char>, pat: seq<char>, a: int, b: int) {
    forall k :: a <= k < b ==> !OccursAt(t, pat, k)
  }

  function IndexOfFrom(t: seq<char>, pat: seq<char>, k: nat): (r: int)
    requires k <= |t|
    ensures r == -1 || (k <= r && OccursAt(t, pat, r) && NoOccurrence(t, pat, k, r))
    ensures r == -1 ==> NoOccurrence(t, pat, k, |t| + 1)
    decreases |t| - k
  {
    if OccursAt(t, pat, k) then k
    else if k + |pat| >= |t| then -1
    else IndexOfFrom(t, pat, k + 1)
  }

  /** `t.indexOf(pat, pos)`: the first occurrence at or after `pos`, clamped into `t`, or -1. */
  function IndexOf(t: seq<char>, pat: seq<char>, pos: int): int {
    IndexOfFrom(t, pat, if pos < 0 then 0 else if pos > |t| then |t| else pos)
  }
}
