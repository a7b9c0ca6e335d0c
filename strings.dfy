/**
 * Occurrences of a substring inside a string, and the substring search the
 * repeat finders perform with Python's `str.find(sub, start[, end])`.
 */
module Strings {

  /** `c` occurs in `w` starting at offset `p`. */
  predicate OccursAt(w: string, c: string, p: int)
  {
    0 <= p && p + |c| <= |w| && w[p..p + |c|] == c
  }

  /** The length-`l` substring of `w` at `x` occurs again at `p`. */
  predicate SameSlice(w: string, x: int, p: int, l: int)
  {
    0 <= x && 0 <= p && 0 <= l && x + l <= |w| && p + l <= |w| && w[x..x + l] == w[p..p + l]
  }

  /** A second occurrence of a slice of `w` is an occurrence of that slice. */
  lemma SameSliceOccurs(w: string, x: int, l: int)
    requires 0 <= x && 0 <= l && x + l <= |w|
    ensures forall p :: SameSlice(w, x, p, l) <==> OccursAt(w, w[x..x + l], p)
  {
  }

  /**
   * `w.find(c, start, stop)`: the first offset `p >= start` at which `c`
   * occurs wholly before `stop` (and before the end of `w`), or -1. A start
   * past the end of `w` finds nothing, as in Python.
   */
  function Find(w: string, c: string, start: int, stop: int): (r: int)
    requires 0 <= start
    ensures r == -1 || (start <= r && r + |c| <= stop && OccursAt(w, c, r))
    ensures r != -1 ==> forall p :: start <= p < r ==> !OccursAt(w, c, p)
    ensures r == -1 ==> forall p :: start <= p && p + |c| <= stop ==> !OccursAt(w, c, p)
    decreases |w| - start
  {
    if start + |c| > stop || start + |c| > |w| then -1
    else if w[start..start + |c|] == c then start
    else Find(w, c, start + 1, stop)
  }

  /** `w.find(c, start)`: the search runs to the end of `w`. */
  function FindFrom(w: string, c: string, start: int): (r: int)
    requires 0 <= start
    ensures r == -1 <==> forall p :: start <= p ==> !OccursAt(w, c, p)
    ensures r != -1 ==> start <= r && OccursAt(w, c, r) && forall p :: start <= p < r ==> !OccursAt(w, c, p)
  {
    Find(w, c, start, |w|)
  }
}
