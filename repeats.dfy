/**
 * The value tuples shared by the finders, the region detector and the
 * essential-pair filter: matching pairs `(x, y, l)` and repetition regions
 * `(r, e, l)`, with the properties Definitions 1 and 2 of the arc-diagram
 * paper give them.
 */
module Repeats {
  import opened Strings

  /** Two occurrences, at `x` and at `y`, of one substring of length `l`. */
  datatype Pair = Pair(x: int, y: int, l: int)

  /** The region `[r, e)`, tiled by copies of the length-`l` block at `r`. */
  datatype Region = Region(r: int, e: int, l: int)

  /** Identical, non-overlapping occurrences of a nonempty substring of `w`. */
  predicate IsMatchingPair(w: string, p: Pair)
  {
    1 <= p.l && p.x + p.l <= p.y && SameSlice(w, p.x, p.y, p.l)
  }

  /** Block number `k` of the length-`l` tiling that starts at `r` equals block 0. */
  predicate BlockMatches(w: string, r: int, l: int, k: int)
  {
    0 <= r && 0 <= k && 1 <= l && r + k * l + l <= |w| &&
    w[r + k * l..r + k * l + l] == w[r..r + l]
  }

  /** A copy of the block at `r` (length `l`) also stands at `e`. */
  predicate ExtendsAt(w: string, r: int, e: int, l: int)
  {
    0 <= r && r <= e && 0 <= l && e + l <= |w| && w[e..e + l] == w[r..r + l]
  }

  /**
   * `g` is a tandem run of `w`: at least two copies of its block, every
   * block equal to the first, and no further copy right after it.
   */
  ghost predicate IsRun(w: string, g: Region)
  {
    1 <= g.l && 0 <= g.r && g.r + 2 * g.l <= g.e <= |w| &&
    (g.e - g.r) % g.l == 0 &&
    (forall k :: 0 <= k < (g.e - g.r) / g.l ==> BlockMatches(w, g.r, g.l, k)) &&
    !ExtendsAt(w, g.r, g.e, g.l)
  }

  // Arithmetic on whole blocks, kept apart so that the proofs about runs
  // stay linear.

  /** A nonzero multiple of a positive `l` is at least `l` away from zero. */
  lemma {:induction false} MulSign(d: int, l: int)
    requires 1 <= l
    ensures d >= 1 ==> d * l >= l
    ensures d <= -1 ==> d * l <= -l
    decreases if d >= 0 then d else -d
  {
    if d > 1 {
      MulSign(d - 1, l);
      assert d * l == (d - 1) * l + l;
    } else if d < -1 {
      MulSign(d + 1, l);
      assert d * l == (d + 1) * l - l;
    }
  }

  /** `m` whole blocks of length `l` span `m * l`. */
  lemma MultipleOf(m: int, l: int)
    requires 0 <= m && 1 <= l
    ensures (m * l) % l == 0 && (m * l) / l == m
  {
    var q, r := (m * l) / l, (m * l) % l;
    assert m * l == q * l + r && 0 <= r < l;
    assert (m - q) * l == r;
    MulSign(m - q, l);
  }

  /** A span that is a whole number of blocks ends at `r + m*l`. */
  lemma BlockIndex(r: int, e: int, l: int)
    requires 1 <= l && r <= e && (e - r) % l == 0
    ensures e == r + ((e - r) / l) * l
  {
  }

  /** Fewer whole blocks make a shorter span. */
  lemma FewerBlocks(m1: int, m2: int, l: int)
    requires 1 <= l
    ensures m1 * l < m2 * l ==> m1 < m2
  {
    MulSign(m1 - m2, l);
    assert (m1 - m2) * l == m1 * l - m2 * l;
  }
}
