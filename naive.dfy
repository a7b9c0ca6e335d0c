/**
 * The reference pipeline that works directly on the string: the brute-force
 * maximal-matching-pair finder, the left-to-right repetition-region scanner,
 * and their composition with the essential-pair filter.
 */
module Naive {
  import opened Strings
  import opened Repeats
  import opened Essential

  // ---------------------------------------------------------------------
  // Maximal matching pairs
  // ---------------------------------------------------------------------

  /**
   * The accepted pair `q` already covers `(x, y, l)` at consistent offsets:
   * both occurrences are slices of `q`'s occurrences at the same place.
   */
  predicate Nests(q: Pair, x: int, y: int, l: int)
  {
    q.x <= x <= q.x + q.l - l && q.y <= y <= q.y + q.l - l
  }

  /** The finder tries `(q.x, q.l)` before `(x, l)`: starts ascend, lengths descend. */
  predicate Precedes(q: Pair, x: int, l: int)
  {
    q.x < x || (q.x == x && q.l > l)
  }

  /**
   * `(x, y, l)` passes the occurrence tests: `y` is the first occurrence of
   * `w[x..x+l]` at or after `x + l`, and no occurrence lies wholly inside
   * `[x + 1, y)`.
   */
  ghost predicate Candidate(w: string, x: int, y: int, l: int)
  {
    1 <= l && x + l <= y && SameSlice(w, x, y, l) &&
    (forall p :: x + l <= p < y ==> !SameSlice(w, x, p, l)) &&
    (forall p :: x + 1 <= p && p + l <= y ==> !SameSlice(w, x, p, l))
  }

  /** No pair of `pairs` tried before `(x, l)` nests `(x, y, l)`. */
  ghost predicate NotNestedBefore(pairs: seq<Pair>, x: int, y: int, l: int)
  {
    forall q :: q in pairs && Precedes(q, x, l) ==> !Nests(q, x, y, l)
  }

  /** The pairs come in the order the finder tries them. */
  ghost predicate InTrialOrder(pairs: seq<Pair>)
  {
    forall i, j :: 0 <= i < j < |pairs| ==> Precedes(pairs[i], pairs[j].x, pairs[j].l)
  }

  /** Every pair is a candidate that no earlier pair nests. */
  ghost predicate SoundPairs(w: string, pairs: seq<Pair>)
  {
    (forall k :: 0 <= k < |pairs| ==> Candidate(w, pairs[k].x, pairs[k].y, pairs[k].l)) &&
    (forall i, k :: 0 <= i < k < |pairs| ==> !Nests(pairs[i], pairs[k].x, pairs[k].y, pairs[k].l))
  }

  /**
   * The output of the naive `maximal_matching_pairs`: in trial order, every
   * pair a candidate not nested in an earlier one, and every candidate that
   * no earlier pair nests present.
   */
  ghost predicate IsMaximalPairList(w: string, pairs: seq<Pair>)
  {
    InTrialOrder(pairs) && SoundPairs(w, pairs) &&
    forall x, y, l :: Candidate(w, x, y, l) && NotNestedBefore(pairs, x, y, l) ==> Pair(x, y, l) in pairs
  }

  /** A candidate's `l` is within half of what is left of the string after `x`. */
  lemma CandidateBound(w: string, x: int, y: int, l: int)
    requires Candidate(w, x, y, l)
    ensures x < |w| - 1 && l <= (|w| - x) / 2
  {
  }

  /**
   * The tests of one trial `(x, l)`: the first occurrence `y` at or after
   * `x + l`, or -1 when the substring is not found again or an occurrence
   * lies inside `[x + 1, y)`.
   */
  method TryPair(w: string, x: int, l: int) returns (y: int)
    requires 0 <= x && 1 <= l && x + l <= |w|
    ensures y == -1 ==> forall y' :: !Candidate(w, x, y', l)
    ensures y != -1 ==> Candidate(w, x, y, l)
  {
    var c := w[x..x + l];
    SameSliceOccurs(w, x, l);
    y := FindFrom(w, c, x + l);
    if y == -1 {
      return;
    }
    if Find(w, c, x + 1, y) != -1 {
      ghost var p := Find(w, c, x + 1, y);
      assert SameSlice(w, x, p, l);
      y := -1;
    }
  }

  /**
   * Every candidate tried before `(x, l)` that no earlier pair nests has
   * been recorded.
   */
  ghost predicate CompleteBefore(w: string, pairs: seq<Pair>, x: int, l: int)
  {
    forall x', y', l' ::
      Candidate(w, x', y', l') && (x' < x || (x' == x && l' > l)) && NotNestedBefore(pairs, x', y', l') ==>
      Pair(x', y', l') in pairs
  }

  /** Brute-force enumeration of the maximal matching pairs of `w`. */
  method MaximalMatchingPairs(w: string) returns (pairs: seq<Pair>)
    ensures IsMaximalPairList(w, pairs)
    ensures |w| <= 1 ==> pairs == []
  {
    var n := |w|;
    pairs := [];
    var x := 0;
    while x < n - 1
      invariant 0 <= x && (x <= n - 1 || x == 0)
      invariant InTrialOrder(pairs) && SoundPairs(w, pairs)
      invariant forall q :: q in pairs ==> q.x < x
      invariant CompleteBefore(w, pairs, x, n)
      invariant n <= 1 ==> pairs == []
    {
      pairs := TrialsAt(w, x, pairs);
      EndTrials(w, pairs, x);
      x := x + 1;
    }
    EndTrials(w, pairs, x);
  }

  /**
   * The trials at one start `x` (the inner `for` of `maximal_matching_pairs`):
   * lengths from `(n - x) / 2 + 1` down to 1.
   */
  method TrialsAt(w: string, x: int, pairs0: seq<Pair>) returns (pairs: seq<Pair>)
    requires 0 <= x < |w| - 1
    requires InTrialOrder(pairs0) && SoundPairs(w, pairs0)
    requires (forall q :: q in pairs0 ==> q.x < x) && CompleteBefore(w, pairs0, x, |w|)
    ensures InTrialOrder(pairs) && SoundPairs(w, pairs)
    ensures (forall q :: q in pairs ==> q.x <= x) && CompleteBefore(w, pairs, x, 0)
  {
    var n := |w|;
    pairs := pairs0;
    var l := (n - x) / 2 + 1;
    StartTrials(w, pairs, x);
    while l > 0
      invariant 0 <= l <= (n - x) / 2 + 1
      invariant InTrialOrder(pairs) && SoundPairs(w, pairs)
      invariant forall q :: q in pairs ==> Precedes(q, x, l)
      invariant CompleteBefore(w, pairs, x, l)
    {
      var y := TryPair(w, x, l);
      if y != -1 && !(exists q :: q in pairs && Nests(q, x, y, l)) {
        AppendPair(w, pairs, x, y, l);
        Accept(w, pairs, x, y, l);
        pairs := pairs + [Pair(x, y, l)];
      } else {
        Reject(w, pairs, x, l);
      }
      l := l - 1;
    }
  }

  /** Before the first trial at `x`, completeness up to `x` is completeness before `(x, n)`. */
  lemma StartTrials(w: string, pairs: seq<Pair>, x: int)
    requires 0 <= x && CompleteBefore(w, pairs, x, |w|)
    ensures CompleteBefore(w, pairs, x, (|w| - x) / 2 + 1)
  {
    forall x', y', l' | Candidate(w, x', y', l') && (x' < x || (x' == x && l' > (|w| - x) / 2 + 1)) &&
      NotNestedBefore(pairs, x', y', l')
      ensures Pair(x', y', l') in pairs
    {
      CandidateBound(w, x', y', l');
    }
  }

  /** After the last trial at `x`, every candidate at `x` or before is accounted for. */
  lemma EndTrials(w: string, pairs: seq<Pair>, x: int)
    requires CompleteBefore(w, pairs, x, 0)
    ensures CompleteBefore(w, pairs, x + 1, |w|)
    ensures x >= |w| - 1 ==> forall x', y', l' :: Candidate(w, x', y', l') && NotNestedBefore(pairs, x', y', l') ==>
      Pair(x', y', l') in pairs
  {
    forall x', y', l' | Candidate(w, x', y', l') && NotNestedBefore(pairs, x', y', l') && (x' < x + 1 || x >= |w| - 1)
      ensures Pair(x', y', l') in pairs
    {
      CandidateBound(w, x', y', l');
    }
  }

  /** Recording an accepted trial keeps the record complete. */
  lemma Accept(w: string, pairs: seq<Pair>, x: int, y: int, l: int)
    requires Candidate(w, x, y, l) && CompleteBefore(w, pairs, x, l)
    ensures CompleteBefore(w, pairs + [Pair(x, y, l)], x, l - 1)
  {
    var ps := pairs + [Pair(x, y, l)];
    forall x', y', l' | Candidate(w, x', y', l') && (x' < x || (x' == x && l' > l - 1)) && NotNestedBefore(ps, x', y', l')
      ensures Pair(x', y', l') in ps
    {
      if x' == x && l' == l {
        CandidateUnique(w, x, y, y', l);
      } else {
        assert NotNestedBefore(pairs, x', y', l');
      }
    }
  }

  /** A rejected trial has no candidate that the record lacks. */
  lemma Reject(w: string, pairs: seq<Pair>, x: int, l: int)
    requires CompleteBefore(w, pairs, x, l)
    requires forall y' :: !(Candidate(w, x, y', l) && NotNestedBefore(pairs, x, y', l))
    ensures CompleteBefore(w, pairs, x, l - 1)
  {
  }

  /** Appending an accepted candidate keeps the list sound and in trial order. */
  lemma AppendPair(w: string, pairs: seq<Pair>, x: int, y: int, l: int)
    requires InTrialOrder(pairs) && SoundPairs(w, pairs)
    requires forall q :: q in pairs ==> Precedes(q, x, l)
    requires Candidate(w, x, y, l) && !(exists q :: q in pairs && Nests(q, x, y, l))
    ensures InTrialOrder(pairs + [Pair(x, y, l)]) && SoundPairs(w, pairs + [Pair(x, y, l)])
  {
    var ps := pairs + [Pair(x, y, l)];
    forall i, j | 0 <= i < j < |ps| ensures Precedes(ps[i], ps[j].x, ps[j].l) {
      if j == |pairs| {
        assert ps[i] in pairs;
      }
    }
    forall i, k | 0 <= i < k < |ps| ensures !Nests(ps[i], ps[k].x, ps[k].y, ps[k].l) {
      if k == |pairs| {
        assert ps[i] in pairs;
      }
    }
  }

  // ---------------------------------------------------------------------
  // Repetition regions
  // ---------------------------------------------------------------------

  /** A second copy of the length-`l` block at `s` follows it directly. */
  predicate HasRun(w: string, s: int, l: int)
  {
    1 <= l && ExtendsAt(w, s, s + l, l)
  }

  /** No block length gives a run of two or more copies at `p`. */
  ghost predicate NoRunAt(w: string, p: int)
  {
    forall l :: !HasRun(w, p, l)
  }

  /** The block length of `g` is the shortest that gives a run at its start. */
  ghost predicate ShortestPeriod(w: string, g: Region)
  {
    forall l :: 1 <= l < g.l ==> !HasRun(w, g.r, l)
  }

  /** Offset `p` lies in one of the regions. */
  ghost predicate Covered(regions: seq<Region>, p: int)
  {
    exists i :: 0 <= i < |regions| && regions[i].r <= p < regions[i].e
  }

  /**
   * The output of the naive `repetition_regions`: maximal runs with the
   * shortest block length, left to right and disjoint, and no run starting
   * at any offset the regions leave uncovered.
   */
  ghost predicate IsRegionScan(w: string, regions: seq<Region>)
  {
    (forall i :: 0 <= i < |regions| ==> IsRun(w, regions[i]) && ShortestPeriod(w, regions[i])) &&
    (forall i, j :: 0 <= i < j < |regions| ==> regions[i].e <= regions[j].r) &&
    (forall p :: 0 <= p < |w| && !Covered(regions, p) ==> NoRunAt(w, p))
  }

  /** The scan has reached `s` with `regions` recorded so far. */
  ghost predicate ScanInvariant(w: string, regions: seq<Region>, s: int)
  {
    (forall i :: 0 <= i < |regions| ==> IsRun(w, regions[i]) && ShortestPeriod(w, regions[i])) &&
    (forall i, j :: 0 <= i < j < |regions| ==> regions[i].e <= regions[j].r) &&
    (forall i :: 0 <= i < |regions| ==> regions[i].e <= s) &&
    (forall p :: 0 <= p < s && !Covered(regions, p) ==> NoRunAt(w, p))
  }

  /** One more copy at `end = s + m*l` makes block `m` of the run. */
  lemma NextBlock(w: string, s: int, l: int, m: int, end: int)
    requires 0 <= s && 1 <= l && 1 <= m && end == s + m * l && s + l <= |w|
    requires OccursAt(w, w[s..s + l], end)
    ensures BlockMatches(w, s, l, m) && end + l == s + (m + 1) * l
  {
  }

  /** A run of `m` blocks ending at `end` has `(end - s) / l == m` blocks. */
  lemma RunBlocks(w: string, s: int, l: int, m: int, end: int)
    requires 0 <= s && 1 <= l && 1 <= m && end == s + m * l
    requires forall k :: 0 <= k < m ==> BlockMatches(w, s, l, k)
    ensures (end - s) % l == 0 && (end - s) / l == m
    ensures forall k :: 0 <= k < (end - s) / l ==> BlockMatches(w, s, l, k)
  {
    MultipleOf(m, l);
  }

  /**
   * The greedy extension at `s` with block length `l` (the inner `while` of
   * `repetition_regions`): the end of the maximal run of copies.
   */
  method ExtendRun(w: string, s: int, l: int) returns (end: int)
    requires 0 <= s && 1 <= l && s + l <= |w|
    ensures s + l <= end <= |w| && (end - s) % l == 0
    ensures forall k :: 0 <= k < (end - s) / l ==> BlockMatches(w, s, l, k)
    ensures !ExtendsAt(w, s, end, l)
    ensures end != s + l <==> HasRun(w, s, l)
    ensures end == s + l || s + 2 * l <= end
  {
    var candidate := w[s..s + l];
    end := s + l;
    ghost var m := 1;
    while Find(w, candidate, end, end + l) == end
      invariant s + l <= end <= |w| && 1 <= m && end == s + m * l
      invariant forall k :: 0 <= k < m ==> BlockMatches(w, s, l, k)
      invariant m == 1 ==> end == s + l
      invariant m >= 2 ==> BlockMatches(w, s, l, 1) && s + 2 * l <= end
      decreases |w| - end
    {
      NextBlock(w, s, l, m, end);
      end := end + l;
      m := m + 1;
    }
    assert !OccursAt(w, candidate, end);
    RunBlocks(w, s, l, m, end);
    if m == 1 {
      assert !ExtendsAt(w, s, s + l, l);
    } else {
      assert BlockMatches(w, s, l, 1);
    }
  }

  /** Left-to-right scan for repetition regions, shortest block length first. */
  method RepetitionRegions(w: string) returns (regions: seq<Region>)
    ensures IsRegionScan(w, regions)
    ensures |w| <= 1 ==> regions == []
  {
    var n := |w|;
    var s := 0;
    regions := [];
    while s < n - 1
      invariant 0 <= s <= n && ScanInvariant(w, regions, s)
      invariant n <= 1 ==> regions == []
      decreases n - s
    {
      var l := 1;
      ghost var found := false;
      ghost var s0 := s;
      ghost var regions0 := regions;
      while l <= (n - s) / 2
        invariant 1 <= l && s == s0 && regions == regions0 && !found
        invariant forall l' :: 1 <= l' < l ==> !HasRun(w, s, l')
      {
        var end := ExtendRun(w, s, l);
        if end != s + l {
          ScanFound(w, regions, s, Region(s, end, l));
          regions := regions + [Region(s, end, l)];
          s := end - 1;
          found := true;
          break;
        }
        l := l + 1;
      }
      if !found {
        forall l' | 1 <= l' && l' >= l ensures !HasRun(w, s, l') {
          assert s + 2 * l' > n;
        }
        ScanSkip(w, regions, s);
      }
      s := s + 1;
    }
    ScanDone(w, regions, s);
  }

  /** Recording the run found at the scan position moves the scan to its end. */
  lemma ScanFound(w: string, regions: seq<Region>, s: int, g: Region)
    requires ScanInvariant(w, regions, s)
    requires g.r == s && IsRun(w, g) && ShortestPeriod(w, g)
    ensures ScanInvariant(w, regions + [g], g.e)
  {
    var rs := regions + [g];
    forall p | 0 <= p < g.e ensures !Covered(rs, p) ==> NoRunAt(w, p) {
      if p < s {
        assert forall i :: 0 <= i < |regions| ==> rs[i] == regions[i];
      } else {
        assert rs[|regions|] == g;
        assert Covered(rs, p);
      }
    }
  }

  /** A position with no run is skipped. */
  lemma ScanSkip(w: string, regions: seq<Region>, s: int)
    requires ScanInvariant(w, regions, s) && NoRunAt(w, s)
    ensures ScanInvariant(w, regions, s + 1)
  {
  }

  /** Once the scan passes `|w| - 2`, the scan invariant is the region contract. */
  lemma ScanDone(w: string, regions: seq<Region>, s: int)
    requires ScanInvariant(w, regions, s) && s >= |w| - 1
    ensures IsRegionScan(w, regions)
  {
    forall p | 0 <= p < |w| && !Covered(regions, p) ensures NoRunAt(w, p) {
      if p >= s {
        forall l' ensures !HasRun(w, p, l') {
        }
      }
    }
  }

  // ---------------------------------------------------------------------
  // Essential matching pairs
  // ---------------------------------------------------------------------

  /** Every pair the naive finder reports is an identical, non-overlapping pair. */
  lemma MaximalPairsMatch(w: string, pairs: seq<Pair>)
    requires IsMaximalPairList(w, pairs)
    ensures forall p :: p in pairs ==> IsMatchingPair(w, p)
  {
    forall p | p in pairs ensures IsMatchingPair(w, p) {
      var k :| 0 <= k < |pairs| && pairs[k] == p;
      assert Candidate(w, pairs[k].x, pairs[k].y, pairs[k].l);
    }
  }

  /**
   * No reported pair can be extended by one symbol to the left or to the
   * right: the longer pair would have been tried earlier and would nest it.
   */
  lemma MaximalPairsNotExtensible(w: string, pairs: seq<Pair>)
    requires IsMaximalPairList(w, pairs)
    ensures forall p :: p in pairs && p.x > 0 && p.x + p.l < p.y ==> w[p.x - 1] != w[p.y - 1]
    ensures forall p :: p in pairs && p.y + p.l < |w| && p.x + p.l < p.y ==> w[p.x + p.l] != w[p.y + p.l]
  {
    forall p | p in pairs
      ensures p.x > 0 && p.x + p.l < p.y ==> w[p.x - 1] != w[p.y - 1]
      ensures p.y + p.l < |w| && p.x + p.l < p.y ==> w[p.x + p.l] != w[p.y + p.l]
    {
      var k :| 0 <= k < |pairs| && pairs[k] == p;
      PairNotExtensible(w, pairs, k);
    }
  }

  /** The left and right extension tests fail for the pair at position `k`. */
  lemma PairNotExtensible(w: string, pairs: seq<Pair>, k: int)
    requires IsMaximalPairList(w, pairs) && 0 <= k < |pairs|
    ensures Candidate(w, pairs[k].x, pairs[k].y, pairs[k].l)
    ensures pairs[k].x > 0 && pairs[k].x + pairs[k].l < pairs[k].y ==>
      w[pairs[k].x - 1] != w[pairs[k].y - 1]
    ensures pairs[k].y + pairs[k].l < |w| && pairs[k].x + pairs[k].l < pairs[k].y ==>
      w[pairs[k].x + pairs[k].l] != w[pairs[k].y + pairs[k].l]
  {
    var p := pairs[k];
    assert Candidate(w, p.x, p.y, p.l);
    LeftExtension(w, p.x, p.y, p.l);
    NoEarlierNest(w, pairs, k, Pair(p.x - 1, p.y - 1, p.l + 1));
    RightExtension(w, p.x, p.y, p.l);
    NoEarlierNest(w, pairs, k, Pair(p.x, p.y, p.l + 1));
  }

  /** A candidate tried before a reported pair does not nest it. */
  lemma NoEarlierNest(w: string, pairs: seq<Pair>, k: int, e: Pair)
    requires IsMaximalPairList(w, pairs) && 0 <= k < |pairs|
    ensures Candidate(w, e.x, e.y, e.l) && Precedes(e, pairs[k].x, pairs[k].l) ==>
      !Nests(e, pairs[k].x, pairs[k].y, pairs[k].l)
  {
    if Candidate(w, e.x, e.y, e.l) && Precedes(e, pairs[k].x, pairs[k].l) {
      if NotNestedBefore(pairs, e.x, e.y, e.l) {
        assert e in pairs;
        var i :| 0 <= i < |pairs| && pairs[i] == e;
        EarlierDoesNotNest(pairs, i, k);
      } else {
        var q :| q in pairs && Precedes(q, e.x, e.l) && Nests(q, e.x, e.y, e.l);
        var i :| 0 <= i < |pairs| && pairs[i] == q;
        EarlierDoesNotNest(pairs, i, k);
      }
    }
  }

  /** A pair of the list that the finder tried before `pairs[k]` does not nest it. */
  lemma EarlierDoesNotNest(pairs: seq<Pair>, i: int, k: int)
    requires InTrialOrder(pairs) && 0 <= i < |pairs| && 0 <= k < |pairs|
    requires forall a, b :: 0 <= a < b < |pairs| ==> !Nests(pairs[a], pairs[b].x, pairs[b].y, pairs[b].l)
    ensures Precedes(pairs[i], pairs[k].x, pairs[k].l) ==> !Nests(pairs[i], pairs[k].x, pairs[k].y, pairs[k].l)
  {
    var p, q := pairs[k], pairs[i];
    assert k < i ==> Precedes(p, q.x, q.l);
  }

  /** Dropping the first symbol of two equal slices leaves two equal slices. */
  lemma SliceTail(w: string, a: int, b: int, m: int)
    ensures 0 <= m && SameSlice(w, a, b, m + 1) ==> SameSlice(w, a + 1, b + 1, m)
  {
    if 0 <= m && SameSlice(w, a, b, m + 1) {
      assert w[a + 1..a + 1 + m] == w[a..a + m + 1][1..];
      assert w[b + 1..b + 1 + m] == w[b..b + m + 1][1..];
    }
  }

  /** Dropping the last symbol of two equal slices leaves two equal slices. */
  lemma SliceFront(w: string, a: int, b: int, m: int)
    ensures 0 <= m && SameSlice(w, a, b, m + 1) ==> SameSlice(w, a, b, m)
  {
    if 0 <= m && SameSlice(w, a, b, m + 1) {
      assert w[a..a + m] == w[a..a + m + 1][..m];
      assert w[b..b + m] == w[b..b + m + 1][..m];
    }
  }

  /** A candidate whose copies agree on the symbol before them extends to the left. */
  lemma LeftExtension(w: string, x: int, y: int, l: int)
    ensures Candidate(w, x, y, l) && x > 0 && x + l < y && w[x - 1] == w[y - 1] ==>
      Candidate(w, x - 1, y - 1, l + 1)
  {
    if Candidate(w, x, y, l) && x > 0 && x + l < y && w[x - 1] == w[y - 1] {
      assert w[x - 1..x + l] == [w[x - 1]] + w[x..x + l];
      assert w[y - 1..y + l] == [w[y - 1]] + w[y..y + l];
      var x0, l1 := x - 1, l + 1;
      forall p ensures SameSlice(w, x0, p, l1) ==> SameSlice(w, x, p + 1, l) {
        SliceTail(w, x0, p, l);
      }
    }
  }

  /** A candidate whose copies agree on the symbol after them extends to the right. */
  lemma RightExtension(w: string, x: int, y: int, l: int)
    ensures Candidate(w, x, y, l) && y + l < |w| && x + l < y && w[x + l] == w[y + l] ==>
      Candidate(w, x, y, l + 1)
  {
    if Candidate(w, x, y, l) && y + l < |w| && x + l < y && w[x + l] == w[y + l] {
      assert w[x..x + l + 1] == w[x..x + l] + [w[x + l]];
      assert w[y..y + l + 1] == w[y..y + l] + [w[y + l]];
      var l1 := l + 1;
      forall p ensures SameSlice(w, x, p, l1) ==> SameSlice(w, x, p, l) {
        SliceFront(w, x, p, l);
      }
      assert SameSlice(w, x, y, l1);
    }
  }

  /**
   * The naive pipeline: regions, then maximal pairs, then the filter. The
   * intermediate lists are returned as ghost results so that callers can
   * relate the output to them.
   */
  method EssentialMatchingPairs(w: string) returns (out: seq<Pair>, ghost pairs: seq<Pair>, ghost regions: seq<Region>)
    ensures IsRegionScan(w, regions) && IsMaximalPairList(w, pairs) && PositivePeriods(regions)
    ensures out == Kept(pairs, regions) + AllCanonical(regions)
    ensures forall p :: p in out ==> IsMatchingPair(w, p)
    ensures |w| <= 1 ==> out == []
  {
    var rs := RepetitionRegions(w);
    var ps := MaximalMatchingPairs(w);
    MaximalPairsMatch(w, ps);
    EssentialAreMatching(w, ps, rs);
    out := EssentialPairs(ps, rs);
    pairs, regions := ps, rs;
    if |w| <= 1 {
      assert ps == [] && rs == [];
      NoRegionsNoChange([]);
    }
  }

  // ---------------------------------------------------------------------
  // Determinism: the contracts leave exactly one possible output
  // ---------------------------------------------------------------------

  /** A trial `(x, l)` has at most one candidate partner `y`. */
  lemma CandidateUnique(w: string, x: int, y1: int, y2: int, l: int)
    requires Candidate(w, x, y1, l) && Candidate(w, x, y2, l)
    ensures y1 == y2
  {
    assert y1 < y2 ==> SameSlice(w, x, y1, l);
    assert y2 < y1 ==> SameSlice(w, x, y2, l);
  }

  /**
   * With equal prefixes of length `k`, the next pair of `b` is not tried
   * before the next pair of `a`, and `a` does not end first.
   */
  lemma NotEarlier(w: string, a: seq<Pair>, b: seq<Pair>, k: int)
    requires IsMaximalPairList(w, a) && IsMaximalPairList(w, b)
    requires 0 <= k <= |a| && k <= |b| && a[..k] == b[..k]
    ensures k < |b| ==> k < |a| && !Precedes(b[k], a[k].x, a[k].l)
  {
    if k < |b| {
      var q := b[k];
      var early := k == |a| || Precedes(q, a[k].x, a[k].l);
      forall r | r in a && Precedes(r, q.x, q.l) ensures !early || !Nests(r, q.x, q.y, q.l) {
        var m :| 0 <= m < |a| && a[m] == r;
        if m < k {
          assert a[..k][m] == r;
        } else if m > k {
          assert Precedes(a[k], a[m].x, a[m].l);
        }
      }
      assert Candidate(w, q.x, q.y, q.l);
      assert early ==> q in a;
      forall m | 0 <= m < |a| ensures !early || a[m] != q {
        if m < k {
          assert a[..k][m] == b[m];
          assert Precedes(b[m], b[k].x, b[k].l);
        } else if m > k {
          assert Precedes(a[k], a[m].x, a[m].l);
        }
      }
    }
  }

  /** Two lists that agree on their first `k` pairs agree everywhere. */
  lemma {:induction false} PairListsAgree(w: string, a: seq<Pair>, b: seq<Pair>, k: int)
    requires IsMaximalPairList(w, a) && IsMaximalPairList(w, b)
    requires 0 <= k <= |a| && k <= |b| && a[..k] == b[..k]
    ensures a == b
    decreases |a| - k
  {
    NotEarlier(w, a, b, k);
    NotEarlier(w, b, a, k);
    if k < |a| {
      assert Candidate(w, a[k].x, a[k].y, a[k].l) && Candidate(w, b[k].x, b[k].y, b[k].l);
      CandidateUnique(w, a[k].x, a[k].y, b[k].y, a[k].l);
      assert a[..k + 1] == a[..k] + [a[k]] && b[..k + 1] == b[..k] + [b[k]];
      PairListsAgree(w, a, b, k + 1);
    } else {
      assert a == a[..k] && b == b[..k];
    }
  }

  /** The contract of the naive finder determines its output. */
  lemma MaximalPairListUnique(w: string, a: seq<Pair>, b: seq<Pair>)
    requires IsMaximalPairList(w, a) && IsMaximalPairList(w, b)
    ensures a == b
  {
    PairListsAgree(w, a, b, 0);
  }

  /** Where the scan resumes after the first `k` regions. */
  function ScanStart(regions: seq<Region>, k: int): (r: int)
    requires 0 <= k <= |regions|
  {
    if k == 0 then 0 else regions[k - 1].e
  }

  /** A tandem run has a second copy of its block directly after the first. */
  lemma RunHasRun(w: string, g: Region)
    requires IsRun(w, g)
    ensures HasRun(w, g.r, g.l)
  {
    var m := (g.e - g.r) / g.l;
    BlockIndex(g.r, g.e, g.l);
    FewerBlocks(1, m, g.l);
    assert BlockMatches(w, g.r, g.l, 1);
  }

  /** Two runs with the same start and block length end at the same offset. */
  lemma RunEndsAgree(w: string, r: int, l: int, e1: int, e2: int)
    requires IsRun(w, Region(r, e1, l)) && IsRun(w, Region(r, e2, l))
    ensures e1 == e2
  {
    var m1, m2 := (e1 - r) / l, (e2 - r) / l;
    BlockIndex(r, e1, l);
    BlockIndex(r, e2, l);
    FewerBlocks(m1, m2, l);
    FewerBlocks(m2, m1, l);
    assert e1 < e2 ==> BlockMatches(w, r, l, m1);
    assert e2 < e1 ==> BlockMatches(w, r, l, m2);
  }

  /** A shortest-period run is determined by its start. */
  lemma SameStartSameRun(w: string, g: Region, h: Region)
    requires IsRun(w, g) && ShortestPeriod(w, g) && IsRun(w, h) && ShortestPeriod(w, h)
    requires g.r == h.r
    ensures g == h
  {
    RunHasRun(w, g);
    RunHasRun(w, h);
    assert g.l == h.l;
    RunEndsAgree(w, g.r, g.l, g.e, h.e);
  }

  /**
   * Offsets from where the scan resumes after `k` regions up to the next
   * region (or to the end, after the last) have no run.
   */
  lemma GapNoRun(w: string, a: seq<Region>, k: int, p: int)
    requires IsRegionScan(w, a) && 0 <= k <= |a| && ScanStart(a, k) <= p < |w|
    ensures (k == |a| || p < a[k].r) ==> NoRunAt(w, p)
  {
    if k == |a| || p < a[k].r {
      forall i | 0 <= i < |a| ensures !(a[i].r <= p < a[i].e) {
        if i < k - 1 {
          assert a[i].e <= a[k - 1].r;
        } else if i > k {
          assert a[k].e <= a[i].r;
        }
      }
      assert !Covered(a, p);
    }
  }

  /** Two scans that agree on their first `k` regions agree everywhere. */
  lemma {:induction false} ScansAgree(w: string, a: seq<Region>, b: seq<Region>, k: int)
    requires IsRegionScan(w, a) && IsRegionScan(w, b)
    requires 0 <= k <= |a| && k <= |b| && a[..k] == b[..k]
    ensures a == b
    decreases |a| - k
  {
    if k > 0 {
      assert a[k - 1] == a[..k][k - 1] && b[k - 1] == b[..k][k - 1];
    }
    if k < |a| {
      RunHasRun(w, a[k]);
      assert k > 0 ==> a[k - 1].e <= a[k].r;
      GapNoRun(w, b, k, a[k].r);
    }
    if k < |b| {
      RunHasRun(w, b[k]);
      assert k > 0 ==> b[k - 1].e <= b[k].r;
      GapNoRun(w, a, k, b[k].r);
    }
    if k < |a| {
      SameStartSameRun(w, a[k], b[k]);
      assert a[..k + 1] == a[..k] + [a[k]] && b[..k + 1] == b[..k] + [b[k]];
      ScansAgree(w, a, b, k + 1);
    } else {
      assert a == a[..k] && b == b[..k];
    }
  }

  /** The contract of the region scan determines its output. */
  lemma RegionScanUnique(w: string, a: seq<Region>, b: seq<Region>)
    requires IsRegionScan(w, a) && IsRegionScan(w, b)
    ensures a == b
  {
    ScansAgree(w, a, b, 0);
  }
}
