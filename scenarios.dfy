/**
 * What the contracts fix for particular inputs: a string of one repeated
 * symbol, a string with no repeated symbol, and a small occurrence map for
 * the suffix-tree loop. Each lemma takes the postcondition of the matching
 * pipeline as its hypothesis, so it speaks about every output the pipeline
 * can produce.
 */
module Scenarios {
  import opened Strings
  import opened Repeats
  import opened Essential
  import opened Naive
  import Algorithm

  /** The single region a string of `n >= 2` copies of one symbol has. */
  lemma ConstantScan(w: string)
    requires |w| >= 2 && forall i :: 0 <= i < |w| ==> w[i] == w[0]
    ensures IsRegionScan(w, [Region(0, |w|, 1)])
  {
    var g := Region(0, |w|, 1);
    forall k | 0 <= k < (g.e - g.r) / g.l ensures BlockMatches(w, 0, 1, k) {
      assert w[k..k + 1] == [w[k]];
      assert w[0..1] == [w[0]];
    }
    assert IsRun(w, g);
    forall p | 0 <= p < |w| ensures Covered([g], p) {
      assert [g][0] == g;
    }
  }

  /** Every matching pair of a constant string lies inside its one region yet spans two blocks. */
  lemma ConstantKept(w: string, pairs: seq<Pair>)
    requires forall p :: p in pairs ==> IsMatchingPair(w, p)
    ensures Kept(pairs, [Region(0, |w|, 1)]) == []
  {
    var regions := [Region(0, |w|, 1)];
    forall p | p in pairs ensures !Keep(p, regions) {
      assert regions[0] == Region(0, |w|, 1);
      assert Inside(p, regions[0]);
    }
  }

  /**
   * For `aaaa…a` the scan finds one region with block length 1, every
   * maximal pair lies inside it and is dropped, and the essential pairs are
   * the `n - 1` adjacent pairs `(k, k + 1, 1)`.
   */
  lemma ConstantString(w: string, out: seq<Pair>, pairs: seq<Pair>, regions: seq<Region>)
    requires |w| >= 2 && forall i :: 0 <= i < |w| ==> w[i] == w[0]
    requires IsRegionScan(w, regions) && IsMaximalPairList(w, pairs) && PositivePeriods(regions)
    requires out == Kept(pairs, regions) + AllCanonical(regions)
    ensures regions == [Region(0, |w|, 1)]
    ensures |out| == |w| - 1
    ensures forall k :: 0 <= k < |w| - 1 ==> out[k] == Pair(k, k + 1, 1)
  {
    var g := Region(0, |w|, 1);
    ConstantScan(w);
    RegionScanUnique(w, regions, [g]);
    MaximalPairsMatch(w, pairs);
    ConstantKept(w, pairs);
    assert AllCanonical([g]) == AllCanonical([]) + Canonical(g);
    assert IsRun(w, g);
    CanonicalOfRun(w, g);
    assert out == Canonical(g);
  }

  /** Equal slices of positive length start with the same symbol. */
  lemma SliceHead(w: string, x: int, y: int, l: int)
    ensures 1 <= l && SameSlice(w, x, y, l) ==> w[x] == w[y]
  {
    if 1 <= l && SameSlice(w, x, y, l) {
      assert w[x..x + l][0] == w[y..y + l][0];
    }
  }

  /** In a string with no repeated symbol no two slices of positive length are equal. */
  lemma NoEqualSlices(w: string)
    requires forall i, j :: 0 <= i < j < |w| ==> w[i] != w[j]
    ensures forall x, y, l :: 1 <= l && x + l <= y ==> !SameSlice(w, x, y, l)
  {
    forall x, y, l | 1 <= l && x + l <= y ensures !SameSlice(w, x, y, l) {
      SliceHead(w, x, y, l);
    }
  }

  /** A string with no repeated symbol has no matching pair and no region. */
  lemma DistinctSymbols(w: string, out: seq<Pair>, pairs: seq<Pair>, regions: seq<Region>)
    requires forall i, j :: 0 <= i < j < |w| ==> w[i] != w[j]
    requires IsRegionScan(w, regions) && IsMaximalPairList(w, pairs) && PositivePeriods(regions)
    requires out == Kept(pairs, regions) + AllCanonical(regions)
    ensures pairs == [] && regions == [] && out == []
  {
    NoEqualSlices(w);
    NoPairs(w, pairs);
    NoRegions(w, regions);
    NoRegionsNoChange(pairs);
  }

  /** Without equal slices the finder reports nothing. */
  lemma NoPairs(w: string, pairs: seq<Pair>)
    requires forall x, y, l :: 1 <= l && x + l <= y ==> !SameSlice(w, x, y, l)
    requires IsMaximalPairList(w, pairs)
    ensures pairs == []
  {
    MaximalPairsMatch(w, pairs);
    FirstElement(pairs);
  }

  /** A nonempty list holds its first element. */
  lemma FirstElement(s: seq<Pair>)
    ensures s != [] ==> s[0] in s
  {
  }

  /** Without equal slices the scan finds no run. */
  lemma NoRegions(w: string, regions: seq<Region>)
    requires forall x, y, l :: 1 <= l && x + l <= y ==> !SameSlice(w, x, y, l)
    requires IsRegionScan(w, regions)
    ensures regions == []
  {
    FirstRunRepeats(w, regions);
  }

  /** The first region's block is followed by an equal slice. */
  lemma FirstRunRepeats(w: string, regions: seq<Region>)
    requires IsRegionScan(w, regions)
    ensures regions != [] ==> SameSlice(w, regions[0].r, regions[0].r + regions[0].l, regions[0].l)
  {
    if regions != [] {
      RunHasRun(w, regions[0]);
    }
  }

  /**
   * For `abab` the naive finder reports only `(0, 2, 2)`: the one-symbol
   * pairs `(0, 2, 1)` and `(1, 3, 1)` are nested in it.
   */
  lemma AbabNaive(pairs: seq<Pair>)
    requires IsMaximalPairList("abab", pairs)
    ensures pairs == [Pair(0, 2, 2)]
  {
    var w, P := "abab", Pair(0, 2, 2);
    assert w[0..2] == w[2..4];
    assert Candidate(w, 0, 2, 2);
    forall q | q in pairs ensures !Precedes(q, 0, 2) {
      var k :| 0 <= k < |pairs| && pairs[k] == q;
      assert Candidate(w, pairs[k].x, pairs[k].y, pairs[k].l);
    }
    assert P in pairs;
    var i :| 0 <= i < |pairs| && pairs[i] == P;
    forall q | q in pairs ensures q == P {
      var k :| 0 <= k < |pairs| && pairs[k] == q;
      AbabCandidates(q.x, q.y, q.l);
      assert k < i ==> Precedes(q, P.x, P.l);
      assert i < k ==> !Nests(P, q.x, q.y, q.l);
    }
    OnlyTrial(pairs, P);
  }

  /** A list in trial order whose elements all equal `p` is `[p]`. */
  lemma OnlyTrial(pairs: seq<Pair>, p: Pair)
    requires InTrialOrder(pairs) && p in pairs
    requires forall q :: q in pairs ==> q == p
    ensures pairs == [p]
  {
    assert pairs[0] in pairs;
    assert |pairs| >= 2 ==> pairs[1] in pairs;
    assert |pairs| >= 2 ==> Precedes(pairs[0], pairs[1].x, pairs[1].l);
  }

  /** The candidates of `abab`: the two copies of `ab`, of `a`, and of `b`. */
  lemma AbabCandidates(x: int, y: int, l: int)
    ensures Candidate("abab", x, y, l) ==>
      (x == 0 && y == 2 && (l == 1 || l == 2)) || (x == 1 && y == 3 && l == 1)
  {
    SliceHead("abab", x, y, l);
  }

  /** `xyzxyz` is one region of two copies of `xyz`. */
  lemma RepeatedTripleScan()
    ensures IsRegionScan("xyzxyz", [Region(0, 6, 3)])
  {
    var g := Region(0, 6, 3);
    RepeatedTripleRun();
    forall p | 0 <= p < 6 ensures Covered([g], p) {
      assert [g][0] == g;
    }
  }

  /** Two copies of `xyz` make a run, and no shorter block repeats at 0. */
  lemma RepeatedTripleRun()
    ensures IsRun("xyzxyz", Region(0, 6, 3)) && ShortestPeriod("xyzxyz", Region(0, 6, 3))
  {
    var w := "xyzxyz";
    assert w[3..6] == w[0..3];
    assert BlockMatches(w, 0, 3, 0) && BlockMatches(w, 0, 3, 1);
    forall k | 0 <= k < 2 ensures BlockMatches(w, 0, 3, k) {
    }
    forall l | 1 <= l < 3 ensures !HasRun(w, 0, l) {
      if l == 1 {
        assert w[1..2][0] != w[0..1][0];
      } else {
        assert w[2..4][0] != w[0..2][0];
      }
    }
  }

  /**
   * For `xyzxyz` the scan finds the region `(0, 6, 3)`; the raw pair
   * `(0, 3, 3)` lies inside it across two blocks and is dropped, and the
   * region contributes the canonical pair `(0, 3, 3)` in its place.
   */
  lemma RepeatedTriple(out: seq<Pair>, pairs: seq<Pair>, regions: seq<Region>)
    requires IsRegionScan("xyzxyz", regions) && IsMaximalPairList("xyzxyz", pairs) && PositivePeriods(regions)
    requires out == Kept(pairs, regions) + AllCanonical(regions)
    ensures regions == [Region(0, 6, 3)]
    ensures out == [Pair(0, 3, 3)]
  {
    var g := Region(0, 6, 3);
    RepeatedTripleScan();
    RegionScanUnique("xyzxyz", regions, [g]);
    RepeatedTripleKept(pairs);
    assert AllCanonical([g]) == AllCanonical([]) + Canonical(g);
    NoRegionsNoChange([]);
    assert Canonical(g) == [Pair(0, 3, 3)];
  }

  /** Every maximal pair of `xyzxyz` spans two blocks of its region, so none is kept. */
  lemma RepeatedTripleKept(pairs: seq<Pair>)
    requires IsMaximalPairList("xyzxyz", pairs)
    ensures Kept(pairs, [Region(0, 6, 3)]) == []
  {
    var w, g := "xyzxyz", Region(0, 6, 3);
    MaximalPairsMatch(w, pairs);
    forall p | p in pairs ensures !Keep(p, [g]) {
      SliceHead(w, p.x, p.y, p.l);
      assert p.y == p.x + 3;
      assert [g][0] == g && Inside(p, g);
    }
    EmptyKept(pairs, [g]);
  }

  /** The scan of `aabaab` finds the runs `aa` at 0 and at 3. */
  lemma AabaabScan()
    ensures IsRegionScan("aabaab", [Region(0, 2, 1), Region(3, 5, 1)])
  {
    var w, rs := "aabaab", [Region(0, 2, 1), Region(3, 5, 1)];
    AabaabRuns();
    forall p | 0 <= p < |w| ensures Covered(rs, p) || NoRunAt(w, p) {
      if p < 2 {
        assert rs[0].r <= p < rs[0].e;
      } else if p == 2 || p == 5 {
        forall l ensures !HasRun(w, p, l) {
          RunHead(w, p, l);
        }
      } else {
        assert rs[1].r <= p < rs[1].e;
      }
    }
  }

  /** `aa` at 0 and at 3 are runs that stop at the `b` after them. */
  lemma AabaabRuns()
    ensures IsRun("aabaab", Region(0, 2, 1)) && IsRun("aabaab", Region(3, 5, 1))
  {
    DoubledSymbol("aabaab", 0);
    DoubledSymbol("aabaab", 3);
  }

  /** A symbol written twice and then followed by another symbol is a run. */
  lemma DoubledSymbol(w: string, r: int)
    requires 0 <= r && r + 3 <= |w| && w[r + 1] == w[r] && w[r + 2] != w[r]
    ensures IsRun(w, Region(r, r + 2, 1))
  {
    assert w[r + 1..r + 2] == [w[r + 1]] && w[r..r + 1] == [w[r]];
    assert BlockMatches(w, r, 1, 0) && BlockMatches(w, r, 1, 1);
    assert w[r + 2..r + 3] != w[r..r + 1] by { assert w[r + 2..r + 3][0] != w[r..r + 1][0]; }
  }

  /**
   * The scan of `aabaab` is `[(0, 2, 1), (3, 5, 1)]`, although `(0, 6, 3)`
   * is a run whose block `aab` contains the block `a` of the first region
   * and which contains that region: the scan keeps the first block length
   * that gives a run, not the regions minimal in the sense of rule 2.1.
   */
  lemma AabaabRegions(regions: seq<Region>)
    requires IsRegionScan("aabaab", regions)
    ensures regions == [Region(0, 2, 1), Region(3, 5, 1)]
    ensures IsRun("aabaab", Region(0, 6, 3))
    ensures OccursAt("aabaab"[0..3], "aabaab"[0..1], 0)
  {
    var w := "aabaab";
    AabaabScan();
    RegionScanUnique(w, regions, [Region(0, 2, 1), Region(3, 5, 1)]);
    assert w[3..6] == w[0..3];
    assert BlockMatches(w, 0, 3, 0) && BlockMatches(w, 0, 3, 1);
  }

  /** A run repeats the symbol at its start one block further on. */
  lemma RunHead(w: string, p: int, l: int)
    ensures HasRun(w, p, l) ==> w[p + l] == w[p]
  {
    if HasRun(w, p, l) {
      assert w[p + l..p + l + l][0] == w[p..p + l][0];
    }
  }

  /** Symbol `i` of two equal slices agrees. */
  lemma SliceAt(w: string, x: int, y: int, l: int, i: int)
    ensures SameSlice(w, x, y, l) && 0 <= i < l ==> w[x + i] == w[y + i]
  {
    if SameSlice(w, x, y, l) && 0 <= i < l {
      assert w[x..x + l][i] == w[y..y + l][i];
    }
  }

  /** `aaaaxybcbc` has the runs `aaaa` at 0 and `bcbc` at 6. */
  lemma FarGridScan()
    ensures IsRegionScan("aaaaxybcbc", [Region(0, 4, 1), Region(6, 10, 2)])
  {
    var w, rs := "aaaaxybcbc", [Region(0, 4, 1), Region(6, 10, 2)];
    FarGridRuns();
    forall p | 0 <= p < |w| ensures Covered(rs, p) || NoRunAt(w, p) {
      if p < 4 {
        assert rs[0].r <= p < rs[0].e;
      } else if p < 6 {
        forall l ensures !HasRun(w, p, l) {
          RunHead(w, p, l);
        }
      } else {
        assert rs[1].r <= p < rs[1].e;
      }
    }
  }

  /** `aaaa` stops at the `x`; `bcbc` reaches the end and `b` alone does not repeat. */
  lemma FarGridRuns()
    ensures IsRun("aaaaxybcbc", Region(0, 4, 1))
    ensures IsRun("aaaaxybcbc", Region(6, 10, 2)) && ShortestPeriod("aaaaxybcbc", Region(6, 10, 2))
  {
    var w := "aaaaxybcbc";
    forall k | 0 <= k < 4 ensures BlockMatches(w, 0, 1, k) {
      assert w[k] == w[0];
      assert w[k..k + 1] == [w[k]] && w[0..1] == [w[0]];
    }
    assert w[4..5] != w[0..1] by { assert w[4..5][0] != w[0..1][0]; }
    assert w[8..10] == w[6..8];
    assert BlockMatches(w, 6, 2, 0) && BlockMatches(w, 6, 2, 1);
    RunHead(w, 6, 1);
  }

  /** The naive finder reports `(0, 1, 1)` and `(2, 3, 1)` for `aaaaxybcbc`. */
  lemma FarGridPairs(pairs: seq<Pair>)
    requires IsMaximalPairList("aaaaxybcbc", pairs)
    ensures Pair(0, 1, 1) in pairs && Pair(2, 3, 1) in pairs
  {
    FarGridFirst(pairs);
    FarGridThird(pairs);
  }

  /** `(0, 1, 1)`: no pair tried earlier at 0 has its second copy before 2. */
  lemma FarGridFirst(pairs: seq<Pair>)
    requires IsMaximalPairList("aaaaxybcbc", pairs)
    ensures Pair(0, 1, 1) in pairs
  {
    var w := "aaaaxybcbc";
    assert w[0..1] == w[1..2];
    assert Candidate(w, 0, 1, 1);
    forall q | q in pairs ensures !(Precedes(q, 0, 1) && Nests(q, 0, 1, 1)) {
      var k :| 0 <= k < |pairs| && pairs[k] == q;
      assert Candidate(w, pairs[k].x, pairs[k].y, pairs[k].l);
    }
  }

  /** `(2, 3, 1)`: a longer pair nesting it would need `aa` or `aaa` at 3. */
  lemma FarGridThird(pairs: seq<Pair>)
    requires IsMaximalPairList("aaaaxybcbc", pairs)
    ensures Pair(2, 3, 1) in pairs
  {
    var w := "aaaaxybcbc";
    assert w[2..3] == w[3..4];
    assert Candidate(w, 2, 3, 1);
    forall q | q in pairs ensures !(Precedes(q, 2, 1) && Nests(q, 2, 3, 1)) {
      var k :| 0 <= k < |pairs| && pairs[k] == q;
      assert Candidate(w, pairs[k].x, pairs[k].y, pairs[k].l);
      SliceAt(w, q.x, q.y, q.l, q.l - 1);
    }
  }

  /**
   * The keep-condition tests the block grid of every region, and that grid
   * runs on past the region's ends. In `aaaaxybcbc`, the pairs `(0, 1, 1)`
   * and `(2, 3, 1)` lie in the region `(0, 4, 1)` across two of its blocks.
   * They still pass the test against `(6, 10, 2)`, whose grid, extended to
   * the left, has each of them in one cell. So each is kept and is also a
   * canonical pair of `(0, 4, 1)`, and the output holds it twice.
   */
  lemma FarGridRepeats(out: seq<Pair>, pairs: seq<Pair>, regions: seq<Region>)
    requires IsRegionScan("aaaaxybcbc", regions) && IsMaximalPairList("aaaaxybcbc", pairs) && PositivePeriods(regions)
    requires out == Kept(pairs, regions) + AllCanonical(regions)
    ensures regions == [Region(0, 4, 1), Region(6, 10, 2)]
    ensures Pair(0, 1, 1) in Kept(pairs, regions) && Pair(2, 3, 1) in Kept(pairs, regions)
    ensures Pair(0, 1, 1) in AllCanonical(regions) && Pair(2, 3, 1) in AllCanonical(regions)
    ensures multiset(out)[Pair(0, 1, 1)] >= 2 && multiset(out)[Pair(2, 3, 1)] >= 2
  {
    var g, h := Region(0, 4, 1), Region(6, 10, 2);
    FarGridScan();
    RegionScanUnique("aaaaxybcbc", regions, [g, h]);
    FarGridPairs(pairs);
    FarGridKeep();
    FarGridCanonical();
    KeptAndCanonical(out, pairs, regions, Pair(0, 1, 1));
    KeptAndCanonical(out, pairs, regions, Pair(2, 3, 1));
  }

  /** A kept pair that is also a canonical pair occurs twice in the filter's output. */
  lemma KeptAndCanonical(out: seq<Pair>, pairs: seq<Pair>, regions: seq<Region>, p: Pair)
    requires PositivePeriods(regions) && out == Kept(pairs, regions) + AllCanonical(regions)
    requires p in pairs && Keep(p, regions) && p in AllCanonical(regions)
    ensures p in Kept(pairs, regions) && multiset(out)[p] >= 2
  {
    var kept, canon := Kept(pairs, regions), AllCanonical(regions);
    assert multiset(out) == multiset(kept) + multiset(canon);
  }

  /** `(0, 1, 1)` and `(2, 3, 1)` pass the keep-condition by the grid of `(6, 10, 2)`. */
  lemma FarGridKeep()
    ensures Keep(Pair(0, 1, 1), [Region(0, 4, 1), Region(6, 10, 2)])
    ensures Keep(Pair(2, 3, 1), [Region(0, 4, 1), Region(6, 10, 2)])
    ensures !OneBlock(Pair(0, 1, 1), Region(0, 4, 1)) && !OneBlock(Pair(2, 3, 1), Region(0, 4, 1))
  {
    var g, h := Region(0, 4, 1), Region(6, 10, 2);
    assert [g, h][1] == h && OneBlock(Pair(0, 1, 1), h) && OneBlock(Pair(2, 3, 1), h);
  }

  /** `(0, 1, 1)` and `(2, 3, 1)` are canonical pairs of `(0, 4, 1)`. */
  lemma FarGridCanonical()
    ensures Pair(0, 1, 1) in AllCanonical([Region(0, 4, 1), Region(6, 10, 2)])
    ensures Pair(2, 3, 1) in AllCanonical([Region(0, 4, 1), Region(6, 10, 2)])
  {
    var g, h := Region(0, 4, 1), Region(6, 10, 2);
    assert [g, h][..1] == [g];
    NoRegionsNoChange([]);
    assert Canonical(g) == [Pair(0, 1, 1), Pair(1, 2, 1), Pair(2, 3, 1)];
    assert AllCanonical([g, h]) == Canonical(g) + Canonical(h);
  }

  /** Nothing is kept when no pair passes the keep-condition. */
  lemma EmptyKept(pairs: seq<Pair>, regions: seq<Region>)
    requires PositivePeriods(regions) && forall p :: p in pairs ==> !Keep(p, regions)
    ensures Kept(pairs, regions) == []
  {
    FirstElement(Kept(pairs, regions));
  }

  /** The occurrence map for `abab` whose keys are `a`, `b` and `ab`. */
  function AbabMap(): map<string, set<int>>
  {
    map["a" := {0, 2}, "b" := {1, 3}, "ab" := {0, 2}]
  }

  /** The keys of the map, and the starts recorded for each. */
  lemma AbabKeys(k: string)
    ensures k in AbabMap() <==> k == "a" || k == "b" || k == "ab"
    ensures Algorithm.Starts(AbabMap(), "a") == {0, 2}
    ensures Algorithm.Starts(AbabMap(), "b") == {1, 3}
    ensures Algorithm.Starts(AbabMap(), "ab") == {0, 2}
  {
  }

  /** The only pair of `a`, `(0, 2, 1)`, extends to the right. */
  lemma AbabA(x: int, y: int)
    ensures !Algorithm.Emitted("abab", AbabMap(), "a", x, y)
  {
    AbabKeys("a");
    if Algorithm.NextStart(AbabMap(), "a", x, y) && x in AbabMap()["a"] {
      assert x == 0 && y == 2;
      assert Algorithm.RightExtensible("abab", x, y, 1);
    }
  }

  /** The only pair of `b`, `(1, 3, 1)`, extends to the left. */
  lemma AbabB(x: int, y: int)
    ensures !Algorithm.Emitted("abab", AbabMap(), "b", x, y)
  {
    AbabKeys("b");
    if Algorithm.NextStart(AbabMap(), "b", x, y) && x in AbabMap()["b"] {
      assert x == 1 && y == 3;
      assert Algorithm.LeftExtensible("abab", x, y, 1);
    }
  }

  /** `ab` yields `(0, 2, 2)` and nothing else: no key is longer than it. */
  lemma AbabAB(x: int, y: int)
    ensures Algorithm.Emitted("abab", AbabMap(), "ab", x, y) <==> x == 0 && y == 2
  {
    var w, subs := "abab", AbabMap();
    AbabKeys("ab");
    assert Algorithm.NextStart(subs, "ab", x, y) && x in subs["ab"] <==> x == 0 && y == 2;
    forall large | large in subs ensures !Algorithm.IsLarger(large, "ab") {
      AbabKeys(large);
    }
    assert !Algorithm.IsContained(subs, "ab", 0, 2);
    assert !Algorithm.RightExtensible(w, 0, 2, 2) && !Algorithm.LeftExtensible(w, 0, 2, 2);
  }

  /**
   * With that map, whatever the dictionary order, the suffix-tree loop
   * yields only `(0, 2, 2)`: the pair of `a` extends to the right, the pair
   * of `b` to the left, and `ab` has no longer key that could subsume it.
   */
  lemma AbabOutput(order: seq<string>, out: seq<Pair>)
    requires Algorithm.IsAcceleratedOutput("abab", AbabMap(), order, out)
    ensures out == [Pair(0, 2, 2)]
  {
    var w, subs := "abab", AbabMap();
    AbabAB(0, 2);
    assert Pair(0, 2, 2) in out;
    forall p | p in out ensures p == Pair(0, 2, 2) {
      assert Algorithm.EmittedPair(w, subs, p);
      var k := Algorithm.Key(w, p);
      AbabKeys(k);
      AbabA(p.x, p.y);
      AbabB(p.x, p.y);
      AbabAB(p.x, p.y);
    }
    OnlyPair(w, order, out, Pair(0, 2, 2));
  }

  /** A key-ordered list whose every element is `p` holds `p` at most once. */
  lemma OnlyPair(w: string, order: seq<string>, out: seq<Pair>, p: Pair)
    requires Algorithm.KeyOrdered(w, order, out) && p in out
    requires forall q :: q in out ==> q == p
    ensures out == [p]
  {
    assert out[0] in out;
    assert |out| >= 2 ==> out[1] in out;
    assert |out| >= 2 ==> Algorithm.KeyBefore(w, order, out[0], out[1]);
  }
}
