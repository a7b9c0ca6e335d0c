/**
 * The essential-pair filter (Definition 3), shared by the naive and the
 * suffix-tree pipeline: matching pairs that a region makes redundant are
 * dropped, and every region contributes its canonical adjacent pairs.
 */
module Essential {
  import opened Strings
  import opened Repeats

  /** Every region has a positive block length, so the filter may divide by it. */
  predicate PositivePeriods(regions: seq<Region>)
  {
    forall i :: 0 <= i < |regions| ==> 1 <= regions[i].l
  }

  /** Both occurrences of `p` lie inside the region `g` (Definition 3.1). */
  predicate Inside(p: Pair, g: Region)
  {
    p.x >= g.r && p.y + p.l <= g.e
  }

  /**
   * The span from `p.x` to the last symbol of the second occurrence falls in
   * one block of the tiling of `g` (Definition 3.2); Python 2 integer `/`
   * floors, like Dafny's for a positive divisor.
   */
  predicate OneBlock(p: Pair, g: Region)
    requires 1 <= g.l
  {
    (p.x - g.r) / g.l == (p.y + p.l - g.r - 1) / g.l
  }

  /**
   * The keep-condition: no region contains the pair, or some region (any of
   * them, not only a containing one) has the whole pair in one block.
   */
  predicate Keep(p: Pair, regions: seq<Region>)
    requires PositivePeriods(regions)
  {
    !(exists i :: 0 <= i < |regions| && Inside(p, regions[i])) ||
    (exists i :: 0 <= i < |regions| && OneBlock(p, regions[i]))
  }

  /** The pairs the filter keeps, in their input order. */
  function Kept(pairs: seq<Pair>, regions: seq<Region>): (r: seq<Pair>)
    requires PositivePeriods(regions)
    ensures forall p :: p in r <==> p in pairs && Keep(p, regions)
    ensures |r| <= |pairs|
  {
    if pairs == [] then []
    else
      var last := pairs[|pairs| - 1];
      Kept(pairs[..|pairs| - 1], regions) + (if Keep(last, regions) then [last] else [])
  }

  /** The canonical pairs `(x, x + l, l)` for `x` in `range(x, e - l, l)`. */
  function CanonicalFrom(x: int, e: int, l: int): (r: seq<Pair>)
    requires 1 <= l
    decreases e - x
  {
    if x < e - l then [Pair(x, x + l, l)] + CanonicalFrom(x + l, e, l) else []
  }

  /** The canonical pairs of one region (Definition 3.3). */
  function Canonical(g: Region): (r: seq<Pair>)
    requires 1 <= g.l
  {
    CanonicalFrom(g.r, g.e, g.l)
  }

  /** The canonical pairs of all regions, grouped by region in list order. */
  function AllCanonical(regions: seq<Region>): (r: seq<Pair>)
    requires PositivePeriods(regions)
  {
    if regions == [] then []
    else AllCanonical(regions[..|regions| - 1]) + Canonical(regions[|regions| - 1])
  }

  /**
   * `essential_matching_pairs` after its inputs are computed: the kept pairs
   * in input order, then the canonical pairs region by region.
   */
  method EssentialPairs(pairs: seq<Pair>, regions: seq<Region>) returns (out: seq<Pair>)
    requires PositivePeriods(regions)
    ensures out == Kept(pairs, regions) + AllCanonical(regions)
  {
    out := [];
    for i := 0 to |pairs|
      invariant out == Kept(pairs[..i], regions)
    {
      assert pairs[..i + 1][..i] == pairs[..i];
      if Keep(pairs[i], regions) {
        out := out + [pairs[i]];
      }
    }
    assert pairs[..|pairs|] == pairs;
    ghost var kept := out;
    for k := 0 to |regions|
      invariant out == kept + AllCanonical(regions[..k])
    {
      assert regions[..k + 1][..k] == regions[..k];
      var c := RegionPairs(regions[k]);
      out := out + c;
    }
    assert regions[..|regions|] == regions;
  }

  /** The inner loop of Definition 3.3: `for x in range(r, e - l, l)`. */
  method RegionPairs(g: Region) returns (out: seq<Pair>)
    requires 1 <= g.l
    ensures out == Canonical(g)
  {
    out := [];
    var x := g.r;
    while x < g.e - g.l
      invariant out + CanonicalFrom(x, g.e, g.l) == Canonical(g)
      decreases g.e - x
    {
      out := out + [Pair(x, x + g.l, g.l)];
      x := x + g.l;
    }
  }

  /** Filtering distributes over concatenation: the input order is kept. */
  lemma {:induction false} KeptAppend(a: seq<Pair>, b: seq<Pair>, regions: seq<Region>)
    requires PositivePeriods(regions)
    ensures Kept(a + b, regions) == Kept(a, regions) + Kept(b, regions)
    decreases |b|
  {
    if b == [] {
      assert a + b == a;
    } else {
      var b' := b[..|b| - 1];
      assert (a + b)[..|a + b| - 1] == a + b';
      assert (a + b)[|a + b| - 1] == b[|b| - 1];
      KeptAppend(a, b', regions);
    }
  }

  /** One pair is kept exactly when the keep-condition holds of it. */
  lemma KeptSingle(p: Pair, regions: seq<Region>)
    requires PositivePeriods(regions)
    ensures Kept([p], regions) == if Keep(p, regions) then [p] else []
  {
    assert [p][..0] == [];
  }

  /** With no regions nothing is filtered and nothing is added. */
  lemma {:induction false} NoRegionsNoChange(pairs: seq<Pair>)
    ensures Kept(pairs, []) == pairs
    ensures AllCanonical([]) == []
    decreases |pairs|
  {
    if pairs != [] {
      NoRegionsNoChange(pairs[..|pairs| - 1]);
      assert Keep(pairs[|pairs| - 1], []);
      assert pairs[..|pairs| - 1] + [pairs[|pairs| - 1]] == pairs;
    }
  }

  /** The canonical pairs of an aligned span of `m` blocks: `m - 1` abutting pairs. */
  lemma {:induction false} CanonicalFromBlocks(x: int, l: int, m: int)
    requires 1 <= l && 1 <= m
    ensures |CanonicalFrom(x, x + m * l, l)| == m - 1
    ensures forall k :: 0 <= k < m - 1 ==>
      CanonicalFrom(x, x + m * l, l)[k] == Pair(x + k * l, x + k * l + l, l)
    decreases m
  {
    if m > 1 {
      assert x + m * l == (x + l) + (m - 1) * l;
      CanonicalFromBlocks(x + l, l, m - 1);
      var rest := CanonicalFrom(x + l, x + m * l, l);
      assert CanonicalFrom(x, x + m * l, l) == [Pair(x, x + l, l)] + rest;
      forall k | 1 <= k < m - 1
        ensures CanonicalFrom(x, x + m * l, l)[k] == Pair(x + k * l, x + k * l + l, l)
      {
        assert rest[k - 1] == Pair(x + l + (k - 1) * l, x + l + (k - 1) * l + l, l);
        assert x + l + (k - 1) * l == x + k * l;
      }
    } else {
      assert x + m * l == x + l;
    }
  }

  /**
   * A run of `m` blocks yields exactly `m - 1` canonical pairs
   * `(r + k*l, r + (k+1)*l, l)`, each an abutting matching pair of `w`.
   */
  lemma CanonicalOfRun(w: string, g: Region)
    requires IsRun(w, g)
    ensures |Canonical(g)| == (g.e - g.r) / g.l - 1
    ensures forall k :: 0 <= k < |Canonical(g)| ==>
      Canonical(g)[k] == Pair(g.r + k * g.l, g.r + k * g.l + g.l, g.l)
    ensures forall p :: p in Canonical(g) ==> IsMatchingPair(w, p) && p.x + p.l == p.y
  {
    var m := (g.e - g.r) / g.l;
    BlockIndex(g.r, g.e, g.l);
    FewerBlocks(1, m, g.l);
    CanonicalFromBlocks(g.r, g.l, m);
    forall p | p in Canonical(g) ensures IsMatchingPair(w, p) && p.x + p.l == p.y {
      var k :| 0 <= k < |Canonical(g)| && Canonical(g)[k] == p;
      AdjacentBlocks(w, g, k);
    }
  }

  /** Blocks `k` and `k + 1` of a run form an abutting matching pair. */
  lemma AdjacentBlocks(w: string, g: Region, k: int)
    requires IsRun(w, g) && 0 <= k && k + 1 < (g.e - g.r) / g.l
    ensures IsMatchingPair(w, Pair(g.r + k * g.l, g.r + k * g.l + g.l, g.l))
  {
    assert BlockMatches(w, g.r, g.l, k);
    assert BlockMatches(w, g.r, g.l, k + 1);
    assert g.r + (k + 1) * g.l == g.r + k * g.l + g.l;
  }

  /** Essential pairs built from matching pairs and runs of `w` are matching pairs of `w`. */
  lemma EssentialAreMatching(w: string, pairs: seq<Pair>, regions: seq<Region>)
    requires forall p :: p in pairs ==> IsMatchingPair(w, p)
    requires forall i :: 0 <= i < |regions| ==> IsRun(w, regions[i])
    ensures PositivePeriods(regions)
    ensures forall p :: p in Kept(pairs, regions) + AllCanonical(regions) ==> IsMatchingPair(w, p)
    decreases |regions|
  {
    if regions != [] {
      var front := regions[..|regions| - 1];
      EssentialAreMatching(w, [], front);
      CanonicalOfRun(w, regions[|regions| - 1]);
      assert AllCanonical(regions) == AllCanonical(front) + Canonical(regions[|regions| - 1]);
    }
  }
}
