/**
 * The suffix-tree pipeline after the tree walk. The walk fills a map from
 * each repeated substring to the set of offsets where it was seen; here that
 * map is an input (`subs`), together with the order in which the dictionary
 * yields its keys (`order`). What follows the walk is modelled as the source
 * has it: sorting the starts, finding the next non-overlapping start, the
 * left and right extension tests, the subsumption test against longer keys,
 * and the essential filter with the stub region detector.
 */
module Algorithm {
  import opened Strings
  import opened Repeats
  import opened Essential

  // ---------------------------------------------------------------------
  // The occurrence map
  // ---------------------------------------------------------------------

  /** `substrings[k]` on the `defaultdict(set)`: a missing key reads as empty. */
  function Starts(subs: map<string, set<int>>, k: string): (r: set<int>)
  {
    if k in subs then subs[k] else {}
  }

  /** Every recorded start is an occurrence of its key, and such keys are nonempty. */
  ghost predicate Sound(w: string, subs: map<string, set<int>>)
  {
    forall k, p :: k in subs && p in subs[k] ==> 1 <= |k| && OccursAt(w, k, p)
  }

  /** `order` is the dictionary's iteration order: every key exactly once. */
  ghost predicate Enumerates(order: seq<string>, subs: map<string, set<int>>)
  {
    (forall k :: k in subs <==> k in order) &&
    (forall i, j :: 0 <= i < j < |order| ==> order[i] != order[j])
  }

  /** The position of `k` in `order` (`|order|` when absent). */
  function Rank(order: seq<string>, k: string): (r: nat)
    ensures r <= |order|
    ensures r < |order| <==> k in order
    ensures r < |order| ==> order[r] == k
  {
    if order == [] then 0
    else if order[0] == k then 0
    else 1 + Rank(order[1..], k)
  }

  /** In a list without repeats, the element at `t` has rank `t`. */
  lemma {:induction false} RankAt(order: seq<string>, t: int)
    requires 0 <= t < |order|
    requires forall i, j :: 0 <= i < j < |order| ==> order[i] != order[j]
    ensures Rank(order, order[t]) == t
    decreases t
  {
    if t > 0 {
      assert order[0] != order[t];
      RankAt(order[1..], t - 1);
      assert order[1..][t - 1] == order[t];
    }
  }

  // ---------------------------------------------------------------------
  // find_all
  // ---------------------------------------------------------------------

  /** The offsets are strictly increasing. */
  predicate Increasing(s: seq<int>)
  {
    forall i, j :: 0 <= i < j < |s| ==> s[i] < s[j]
  }

  /** A value above every element extends an increasing sequence. */
  lemma AppendIncreasing(s: seq<int>, v: int)
    requires Increasing(s) && forall q :: q in s ==> q < v
    ensures Increasing(s + [v])
  {
    forall i, j | 0 <= i < j < |s| + 1 ensures (s + [v])[i] < (s + [v])[j] {
      if j == |s| {
        assert s[i] in s;
      }
    }
  }

  /** `find_all(a, sub)`: every occurrence of `sub` in `a`, overlapping ones included, in order. */
  method FindAll(a: string, sub: string) returns (idx: seq<int>)
    ensures Increasing(idx)
    ensures forall p :: p in idx <==> OccursAt(a, sub, p)
  {
    idx := [];
    var start := 0;
    while true
      invariant 0 <= start <= |a| + 1
      invariant Increasing(idx) && forall q :: q in idx ==> q < start
      invariant forall p :: p in idx <==> OccursAt(a, sub, p) && p < start
      decreases |a| + 1 - start
    {
      start := FindFrom(a, sub, start);
      if start == -1 {
        return;
      }
      AppendIncreasing(idx, start);
      idx := idx + [start];
      start := start + 1;
    }
  }

  // ---------------------------------------------------------------------
  // sorted(starts)
  // ---------------------------------------------------------------------

  /** A nonempty finite set of integers has a least element. */
  lemma {:induction false} HasLeast(s: set<int>)
    requires |s| > 0
    ensures exists m :: m in s && forall z :: z in s ==> m <= z
    decreases |s|
  {
    if forall z :: z !in s {
      assert false;
    }
    var v :| v in s;
    var rest := s - {v};
    if rest == {} {
      forall z | z in s ensures v <= z {
        assert z !in rest;
      }
    } else {
      HasLeast(rest);
      var m :| m in rest && forall z :: z in rest ==> m <= z;
      var least := if v < m then v else m;
      forall z | z in s ensures least <= z {
        if z != v {
          assert z in rest;
        }
      }
      assert least in s;
    }
  }

  /** `sorted(starts)`: the elements of the set in increasing order. */
  method SortStarts(s: set<int>) returns (r: seq<int>)
    ensures Increasing(r)
    ensures forall z :: z in r <==> z in s
  {
    r := [];
    var rest := s;
    while |rest| > 0
      invariant Increasing(r)
      invariant forall z :: z in s <==> z in r || z in rest
      invariant forall z, t :: z in r && t in rest ==> z < t
      decreases |rest|
    {
      HasLeast(rest);
      var m :| m in rest && forall z :: z in rest ==> m <= z;
      AppendIncreasing(r, m);
      r := r + [m];
      rest := rest - {m};
    }
  }

  // ---------------------------------------------------------------------
  // contained
  // ---------------------------------------------------------------------

  /** `k` is longer than `sub` and both starts and ends with it. */
  predicate IsLarger(k: string, sub: string)
  {
    |k| > |sub| && sub <= k && k[|k| - |sub|..] == sub
  }

  /** `largers`: the keys longer than `sub` that start and end with it. */
  function Largers(keys: seq<string>, sub: string): (r: seq<string>)
    ensures forall k :: k in r <==> k in keys && IsLarger(k, sub)
  {
    if keys == [] then []
    else (if IsLarger(keys[0], sub) then [keys[0]] else []) + Largers(keys[1..], sub)
  }

  /**
   * The key `large` has recorded starts `x - i` and `y - j` (with `sub` at
   * offsets `i` and `j` inside `large`) whose occurrences do not overlap:
   * an outer pair of `large` covers the pair `(x, y)` of `sub`.
   */
  predicate Encloses(subs: map<string, set<int>>, sub: string, large: string, x: int, y: int, i: int, j: int)
  {
    OccursAt(large, sub, i) && OccursAt(large, sub, j) &&
    (x - i) + |large| <= (y - j) &&
    (x - i) in Starts(subs, large) && (y - j) in Starts(subs, large)
  }

  /** Some longer key has an outer pair that covers `(x, y)` of `sub`. */
  ghost predicate IsContained(subs: map<string, set<int>>, sub: string, x: int, y: int)
  {
    exists large, i, j :: large in subs && IsLarger(large, sub) && Encloses(subs, sub, large, x, y, i, j)
  }

  /** `contained(x, y, l, largers)`, with `sub` the key being processed. */
  method Contained(subs: map<string, set<int>>, sub: string, x: int, y: int, largers: seq<string>) returns (b: bool)
    ensures b <==> exists large, i, j :: large in largers && Encloses(subs, sub, large, x, y, i, j)
  {
    for t := 0 to |largers|
      invariant forall large, i, j :: large in largers[..t] ==> !Encloses(subs, sub, large, x, y, i, j)
    {
      var large := largers[t];
      var starts := Starts(subs, large);
      var idx := FindAll(large, sub);
      for a := 0 to |idx|
        invariant forall i, j :: i in idx[..a] ==> !Encloses(subs, sub, large, x, y, i, j)
      {
        for c := 0 to |idx|
          invariant forall j :: j in idx[..c] ==> !Encloses(subs, sub, large, x, y, idx[a], j)
        {
          var i, j := idx[a], idx[c];
          if (x - i) + |large| <= (y - j) && (x - i) in starts && (y - j) in starts {
            assert Encloses(subs, sub, large, x, y, i, j);
            return true;
          }
          assert idx[..c + 1] == idx[..c] + [j];
        }
        assert forall j :: !Encloses(subs, sub, large, x, y, idx[a], j);
        assert idx[..a + 1] == idx[..a] + [idx[a]];
      }
      assert forall i, j :: !Encloses(subs, sub, large, x, y, i, j);
      assert largers[..t + 1] == largers[..t] + [large];
    }
    assert largers[..|largers|] == largers;
    return false;
  }

  // ---------------------------------------------------------------------
  // The pair loop
  // ---------------------------------------------------------------------

  /** `y` is the least recorded start of `sub` at or after `x + |sub|`. */
  ghost predicate NextStart(subs: map<string, set<int>>, sub: string, x: int, y: int)
  {
    y in Starts(subs, sub) && x + |sub| <= y &&
    forall z :: z in Starts(subs, sub) && x + |sub| <= z ==> y <= z
  }

  /** One more symbol to the left would extend both occurrences. */
  predicate LeftExtensible(w: string, x: int, y: int, l: int)
  {
    x > 0 && 0 <= l && x + l < y && y <= |w| && w[x - 1] == w[y - 1]
  }

  /** One more symbol to the right would extend both occurrences. */
  predicate RightExtensible(w: string, x: int, y: int, l: int)
  {
    0 <= x && 0 <= l && y + l < |w| && x + l < y && w[x + l] == w[y + l]
  }

  /** The loop yields `(x, y, |sub|)` for the key `sub`. */
  ghost predicate Emitted(w: string, subs: map<string, set<int>>, sub: string, x: int, y: int)
  {
    sub in subs && x in subs[sub] && NextStart(subs, sub, x, y) &&
    !LeftExtensible(w, x, y, |sub|) && !RightExtensible(w, x, y, |sub|) &&
    !IsContained(subs, sub, x, y)
  }

  /**
   * The tests for one start `x` of `sub` (lines 63-84 of the loop): the
   * next non-overlapping start `y`, and whether the pair survives the
   * extension and subsumption tests.
   */
  method TestStart(w: string, subs: map<string, set<int>>, sub: string, starts: seq<int>,
                   largers: seq<string>, x: int) returns (y: int, emit: bool)
    requires Sound(w, subs) && sub in subs && x in subs[sub]
    requires Increasing(starts) && forall z :: z in starts <==> z in subs[sub]
    requires forall k :: k in largers <==> k in subs && IsLarger(k, sub)
    ensures emit ==> Emitted(w, subs, sub, x, y)
    ensures forall y' :: Emitted(w, subs, sub, x, y') ==> emit && y' == y
  {
    var l := |sub|;
    var j := 0;
    while j < |starts| && starts[j] < x + l
      invariant 0 <= j <= |starts|
      invariant forall t :: 0 <= t < j ==> starts[t] < x + l
    {
      j := j + 1;
    }
    if j == |starts| {
      forall z | z in Starts(subs, sub) ensures z < x + l {
        var t :| 0 <= t < |starts| && starts[t] == z;
      }
      return -1, false;
    }
    y := starts[j];
    assert NextStart(subs, sub, x, y) by {
      forall z | z in Starts(subs, sub) && x + l <= z ensures y <= z {
        var t :| 0 <= t < |starts| && starts[t] == z;
        assert t >= j;
      }
    }
    forall y' | NextStart(subs, sub, x, y') ensures y' == y {
      assert y <= y' && y' <= y;
    }
    assert OccursAt(w, sub, y);
    if x > 0 && x + l < y && w[x - 1] == w[y - 1] {
      return y, false;
    }
    if y + l < |w| && x + l < y && w[x + l] == w[y + l] {
      return y, false;
    }
    var c := Contained(subs, sub, x, y, largers);
    assert c <==> IsContained(subs, sub, x, y);
    emit := !c;
  }

  /** The key an emitted pair belongs to: the substring at its first occurrence. */
  function Key(w: string, p: Pair): (r: string)
  {
    if 0 <= p.x && 0 <= p.l && p.x + p.l <= |w| then w[p.x..p.x + p.l] else []
  }

  /** `q` comes after `p`: a later key, or the same key and a larger start. */
  ghost predicate KeyBefore(w: string, order: seq<string>, p: Pair, q: Pair)
  {
    Rank(order, Key(w, p)) < Rank(order, Key(w, q)) ||
    (Key(w, p) == Key(w, q) && p.x < q.x)
  }

  /** `p` is yielded for its own key. */
  ghost predicate EmittedPair(w: string, subs: map<string, set<int>>, p: Pair)
  {
    p.l == |Key(w, p)| && Emitted(w, subs, Key(w, p), p.x, p.y)
  }

  /** Keys in dictionary order, and starts increasing within a key. */
  ghost predicate KeyOrdered(w: string, order: seq<string>, out: seq<Pair>)
  {
    forall i, j :: 0 <= i < j < |out| ==> KeyBefore(w, order, out[i], out[j])
  }

  /**
   * The output of the suffix-tree `maximal_matching_pairs`: exactly the
   * emitted pairs, grouped by key in dictionary order and by increasing
   * start within a key.
   */
  ghost predicate IsAcceleratedOutput(w: string, subs: map<string, set<int>>, order: seq<string>, out: seq<Pair>)
  {
    (forall p :: p in out ==> EmittedPair(w, subs, p)) &&
    (forall sub, x, y :: Emitted(w, subs, sub, x, y) ==> Pair(x, y, |sub|) in out) &&
    KeyOrdered(w, order, out)
  }

  /** The pair `(x, y, |sub|)` for a recorded start `x` of `sub` has key `sub`. */
  lemma KeyOfStart(w: string, subs: map<string, set<int>>, sub: string, x: int, y: int)
    requires Sound(w, subs) && sub in subs && x in subs[sub]
    ensures Key(w, Pair(x, y, |sub|)) == sub
  {
  }

  /** The starts of the pairs increase along the list. */
  predicate StartsIncrease(ps: seq<Pair>)
  {
    forall i, j :: 0 <= i < j < |ps| ==> ps[i].x < ps[j].x
  }

  /**
   * The body of the loop over the dictionary for one key `sub`: every pair
   * emitted for `sub`, by increasing first start.
   */
  method KeyPairs(w: string, subs: map<string, set<int>>, order: seq<string>, sub: string) returns (ps: seq<Pair>)
    requires Sound(w, subs) && Enumerates(order, subs) && sub in subs
    ensures forall p :: p in ps ==> EmittedPair(w, subs, p) && Key(w, p) == sub
    ensures forall x, y :: Emitted(w, subs, sub, x, y) ==> Pair(x, y, |sub|) in ps
    ensures StartsIncrease(ps)
  {
    var starts := SortStarts(subs[sub]);
    var largers := Largers(order, sub);
    var l := |sub|;
    ps := [];
    for i := 0 to |starts|
      invariant forall p :: p in ps ==> EmittedPair(w, subs, p) && Key(w, p) == sub && p.x in starts[..i]
      invariant forall x, y :: Emitted(w, subs, sub, x, y) && x in starts[..i] ==> Pair(x, y, l) in ps
      invariant StartsIncrease(ps)
    {
      var x := starts[i];
      var y, emit := TestStart(w, subs, sub, starts, largers, x);
      assert starts[..i + 1] == starts[..i] + [x];
      if emit {
        KeyOfStart(w, subs, sub, x, y);
        forall p | p in ps ensures p.x < x {
          var u :| 0 <= u < i && starts[u] == p.x;
        }
        ps := ps + [Pair(x, y, l)];
      }
      assert forall x', y' :: Emitted(w, subs, sub, x', y') && x' in starts[..i + 1] ==>
        x' in starts[..i] || (x' == x && y' == y && emit);
    }
    assert starts[..|starts|] == starts;
  }

  /** The pair loop of `maximal_matching_pairs` over the occurrence map. */
  method MaximalMatchingPairs(w: string, subs: map<string, set<int>>, order: seq<string>) returns (out: seq<Pair>)
    requires Sound(w, subs) && Enumerates(order, subs)
    ensures IsAcceleratedOutput(w, subs, order, out)
  {
    out := [];
    for t := 0 to |order|
      invariant forall p :: p in out ==> EmittedPair(w, subs, p) && Rank(order, Key(w, p)) < t
      invariant forall k, x, y :: Emitted(w, subs, k, x, y) && Rank(order, k) < t ==> Pair(x, y, |k|) in out
      invariant KeyOrdered(w, order, out)
    {
      var sub := order[t];
      RankAt(order, t);
      var ps := KeyPairs(w, subs, order, sub);
      AppendKey(w, order, out, ps, t, sub);
      out := out + ps;
    }
  }

  /** Appending the pairs of the key at rank `t` after those of earlier keys keeps the order. */
  lemma AppendKey(w: string, order: seq<string>, out: seq<Pair>, ps: seq<Pair>, t: int, sub: string)
    requires Rank(order, sub) == t
    requires KeyOrdered(w, order, out) && forall q :: q in out ==> Rank(order, Key(w, q)) < t
    requires StartsIncrease(ps) && forall q :: q in ps ==> Key(w, q) == sub
    ensures KeyOrdered(w, order, out + ps)
  {
    var o := out + ps;
    forall a, b | 0 <= a < b < |o| ensures KeyBefore(w, order, o[a], o[b]) {
      if b >= |out| {
        assert o[b] == ps[b - |out|];
        if a < |out| {
          assert o[a] in out;
        } else {
          assert o[a] == ps[a - |out|];
        }
      }
    }
  }

  // ---------------------------------------------------------------------
  // Properties of the emitted pairs
  // ---------------------------------------------------------------------

  /**
   * Every emitted pair is an identical, non-overlapping pair whose second
   * start is the least recorded start past the first occurrence, which the
   * left and right tests cannot extend, and which no longer key subsumes.
   */
  lemma EmittedIsMaximal(w: string, subs: map<string, set<int>>, order: seq<string>, out: seq<Pair>)
    requires Sound(w, subs) && IsAcceleratedOutput(w, subs, order, out)
    ensures forall p :: p in out ==> IsMatchingPair(w, p)
    ensures forall p :: p in out ==> NextStart(subs, Key(w, p), p.x, p.y)
    ensures forall p :: p in out && p.x > 0 && p.x + p.l < p.y ==> w[p.x - 1] != w[p.y - 1]
    ensures forall p :: p in out && p.y + p.l < |w| && p.x + p.l < p.y ==> w[p.x + p.l] != w[p.y + p.l]
    ensures forall p :: p in out ==> !IsContained(subs, Key(w, p), p.x, p.y)
    ensures |w| <= 1 ==> out == []
  {
    forall p | p in out
      ensures IsMatchingPair(w, p) && NextStart(subs, Key(w, p), p.x, p.y)
      ensures p.x > 0 && p.x + p.l < p.y ==> w[p.x - 1] != w[p.y - 1]
      ensures p.y + p.l < |w| && p.x + p.l < p.y ==> w[p.x + p.l] != w[p.y + p.l]
      ensures !IsContained(subs, Key(w, p), p.x, p.y)
    {
      EmittedPairFacts(w, subs, p);
    }
    assert out != [] ==> out[0] in out;
  }

  /** What being emitted says about one pair. */
  lemma EmittedPairFacts(w: string, subs: map<string, set<int>>, p: Pair)
    requires Sound(w, subs) && EmittedPair(w, subs, p)
    ensures IsMatchingPair(w, p) && NextStart(subs, Key(w, p), p.x, p.y)
    ensures p.x > 0 && p.x + p.l < p.y ==> w[p.x - 1] != w[p.y - 1]
    ensures p.y + p.l < |w| && p.x + p.l < p.y ==> w[p.x + p.l] != w[p.y + p.l]
    ensures !IsContained(subs, Key(w, p), p.x, p.y)
  {
    var k := Key(w, p);
    assert OccursAt(w, k, p.x) && OccursAt(w, k, p.y);
  }

  /** The first pair of a key-ordered list comes before every other pair in it. */
  lemma FirstIsLeast(w: string, order: seq<string>, a: seq<Pair>)
    requires KeyOrdered(w, order, a) && a != []
    ensures forall p :: p in a ==> p == a[0] || KeyBefore(w, order, a[0], p)
  {
    forall p | p in a ensures p == a[0] || KeyBefore(w, order, a[0], p) {
      var k :| 0 <= k < |a| && a[k] == p;
      if k > 0 {
        assert KeyBefore(w, order, a[0], a[k]);
      }
    }
  }

  /** Two key-ordered lists with the same elements are the same list. */
  lemma {:induction false} KeyOrderedUnique(w: string, order: seq<string>, a: seq<Pair>, b: seq<Pair>)
    requires KeyOrdered(w, order, a) && KeyOrdered(w, order, b)
    requires forall p :: p in a <==> p in b
    ensures a == b
    decreases |a|
  {
    assert a != [] ==> a[0] in b;
    assert b != [] ==> b[0] in a;
    if a != [] && b != [] {
      FirstIsLeast(w, order, a);
      FirstIsLeast(w, order, b);
      assert a[0] in b && b[0] in a;
      assert a[0] == b[0];
      forall p ensures p in a[1..] <==> p in b[1..] {
        if p in a[1..] {
          var k :| 0 <= k < |a| - 1 && a[1..][k] == p;
          assert KeyBefore(w, order, a[0], a[k + 1]);
          assert a[k + 1] == p && p in b;
          var m :| 0 <= m < |b| && b[m] == p;
          assert m != 0 && b[1..][m - 1] == p;
        }
        if p in b[1..] {
          var k :| 0 <= k < |b| - 1 && b[1..][k] == p;
          assert KeyBefore(w, order, b[0], b[k + 1]);
          assert b[k + 1] == p && p in a;
          var m :| 0 <= m < |a| && a[m] == p;
          assert m != 0 && a[1..][m - 1] == p;
        }
      }
      KeyOrderedUnique(w, order, a[1..], b[1..]);
      assert a == [a[0]] + a[1..] && b == [b[0]] + b[1..];
    }
  }

  /** The loop's output is determined by the occurrence map and the dictionary order. */
  lemma AcceleratedOutputUnique(w: string, subs: map<string, set<int>>, order: seq<string>, a: seq<Pair>, b: seq<Pair>)
    requires IsAcceleratedOutput(w, subs, order, a) && IsAcceleratedOutput(w, subs, order, b)
    ensures a == b
  {
    forall p ensures p in a <==> p in b {
      if p in a {
        assert EmittedPair(w, subs, p);
        assert Pair(p.x, p.y, |Key(w, p)|) == p;
      }
      if p in b {
        assert EmittedPair(w, subs, p);
        assert Pair(p.x, p.y, |Key(w, p)|) == p;
      }
    }
    KeyOrderedUnique(w, order, a, b);
  }

  // ---------------------------------------------------------------------
  // The pipeline
  // ---------------------------------------------------------------------

  /** `repetition_regions(tree)` of the suffix-tree module: a stub that finds no region. */
  function TreeRepetitionRegions(w: string): (regions: seq<Region>)
    ensures |regions| == 0
  {
    []
  }

  /**
   * `essential_matching_pairs` of the suffix-tree module: with no regions
   * the filter keeps every pair and adds none, so the output is exactly the
   * output of the pair loop.
   */
  method EssentialMatchingPairs(w: string, subs: map<string, set<int>>, order: seq<string>) returns (out: seq<Pair>)
    requires Sound(w, subs) && Enumerates(order, subs)
    ensures IsAcceleratedOutput(w, subs, order, out)
    ensures forall p :: p in out ==> IsMatchingPair(w, p)
  {
    var regions := TreeRepetitionRegions(w);
    var pairs := MaximalMatchingPairs(w, subs, order);
    out := EssentialPairs(pairs, regions);
    NoRegionsNoChange(pairs);
    EmittedIsMaximal(w, subs, order, out);
  }
}
