# Arc-diagram repeat detection in Dafny

This project models the repeat-detection core of the arc-diagrams program, which
draws a string as arcs that connect its repeated substrings (after Wattenberg's
"Arc Diagrams" paper). It has two pipelines, each ending with the same
"essential pair" filter:

- **The naive pipeline** (`arc_diagrams/naive_algorithm.py`), in module `Naive`:
  - a brute-force finder for *maximal matching pairs* `(x, y, l)`: two identical,
    non-overlapping, consecutive occurrences of a substring of length `l`;
  - a left-to-right scanner for *repetition regions* `(r, e, l)`: runs of two or
    more copies of a block of length `l`;
  - the essential filter.
- **The suffix-tree pipeline** (`arc_diagrams/algorithm.py`), in module `Algorithm`:
  - the input is the occurrence map that the tree walk produces, given as a map
    from each repeated substring to its set of starts;
  - the pair loop runs over that map in dictionary order. For each key it sorts
    the starts, takes the next non-overlapping start, and applies the left,
    right and subsumption tests (`contained`, `find_all`);
  - the stub region detector returns no region;
  - then the essential filter.

Shared code:

- `Strings`: `str.find` with optional bounds.
- `Repeats`: the pair and region tuples.
- `Essential`: the filter used by both pipelines (Definition 3).

`Scenarios` works examples through the contracts: a constant string, a string
of distinct symbols, `abab`, `aabaab`, `aaaaxybcbc` and `xyzxyz`. For `xyzxyz` the code finds
the region `(0, 6, 3)`; `Scenarios.RepeatedTriple` proves it.

**Both source files are imperative, and so is the model.**

- Each loop statement of the source is a `while` or `for` loop in a method.
  The `any(...)` tests became quantifiers (`Naive.Nests` over the recorded pairs,
  `Essential.Keep`), and the `largers` comprehension became the recursive function
  `Algorithm.Largers`.
- Each method's `ensures` ties its result to a ghost characterisation of the
  output. The three characterisations are `Naive.IsMaximalPairList`,
  `Naive.IsRegionScan` and `Algorithm.IsAcceleratedOutput`.
- Uniqueness lemmas prove that each characterisation has exactly one solution.
  So the method contracts determine the output completely, including its order.

**Properties of the code that its docstrings or the definitions do not state:**

- **First trial length.** The naive finder's first trial at start `x` has length
  `(n - x) / 2 + 1` (`naive_algorithm.py:21`). That is one more than any pair
  that fits after `x`. `Naive.CandidateBound` shows this trial never succeeds.
- **Consecutiveness test.** `find(c, x + 1, y)` (`naive_algorithm.py:27`)
  rejects a pair only when another occurrence lies wholly inside `[x + 1, y)`.
  An occurrence that starts inside the first copy (after `x`) and runs past `y`
  does not reject it.
  `Naive.Candidate` states the test as the code performs it.
- **Keep-condition.** The filter (`naive_algorithm.py:93-94`,
  `algorithm.py:128-129`) keeps a pair in two cases:
  - no region contains it;
  - some region's grid of period `f` starting at `r` has the pair's whole span
    `[x, y + l)` in one cell, that is, `(x - r) / f == (y + l - r - 1) / f`.

  The grid runs on past both ends of `[r, e)`, so that cell may lie outside the
  region. The second case is tested against every region, including regions
  nowhere near the pair. `Essential.Keep` states the condition that way.

  As a result a pair can appear twice in the output:
  - on `aaaaxybcbc` the regions are `(0, 4, 1)` and `(6, 10, 2)`;
  - the pairs `(0, 1, 1)` and `(2, 3, 1)` fail the test against `(0, 4, 1)`,
    the region that holds them;
  - they pass it against `(6, 10, 2)`: `(0 - 6) / 2 == (1 + 1 - 6 - 1) / 2 == -3`;
  - so each is kept, and each is also one of the canonical pairs of `(0, 4, 1)`.

  `Scenarios.FarGridRepeats` proves that each of them occurs at least twice in
  the output.
- **Minimality (rule 2.1).** The docstring at `naive_algorithm.py:45-46` says
  that no other region `R'` contains a region `R` while its block `P'` contains
  `R`'s block `P`. The scan does not ensure this:
  - at each start it keeps the first block length that gives a run, and then
    resumes after that run;
  - on `aabaab` it returns `(0, 2, 1)` and `(3, 5, 1)`;
  - yet `(0, 6, 3)`, with block `aab`, is a run that contains `(0, 2, 1)`.

  `Scenarios.AabaabRegions` proves both facts. `Naive.IsRegionScan` states what
  the scan does ensure: the shortest block length at each region's start.

Python 2 integer `/` floors. Every division in the core has a positive divisor,
where Dafny's `/` agrees with Python's. Python integers are unbounded, and so are
Dafny's `int`s.

## Model

| member | source | states |
|---|---|---|
| Strings.Find | arc_diagrams/naive_algorithm.py:27 | `w.find(c, start, stop)` returns -1 or the first offset at or after `start` where `c` occurs wholly before `stop`; -1 means there is no such occurrence |
| Strings.FindFrom | arc_diagrams/naive_algorithm.py:24 | `w.find(c, start)` is -1 exactly when `c` does not occur at or after `start`; otherwise it is the first such occurrence |
| Strings.SameSliceOccurs | arc_diagrams/naive_algorithm.py:22-24 | a second copy of the slice `w[x:x+l]` is exactly an occurrence of that substring |
| Naive.TryPair | arc_diagrams/naive_algorithm.py:22-28 | a trial `(x, l)` yields the candidate partner `y`; -1 means the trial has no candidate at all |
| Naive.CandidateBound | arc_diagrams/naive_algorithm.py:20-21 | every candidate has `x < n - 1` and `l <= (n - x) / 2`, so the two loop ranges cover all candidates and the first trial `(n - x) / 2 + 1` never succeeds |
| Naive.TrialsAt | arc_diagrams/naive_algorithm.py:21-35 | the trials at one start keep the list sound and in trial order; afterwards every unnested candidate at that start is recorded |
| Naive.MaximalMatchingPairs | arc_diagrams/naive_algorithm.py:17-37 | the output is in trial order (start ascending, length descending); each pair is a candidate not nested in an earlier pair; every candidate that no earlier pair nests is present; a string of length at most 1 gives `[]` |
| Naive.StartTrials | arc_diagrams/naive_algorithm.py:21 | starting the length loop at `(n - x) / 2 + 1` loses no candidate |
| Naive.EndTrials | arc_diagrams/naive_algorithm.py:20 | finishing a start moves completeness to the next start; after the last start the list is complete |
| Naive.Accept | arc_diagrams/naive_algorithm.py:35 | recording the accepted candidate keeps every candidate tried so far accounted for, down to the next length |
| Naive.Reject | arc_diagrams/naive_algorithm.py:28 | skipping a trial that has no unnested candidate keeps every candidate tried so far accounted for |
| Naive.AppendPair | arc_diagrams/naive_algorithm.py:31-35 | appending a candidate that no recorded pair nests, after all recorded trials, keeps the list sound and in trial order |
| Naive.CandidateUnique | arc_diagrams/naive_algorithm.py:24 | a trial `(x, l)` has at most one candidate `y` |
| Naive.MaximalPairListUnique | arc_diagrams/naive_algorithm.py:17-37 | two lists that both meet the finder's contract are equal, so the contract fixes the output and its order |
| Naive.ExtendRun | arc_diagrams/naive_algorithm.py:62-66 | the greedy extension ends at the end of the maximal run of copies of the block at `s`: a whole number of blocks, each equal to the first, with no further copy; it moves past `s + l` exactly when a second copy follows |
| Naive.RepetitionRegions | arc_diagrams/naive_algorithm.py:57-73 | every region is a maximal run with the shortest block length at its start; the regions are disjoint and left to right; no run starts at an uncovered offset; length at most 1 gives `[]` |
| Naive.ScanFound | arc_diagrams/naive_algorithm.py:68-71 | recording a run and jumping to `end - 1` (then `+1`) keeps the scan invariant at the run's end |
| Naive.ScanSkip | arc_diagrams/naive_algorithm.py:72 | an offset with no run is passed over |
| Naive.ScanDone | arc_diagrams/naive_algorithm.py:60 | at `s >= n - 1` the scan invariant is the region contract; no offset past it can start a run |
| Naive.RunHasRun | arc_diagrams/naive_algorithm.py:65-68 | a region has a second copy of its block right after the first, which is the test that records it |
| Naive.RunEndsAgree | arc_diagrams/naive_algorithm.py:65-66 | two maximal runs with the same start and block length end at the same place |
| Naive.SameStartSameRun | arc_diagrams/naive_algorithm.py:61-71 | two shortest-period maximal runs with the same start are the same region |
| Naive.GapNoRun | arc_diagrams/naive_algorithm.py:60-72 | an offset between where the scan resumes after a region and the start of the next region starts no run |
| Naive.RegionScanUnique | arc_diagrams/naive_algorithm.py:57-73 | two lists that both meet the region contract are equal |
| Naive.MaximalPairsMatch | arc_diagrams/naive_algorithm.py:24-35 | every reported pair is identical and non-overlapping |
| Naive.MaximalPairsNotExtensible | arc_diagrams/naive_algorithm.py:20-35 | no reported pair can be extended by one symbol: when the copies do not abut, the symbols before them differ and the symbols after them differ |
| Naive.PairNotExtensible | arc_diagrams/naive_algorithm.py:20-35 | the same for the pair at one position of the list |
| Naive.NoEarlierNest | arc_diagrams/naive_algorithm.py:31-35 | a candidate tried before a reported pair does not nest it |
| Naive.EarlierDoesNotNest | arc_diagrams/naive_algorithm.py:31-35 | a recorded pair tried before another recorded pair does not nest it |
| Naive.LeftExtension | arc_diagrams/naive_algorithm.py:22-28 | a candidate whose copies are preceded by equal symbols gives the candidate one symbol longer to the left |
| Naive.RightExtension | arc_diagrams/naive_algorithm.py:22-28 | a candidate whose copies are followed by equal symbols gives the candidate one symbol longer to the right |
| Naive.EssentialMatchingPairs | arc_diagrams/naive_algorithm.py:76-100 | the output is the kept maximal pairs in their order, then the canonical pairs of each region in order; all are matching pairs; length at most 1 gives `[]` |
| Essential.Kept | arc_diagrams/naive_algorithm.py:91-95 | a pair is in the filtered list exactly when it is in the input and meets the keep-condition; the filter never lengthens the list |
| Essential.EssentialPairs | arc_diagrams/naive_algorithm.py:89-100 | the filter's output is the kept pairs in input order, followed by the canonical pairs region by region |
| Essential.RegionPairs | arc_diagrams/naive_algorithm.py:99-100 | the loop `for x in range(r, e - l, l)` yields exactly the canonical pairs of the region |
| Essential.KeptAppend | arc_diagrams/naive_algorithm.py:91-95 | filtering distributes over concatenation, so the input order is kept |
| Essential.KeptSingle | arc_diagrams/naive_algorithm.py:93-95 | one pair is kept exactly when the keep-condition holds of it |
| Essential.NoRegionsNoChange | arc_diagrams/algorithm.py:126-135 | with no regions every pair is kept and nothing is added |
| Essential.CanonicalFromBlocks | arc_diagrams/naive_algorithm.py:99-100 | an aligned span of `m` blocks gives `m - 1` abutting pairs `(x + k*l, x + (k+1)*l, l)` |
| Essential.CanonicalOfRun | arc_diagrams/naive_algorithm.py:98-100 | a region of `m` blocks contributes exactly `m - 1` canonical pairs; each is an abutting matching pair |
| Essential.EssentialAreMatching | arc_diagrams/naive_algorithm.py:89-100 | when the inputs are matching pairs and runs, every essential pair is a matching pair |
| Algorithm.Rank | arc_diagrams/algorithm.py:56 | a key's position in the dictionary order is below its length exactly when the key is present, and the key sits at that position |
| Algorithm.RankAt | arc_diagrams/algorithm.py:56 | in an order without repeats, the key at position `t` has rank `t` |
| Algorithm.AppendIncreasing | arc_diagrams/algorithm.py:152 | appending a larger value keeps a sequence strictly increasing |
| Algorithm.FindAll | arc_diagrams/algorithm.py:146-153 | `find_all` yields every occurrence of `sub` in `a`, overlapping ones included, strictly increasing, and nothing else |
| Algorithm.HasLeast | arc_diagrams/algorithm.py:57 | a nonempty finite set of starts has a least element |
| Algorithm.SortStarts | arc_diagrams/algorithm.py:57 | `sorted(starts)` is strictly increasing and has exactly the elements of the set |
| Algorithm.Largers | arc_diagrams/algorithm.py:58-59 | `largers` holds exactly the keys longer than `sub` that start and end with `sub` |
| Algorithm.Contained | arc_diagrams/algorithm.py:45-53 | `contained` is true exactly when some longer key has occurrences `i`, `j` of `sub` inside it and recorded starts `x - i`, `y - j` that do not overlap |
| Algorithm.TestStart | arc_diagrams/algorithm.py:63-84 | a start `x` is emitted with `y` the least recorded start at or after `x + l`, exactly when the left and right tests fail and no longer key subsumes the pair; no other `y` can be emitted for `x` |
| Algorithm.KeyOfStart | arc_diagrams/algorithm.py:60-86 | a pair yielded for key `sub` at a recorded start has `sub` as its first occurrence |
| Algorithm.KeyPairs | arc_diagrams/algorithm.py:57-86 | the loop body for one key yields exactly that key's emitted pairs, by increasing first start |
| Algorithm.MaximalMatchingPairs | arc_diagrams/algorithm.py:44-86 | the pair loop yields exactly the emitted pairs of all keys, grouped by key in dictionary order, starts increasing within a key |
| Algorithm.AppendKey | arc_diagrams/algorithm.py:56 | the pairs of the next key in dictionary order follow those of earlier keys in order |
| Algorithm.EmittedIsMaximal | arc_diagrams/algorithm.py:63-86 | every yielded pair is identical and non-overlapping; its `y` is the least start past the first occurrence; it cannot be extended left or right; no longer key subsumes it; length at most 1 gives nothing |
| Algorithm.EmittedPairFacts | arc_diagrams/algorithm.py:63-86 | the same facts for one emitted pair |
| Algorithm.FirstIsLeast | arc_diagrams/algorithm.py:56-86 | the first pair of a key-ordered list precedes every other pair in it |
| Algorithm.KeyOrderedUnique | arc_diagrams/algorithm.py:56-86 | two key-ordered lists with the same elements are equal |
| Algorithm.AcceleratedOutputUnique | arc_diagrams/algorithm.py:44-86 | the occurrence map and the dictionary order fix the output of the pair loop |
| Algorithm.TreeRepetitionRegions | arc_diagrams/algorithm.py:89-106 | the suffix-tree region detector reports no region |
| Algorithm.EssentialMatchingPairs | arc_diagrams/algorithm.py:109-135 | with the stub detector, the essential pairs are exactly the pair loop's output in its order, and all are matching pairs |
| Scenarios.ConstantString | arc_diagrams/naive_algorithm.py:76-100 | for a constant string of length `n >= 2` there is one region `(0, n, 1)`, and the output is exactly `(k, k+1, 1)` for `k < n - 1` |
| Scenarios.DistinctSymbols | arc_diagrams/naive_algorithm.py:76-100 | a string of distinct symbols has no pairs, no regions and no output |
| Scenarios.NoEqualSlices | arc_diagrams/naive_algorithm.py:22-24 | a string of distinct symbols has no two equal non-overlapping slices |
| Scenarios.AbabNaive | arc_diagrams/naive_algorithm.py:17-37 | the naive finder on `abab` reports exactly `[(0, 2, 2)]` |
| Scenarios.AbabCandidates | arc_diagrams/naive_algorithm.py:22-28 | the only candidates of `abab` are `(0, 2, 2)`, `(0, 2, 1)` and `(1, 3, 1)` |
| Scenarios.RepeatedTripleScan | arc_diagrams/naive_algorithm.py:57-73 | `xyzxyz` has the single region `(0, 6, 3)` |
| Scenarios.RepeatedTripleRun | arc_diagrams/naive_algorithm.py:61-69 | two copies of `xyz` form a run, and no shorter block repeats at 0 |
| Scenarios.RepeatedTripleKept | arc_diagrams/naive_algorithm.py:91-95 | every maximal pair of `xyzxyz` lies in the region across two blocks, so the filter keeps none |
| Scenarios.RepeatedTriple | arc_diagrams/naive_algorithm.py:76-100 | for `xyzxyz` the raw pair is dropped in favour of the canonical pair, and the output is exactly `[(0, 3, 3)]` |
| Scenarios.DoubledSymbol | arc_diagrams/naive_algorithm.py:62-69 | a symbol written twice and then followed by a different symbol is a run of block length 1 |
| Scenarios.AabaabRuns | arc_diagrams/naive_algorithm.py:62-69 | `aa` at 0 and `aa` at 3 in `aabaab` are runs |
| Scenarios.FarGridScan | arc_diagrams/naive_algorithm.py:57-73 | `aaaaxybcbc` has the regions `(0, 4, 1)` and `(6, 10, 2)` |
| Scenarios.FarGridRuns | arc_diagrams/naive_algorithm.py:62-69 | `aaaa` is a run; `bcbc` is a run whose block `b` alone does not repeat |
| Scenarios.FarGridPairs | arc_diagrams/naive_algorithm.py:17-37 | the naive finder reports `(0, 1, 1)` and `(2, 3, 1)` for `aaaaxybcbc` |
| Scenarios.FarGridFirst | arc_diagrams/naive_algorithm.py:20-35 | `(0, 1, 1)` is a reported pair of `aaaaxybcbc` |
| Scenarios.FarGridThird | arc_diagrams/naive_algorithm.py:20-35 | `(2, 3, 1)` is a reported pair of `aaaaxybcbc` |
| Scenarios.FarGridKeep | arc_diagrams/naive_algorithm.py:93-94 | both pairs fail the one-cell test against `(0, 4, 1)`, but pass the keep-condition through the grid of `(6, 10, 2)` |
| Scenarios.FarGridCanonical | arc_diagrams/naive_algorithm.py:98-100 | both pairs are canonical pairs of `(0, 4, 1)` |
| Scenarios.KeptAndCanonical | arc_diagrams/naive_algorithm.py:91-100 | a pair that is both kept and canonical occurs at least twice in the output |
| Scenarios.FarGridRepeats | arc_diagrams/naive_algorithm.py:89-100 | on `aaaaxybcbc` the regions are `(0, 4, 1)` and `(6, 10, 2)`; `(0, 1, 1)` and `(2, 3, 1)` are both kept and canonical, and each occurs at least twice in the output |
| Scenarios.AabaabScan | arc_diagrams/naive_algorithm.py:57-73 | `aabaab` has the regions `(0, 2, 1)` and `(3, 5, 1)` |
| Scenarios.AabaabRegions | arc_diagrams/naive_algorithm.py:45-73 | the scan of `aabaab` is exactly `[(0, 2, 1), (3, 5, 1)]`, although `(0, 6, 3)` is a run containing the first region, and its block contains that region's block |
| Scenarios.AbabA | arc_diagrams/algorithm.py:78-79 | with the `abab` occurrence map, key `a` emits nothing, because its pair extends to the right |
| Scenarios.AbabB | arc_diagrams/algorithm.py:75-76 | key `b` emits nothing, because its pair extends to the left |
| Scenarios.AbabAB | arc_diagrams/algorithm.py:63-86 | key `ab` emits exactly `(0, 2)` |
| Scenarios.AbabOutput | arc_diagrams/algorithm.py:44-86 | the pair loop on `abab` yields exactly `[(0, 2, 2)]` whatever the dictionary order |

## Left out

- **Suffix-tree construction and the leaf-to-root walk** (`algorithm.py:29-42`).
  The tree comes from the external `suffix_tree` package, which is not part of
  this model.
  - The walk's result is an input: the map `subs` from each repeated substring to
    its recorded starts.
  - `Algorithm.Sound` constrains that map: every recorded start is an occurrence
    of its key, and keys with a recorded start are nonempty.
  - Nothing states that the walk records every start.
- **`children`** (`algorithm.py:138-143`). It walks tree nodes, and no modelled
  code uses it.
- **`src/ui.py`.** It holds input, output and drawing.
- **A real tree-based region detector.** The source has only the stub that returns
  `[]`, and that stub is modelled.
- **Equivalence of the naive and suffix-tree pair finders.** The two finders use
  different tests (nesting in earlier pairs, against recorded starts with
  extension and subsumption tests). The map is an abstract input. Each finder's
  output is characterised separately instead.
- **Dictionary iteration order.** CPython's hash order is left out. It is the
  parameter `order`, which lists every key exactly once (`Algorithm.Enumerates`).
- **Generators.** `maximal_matching_pairs` (tree version) and both
  `essential_matching_pairs` are generators. They are modelled as methods that
  return the whole sequence, in yield order. Laziness and partial consumption are
  left out.
- **Python 2 `str`.** It is a byte string, modelled as a Dafny `string`. Only
  equality of symbols is used.
- **`Essential.EssentialPairs`: requires `PositivePeriods`.** Every region must
  have a positive block length. The source fails in two ways for a zero length:
  - the division at `naive_algorithm.py:94` raises `ZeroDivisionError` when it is
    reached, that is, when some region contains a pair and no earlier region
    passed the test;
  - otherwise `range(r, e - l, l)` at `naive_algorithm.py:99` raises
    `ValueError`.

  A negative length raises nothing in the source, but `PositivePeriods` excludes
  it too. Both region detectors produce only positive lengths, which
  `Naive.EssentialMatchingPairs` proves for the naive one.
- **`Algorithm.TreeRepetitionRegions`.** Its contract is its body, because the
  source function is a constant stub.
