# Pareto regret frontier for three experts — a Dafny model

The repository explores the Pareto regret frontier of prediction with expert advice for three
experts and 0/1 losses. A regret vector `(r0, r1, r2)` is *realizable* after `T` rounds when some
strategy for the learner keeps its regret against every expert `i` at most `ri`, whatever losses
the adversary chooses. The frontier is the set of realizable vectors that cannot be improved in
one coordinate without worsening another.

This project models three parts of that code:

- the pure helpers of `pareto_functions.py` (module `ParetoFunctions`):
  - factorial and binomial coefficients, and the `f_T` formula;
  - convex combinations;
  - the six successor points of a regret vector under one round of losses;
  - the one-round classifier `position_t1`, which calls a point Impossible, Optimal or Suboptimal;
- the brute-force passes of `pareto.py` (module `Pareto`):
  - the zero-round test `position_t0`;
  - `replicate`, which collects the distinct reorderings of a point;
  - the one-round mesh sweep `brute_force_t1`, which sorts mesh points into three lists;
  - the two-round search over sorted triples of rational coefficients;
- the table pass of `frontier.py` for one round (module `Frontier`). For every lattice pair
  `(r0, r1)` in units of `1/gran`, it finds the least realizable `r2` by a downward search over
  lattice strategies.

A fourth module, `Consistency`, relates the lattice table to the one-round classifier.
`Wrappers` holds the `Option` and `Result` types that stand in for NaN entries and raised
exceptions.

All arithmetic is on exact `real`s and `int`s. The tolerance `1e-5` of `position_t1`
(`pareto_functions.py:89`) is the constant `ParetoFunctions.Epsilon`.

Reference definitions that the operations are proved against:

- `Fact` and `Binom` (ghost) for `factorial` and `nchoosek`;
- `CoversT1` and `Shortfall` for one-round realizability: some weight vector in the simplex
  covers `p` exactly when `p` is non-negative and `Σ max(0, 1 − p_i) ≤ 1` (`RealizableT1Iff`);
- `Realizable` and `Blocked` for the lattice search. `Boundary` gives the closed form of every
  table entry (`RealizableClosedForm`);
- `SweepT1`, and `Thirds`/`Seconds`/`Firsts`, for the nested loops of the two brute-force passes.
  Each loop method is proved equal to them, and lemmas characterise their contents.

The code was followed where it and its own comments disagree:

- The comment at `pareto_functions.py:106` calls the three outer blocks of `position_t1`
  symmetric, but they are not. Outside the unit
  cube it picks the first coordinate `≥ 1` in the fixed order `r0`, `r1`, `r2`, and judges the
  other two against 1. So `(1.5, 1, 0)` is Optimal while its reordering `(1, 1.5, 0)` is
  Suboptimal (`ParetoFunctions.PositionT1OrderDependent`). The symmetry holds on points with at
  most one coordinate at least 1 (`ParetoFunctions.PositionT1Symmetric`).
- The two-round pass declares impossible and suboptimal lists (`pareto.py:191`) but never fills
  them. The model returns only the optimal list and the tested count.

Structure of the methods:

- The three nested loops of `pareto.py:199-224` are split by level into `Pareto.BruteForceT2`,
  `Pareto.ScanSeconds` and `Pareto.ScanThirds`. The body for one triple is
  `Pareto.TestCandidateT2`.
- The loop body of `brute_force_t1` is `Pareto.ClassifyMeshPoint`.
- The inner search of `frontier.py:68-98` is `Frontier.Descend`. It uses the lattice-strategy
  search `Frontier.IsRealizable` (`frontier.py:71-92`).
- `ConvexCombo` with `c == None` models the call with `point3=None`.

## Model

| member | source | states |
|---|---|---|
| ParetoFunctions.Factorial | pareto_functions.py:14-20 | fails with the error for `n` exactly when `n < 0`; otherwise the value is at least 1 |
| ParetoFunctions.FactorialIsFact | pareto_functions.py:14-20 | for every natural `n` the recursive result is the mathematical factorial `n!` |
| ParetoFunctions.BinomTimesFactorials | pareto_functions.py:32 | the reference binomial satisfies `C(n,k)·(n−k)!·k! = n!`, so the division in `nchoosek` is exact |
| ParetoFunctions.NChooseK | pareto_functions.py:25-32 | defined exactly when `k = −1` or `0 ≤ k ≤ n`; the special case `k = −1` gives 1 when `n = −1` and 0 otherwise |
| ParetoFunctions.NChooseKIsBinomial | pareto_functions.py:25-32 | for `0 ≤ k ≤ n` the result equals the Pascal-triangle binomial coefficient |
| ParetoFunctions.NChooseKEnds | pareto_functions.py:25-32 | `C(n,0) = C(n,n) = 1` |
| ParetoFunctions.BinomAbove | pareto_functions.py:25-32 | the reference binomial is 0 above the diagonal |
| ParetoFunctions.FTFormula | pareto_functions.py:37-41 | the accumulating loop returns the sum `Σ_{j=1..i} j·2^(j−T)·C(T−j−1, T−i−1)`, or the error of the first term whose binomial is undefined |
| ParetoFunctions.FTPartialErrSticks | pareto_functions.py:39-40 | once a term raises, every longer partial sum raises the same error |
| ParetoFunctions.FTPartialDefined | pareto_functions.py:39-40 | partial sums up to `i` are defined when `0 ≤ i ≤ T` |
| ParetoFunctions.FTDefinedInRange | pareto_functions.py:37-41 | `f_T(i)` is defined for every `0 ≤ i ≤ T` |
| ParetoFunctions.FTAtZero | pareto_functions.py:37-41 | `f_T(0) = 0` (the loop is empty) |
| ParetoFunctions.FTDiagonalPrefix | pareto_functions.py:39-40 | for `i = T`, every partial sum short of the last term is 0 |
| ParetoFunctions.FTAtT | pareto_functions.py:37-41 | `f_T(T) = T` |
| ParetoFunctions.ConvexCombo | pareto_functions.py:47-51 | with two points the result is their midpoint; with three, the offsets of the points from the result sum to zero, so it is their centroid |
| ParetoFunctions.GetSixPoints | pareto_functions.py:58-76 | six points; the last three mirror the first three through the input point; the first three average to the input point |
| ParetoFunctions.SixPointsAreSuccessors | pareto_functions.py:58-76 | point `k` is the regret vector after the `k`-th 0/1 loss pattern with one expert or two losing, for any weights summing to 1 |
| ParetoFunctions.SixPointsIgnoreFirstWeight | pareto_functions.py:60-66 | the result does not depend on the first weight, which the code never reads |
| ParetoFunctions.SixPointsNonNegIff | pareto_functions.py:58-76 | for simplex weights, all six successors are non-negative exactly when the weights cover the point in one round |
| ParetoFunctions.RealizableT1Iff | pareto_functions.py:88-122 | some simplex weight covers `p` exactly when `p` is non-negative and its total shortfall below 1 is at most 1 |
| ParetoFunctions.PositionT1 | pareto_functions.py:88-122 | a negative coordinate gives Impossible; otherwise, all three coordinates above 2/3 give Suboptimal |
| ParetoFunctions.PositionT1ImpossibleIff | pareto_functions.py:88-122 | Impossible exactly when the point has a negative coordinate or its shortfall is at least `1 + ε` |
| ParetoFunctions.PositionT1OptimalNearBoundary | pareto_functions.py:88-122 | an Optimal point is non-negative and its shortfall lies strictly within `ε` of 1 |
| ParetoFunctions.PositionT1SuboptimalRealizable | pareto_functions.py:88-122 | a Suboptimal point is realizable in one round by some simplex weight |
| ParetoFunctions.PositionT1ByShortfall | pareto_functions.py:88-122 | on non-negative points inside the unit cube or with at most one coordinate at least 1, the verdict is Suboptimal when all coordinates exceed 2/3 and otherwise the shortfall compared against 1 with tolerance `ε` |
| ParetoFunctions.PositionT1Symmetric | pareto_functions.py:88-122 | on points with at most one coordinate at least 1, reordering the coordinates does not change the verdict |
| ParetoFunctions.PositionT1SuboptimalGrows | pareto_functions.py:88-122 | raising any one coordinate of a Suboptimal point keeps it Suboptimal |
| ParetoFunctions.PositionT1ImpossibleShrinks | pareto_functions.py:88-122 | lowering any one coordinate of an Impossible point keeps it Impossible |
| ParetoFunctions.PositionT1OrderDependent | pareto_functions.py:105-122 | `(1.5, 1, 0)` is Optimal but `(1, 1.5, 0)` is Suboptimal |
| ParetoFunctions.PositionT1KnownPoints | pareto_functions.py:88-122 | `(2/3, 2/3, 2/3)` and `(1, 1, 0)` are Optimal, `(1, 1, 1)` is Suboptimal, `(0, 0, 0)` and `(−0.1, 0.5, 0.5)` are Impossible |
| Pareto.PositionT0 | pareto.py:49-56 | Impossible exactly when some point has a negative coordinate; Optimal exactly when all are non-negative and some has a zero coordinate; Suboptimal otherwise |
| Pareto.SuccessorsT0Impossible | pareto.py:49-56 | on the six successors under simplex weights, the zero-round test says Impossible exactly when the weights do not cover the point in one round |
| Pareto.ClassifyAgainstT1 | pareto.py:212-224 | Impossible exactly when some point is one-round Impossible; Optimal exactly when none is Impossible and some is Optimal |
| Pareto.AppendNew | pareto.py:153-166 | appends the point only when it is not already present, keeping the list duplicate-free |
| Pareto.AppendAllMembers | pareto.py:149-167 | the collected list holds exactly the start list and the new points, starts with the start list and keeps it duplicate-free |
| Pareto.Replicate | pareto.py:149-167 | starts with the input, has 1 to 6 distinct entries, each a reordering of the input, and contains every reordering |
| Pareto.ReplicateSize | pareto.py:149-167 | 6 entries when all coordinates differ; only the input when all are equal |
| Pareto.ReplicateClosed | pareto.py:149-167 | a reordering of a reordering of `x` is already in `x`'s list |
| Pareto.Normalize | pareto.py:110-111 | the weights sum to 1 and lie in the simplex for non-negative coefficients |
| Pareto.ClassifyMeshPoint | pareto.py:109-112 | computes the mesh point, its normalised weights and six successors, and the zero-round test `position_t0` of those successors |
| Pareto.BruteForceT1 | pareto.py:97-119 | the loop's lists equal the sweep over indices 1 onward, and together hold one entry per mesh point after the first |
| Pareto.SweepT1Lists | pareto.py:105-119 | each list holds exactly the mesh points, from index 1 onward, with that verdict |
| Pareto.MeshVerdictImpossible | pareto.py:109-119 | a non-negative coefficient triple gives Impossible exactly when its normalised weights fail to cover its point in one round |
| Pareto.CandidateT2 | pareto.py:203 | the candidate's coordinates sum to four times the coefficients' sum |
| Pareto.TestCandidateT2 | pareto.py:203-224 | one triple: skipped when the candidate's sum is below 2, otherwise counted as tested and, when accepted, contributes all its reorderings |
| Pareto.CandidateT2Weights | pareto.py:204-207 | a tested candidate has a coefficient sum of at least 1/2, so its weights are defined and sum to 1 |
| Pareto.StepT2Found | pareto.py:212-224 | a triple contributes a point exactly when the triple is accepted and the point is a reordering of its candidate |
| Pareto.ScanThirds | pareto.py:201-224 | the innermost loop's output equals the reference over `third` from `second` up |
| Pareto.ScanSeconds | pareto.py:200-224 | the middle loop's output equals the reference over `second` from `first` up |
| Pareto.BruteForceT2 | pareto.py:189-224 | the optimal list is the nine seeds followed by the reference output, and the tested count is the reference's |
| Pareto.ThirdsFound | pareto.py:201-224 | a point is in the innermost reference output exactly when some `third` in range contributes it |
| Pareto.SecondsFound | pareto.py:200-224 | the same for `second ≤ third` |
| Pareto.FirstsFound | pareto.py:199-224 | the same for `first ≤ second ≤ third` |
| Pareto.HitIffAccepted | pareto.py:203-224 | a triple contributes `q` exactly when it is accepted and `q` is a reordering of its candidate |
| Pareto.FoundT2 | pareto.py:199-224 | the points found are exactly the reorderings of candidates of accepted sorted index triples |
| Pareto.BruteForceT2Optimal | pareto.py:192-224 | the optimal list starts with the seeds and holds exactly the seeds and the reorderings of accepted candidates |
| Frontier.RealizableNeedsNonNegative | frontier.py:71-92 | a realizable regret vector has no negative coordinate |
| Frontier.RealizableMonotone | frontier.py:68-98 | raising any regret keeps a vector realizable |
| Frontier.RealizableClosedForm | frontier.py:68-98 | inside the table, realizable exactly when `r0 + r1 ≥ gran` and `r0 + r1 + r2 ≥ 2·gran` |
| Frontier.BoundaryIsLeastRealizable | frontier.py:36 | an entry is None exactly when no `r2` is realizable; otherwise `r2` is realizable exactly when it is at least the entry |
| Frontier.BoundaryShape | frontier.py:36 | entries are symmetric, lie in `[0, gran]`, and drop by one per unit step in `r0` |
| Frontier.BoundaryBelowNeighbours | frontier.py:57-64 | a defined neighbour above or to the left makes the entry defined and no larger |
| Frontier.MinDefined | frontier.py:58-63 | the result is at most the bound and at most a defined cell, and is one of them; a NaN cell leaves the bound |
| Frontier.StartBound | frontier.py:59-64 | the starting bound is the top of the table or is realizable |
| Frontier.StoredBoundary | frontier.py:100-104 | where the search stops determines the stored entry, which equals the least realizable `r2` |
| Frontier.IsRealizable | frontier.py:71-92 | the strategy search reports realizable exactly when some lattice strategy is not blocked |
| Frontier.Descend | frontier.py:66-98 | stops at an unrealizable `r2` at most the start, with `r2 + 1` realizable when it moved, and never below −1 |
| Frontier.BuildTable | frontier.py:46-104 | every entry of the `(gran+1)×(gran+1)` table is the least realizable `r2`, or None when there is none; the table is symmetric |
| Consistency.PosScaled | frontier.py:36 | the shortfall of a scaled coordinate is the scaled lattice shortfall |
| Consistency.ShortfallScaled | frontier.py:36 | a scaled lattice point's shortfall is at most 1 exactly when its lattice shortfall is at most `gran` |
| Consistency.ScaledBounds | frontier.py:121-123 | scaling keeps the sign, and a coordinate is at most 1 exactly when its lattice value is at most `gran` |
| Consistency.ScaledAdd | frontier.py:121-123 | scaling is additive |
| Consistency.ScaledMonotone | frontier.py:121-123 | scaling keeps order in both directions |
| Consistency.LatticeShortfall | frontier.py:36 | the one-round condition on a scaled lattice point is the table's closed form |
| Consistency.LatticeMatchesT1 | frontier.py:36 | the lattice search and the continuous one round agree on every vector whose first two coordinates lie in the table |
| Consistency.EntryIsOptimal | pareto_functions.py:88-122 | a defined table entry scales to a point the one-round classifier calls Optimal |
| Consistency.StepExceedsTolerance | frontier.py:28-33 | with fewer than 100 steps per unit, one lattice step exceeds `ε` |
| Consistency.VacantEntryIsImpossible | frontier.py:28-33 | with `0 < gran < 100`, a None entry's pair scales to a point the classifier calls Impossible for every third coordinate |
| Consistency.CornerEntry | frontier.py:36 | for `gran = 4`, entry `(4, 4)` is 0 and `(1, 1, 0)` is Optimal |

## Left out

- Plotting is not modelled: `plane_one`, `plane_two`, `simple_plot_tests`, `plot_3d_frontier`, and
  the plotting sections of `pareto.py` and `frontier.py`. It has no effect on the computed sets.
- `pareto_two_dim.py` (the two-expert variant) is not part of this model.
- Console output is left out. This covers the `print` statements, the `print_info` flag of
  `get_six_points` (its printing does not change the result) and the progress messages.
- The file dump of the two-round optimal list (`pareto.py:227-230`) is I/O and is left out.
- The mesh of `brute_force_t1` (`np.meshgrid`/`linspace`) and the rationals of the two-round pass
  are parameters of `Pareto.BruteForceT1` and `Pareto.BruteForceT2`, not generated.
- The command-line handling of `frontier.py` (`sys.argv`, and the exit when `gran` is not in
  `(0, 100)`) is not modelled. `gran` is a parameter of `Frontier.BuildTable`. The range guard
  appears only as the preconditions of `Consistency.StepExceedsTolerance` and
  `Consistency.VacantEntryIsImpossible`, where it matters.
- Frontier.BuildTable: models the single round `t = 1` only. The unfinished branch for later
  rounds (`frontier.py:84-89`) is not modelled, so the table has `gran + 1` rows and columns.
- Floating point is not modelled. Reals are exact, `2/3` is exact, and the NaN of a missing
  table entry is `None`. Where rounding could change a comparison against `ε`, the model gives
  the exact answer.
- NumPy array semantics (broadcasting, element-wise `all()`) are modelled only for the 3-vectors
  the code uses.
- Pareto.BruteForceT1: requires every mesh coefficient after the first to have a non-zero sum.
  A zero-sum coefficient gives NaN weights in the code, and the model does not cover that case.
- Pareto.SweepT1Lists: states membership in each list, not the order of the entries.
- Pareto.BruteForceT2: the impossible and suboptimal lists declared at `pareto.py:191` are never
  filled by the code, so the model does not return them.
