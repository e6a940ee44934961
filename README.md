# A verified model of the ML-Rust genetic optimizer and its helper routines

This project models the numerical core of the ML-Rust repository in Dafny.

- **The genetic optimizer pipeline.**
  - Sum-of-squares fitness (`calculate_fitness`).
  - Binary tournament parent selection (`binary_tournament`).
  - Multi-point crossover and per-gene mutation (`crossover`, `mutation`).
  - Ratio-based environmental selection into a map keyed by fitness (`environmental_selection`).
  - The `GeneticOptimizer` object: it clamps its configuration, keeps its population at a fixed size, runs one generation (`step`) and iterates generations until a target fitness is reached (`optimize`).
- **Data imputation.** Linear interpolation of one missing value, simple exponential smoothing, and medians of consecutive chunks.
- **Normalised satisfaction** (`calcular_satisfaccion`) for a minimised or maximised objective.
- **ARIMA.** The constructor, differencing and undifferencing of a series, `is_fitted`, and what `fit` and `forecast` check before any numerics.

How the model handles the original's environment:

- **Randomness is an input.** Every sample the Rust code draws from `thread_rng` is passed in as data. For example:
  - a `Tournament.Draw` is the first index plus the retried second indices;
  - a `GeneticOptimizer.Generation` bundles one step's draws, cut points, mutation coins, mutation values and fresh individuals.

  The contracts state what the code does for every such input. The preconditions on the samples say only what the sampling distribution guarantees: indices in range, coins in `[0, 1)`, replacement values in the gene range when that range is not inverted, cut points distinct and sorted in `[1, len)`. An inverted gene range puts no constraint on the values, since sampling from it panics.
- **Arithmetic.** `f64` is modelled as `real`, and `usize` as `nat`.
- **Panics.** A panic is an outcome value `Panic(message)` carrying the message the Rust code would print. A returned `Err` is `Err(message)`.
- **Out-of-sight calls.** The OLS solve inside ARIMA's `fit` and the forecast numerics are oracle parameters, `solves` and `computed`.

One module per source file:

| module | file |
|---|---|
| `Outcomes` | the `Ok`/`Err`/`Panic` outcome and `Option` |
| `Selection` | `selection.dfy` |
| `Tournament` | `tournament.dfy` |
| `CrossoverMutation` | `crossover_mutation.dfy` |
| `GeneticOptimizer` | `genetic_optimizer.dfy` (class `GeneticOptimizer`) |
| `DataImputation` | `data_imputation.dfy` |
| `Satisfaction` | `satisfaction.dfy` |
| `Arima` | `arima.dfy` (class `Arima`) |

## Model

| member | source | states |
|---|---|---|
| Selection.Fitness | data_analysis/src/ML/selection.rs:32-34 | the fitness of any vector is non-negative |
| Selection.FitnessExamples | data_analysis/src/ML/selection.rs:80-83 | the empty vector has fitness 0 and `[1, 2, 3]` has fitness 14 |
| Selection.Fitnesses | data_analysis/src/ML/selection.rs:56-59 | pairs every individual, position by position, with its own fitness |
| Selection.Round | data_analysis/src/ML/selection.rs:64 | `round` gives the integer nearest to x, with halves rounded up, for non-negative x |
| Selection.NumSelected | data_analysis/src/ML/selection.rs:64 | the number kept never exceeds the population; ratio 1 keeps all, ratio 0 keeps none |
| Selection.InsertAddsIndex | data_analysis/src/ML/selection.rs:61 | one insertion step of the sort adds exactly the inserted index |
| Selection.SortIndicesPermutes | data_analysis/src/ML/selection.rs:61 | sorting permutes the candidate indices |
| Selection.InsertRanked | data_analysis/src/ML/selection.rs:61 | insertion into a sorted run keeps it sorted by fitness, stable on ties |
| Selection.SortRanked | data_analysis/src/ML/selection.rs:61 | the insertion sort orders distinct indices by ascending fitness and by position on equal fitness, as the stable `sort_by` with `partial_cmp` does |
| Selection.RankingIsStableSort | data_analysis/src/ML/selection.rs:56-61 | the ranking is a stable ascending sort of the whole population: fitnesses non-decreasing, every index present exactly once |
| Selection.RankOf | data_analysis/src/ML/selection.rs:61 | every individual has a place in the ranking |
| Selection.Taken | data_analysis/src/ML/selection.rs:64-68 | `take(num_selected)` yields exactly `NumSelected` valid positions |
| Selection.EnvironmentalSelection | data_analysis/src/ML/selection.rs:50-73 | a ratio outside `[0, 1]` panics with "Selection ratio must be between 0 and 1"; otherwise the result is the map built from the best `NumSelected` individuals |
| Selection.InsertedKeys | data_analysis/src/ML/selection.rs:67-70 | after inserting the first m ranked individuals, the keys are exactly their fitnesses, and there are at most m of them |
| Selection.InsertedValues | data_analysis/src/ML/selection.rs:67-70 | each key maps to the last inserted individual with that fitness |
| Selection.InsertedDistinctSize | data_analysis/src/ML/selection.rs:67-70 | with no fitness ties among the inserted individuals, the map holds all m of them |
| Selection.SurvivorsContents | data_analysis/src/ML/selection.rs:50-73 | the keys are the fitnesses of the taken individuals; every value is a population member whose fitness is its key; at most `NumSelected` entries |
| Selection.SurvivorsCollide | data_analysis/src/ML/selection.rs:67-70 | fewer than `NumSelected` entries implies two taken individuals with equal fitness (a key collision in the map) |
| Selection.SurvivorsLastTieWins | data_analysis/src/ML/selection.rs:67-70 | on a key collision, the later-ranked individual overwrites the earlier one |
| Selection.InsertedAtMostLater | data_analysis/src/ML/selection.rs:61-70 | every key inserted so far is at most the fitness of any later-ranked individual |
| Selection.SurvivorsAreBest | data_analysis/src/ML/selection.rs:61-70 | no surviving fitness exceeds the fitness of an individual that was not taken |
| Selection.ScenarioFitnesses | data_analysis/src/ML/selection.rs:87-92 | the test population has fitnesses 25, 2, 8 and 50 |
| Selection.ScenarioRanking | data_analysis/src/ML/selection.rs:87-92 | the test population ranks as positions 1, 2, 0, 3 |
| Selection.SurvivorsScenario | data_analysis/src/ML/selection.rs:86-102 | with ratio 0.5 the test population keeps exactly the keys 2 and 8 |
| Tournament.SecondIndexIsADifferentSample | src/ML/tournament.rs:50-53 | the retry loop stops on a sample different from the first index |
| Tournament.WinnerProperties | src/ML/tournament.rs:46-63 | the two sampled indices are valid and distinct; the winner is one of them and has the minimum fitness; the cached fitness is the winner's own (the test at tournament.rs:88-91); a tie goes to the second sample |
| Tournament.ParentCountProperties | src/ML/tournament.rs:31-40 | the effective parent count is even and at most the population size; it is at least 2 unless the population has a single member (then 0); an even request that fits is kept |
| Tournament.BinaryTournament | src/ML/tournament.rs:22-67 | zero parents panics "Number of parents must be positive"; an empty population panics "Population cannot be empty"; otherwise exactly `ParentCount` winners, one per draw |
| CrossoverMutation.CutsPrefix | data_analysis/src/ML/crossover_mutation.rs:47-50 | the cut points before cut j are sorted cut points bounded by cut j |
| CrossoverMutation.SwappedBelowLength | data_analysis/src/ML/crossover_mutation.rs:52-66 | only positions from the first cut up to the vector length are exchanged |
| CrossoverMutation.FirstPositionKept | data_analysis/src/ML/crossover_mutation.rs:47-66 | position 0 is never exchanged, since cut points start at 1 |
| CrossoverMutation.SwappedIffOddCuts | data_analysis/src/ML/crossover_mutation.rs:52-66 | a position is exchanged exactly when an odd number of cut points lie at or below it |
| CrossoverMutation.SwappedIffInSegment | data_analysis/src/ML/crossover_mutation.rs:52-66 | a position is exchanged exactly when it lies in a segment `[cps[j], end)` with j even |
| CrossoverMutation.SwappedGrows | data_analysis/src/ML/crossover_mutation.rs:52-66 | a position exchanged after the first j segments stays exchanged after all of them |
| CrossoverMutation.ChildrenExchangeGenes | data_analysis/src/ML/crossover_mutation.rs:43-66 | at each position the children hold the parents' two genes, swapped exactly at exchanged positions |
| CrossoverMutation.ChildrenKeepGenePool | data_analysis/src/ML/crossover_mutation.rs:43-69 | together the two children carry the same multiset of genes as the two parents, whatever the parents' lengths |
| CrossoverMutation.NoCutsCopiesParents | data_analysis/src/ML/crossover_mutation.rs:43-44 | with no cut points the children are copies of their parents |
| CrossoverMutation.CrossPair | data_analysis/src/ML/crossover_mutation.rs:40-69 | succeeds exactly when every exchanged position lies inside both parents, and then yields the children; otherwise panics "index out of bounds" |
| CrossoverMutation.Crossover | data_analysis/src/ML/crossover_mutation.rs:19-73 | an odd parent count panics; no parents gives no offspring; too many cut points panics; otherwise one pair of children per pair of parents, with an out-of-bounds panic exactly when some pair's genes are too short |
| CrossoverMutation.Mutation | data_analysis/src/ML/crossover_mutation.rs:91-112 | a rate outside `[0, 1]` panics; an inverted gene range panics with "cannot sample empty range" exactly when some gene's coin falls below the rate; otherwise each gene whose coin is below the rate takes its drawn value and the others are kept |
| CrossoverMutation.InvertedRangeReachesSampling | data_analysis/src/ML/crossover_mutation.rs:102-105 | with gene range `[1, 0]` and a coin below the rate, the draws are admissible and a gene mutates, so `mutation` reaches the `gen_range` panic on the inverted range |
| CrossoverMutation.MutationAtRateZero | data_analysis/src/ML/crossover_mutation.rs:156-158 | at rate 0 mutation returns its input unchanged |
| CrossoverMutation.MutationAtRateOne | data_analysis/src/ML/crossover_mutation.rs:160-166 | at rate 1 every gene takes a fresh draw |
| CrossoverMutation.MutatedGenesInRange | data_analysis/src/ML/crossover_mutation.rs:102-105 | for an ordered gene range, every gene after mutation is either the original or within the gene range |
| GeneticOptimizer.MinWith | data_analysis/src/ML/genetic_optimizer.rs:157-159 | one step of `fold(INFINITY, min)` yields the smaller of the two values |
| GeneticOptimizer.ClampedPopSize | data_analysis/src/ML/genetic_optimizer.rs:58 | the population size is raised to at least 4 and otherwise kept |
| GeneticOptimizer.AdjustedParentsProperties | data_analysis/src/ML/genetic_optimizer.rs:61-71 | the adjusted parent count is even and at most both the population size and the request; it is 0 exactly for a request of 1 (or 0 requested or no room) |
| GeneticOptimizer.Clamp | data_analysis/src/ML/genetic_optimizer.rs:74-77 | `clamp` lands in `[lo, hi]`, keeps values inside and maps values outside to the nearer bound |
| GeneticOptimizer.GeneRange | data_analysis/src/ML/genetic_optimizer.rs:80-81 | the gene range is ordered; an inverted range collapses to `gene_max` |
| GeneticOptimizer.CutsKeepPairInBounds | data_analysis/src/ML/crossover_mutation.rs:47-66 | cut points drawn from `[1, len)` never index past parents of length len |
| GeneticOptimizer.ChildrenFit | data_analysis/src/ML/crossover_mutation.rs:43-69 | children of in-range parents have the same length and stay in the gene range |
| GeneticOptimizer.WinnersFit | src/ML/tournament.rs:59-63 | tournament winners from an in-range population are in range |
| GeneticOptimizer.OffspringFit | data_analysis/src/ML/crossover_mutation.rs:39-72 | the offspring of in-range parents are all in range |
| GeneticOptimizer.MutatedFit | data_analysis/src/ML/crossover_mutation.rs:99-109 | mutation with draws from the gene range keeps individuals in range |
| GeneticOptimizer.CollectValues | data_analysis/src/ML/genetic_optimizer.rs:151 | `values().cloned().collect()` lists every entry of the map exactly once, in some order |
| GeneticOptimizer.ValuesFit | data_analysis/src/ML/genetic_optimizer.rs:148-151 | values taken from an in-range population are in range |
| GeneticOptimizer.PaddedFit | data_analysis/src/ML/genetic_optimizer.rs:151-154 | survivors padded with in-range newcomers are all in range |
| GeneticOptimizer.BestFitness | data_analysis/src/ML/genetic_optimizer.rs:157-159 | the fold returns the minimum key, or infinity when there are no keys |
| GeneticOptimizer.ChildrenDetermined | data_analysis/src/ML/crossover_mutation.rs:43-66 | the two children of a pair are fixed by the parents and the cut points |
| GeneticOptimizer.BredDetermined | data_analysis/src/ML/genetic_optimizer.rs:139-145 | the tournament winners, the crossed children and the mutated offspring of a generation are fixed by the population and the samples |
| GeneticOptimizer.LaidOut | data_analysis/src/ML/genetic_optimizer.rs:151-154 | the survivors' values in collection order, padded with newcomers to `pop_size`, are laid out as survivors first, each key once, then newcomers |
| GeneticOptimizer.MinimumUnique | data_analysis/src/ML/genetic_optimizer.rs:157-159 | two minima of the same key set are equal, so the reported best fitness depends only on the surviving keys |
| GeneticOptimizer.BestFitnessBounds | data_analysis/src/ML/genetic_optimizer.rs:157-159 | the best fitness is infinity exactly when nothing survived, and is otherwise non-negative (the test at genetic_optimizer.rs:227-228) |
| GeneticOptimizer.GeneticOptimizer.Init | data_analysis/src/ML/genetic_optimizer.rs:95-104 | the struct literal: every configuration field and the population hold exactly the given values |
| GeneticOptimizer.New | data_analysis/src/ML/genetic_optimizer.rs:37-105 | zero population size, vector size or parent count panics, in that order; otherwise the size, parent count, rates and gene range are clamped as the source does, and the first `max(4, pop_size)` drawn individuals become the population |
| GeneticOptimizer.GeneticOptimizer.MaintainPopulationSize | data_analysis/src/ML/genetic_optimizer.rs:108-127 | afterwards the population has exactly `pop_size` members: a short population is extended by newcomers, a long one truncated, and the rest is unchanged |
| GeneticOptimizer.GeneticOptimizer.GeneratedDetermined | data_analysis/src/ML/genetic_optimizer.rs:134-162 | one generation's parents, children, offspring and survivors, and the newcomers that follow the survivors, are fixed by the population it starts from and its samples; only the survivors' order may differ |
| GeneticOptimizer.GeneticOptimizer.Breed | data_analysis/src/ML/genetic_optimizer.rs:139-145 | panics exactly when there are no parents or fewer than 3 genes; otherwise the parents are the tournament winners of the first `num_parents` draws on the current population, each pair is crossed at its 2 cut points, and the `num_parents` in-range offspring are those children mutated with the drawn coins and values |
| GeneticOptimizer.GeneticOptimizer.Step | data_analysis/src/ML/genetic_optimizer.rs:134-162 | keeps the configured invariant; panics with the tournament or crossover message and leaves the population alone exactly when those panic; otherwise the generation from the old population is bred, selected and laid out as above, and the result is the minimum fitness of its survivors: infinity exactly when none survived, otherwise non-negative |
| GeneticOptimizer.GeneticOptimizer.Repopulate | data_analysis/src/ML/genetic_optimizer.rs:151-154 | the population becomes the given survivors, each once, in the order `values()` lists them, followed by newcomers up to `pop_size`, all in range |
| GeneticOptimizer.GeneticOptimizer.Replace | data_analysis/src/ML/genetic_optimizer.rs:148-161 | the survivors are exactly the environmental selection of the offspring; they head the new population in listing order, followed by newcomers to `pop_size`; the result is their minimum fitness, infinity exactly when none survived, otherwise non-negative |
| GeneticOptimizer.GeneticOptimizer.RecordedDetermined | data_analysis/src/ML/genetic_optimizer.rs:134-162 | two recorded generations from the same population and samples report the same best fitness and keep the same survivors |
| GeneticOptimizer.GeneticOptimizer.HistoryExtends | data_analysis/src/ML/genetic_optimizer.rs:177-179 | a record of consecutive generations extended by one more generation from the last population is again such a record |
| GeneticOptimizer.GeneticOptimizer.RecordedStep | data_analysis/src/ML/genetic_optimizer.rs:178-179 | one `step` inside `optimize` panics exactly when step panics, and otherwise extends the record of generations by the one it ran |
| GeneticOptimizer.GeneticOptimizer.Optimize | data_analysis/src/ML/genetic_optimizer.rs:174-190 | panics exactly when a generation runs and step panics; otherwise the history has one entry per generation run, at most `max_generations`, exactly `max_generations` without a target (the test at genetic_optimizer.rs:243-244), and stops at the first entry at or below the target; entry i is the minimum surviving fitness of generation i, whose survivors are the selection of offspring bred from the population generation i - 1 left (the initial one for i = 0) with the i-th samples, and the final population is the one the last generation left |
| DataImputation.LinearInterpolation | src/ML/data_imputation.rs:13-18 | index 0 panics (usize underflow), a missing right neighbour panics with an index error, otherwise the result is the value given by the source's formula |
| DataImputation.InterpolationBetweenNeighbours | src/ML/data_imputation.rs:13-18 | the interpolated value is the mean of the two neighbours and lies between them |
| DataImputation.InterpolationExample | src/ML/data_imputation.rs:86-87 | on the test's input the formula gives 6, the mean of 2 and 10 |
| DataImputation.SimpleExponentialSmoothing | src/ML/data_imputation.rs:30-44 | the output satisfies the smoothing recurrence with the same length as the input, empty for empty input |
| DataImputation.SmoothingUnique | src/ML/data_imputation.rs:35-41 | the recurrence determines the smoothed series uniquely |
| DataImputation.SmoothingStaysInBounds | src/ML/data_imputation.rs:38-41 | for alpha in `[0, 1]` every smoothed value stays within any bounds that hold all inputs |
| DataImputation.SmoothingExtremes | src/ML/data_imputation.rs:38-41 | alpha 1 reproduces the input; alpha 0 repeats the first value |
| DataImputation.SmoothingExample | src/ML/data_imputation.rs:93-98 | the test's series has 5 values starting 1, 2 |
| DataImputation.InsertAddsOne | src/ML/data_imputation.rs:65 | an insertion step adds exactly the inserted value |
| DataImputation.InsertKeepsSorted | src/ML/data_imputation.rs:65 | an insertion step keeps the segment sorted |
| DataImputation.SortRealsSorts | src/ML/data_imputation.rs:64-65 | the sort yields a sorted permutation of the chunk |
| DataImputation.SortedUnique | src/ML/data_imputation.rs:65 | two sorted permutations of the same values are equal, so the median does not depend on the sorting algorithm |
| DataImputation.ChunkMediansCount | src/ML/data_imputation.rs:63 | there are `ceil(len / interval)` medians |
| DataImputation.ChunkMediansAt | src/ML/data_imputation.rs:63-74 | the i-th median is the median of the i-th `chunks` slice |
| DataImputation.MedianSplitsChunk | src/ML/data_imputation.rs:67-72 | at least half of each chunk lies at or below its median and at least half at or above it; an odd chunk contains its median |
| DataImputation.Median | src/ML/data_imputation.rs:56-78 | empty data or a zero interval gives no medians; otherwise the medians of the consecutive chunks |
| DataImputation.MedianExample | src/ML/data_imputation.rs:102-108 | the test's data with interval 4 gives the medians 4 and 6 |
| Satisfaction.CalculateSatisfaction | data_analysis/src/ML/satisfaccion.rs:2-12 | an empty or inverted interval is rejected first, then an unknown mode; it succeeds exactly for a proper interval and a known mode, never panics, and the value is non-negative |
| Satisfaction.SatisfactionInUnitRange | data_analysis/src/ML/satisfaccion.rs:7-9 | for an objective inside the interval, satisfaction lies in `[0, 1]` |
| Satisfaction.SatisfactionEndpoints | data_analysis/src/ML/satisfaccion.rs:7-9 | the best end of the interval scores 1 and the worst end 0, in each mode |
| Satisfaction.ModesMirror | data_analysis/src/ML/satisfaccion.rs:8-9 | minimising a value scores as maximising its reflection about the interval's middle |
| Satisfaction.SatisfactionMonotone | data_analysis/src/ML/satisfaccion.rs:8-9 | inside the interval, satisfaction falls with the value when minimising and rises when maximising |
| Arima.Differenced | data_analysis/src/ML/arima.rs:28-39 | differencing d times shortens the series by d |
| Arima.DiffUndoesRunningSums | data_analysis/src/ML/arima.rs:48-53 | differencing a running sum recovers its increments |
| Arima.UndifferenceOnceInverts | data_analysis/src/ML/arima.rs:42-58 | with d = 1, undifferencing inverts differencing appended to the original series |
| Arima.IntegratedInverts | data_analysis/src/ML/arima.rs:42-58 | the corrected undifference inverts d-fold differencing for every d: differencing the original followed by the predictions gives the original's differences followed by the predictions |
| Arima.UndifferencedAgreesUpToOne | data_analysis/src/ML/arima.rs:42-58 | for d of at most 1 the as-written undifference agrees with the corrected one |
| Arima.UndifferencedTwiceExample | data_analysis/src/ML/arima.rs:45-55 | with d = 2, original `[1, 2]` and prediction `[0]`, the code gives 4 where inversion needs 3 |
| Arima.FirstFailure | data_analysis/src/ML/arima.rs:97-119 | the first failed solve of the five rounds, or 5 when all succeed |
| Arima.Arima.constructor | data_analysis/src/ML/arima.rs:16-25 | stores the orders with no parameters, so the model is not fitted |
| Arima.Arima.Difference | data_analysis/src/ML/arima.rs:28-39 | the d-fold difference of the series, or an underflow panic when the series is shorter than d |
| Arima.Arima.Undifference | data_analysis/src/ML/arima.rs:42-58 | d = 0 returns the predictions; an empty original series panics on underflow; otherwise the running sums restarted each pass from the original's last value |
| Arima.Arima.IsFitted | data_analysis/src/ML/arima.rs:258-260 | the model is fitted exactly when the AR parameters, the MA parameters and the intercept are all `Some`; the constructor leaves it unfitted, and a fit that completes a round leaves it fitted |
| Arima.Arima.Fit | data_analysis/src/ML/arima.rs:62-134 | too little data is rejected with the object unchanged; with more MA than AR terms the first round's MA lag index `i + p - j - 1` underflows (arima.rs:99-101) and the fit panics, object unchanged; it panics in no other case; otherwise it succeeds exactly when all five solves succeed, and a failed solve returns "Failed to solve linear system" and leaves the parameters of the last successful round |
| Arima.Arima.Forecast | data_analysis/src/ML/arima.rs:188-192 | an unfitted model is rejected with "Model must be fitted before forecasting"; a fitted one returns the computed forecast |

## Left out

- Random sampling: `thread_rng`, `shuffle`, `gen_range` and `Uniform` are replaced by explicit sample inputs. The model states what happens for every sample, not with what probability.
- `gen_range` on an inverted range: the panic text "cannot sample empty range" is that of the rand 0.8 crate, which the repository is assumed to use.
- Floating point: `f64` is exact `real`. NaN is not modelled, so `partial_cmp(...).unwrap_or(Equal)` and `clamp`'s NaN behaviour do not arise, and rounding error does not exist.
- `Tournament.BinaryTournament`: the retry loop at tournament.rs:51-53 ends only with probability one. The model requires the draws to contain a second index that differs from the first, which a population of two or more members yields almost surely.
- `HashMap` iteration order in `step`'s `values()` and `keys()` is unspecified. `CollectValues` returns some order, and the contracts hold for every order. Because the tournament then samples positions of a population in that order, a whole run of `optimize` is determined only up to these orders.
- `println!` warnings in `new` and `binary_tournament` are output only and left out.
- `usize` overflow at sizes near 2^64 is not modelled. The subtractions that can underflow for small values (`missing_index - 1`, `n - 1`, `orig_series.len() - 1`) are modelled as panics, as in a debug build.
- Reassigning configuration: the configuration fields of `GeneticOptimizer` and the orders of `ARIMA` are `pub` in Rust, so a caller could reassign them. The model makes them `const` fields, so it does not capture such reassignment.
- `GeneticOptimizer.GeneticOptimizer.Optimize`: the target is a real number, so a target of positive infinity is not expressible. An empty survivor map (best fitness infinity) never reaches a finite target.
- The test at genetic_optimizer.rs:246-249 (fitness "generally improves") is probabilistic and is not a property of every run.
- `calcular_satisfaccion_lista` at satisfaccion.rs:14-16 has an empty body and does nothing.
- ARIMA numerics:
  - the design-matrix construction, the OLS solve, `predict_in_sample` and the forecast recursion (arima.rs:66-185, 193-254), together with the index panics they can raise;
  - `fit`'s solves are inputs, one optional coefficient vector per round;
  - `forecast`'s result for a fitted model is an input.
- `Arima.Arima.Fit`: the lag check at arima.rs:71-76 cannot fail once the length guard at line 63 has passed, so it is an assertion in the model rather than an error path.
- `Arima.Arima.Fit`: the panic for q > p is that of a debug build. A release build wraps the index instead, skips it through the test at line 102, and then panics on the shape mismatch between the design matrix (n - q rows) and the response (n - p entries) at lines 109-114. Either way the fit panics before storing anything.
- The test at data_imputation.rs:86-89 expects 5.0, but the formula gives the neighbours' mean, 6.0 (`DataImputation.InterpolationExample`). The model follows the code.

## Findings

| source | as written | input that shows it | evidently intended | confidence | as-written member | corrected member |
|---|---|---|---|---|---|---|
| data_analysis/src/ML/arima.rs:45-55 | every undifferencing pass restarts its running sum from the last value of the original series, so for d of 2 or more the result does not invert `difference` | `d = 2`, original `[1, 2]`, differenced prediction `[0]`: the code gives `[4]`, and differencing `[1, 2, 4]` twice gives `[1]`, not `[0]` | the pass numbered k (from 1 to d) restarts from the last value of the original series differenced d - k times, which gives `[3]` | high, not executed | Arima.UndifferencedTwiceExample | Arima.IntegratedInverts |
