# Compendio teaching scripts, modelled in Dafny

This project models the discrete core of five teaching scripts and proves properties of that model. Every random draw is a parameter of the model, so each operation is deterministic.

- **Drossel–Schwabl forest fire** (`forest_rules.dfy`, `forest_model.dfy`). One `step()` of `ForestFireModel`, covering:
  - the N×N grid of empty, tree, fire and ash cells;
  - fire spread to the four neighbours, without wrap-around;
  - cluster IDs: inherited as the largest burning neighbour's ID, or fresh from a counter for lightning-only fires;
  - ash that stays while its cluster burns;
  - the bounded fire history;
  - the cluster registry: birth, death, peak size, bounded size history, pruning.

  `ForestFireRules.Step` is the transition on values. The class `ForestFire.ForestFireModel` overwrites two `array2` grids in place and reassigns its other fields. Its `Step` method is proved equal to the value transition, and the value transition is proved to keep the invariant `ForestFireRules.Inv`.
- **One Clause At a Time (OCAT)** (`ocat.dfy`). The discrete parts of the rule learner:
  - the observed values per column;
  - threshold binarisation;
  - the positive/negative split;
  - the `Pos`/`Neg` filters;
  - term fitness;
  - the stably sorted candidate list;
  - the removal of covered examples;
  - the evaluation of a learned CNF on an instance.
- **Hopfield associative memory** (`hebbian.dfy`, `hopfield_memory.dfy`, `hop_newbie.dfy`).
  - The Hebbian weight matrix is shared by both scripts.
  - So is the synchronous sign update.
  - Retrieval stops at a fixed point (letter-recognition script) or at a stored pattern (letter-recall script).
  - Also modelled: noise and corruption by overwriting drawn entries, match counting and accuracy, and the choice of the best-matching letter.
- **Monty Hall** (`monty_hall.dfy`). One show, with the shuffle, the contestant's pick and the host's choice supplied. Also the series of shows and its winning fraction.

`wrappers.dfy` holds two datatypes:
- `Option`;
- `Result`, whose error cases stand for the Python exceptions the scripts can raise: `ZeroDivisionError`, `UnboundLocalError` and `IndexError`.

## Model

| member | source | states |
|---|---|---|
| ForestFireRules.BoundedAppend | src/drossel-schwabl_forest_fire_model.py:32 | `deque(maxlen)` append: the length is min(old + 1, cap), the new item is last, and the rest are the newest old items in order |
| ForestFireRules.Below | src/drossel-schwabl_forest_fire_model.py:48 | a draw grid becomes a mask that is true exactly where the draw is below the probability (growth at :48, lightning at :61) |
| ForestFireRules.Initial | src/drossel-schwabl_forest_fire_model.py:13-38 | the constructed state has two square N×N grids |
| ForestFireRules.Step | src/drossel-schwabl_forest_fire_model.py:40-206 | one step keeps both grids square and keeps the grid size |
| ForestFireRules.FireNeighbourMeans | src/drossel-schwabl_forest_fire_model.py:53-58 | the four masked rolls flag a cell exactly when some in-grid 4-neighbour burns (no wrap-around) |
| ForestFireRules.NeighbourIdIsMax | src/drossel-schwabl_forest_fire_model.py:78-89 | a propagated fire's ID is held by one of its burning neighbours and is at least every burning neighbour's ID |
| ForestFireRules.RankIncreases | src/drossel-schwabl_forest_fire_model.py:92-97 | lightning-only fires are numbered in strictly increasing row-major order |
| ForestFireRules.StrikeIds | src/drossel-schwabl_forest_fire_model.py:92-98 | lightning-only fires get pairwise distinct IDs from `next_cluster_id` up to, but excluding, the counter advanced by their number |
| ForestFireRules.ActiveIdsMeans | src/drossel-schwabl_forest_fire_model.py:122 | `active_ids` holds exactly the IDs given to ignited cells |
| ForestFireRules.CellRules | src/drossel-schwabl_forest_fire_model.py:42-64 | each new cell holds 0–3. It is fire iff it was a tree with a burning neighbour or a lightning hit. It is a tree iff it was a tree that did not ignite, or an empty cell where a tree grew. It is ash iff it was fire or ash whose ID still burns. Its ID follows its new state (mask order :130-151) |
| ForestFireRules.IgnitedId | src/drossel-schwabl_forest_fire_model.py:86-98 | an ignited cell's ID is positive and below the advanced counter. If the ID is registered, it is a current cluster |
| ForestFireRules.IgnitedIdBurns | src/drossel-schwabl_forest_fire_model.py:145-165 | every ignited cell's ID is among the clusters burning after the step |
| ForestFireRules.BurnedCells | src/drossel-schwabl_forest_fire_model.py:111-151 | after the grid update: states are in range, IDs are below the counter, an ID is positive iff the cell is fire or ash, and a positive ID still burns somewhere |
| ForestFireRules.BurningIdOrigin | src/drossel-schwabl_forest_fire_model.py:163-165 | a cluster burning after the step is positive and below the counter. If it was registered before, it was current and not dead |
| ForestFireRules.SampleOk | src/drossel-schwabl_forest_fire_model.py:182-186 | a sample keeps birth and death, ends the size history with (step, size), keeps it within the window, and keeps `max_size` at least every recorded size |
| ForestFireRules.StepCells | src/drossel-schwabl_forest_fire_model.py:130-151 | the cell half of the invariant holds after a step |
| ForestFireRules.TrackOk | src/drossel-schwabl_forest_fire_model.py:167-186 | tracking registers exactly the old and the active clusters, keeps every entry bounded, changes no death, and creates entries alive |
| ForestFireRules.BookkeepingOk | src/drossel-schwabl_forest_fire_model.py:167-206 | after tracking, marking deaths and pruning: every entry is bounded and unexpired, and every active cluster has a live entry |
| ForestFireRules.StepRegistry | src/drossel-schwabl_forest_fire_model.py:163-206 | the registry and current-cluster halves of the invariant hold after a step |
| ForestFireRules.StepKeepsInv | src/drossel-schwabl_forest_fire_model.py:40-206 | `step` keeps the invariant: state/ID coupling, IDs below the counter, bounded history, and a bounded, unexpired registry covering the current clusters |
| ForestFireRules.StepFreshIds | src/drossel-schwabl_forest_fire_model.py:90-97 | the counter grows by exactly the number of lightning-only fires: each ID from `next_cluster_id` up to the advanced counter is carried after the step by exactly one lightning-only fire |
| ForestFireRules.StepRecords | src/drossel-schwabl_forest_fire_model.py:156-206 | after a step, the fire history ends with (step, burning cells). A cluster is current iff a burning cell carries it. Its entry is then alive: its old entry, or a fresh one born at this step, with (step, its cell count) appended to the bounded size history and its peak raised to max(old peak, count). A cluster that stopped burning is marked dead at this step. Every other registered entry is unchanged, or pruned once dead for more than the window, and a cluster neither registered nor burning gets no entry |
| ForestFire.AssignClusterIds | src/drossel-schwabl_forest_fire_model.py:74-98 | the ID grid, the set of active IDs and the advanced counter computed in one row-major pass |
| ForestFire.ForestFireModel.constructor | src/drossel-schwabl_forest_fire_model.py:13-38 | the new object's state is the initial state: trees where the seeding draw is below 0.3, zero IDs, counter 1, empty history and registry |
| ForestFire.ForestFireModel.Step | src/drossel-schwabl_forest_fire_model.py:40-206 | the in-place step leaves the object's state equal to the value transition on the thresholded draws, and keeps the invariant |
| ForestFire.ForestFireModel.UpdateGrid | src/drossel-schwabl_forest_fire_model.py:74-151 | the arrays hold the new grid and IDs, and the counter is advanced by the lightning-only fires |
| ForestFire.ForestFireModel.WriteCells | src/drossel-schwabl_forest_fire_model.py:129-151 | every array cell holds its new state and new ID |
| ForestFire.ForestFireModel.CollectData | src/drossel-schwabl_forest_fire_model.py:156-206 | step count, fire history, registry and current clusters become those of the value transition |
| ForestFire.ForestFireModel.TrackClusters | src/drossel-schwabl_forest_fire_model.py:167-186 | the registry becomes the tracked registry, and the result maps each active cluster to its size |
| ForestFire.ForestFireModel.RecordDeaths | src/drossel-schwabl_forest_fire_model.py:188-194 | the registry becomes the registry with the died, still-alive entries marked dead at this step |
| ForestFire.ForestFireModel.PruneRegistry | src/drossel-schwabl_forest_fire_model.py:199-206 | the registry loses exactly the entries dead for more than the window |
| Ocat.Where | src/one_clause_at_a_time_algorithm.py:315-325 | the indices collected by an enumerate-and-append loop are strictly increasing, in range, and exactly the flagged positions |
| Ocat.WhereSplits | src/one_clause_at_a_time_algorithm.py:346-356 | the flagged and the unflagged indices together number all positions |
| Ocat.Insert | src/one_clause_at_a_time_algorithm.py:176 | inserting into an ascending list gives an ascending list with one more copy of the value |
| Ocat.SortAscending | src/one_clause_at_a_time_algorithm.py:176 | `sorted` returns an ascending permutation of its input |
| Ocat.AscendingDistinct | src/one_clause_at_a_time_algorithm.py:171-176 | an ascending list without duplicates is strictly ascending |
| Ocat.ObservedValues | src/one_clause_at_a_time_algorithm.py:166-178 | each column's list is strictly ascending and holds exactly the values in that column. An empty table is an index error |
| Ocat.Bit | src/one_clause_at_a_time_algorithm.py:204-207 | a bit is 0 or 1, and 1 iff the value reaches the threshold |
| Ocat.Binarize | src/one_clause_at_a_time_algorithm.py:197-213 | one list per column, one bit vector per row, and bit k is 1 iff the cell reaches the column's k-th threshold. An empty table, or missing thresholds, is an index error |
| Ocat.ObservedBits | src/one_clause_at_a_time_algorithm.py:197-213 | with the observed values as thresholds, a row's bits are 1 exactly up to the position of its own value, so they start with 1 and never rise again |
| Ocat.SplitExamples | src/one_clause_at_a_time_algorithm.py:232-252 | the positive rows are those whose index is listed, the negative rows are the rest, each in row order, and their counts sum to the number of rows. No columns is an index error |
| Ocat.CollectRow | src/one_clause_at_a_time_algorithm.py:240-243 | row i collected from every attribute |
| Ocat.AcceptedIndices | src/one_clause_at_a_time_algorithm.py:317-323 | the loop returns the indices of the 1 entries ('no negado') or the 0 entries ('negado') |
| Ocat.Pos | src/one_clause_at_a_time_algorithm.py:297-325 | strictly increasing indices, exactly those of the positive examples that the literal accepts |
| Ocat.Neg | src/one_clause_at_a_time_algorithm.py:328-356 | strictly increasing indices, exactly those of the negative examples that the literal accepts |
| Ocat.LiteralsPartition | src/one_clause_at_a_time_algorithm.py:317-354 | on a 0/1 row, `x` and `¬x` accept complementary index sets whose sizes sum to the row length |
| Ocat.KeepRow | src/one_clause_at_a_time_algorithm.py:434 | the comprehension keeps, in order, exactly the entries whose index is not removed |
| Ocat.RemoveExamples | src/one_clause_at_a_time_algorithm.py:432-457 | both removal functions keep the number of rows, and each row keeps, in order, exactly the entries at non-removed indices |
| Ocat.Fitness | src/one_clause_at_a_time_algorithm.py:379-384 | the fitness is non-negative when the term's negative row is no longer than the first |
| Ocat.AcceptedIsLength | src/one_clause_at_a_time_algorithm.py:379-380 | the count used by the fitness is the length of the `Pos`/`Neg` result |
| Ocat.FitnessCounts | src/one_clause_at_a_time_algorithm.py:379-384 | on 0/1 rows of one length, fitness = (positive examples accepted) × (negative examples rejected) |
| Ocat.InsertStable | src/one_clause_at_a_time_algorithm.py:410 | stable insertion adds exactly the new entry |
| Ocat.SortByFitness | src/one_clause_at_a_time_algorithm.py:410 | the sort returns a permutation of its input |
| Ocat.InsertStableOrdered | src/one_clause_at_a_time_algorithm.py:410 | an entry appended after all others is inserted after every entry of at least its fitness |
| Ocat.SortByFitnessOrdered | src/one_clause_at_a_time_algorithm.py:410 | sorting a list appended in key order gives descending fitness, with ties in append order (stability) |
| Ocat.AppendCandidates | src/one_clause_at_a_time_algorithm.py:405-407 | entries `[0,i,f]`, `[1,i,f']` appended term by term, with each literal's fitness |
| Ocat.CandidatesComplete | src/one_clause_at_a_time_algorithm.py:405-407 | both literals of every term are in the appended list |
| Ocat.SortedFitnessList | src/one_clause_at_a_time_algorithm.py:403-413 | exactly two entries per term, a permutation of the appended list containing every literal with its fitness, sorted by descending fitness with ties in `x1, ¬x1, x2, …` order |
| Ocat.Thresholds | src/one_clause_at_a_time_algorithm.py:610-611 | literal numbering: every flattened threshold names an existing attribute |
| Ocat.ThresholdsPrefix | src/one_clause_at_a_time_algorithm.py:610-629 | the thresholds of the first attributes open the flattened list |
| Ocat.ThresholdAt | src/one_clause_at_a_time_algorithm.py:607-629 | the counter reaches `offset(a) + k` exactly at attribute a's k-th threshold |
| Ocat.Clauses | src/one_clause_at_a_time_algorithm.py:589 | the kept clauses are exactly the non-'Λ' items |
| Ocat.EvaluateTerm | src/one_clause_at_a_time_algorithm.py:603-631 | the threshold walk finds term N and yields `attr >= thr` for `xN` and `attr < thr` for `¬xN`. A number with no threshold never holds |
| Ocat.EvaluateInstance | src/one_clause_at_a_time_algorithm.py:589-641 | returns 1 iff every non-'Λ' clause has a literal that holds (an empty model gives 1), else 0 |
| Hebbian.BuildMemory | src/hopfield_associative_memory.py:211-234 | an n×n matrix for a first pattern of length n: zero diagonal, and off-diagonal weights equal to the Hebbian sum over all patterns. No patterns give `[]`. A later pattern longer than the first is an index error. `crear_memoria` (src/hop.newbie.py:27-46) computes the same matrix with the same error |
| Hebbian.FirstPattern | src/hopfield_associative_memory.py:214-224 | the rows built from the first pattern: 0 on the diagonal, `x_i * x_j` elsewhere |
| Hebbian.HebbSumSymmetric | src/hopfield_associative_memory.py:223 | the Hebbian sum is symmetric in i and j |
| Hebbian.MemorySymmetric | src/hopfield_associative_memory.py:211-234 | the memory is square and symmetric, with a zero diagonal |
| Hebbian.Sign | src/hopfield_associative_memory.py:266-272 | the activation function gives -1, 0 or 1: 1 iff positive, -1 iff negative |
| Hebbian.Activation | src/hopfield_associative_memory.py:261-263 | the accumulator loop computes the dot product over `zip(row, x)` |
| Hebbian.UpdateAll | src/hopfield_associative_memory.py:257-274 | the neuron loop computes the synchronous update (also src/hop.newbie.py:106-109) |
| Hebbian.UpdateAt | src/hopfield_associative_memory.py:260-272 | the update has one entry per memory row, and entry i is the sign of row i times the state |
| Hebbian.IterateShape | src/hop.newbie.py:107-109 | after any update, the state has one entry per row, each -1, 0 or 1 |
| Hebbian.SingleActivation | src/hopfield_associative_memory.py:260-263 | against a single ±1 pattern's memory, neuron i's partial activation is p[i] times the number of other positions summed |
| Hebbian.SinglePatternStable | src/hopfield_associative_memory.py:211-234 | a single stored ±1 pattern of length ≥ 2 is a fixed point of the update |
| Hebbian.Matches | src/hopfield_associative_memory.py:313 | the match count is at most the length of either pattern |
| Hebbian.MatchesSelf | src/hopfield_associative_memory.py:313 | a pattern matches itself at every position |
| Hebbian.PercentBounds | src/hop.newbie.py:149-150 | the percentage of matches lies in [0, 100], and is 100 iff all positions match |
| Hebbian.Overwrite | src/hopfield_associative_memory.py:296-298 | overwriting drawn entries keeps the length |
| Hebbian.OverwriteChanges | src/hopfield_associative_memory.py:296-298 | every changed position was drawn, and holds a drawn value for it |
| Hebbian.DrawnSize | src/hopfield_associative_memory.py:296 | t draws name at most t positions |
| Hebbian.OverwriteBound | src/hopfield_associative_memory.py:293-300 | with ±1 draws: same length, at most one changed position per draw, and only -1 or 1 written |
| HopfieldMemory.RetrievePattern | src/hopfield_associative_memory.py:253-280 | the loop computes `Retrieve`: no iterations returns the input, otherwise one entry per row, each -1, 0 or 1 |
| HopfieldMemory.RetrieveFrom | src/hopfield_associative_memory.py:255-278 | retrieval from the s-th update stops at the first unchanged update, or after k updates |
| HopfieldMemory.RetrieveFirstFixedPoint | src/hopfield_associative_memory.py:255-280 | retrieval performs at most k updates and stops exactly after the first update that changes nothing. An early stop returns a fixed point of the update |
| HopfieldMemory.Trunc | src/hopfield_associative_memory.py:294 | `int()` truncates toward zero |
| HopfieldMemory.FlipCount | src/hopfield_associative_memory.py:294-296 | for a noise level in [0, 1], the number of flips is at most the pattern length |
| HopfieldMemory.AddNoise | src/hopfield_associative_memory.py:293-300 | the noisy pattern is the overwritten copy: same length, at most `num_bits_to_flip` changed positions, each now -1 or 1 |
| HopfieldMemory.CalculateAccuracy | src/hopfield_associative_memory.py:313-315 | an empty original is a zero division. Otherwise the accuracy is in [0, 100], and is 100 iff every position of the original is matched |
| HopfieldMemory.AccuracyOfSame | src/hopfield_associative_memory.py:313-315 | a pattern scores 100 against itself |
| HopfieldMemory.PredictLetter | src/hopfield_associative_memory.py:342-351 | returns the first entry of strictly maximal accuracy (a later tie does not replace it), and `None` iff there are no entries. An empty reference pattern is a zero division |
| HopNewbie.RecoverPattern | src/hop.newbie.py:99-113 | zero cycles read an unbound variable. Otherwise the result is `Recall`: the first update that is a stored pattern, else the last update |
| HopNewbie.RecallFrom | src/hop.newbie.py:105-113 | recall from the s-th update ends at the first update that is stored, or after k updates |
| HopNewbie.RecallFirstStored | src/hop.newbie.py:105-113 | recall returns the first of the k updates that is a stored pattern, or else the k-th update |
| HopNewbie.Normalise | src/hop.newbie.py:131 | an accepted Python index names an element: a non-negative index is itself, and a negative one counts from the end (n + index) |
| HopNewbie.Corrupt | src/hop.newbie.py:136-139 | the corrupted copy is the overwritten pattern, differing in at most the number of alterations. An empty pattern with alterations is an index error |
| HopNewbie.Trial | src/hop.newbie.py:129-154 | `prueba`'s errors in order: bad index, empty pattern to alter, no cycle, zero length. Otherwise the score is matches × 100 / length of recall on the corrupted copy, within [0, 100] |
| HopNewbie.StableTrial | src/hop.newbie.py:129-154 | a stored pattern that the update keeps, tried unaltered, is recalled exactly and scores 100 |
| MontyHall.Remove | src/monty_hall.py:31 | `list.remove` drops one element |
| MontyHall.RemoveDistinct | src/monty_hall.py:31-36 | on a list without repeats, `remove` drops exactly the named prize |
| MontyHall.ShuffleHasCar | src/monty_hall.py:27-29 | every shuffle contains the car |
| MontyHall.MontyHallShow | src/monty_hall.py:26-43 | the host reveals neither the pick nor the car, exactly one door remains and it is neither, and the contestant wins iff (switch and the first pick was a goat) or (stay and it was the car) |
| MontyHall.SwitchingWinsTwoOfThree | src/monty_hall.py:29-42 | for every shuffle, switching wins for two of the three picks and staying for one |
| MontyHall.CountWins | src/monty_hall.py:59-60 | the number of wins is at most the number of shows |
| MontyHall.PoliciesComplement | src/monty_hall.py:59-60 | on the same draws, switching's wins and staying's wins add up to the number of shows |
| MontyHall.PlayShows | src/monty_hall.py:59 | the comprehension counts the shows won |
| MontyHall.FractionBounds | src/monty_hall.py:60 | wins over runs lies in [0, 1] |
| MontyHall.SeriesOfExperiments | src/monty_hall.py:45-61 | zero runs is a zero division. Otherwise the result is wins / runs in [0, 1]. Negative runs run no show |

## Left out

- Random number generation is not modelled. Each draw is a parameter:
  - the forest's seeding, growth and lightning grids of reals, compared with the probabilities as `np.random.random(shape) < p` does;
  - the index and value pairs of `add_noise_to_pattern` and `prueba`;
  - the shuffled list, the pick and the host's choice in `monty_hall_show`.
- Plotting, animation, key handling and printing are left out, since they produce no state: `display`, the cluster plots, `plot_hopfield_results`, `mostrar`, the `imprimir` messages of `prueba` and the OCAT confusion-matrix figure.
- File and console I/O are left out: `parse_arff_file`, `load_data`, temporary files and `input()`.
- `preprocess_data` is left out. It depends on numpy `argsort` over string columns and on `astype(float)`.
- The OCAT search loop (`OCAT`) is left out. It stops on a wall-clock budget and picks candidates at random.
- `transponer_columnas` and the `Reglas_C` formatting are left out.
- Also left out:
  - `lightbulb_survivability.py` and `sierpinski_fern.py`, which are floating-point numerics;
  - the letter bitmaps and the top-level driver code of both Hopfield scripts.
- Floating point is modelled as exact `real` arithmetic:
  - the accuracies and the Monty Hall fraction;
  - the forest's draws and probabilities;
  - OCAT's table values, which are only compared;
  - the noise level of `add_noise_to_pattern`.
- HopfieldMemory.FlipCount: `len(pattern) * noise_level` is an exact product here. In floating point it can round below an integer: for length 100 and noise 0.29, Python computes `int(28.999999999999996)` = 28, where the model counts 29. So the flip count, and the number of draws HopfieldMemory.AddNoise takes, can differ from Python's by one; in this example the model's count is the larger.
- HopfieldMemory.PredictLetter: with rounding, two accuracies that are equal as reals could compare unequal as floats. The dictionary is modelled as its entries in insertion order.
- Ocat.Pos, Ocat.Neg, Ocat.Fitness, Ocat.SortedFitnessList: these require term indices inside the tables. Python raises `IndexError` for a too-large index and counts a negative one from the end; neither case is modelled.
- Ocat.ObservedValues, Ocat.Binarize, Ocat.SplitExamples: these require the 2-D shape that a numpy array guarantees, with every row equally wide.
- Ocat.EvaluateInstance: this requires the instance to have a value for every attribute. It takes terms already parsed into a sign and a number, so the string parsing `int(term.strip("¬x"))` and the `ValueError` of a malformed term are not modelled.
- Ocat.Pos, Ocat.Neg, Ocat.Fitness: the `negado` string becomes a boolean. As in the source, any value other than 'no negado' selects the 0 entries.
- Hebbian.BuildMemory: when a later pattern is longer than the first, Python raises `IndexError` partway through the in-place update. The model returns the error and discards the partial matrix.
- MontyHall.MontyHallShow also returns the first pick, the revealed prize and the remaining door, so its contract can speak about them.
- Copies such as `x.copy()`, `patron[:]`, `list.copy` and `fire_cluster_ids.copy()` have no counterpart. Sequences are values here, so no input is ever modified.
- ForestFire.ForestFireModel.constructor: `grid_size` is a natural number, as in ForestFireRules.Initial. The `ValueError` that `np.zeros` raises for a negative size is not modelled.
- The forest's `grid_size` and probabilities are constants of the object. The per-step masks are computed from the draws. NumPy's `int` width plays no part, since all counts and IDs are unbounded integers.
