/** The Drossel-Schwabl forest-fire automaton with fire-cluster bookkeeping, as a
    transition on values: `Step` is one call of `ForestFireModel.step` with the
    growth and lightning draws already turned into boolean masks.  The class in
    forest_model.dfy runs the same transition in place and is proved equal to it. */
module ForestFireRules {
  import opened Wrappers

  // Cell states of the grid.
  const EMPTY := 0
  const TREE := 1
  const FIRE := 2
  const ASH := 3

  /** Probability that the constructor plants a tree in a cell. */
  const SEED_TREE_PROBABILITY: real := 0.3

  /** Capacity of the bounded histories (`window_size`). */
  const WINDOW: nat := 6000

  type Grid = seq<seq<int>>
  type Mask = seq<seq<bool>>

  predicate IsSquare<T>(s: seq<seq<T>>, n: nat)
  {
    |s| == n && forall r :: 0 <= r < n ==> |s[r]| == n
  }

  /** One registry entry: `birth`, `death` (None while alive), `max_size` and the
      bounded `sizes` history of (step, size) samples. */
  datatype ClusterInfo = ClusterInfo(birth: int, death: Option<int>, maxSize: int, sizes: seq<(int, int)>)

  /** The whole state of the simulator between two steps. */
  datatype Forest = Forest(
    size: nat,                          // grid_size
    grid: Grid,                         // cell states
    ids: Grid,                          // fire_cluster_ids
    nextId: int,                        // next_cluster_id
    stepCount: int,                     // step_count
    history: seq<(int, int)>,           // active_fire_history: (step, burning cells)
    registry: map<int, ClusterInfo>,    // cluster_registry
    current: map<int, int>)             // current_clusters: id -> size at the last step

  predicate Shaped(f: Forest)
  {
    IsSquare(f.grid, f.size) && IsSquare(f.ids, f.size)
  }

  predicate InGrid(f: Forest, r: int, c: int)
  {
    0 <= r < f.size && 0 <= c < f.size
  }

  // ---------------------------------------------------------------------------
  // Fire propagation

  /** Cell (r, c) lies inside the grid and burns; outside cells never burn, so
      the neighbourhood does not wrap around the edges. */
  predicate Burns(g: Grid, r: int, c: int)
  {
    0 <= r < |g| && 0 <= c < |g[r]| && g[r][c] == FIRE
  }

  /** The `up | down | left | right` mask at (r, c). */
  predicate FireNeighbour(g: Grid, r: int, c: int)
  {
    Burns(g, r + 1, c) || Burns(g, r - 1, c) || Burns(g, r, c + 1) || Burns(g, r, c - 1)
  }

  /** (r2, c2) is a burning 4-neighbour of (r, c): the reference definition of the
      neighbourhood that `FireNeighbour` spells out direction by direction. */
  predicate BurningNeighbourAt(g: Grid, r: int, c: int, r2: int, c2: int)
  {
    Burns(g, r2, c2) && ((r2 == r && (c2 == c + 1 || c2 == c - 1)) || (c2 == c && (r2 == r + 1 || r2 == r - 1)))
  }

  /** The neighbour's cluster ID masked by its burning flag (`id_up = roll(ids) * up`). */
  function IdIfBurning(f: Forest, r: int, c: int): int
    requires Shaped(f)
  {
    if Burns(f.grid, r, c) then f.ids[r][c] else 0
  }

  function Max(a: int, b: int): int
  {
    if a >= b then a else b
  }

  /** `np.maximum.reduce([id_up, id_down, id_left, id_right])` at (r, c). */
  function NeighbourId(f: Forest, r: int, c: int): int
    requires Shaped(f)
  {
    Max(Max(IdIfBurning(f, r + 1, c), IdIfBurning(f, r - 1, c)),
        Max(IdIfBurning(f, r, c + 1), IdIfBurning(f, r, c - 1)))
  }

  /** The tree at (r, c) catches fire: from a burning neighbour or from lightning. */
  predicate Ignites(f: Forest, lightning: Mask, r: int, c: int)
    requires Shaped(f) && IsSquare(lightning, f.size) && InGrid(f, r, c)
  {
    f.grid[r][c] == TREE && (FireNeighbour(f.grid, r, c) || lightning[r][c])
  }

  /** An ignition with no burning neighbour: lit by lightning alone. */
  predicate StruckOnly(f: Forest, lightning: Mask, r: int, c: int)
    requires Shaped(f) && IsSquare(lightning, f.size) && InGrid(f, r, c)
  {
    Ignites(f, lightning, r, c) && !FireNeighbour(f.grid, r, c)
  }

  /** Lightning-only ignitions in row r at columns below c. */
  function RowStrikes(f: Forest, lightning: Mask, r: int, c: nat): nat
    requires Shaped(f) && IsSquare(lightning, f.size) && 0 <= r < f.size && c <= f.size
  {
    if c == 0 then 0
    else RowStrikes(f, lightning, r, c - 1) + (if StruckOnly(f, lightning, r, c - 1) then 1 else 0)
  }

  /** Lightning-only ignitions in the rows above r. */
  function StrikesBefore(f: Forest, lightning: Mask, r: nat): nat
    requires Shaped(f) && IsSquare(lightning, f.size) && r <= f.size
  {
    if r == 0 then 0
    else StrikesBefore(f, lightning, r - 1) + RowStrikes(f, lightning, r - 1, f.size)
  }

  /** `new_cluster_ids` at (r, c): 0 for a cell that does not ignite, the largest
      burning neighbour's ID for a propagated fire, and for a lightning-only fire
      the next unused ID in row-major order (`np.arange` assigned through the mask). */
  function NewId(f: Forest, lightning: Mask, r: int, c: int): int
    requires Shaped(f) && IsSquare(lightning, f.size) && InGrid(f, r, c)
  {
    if !Ignites(f, lightning, r, c) then 0
    else if FireNeighbour(f.grid, r, c) then NeighbourId(f, r, c)
    else f.nextId + StrikesBefore(f, lightning, r) + RowStrikes(f, lightning, r, c)
  }

  /** IDs of the ignited cells in row r at columns below c. */
  function ActiveInRow(f: Forest, lightning: Mask, r: int, c: nat): set<int>
    requires Shaped(f) && IsSquare(lightning, f.size) && 0 <= r < f.size && c <= f.size
  {
    if c == 0 then {}
    else ActiveInRow(f, lightning, r, c - 1) +
         (if Ignites(f, lightning, r, c - 1) then {NewId(f, lightning, r, c - 1)} else {})
  }

  /** IDs of the ignited cells in the rows above r. */
  function ActiveUpTo(f: Forest, lightning: Mask, r: nat): set<int>
    requires Shaped(f) && IsSquare(lightning, f.size) && r <= f.size
  {
    if r == 0 then {}
    else ActiveUpTo(f, lightning, r - 1) + ActiveInRow(f, lightning, r - 1, f.size)
  }

  /** `active_ids = np.unique(new_cluster_ids[ignited_trees])`. */
  function ActiveIds(f: Forest, lightning: Mask): set<int>
    requires Shaped(f) && IsSquare(lightning, f.size)
  {
    ActiveUpTo(f, lightning, f.size)
  }

  /** `ash_ids`: the old ID of a burning or ash cell, 0 elsewhere. */
  function AshId(f: Forest, r: int, c: int): int
    requires Shaped(f) && InGrid(f, r, c)
  {
    if f.grid[r][c] == FIRE || f.grid[r][c] == ASH then f.ids[r][c] else 0
  }

  /** `active_ash_mask`: an old fire or ash cell whose cluster still burns. */
  predicate KeepsAsh(f: Forest, lightning: Mask, r: int, c: int)
    requires Shaped(f) && IsSquare(lightning, f.size) && InGrid(f, r, c)
  {
    AshId(f, r, c) > 0 && AshId(f, r, c) in ActiveIds(f, lightning)
  }

  /** The new state of (r, c).  The source clears the grid and then writes, in
      this order, surviving trees, new trees, kept ash and new fire, so a later
      mask wins over an earlier one. */
  function NextCell(f: Forest, grow: Mask, lightning: Mask, r: int, c: int): int
    requires Shaped(f) && IsSquare(grow, f.size) && IsSquare(lightning, f.size) && InGrid(f, r, c)
  {
    if Ignites(f, lightning, r, c) then FIRE
    else if KeepsAsh(f, lightning, r, c) then ASH
    else if f.grid[r][c] == EMPTY && grow[r][c] then TREE
    else if f.grid[r][c] == TREE then TREE
    else EMPTY
  }

  /** The new cluster ID of (r, c): zero, then the new fire's IDs, then the kept ash's IDs. */
  function NextIdCell(f: Forest, lightning: Mask, r: int, c: int): int
    requires Shaped(f) && IsSquare(lightning, f.size) && InGrid(f, r, c)
  {
    if KeepsAsh(f, lightning, r, c) then AshId(f, r, c)
    else if Ignites(f, lightning, r, c) then NewId(f, lightning, r, c)
    else 0
  }

  function NextGrid(f: Forest, grow: Mask, lightning: Mask): (g: Grid)
    requires Shaped(f) && IsSquare(grow, f.size) && IsSquare(lightning, f.size)
    ensures IsSquare(g, f.size)
    ensures forall r, c :: 0 <= r < f.size && 0 <= c < f.size ==> g[r][c] == NextCell(f, grow, lightning, r, c)
  {
    seq(f.size, r requires 0 <= r < f.size =>
      seq(f.size, c requires 0 <= c < f.size => NextCell(f, grow, lightning, r, c)))
  }

  function NextIds(f: Forest, lightning: Mask): (g: Grid)
    requires Shaped(f) && IsSquare(lightning, f.size)
    ensures IsSquare(g, f.size)
    ensures forall r, c :: 0 <= r < f.size && 0 <= c < f.size ==> g[r][c] == NextIdCell(f, lightning, r, c)
  {
    seq(f.size, r requires 0 <= r < f.size =>
      seq(f.size, c requires 0 <= c < f.size => NextIdCell(f, lightning, r, c)))
  }

  // ---------------------------------------------------------------------------
  // Counting and the bounded histories

  /** Occurrences of v in a row. */
  function CountIn(row: seq<int>, v: int): nat
  {
    if row == [] then 0 else CountIn(row[..|row| - 1], v) + (if row[|row| - 1] == v then 1 else 0)
  }

  /** `np.sum(g == v)`. */
  function CountValue(g: Grid, v: int): nat
  {
    if g == [] then 0 else CountValue(g[..|g| - 1], v) + CountIn(g[|g| - 1], v)
  }

  /** `deque(maxlen=cap).append(x)`: append, dropping the oldest entries beyond cap. */
  function BoundedAppend<T>(q: seq<T>, x: T, cap: nat): (r: seq<T>)
    ensures |r| == if |q| + 1 <= cap then |q| + 1 else cap
    ensures |q| < cap ==> r == q + [x]
    ensures cap > 0 ==> r[|r| - 1] == x && r[..|r| - 1] == q[|q| + 1 - |r|..]
  {
    if |q| + 1 <= cap then q + [x] else (q + [x])[|q| + 1 - cap..]
  }

  /** `set(fire_cluster_ids[grid == 2])` without 0: the clusters burning in a grid. */
  function BurningIds(n: nat, g: Grid, ids: Grid): set<int>
    requires IsSquare(g, n) && IsSquare(ids, n)
  {
    (set r, c | 0 <= r < n && 0 <= c < n && g[r][c] == FIRE :: ids[r][c]) - {0}
  }

  /** Appends one (step, size) sample to an entry and raises its peak size. */
  function Sample(e: ClusterInfo, step: int, size: int): ClusterInfo
  {
    e.(sizes := BoundedAppend(e.sizes, (step, size), WINDOW),
       maxSize := if size > e.maxSize then size else e.maxSize)
  }

  /** The entry for an active cluster after this step: created on first appearance. */
  function Touched(reg: map<int, ClusterInfo>, k: int, step: int, size: int): ClusterInfo
  {
    Sample(if k in reg then reg[k] else ClusterInfo(step, None, size, []), step, size)
  }

  /** The registry after the `for cluster_id in active_cluster_ids` loop. */
  function Track(reg: map<int, ClusterInfo>, active: set<int>, ids: Grid, step: int): map<int, ClusterInfo>
  {
    map k | k in reg.Keys + active :: if k in active then Touched(reg, k, step, CountValue(ids, k)) else reg[k]
  }

  /** The registry after the `for cluster_id in died_cluster_ids` loop. */
  function MarkDeaths(reg: map<int, ClusterInfo>, died: set<int>, step: int): map<int, ClusterInfo>
  {
    map k | k in reg :: if k in died && reg[k].death.None? then reg[k].(death := Some(step)) else reg[k]
  }

  predicate Expired(e: ClusterInfo, step: int)
  {
    e.death.Some? && step - e.death.value > WINDOW
  }

  /** The registry after `clusters_to_remove` is deleted. */
  function Prune(reg: map<int, ClusterInfo>, step: int): map<int, ClusterInfo>
  {
    map k | k in reg && !Expired(reg[k], step) :: reg[k]
  }

  /** Sizes of the active clusters (`new_current_clusters`). */
  function CurrentSizes(active: set<int>, ids: Grid): map<int, int>
  {
    map k | k in active :: CountValue(ids, k)
  }

  // ---------------------------------------------------------------------------
  // The transition

  /** The state after the grid update, before the data collection. */
  function Burned(f: Forest, grow: Mask, lightning: Mask): (f': Forest)
    requires Shaped(f) && IsSquare(grow, f.size) && IsSquare(lightning, f.size)
    ensures Shaped(f') && f'.size == f.size
  {
    f.(grid := NextGrid(f, grow, lightning),
       ids := NextIds(f, lightning),
       nextId := f.nextId + StrikesBefore(f, lightning, f.size))
  }

  /** The clusters burning after the grid update. */
  function BurnedIds(f: Forest, grow: Mask, lightning: Mask): set<int>
    requires Shaped(f) && IsSquare(grow, f.size) && IsSquare(lightning, f.size)
  {
    var b := Burned(f, grow, lightning);
    BurningIds(b.size, b.grid, b.ids)
  }

  /** A grid of draws turned into a mask: `np.random.random(shape) < p`. */
  function Below(draws: seq<seq<real>>, p: real): (m: Mask)
    ensures |m| == |draws| && forall r :: 0 <= r < |draws| ==> |m[r]| == |draws[r]|
    ensures forall r, c :: 0 <= r < |draws| && 0 <= c < |draws[r]| ==> (m[r][c] <==> draws[r][c] < p)
  {
    seq(|draws|, r requires 0 <= r < |draws| => seq(|draws[r]|, c requires 0 <= c < |draws[r]| => draws[r][c] < p))
  }

  /** One call of `step()`. */
  function Step(f: Forest, grow: Mask, lightning: Mask): (f': Forest)
    requires Shaped(f) && IsSquare(grow, f.size) && IsSquare(lightning, f.size)
    ensures Shaped(f') && f'.size == f.size
  {
    var b := Burned(f, grow, lightning);
    var step := f.stepCount + 1;
    var active := BurnedIds(f, grow, lightning);
    var tracked := Track(f.registry, active, b.ids, step);
    var dead := MarkDeaths(tracked, f.current.Keys - active, step);
    b.(stepCount := step,
       history := BoundedAppend(f.history, (step, CountValue(b.grid, FIRE)), WINDOW),
       registry := Prune(dead, step),
       current := CurrentSizes(active, b.ids))
  }

  /** The constructed simulator: trees where the seeding draw is below SEED_TREE_PROBABILITY. */
  function Initial(n: nat, seed: seq<seq<real>>): (f: Forest)
    requires IsSquare(seed, n)
    ensures Shaped(f) && f.size == n
  {
    Forest(n,
           seq(n, r requires 0 <= r < n => seq(n, c requires 0 <= c < n => if seed[r][c] < SEED_TREE_PROBABILITY then TREE else EMPTY)),
           seq(n, r => seq(n, c => 0)),
           1, 0, [], map[], map[])
  }

  // ---------------------------------------------------------------------------
  // The invariant kept by every step

  /** A size history within the window, every sample at most the peak size. */
  predicate Bounded(e: ClusterInfo)
  {
    |e.sizes| <= WINDOW && forall i :: 0 <= i < |e.sizes| ==> e.sizes[i].1 <= e.maxSize
  }

  predicate EntryOk(e: ClusterInfo, step: int)
  {
    Bounded(e) && !Expired(e, step)
  }

  /** Cell states in range, state/ID coupling, IDs below the counter, and every live
      ID a current cluster. */
  ghost predicate CellsOk(f: Forest)
    requires Shaped(f)
  {
    forall r, c :: 0 <= r < f.size && 0 <= c < f.size ==>
      0 <= f.grid[r][c] <= ASH &&
      0 <= f.ids[r][c] < f.nextId &&
      (f.ids[r][c] > 0 <==> f.grid[r][c] == FIRE || f.grid[r][c] == ASH) &&
      (f.ids[r][c] > 0 ==> f.ids[r][c] in f.current)
  }

  /** Current clusters are registered and not dead. */
  ghost predicate CurrentOk(f: Forest)
  {
    forall k :: k in f.current ==> k in f.registry && f.registry[k].death.None?
  }

  /** Registered IDs were handed out already; entries are bounded and unexpired. */
  ghost predicate RegistryOk(f: Forest)
  {
    forall k :: k in f.registry ==> 0 < k < f.nextId && EntryOk(f.registry[k], f.stepCount)
  }

  ghost predicate Inv(f: Forest)
  {
    Shaped(f) && f.nextId >= 1 && |f.history| <= WINDOW && CellsOk(f) && CurrentOk(f) && RegistryOk(f)
  }

  // ---------------------------------------------------------------------------
  // Fresh IDs for lightning-only fires

  /** Position of (r, c) among the lightning-only ignitions in row-major order. */
  function StrikeRank(f: Forest, lightning: Mask, r: int, c: int): nat
    requires Shaped(f) && IsSquare(lightning, f.size) && InGrid(f, r, c)
  {
    StrikesBefore(f, lightning, r) + RowStrikes(f, lightning, r, c)
  }

  lemma {:induction false} RowStrikesMonotone(f: Forest, lightning: Mask, r: int, c1: nat, c2: nat)
    requires Shaped(f) && IsSquare(lightning, f.size) && 0 <= r < f.size && c1 <= c2 <= f.size
    ensures RowStrikes(f, lightning, r, c1) <= RowStrikes(f, lightning, r, c2)
  {
    if c1 < c2 {
      RowStrikesMonotone(f, lightning, r, c1, c2 - 1);
    }
  }

  lemma {:induction false} StrikesBeforeMonotone(f: Forest, lightning: Mask, r1: nat, r2: nat)
    requires Shaped(f) && IsSquare(lightning, f.size) && r1 <= r2 <= f.size
    ensures StrikesBefore(f, lightning, r1) <= StrikesBefore(f, lightning, r2)
  {
    if r1 < r2 {
      StrikesBeforeMonotone(f, lightning, r1, r2 - 1);
    }
  }

  /** A lightning-only ignition ranks strictly below every cell after it in row-major order. */
  lemma RankIncreases(f: Forest, lightning: Mask, r1: int, c1: int, r2: int, c2: int)
    requires Shaped(f) && IsSquare(lightning, f.size) && InGrid(f, r1, c1) && InGrid(f, r2, c2)
    requires StruckOnly(f, lightning, r1, c1)
    requires r1 < r2 || (r1 == r2 && c1 < c2)
    ensures StrikeRank(f, lightning, r1, c1) < StrikeRank(f, lightning, r2, c2)
  {
    if r1 == r2 {
      RowStrikesMonotone(f, lightning, r1, c1 + 1, c2);
    } else {
      RowStrikesMonotone(f, lightning, r1, c1 + 1, f.size);
      StrikesBeforeMonotone(f, lightning, r1 + 1, r2);
    }
  }

  /** Lightning-only fires take IDs from `next_cluster_id` up to, but excluding, the
      advanced counter `next_cluster_id + num_new_fires`, one distinct ID per fire;
      so none of them was held by any cell or registry entry before the step. */
  lemma StrikeIds(f: Forest, lightning: Mask, r1: int, c1: int, r2: int, c2: int)
    requires Shaped(f) && IsSquare(lightning, f.size) && InGrid(f, r1, c1) && InGrid(f, r2, c2)
    requires StruckOnly(f, lightning, r1, c1) && StruckOnly(f, lightning, r2, c2)
    ensures f.nextId <= NewId(f, lightning, r1, c1) < f.nextId + StrikesBefore(f, lightning, f.size)
    ensures (r1, c1) != (r2, c2) ==> NewId(f, lightning, r1, c1) != NewId(f, lightning, r2, c2)
  {
    RowStrikesMonotone(f, lightning, r1, c1 + 1, f.size);
    StrikesBeforeMonotone(f, lightning, r1 + 1, f.size);
    if r1 < r2 || (r1 == r2 && c1 < c2) {
      RankIncreases(f, lightning, r1, c1, r2, c2);
    } else if r2 < r1 || (r1 == r2 && c2 < c1) {
      RankIncreases(f, lightning, r2, c2, r1, c1);
    }
  }

  // ---------------------------------------------------------------------------
  // Propagated fires: the largest burning neighbour's ID

  lemma FireNeighbourMeans(g: Grid, r: int, c: int)
    ensures FireNeighbour(g, r, c) <==> exists r2, c2 :: BurningNeighbourAt(g, r, c, r2, c2)
  {
    if FireNeighbour(g, r, c) {
      if Burns(g, r + 1, c) { assert BurningNeighbourAt(g, r, c, r + 1, c); }
      else if Burns(g, r - 1, c) { assert BurningNeighbourAt(g, r, c, r - 1, c); }
      else if Burns(g, r, c + 1) { assert BurningNeighbourAt(g, r, c, r, c + 1); }
      else { assert BurningNeighbourAt(g, r, c, r, c - 1); }
    }
  }

  /** With non-negative IDs, the ID a propagated fire inherits is held by one of its
      burning 4-neighbours and is at least the ID of each of them. */
  lemma NeighbourIdIsMax(f: Forest, r: int, c: int)
    requires Shaped(f) && FireNeighbour(f.grid, r, c)
    requires forall i, j :: 0 <= i < f.size && 0 <= j < f.size ==> f.ids[i][j] >= 0
    ensures exists r2, c2 :: BurningNeighbourAt(f.grid, r, c, r2, c2) && f.ids[r2][c2] == NeighbourId(f, r, c)
    ensures forall r2, c2 :: BurningNeighbourAt(f.grid, r, c, r2, c2) ==> f.ids[r2][c2] <= NeighbourId(f, r, c)
  {
    var m := NeighbourId(f, r, c);
    var g := f.grid;
    if Burns(g, r + 1, c) && f.ids[r + 1][c] == m {
      assert BurningNeighbourAt(g, r, c, r + 1, c);
    } else if Burns(g, r - 1, c) && f.ids[r - 1][c] == m {
      assert BurningNeighbourAt(g, r, c, r - 1, c);
    } else if Burns(g, r, c + 1) && f.ids[r][c + 1] == m {
      assert BurningNeighbourAt(g, r, c, r, c + 1);
    } else if Burns(g, r, c - 1) && f.ids[r][c - 1] == m {
      assert BurningNeighbourAt(g, r, c, r, c - 1);
    } else {
      // m would be a masked zero exceeding every burning neighbour's non-negative ID
      assert false;
    }
  }

  // ---------------------------------------------------------------------------
  // The set of clusters that keep burning

  lemma {:induction false} ActiveInRowMeans(f: Forest, lightning: Mask, r: int, c: nat, x: int)
    requires Shaped(f) && IsSquare(lightning, f.size) && 0 <= r < f.size && c <= f.size
    ensures x in ActiveInRow(f, lightning, r, c) <==>
            exists j :: 0 <= j < c && Ignites(f, lightning, r, j) && NewId(f, lightning, r, j) == x
  {
    if c > 0 {
      ActiveInRowMeans(f, lightning, r, c - 1, x);
    }
  }

  lemma {:induction false} ActiveUpToMeans(f: Forest, lightning: Mask, r: nat, x: int)
    requires Shaped(f) && IsSquare(lightning, f.size) && r <= f.size
    ensures x in ActiveUpTo(f, lightning, r) <==>
            exists i, j :: 0 <= i < r && 0 <= j < f.size && Ignites(f, lightning, i, j) && NewId(f, lightning, i, j) == x
  {
    if r > 0 {
      ActiveUpToMeans(f, lightning, r - 1, x);
      ActiveInRowMeans(f, lightning, r - 1, f.size, x);
    }
  }

  /** `active_ids` holds exactly the IDs given to the ignited cells. */
  lemma ActiveIdsMeans(f: Forest, lightning: Mask, x: int)
    requires Shaped(f) && IsSquare(lightning, f.size)
    ensures x in ActiveIds(f, lightning) <==>
            exists r, c :: InGrid(f, r, c) && Ignites(f, lightning, r, c) && NewId(f, lightning, r, c) == x
  {
    ActiveUpToMeans(f, lightning, f.size, x);
  }

  // ---------------------------------------------------------------------------
  // What a step does to one cell

  /** The per-cell rules: the new state is one of the four, a cell burns exactly
      when it was a tree with a burning neighbour or a lightning hit, trees come
      from surviving trees and from growth on empty cells, ash stays exactly where
      an old fire or ash cell's cluster still burns, and the new ID follows the new state. */
  lemma CellRules(f: Forest, grow: Mask, lightning: Mask, r: int, c: int)
    requires Shaped(f) && IsSquare(grow, f.size) && IsSquare(lightning, f.size) && InGrid(f, r, c)
    ensures var x := NextCell(f, grow, lightning, r, c);
      && EMPTY <= x <= ASH
      && (x == FIRE <==> f.grid[r][c] == TREE && (FireNeighbour(f.grid, r, c) || lightning[r][c]))
      && (x == TREE <==> (f.grid[r][c] == TREE && !Ignites(f, lightning, r, c)) || (f.grid[r][c] == EMPTY && grow[r][c]))
      && (x == ASH <==> (f.grid[r][c] == FIRE || f.grid[r][c] == ASH) && f.ids[r][c] > 0 && f.ids[r][c] in ActiveIds(f, lightning))
      && NextIdCell(f, lightning, r, c) == (if x == FIRE then NewId(f, lightning, r, c) else if x == ASH then f.ids[r][c] else 0)
  {
  }

  /** An ignited cell gets a positive ID below the advanced counter, and every ID a
      burning cell carries after the step was either alive before it (so it names a
      current, undead cluster) or is fresh (so no registry entry has it). */
  lemma IgnitedId(f: Forest, lightning: Mask, r: int, c: int)
    requires Inv(f) && IsSquare(lightning, f.size) && InGrid(f, r, c) && Ignites(f, lightning, r, c)
    ensures var k := NewId(f, lightning, r, c);
      && 0 < k < f.nextId + StrikesBefore(f, lightning, f.size)
      && (k in f.registry ==> k in f.current)
  {
    if FireNeighbour(f.grid, r, c) {
      NeighbourIdIsMax(f, r, c);
      var r2, c2 :| BurningNeighbourAt(f.grid, r, c, r2, c2) && f.ids[r2][c2] == NeighbourId(f, r, c);
      assert f.ids[r2][c2] > 0;
    } else {
      StrikeIds(f, lightning, r, c, r, c);
    }
  }

  /** Each ignited cell's ID is among the clusters burning after the step. */
  lemma IgnitedIdBurns(f: Forest, grow: Mask, lightning: Mask, r: int, c: int)
    requires Inv(f) && IsSquare(grow, f.size) && IsSquare(lightning, f.size) && InGrid(f, r, c)
    requires Ignites(f, lightning, r, c)
    ensures NewId(f, lightning, r, c) in BurnedIds(f, grow, lightning)
  {
    var b := Burned(f, grow, lightning);
    IgnitedId(f, lightning, r, c);
    CellRules(f, grow, lightning, r, c);
    assert b.grid[r][c] == FIRE && b.ids[r][c] == NewId(f, lightning, r, c);
  }

  /** The grid half of the invariant after the grid update. */
  lemma BurnedCells(f: Forest, grow: Mask, lightning: Mask, r: int, c: int)
    requires Inv(f) && IsSquare(grow, f.size) && IsSquare(lightning, f.size) && InGrid(f, r, c)
    ensures var b := Burned(f, grow, lightning);
      && 0 <= b.grid[r][c] <= ASH
      && 0 <= b.ids[r][c] < b.nextId
      && (b.ids[r][c] > 0 <==> b.grid[r][c] == FIRE || b.grid[r][c] == ASH)
      && (b.ids[r][c] > 0 ==> b.ids[r][c] in BurnedIds(f, grow, lightning))
  {
    var b := Burned(f, grow, lightning);
    CellRules(f, grow, lightning, r, c);
    if Ignites(f, lightning, r, c) {
      IgnitedId(f, lightning, r, c);
      IgnitedIdBurns(f, grow, lightning, r, c);
    } else if KeepsAsh(f, lightning, r, c) {
      ActiveIdsMeans(f, lightning, f.ids[r][c]);
      var r2, c2 :| InGrid(f, r2, c2) && Ignites(f, lightning, r2, c2) && NewId(f, lightning, r2, c2) == f.ids[r][c];
      IgnitedIdBurns(f, grow, lightning, r2, c2);
    }
  }

  /** A cluster burning after the step is positive, below the new counter, and was
      either unknown to the registry or alive in it. */
  lemma BurningIdOrigin(f: Forest, grow: Mask, lightning: Mask, k: int)
    requires Inv(f) && IsSquare(grow, f.size) && IsSquare(lightning, f.size)
    requires k in BurnedIds(f, grow, lightning)
    ensures 0 < k < Burned(f, grow, lightning).nextId
    ensures k in f.registry ==> k in f.current && f.registry[k].death.None?
  {
    var b := Burned(f, grow, lightning);
    var r, c :| 0 <= r < f.size && 0 <= c < f.size && b.grid[r][c] == FIRE && b.ids[r][c] == k;
    CellRules(f, grow, lightning, r, c);
    IgnitedId(f, lightning, r, c);
  }

  lemma SampleOk(e: ClusterInfo, step: int, size: int)
    requires Bounded(e)
    ensures var e' := Sample(e, step, size);
      && e'.birth == e.birth && e'.death == e.death && Bounded(e')
      && e'.sizes[|e'.sizes| - 1] == (step, size) && size <= e'.maxSize
  {
    var e' := Sample(e, step, size);
    var q := e.sizes;
    forall i | 0 <= i < |e'.sizes| ensures e'.sizes[i].1 <= e'.maxSize {
      if i < |e'.sizes| - 1 {
        assert e'.sizes[i] == e'.sizes[..|e'.sizes| - 1][i] == q[|q| + 1 - |e'.sizes| + i];
      }
    }
  }

  lemma StepCells(f: Forest, grow: Mask, lightning: Mask)
    requires Inv(f) && IsSquare(grow, f.size) && IsSquare(lightning, f.size)
    ensures CellsOk(Step(f, grow, lightning))
  {
    var f' := Step(f, grow, lightning);
    forall r, c | 0 <= r < f.size && 0 <= c < f.size
      ensures 0 <= f'.grid[r][c] <= ASH
      ensures 0 <= f'.ids[r][c] < f'.nextId
      ensures f'.ids[r][c] > 0 <==> f'.grid[r][c] == FIRE || f'.grid[r][c] == ASH
      ensures f'.ids[r][c] > 0 ==> f'.ids[r][c] in f'.current
    {
      BurnedCells(f, grow, lightning, r, c);
    }
  }

  /** Tracking keeps every entry bounded, registers every active cluster, and
      changes no death. */
  lemma TrackOk(reg: map<int, ClusterInfo>, active: set<int>, ids: Grid, step: int)
    requires forall k :: k in reg ==> Bounded(reg[k])
    ensures var tracked := Track(reg, active, ids, step);
      && tracked.Keys == reg.Keys + active
      && (forall k :: k in tracked ==> Bounded(tracked[k]))
      && (forall k :: k in active && k in reg ==> tracked[k].death == reg[k].death)
      && (forall k :: k in active && k !in reg ==> tracked[k].death.None?)
  {
    var tracked := Track(reg, active, ids, step);
    forall k | k in active ensures Bounded(tracked[k]) {
      SampleOk(if k in reg then reg[k] else ClusterInfo(step, None, CountValue(ids, k), []), step, CountValue(ids, k));
    }
  }

  /** The registry half of a step, on maps alone: if the active clusters are
      positive, below the counter and not dead, then after tracking, marking deaths
      and pruning every entry is bounded and unexpired and every active cluster has
      a live entry. */
  lemma BookkeepingOk(reg: map<int, ClusterInfo>, died: set<int>, active: set<int>,
                      ids: Grid, step: int, next: int)
    requires forall k :: k in reg ==> 0 < k < next && Bounded(reg[k])
    requires forall k :: k in active ==> 0 < k < next && (k in reg ==> reg[k].death.None?)
    requires died !! active
    ensures var pruned := Prune(MarkDeaths(Track(reg, active, ids, step), died, step), step);
      && (forall k :: k in pruned ==> 0 < k < next && EntryOk(pruned[k], step))
      && (forall k :: k in active ==> k in pruned && pruned[k].death.None?)
  {
    var tracked := Track(reg, active, ids, step);
    TrackOk(reg, active, ids, step);
    var dead := MarkDeaths(tracked, died, step);
    assert forall k :: k in dead ==> 0 < k < next && Bounded(dead[k]);
    assert forall k :: k in active ==> k in dead && dead[k].death.None?;
  }

  lemma StepRegistry(f: Forest, grow: Mask, lightning: Mask)
    requires Inv(f) && IsSquare(grow, f.size) && IsSquare(lightning, f.size)
    ensures RegistryOk(Step(f, grow, lightning)) && CurrentOk(Step(f, grow, lightning))
  {
    var b := Burned(f, grow, lightning);
    var active := BurnedIds(f, grow, lightning);
    StrikesBeforeMonotone(f, lightning, 0, f.size);
    forall k | k in active ensures 0 < k < b.nextId && (k in f.registry ==> f.registry[k].death.None?) {
      BurningIdOrigin(f, grow, lightning, k);
    }
    BookkeepingOk(f.registry, f.current.Keys - active, active, b.ids, f.stepCount + 1, b.nextId);
    StepBookkeeping(f, grow, lightning);
  }

  /** The bookkeeping half of a step, spelled out. */
  lemma StepBookkeeping(f: Forest, grow: Mask, lightning: Mask)
    requires Shaped(f) && IsSquare(grow, f.size) && IsSquare(lightning, f.size)
    ensures var f' := Step(f, grow, lightning);
      var active := BurnedIds(f, grow, lightning);
      var b := Burned(f, grow, lightning);
      var step := f.stepCount + 1;
      && f'.registry == Prune(MarkDeaths(Track(f.registry, active, b.ids, step), f.current.Keys - active, step), step)
      && f'.current.Keys == active && f'.nextId == b.nextId && f'.stepCount == step
  {
  }

  /** `step` keeps the invariant. */
  lemma StepKeepsInv(f: Forest, grow: Mask, lightning: Mask)
    requires Inv(f) && IsSquare(grow, f.size) && IsSquare(lightning, f.size)
    ensures Inv(Step(f, grow, lightning))
  {
    StepCells(f, grow, lightning);
    StepRegistry(f, grow, lightning);
  }

  /** The grid half of a step: the new cells, IDs and ID counter; the size is kept. */
  lemma StepGrid(f: Forest, grow: Mask, lightning: Mask)
    requires Shaped(f) && IsSquare(grow, f.size) && IsSquare(lightning, f.size)
    ensures var f' := Step(f, grow, lightning);
      f'.size == f.size && f'.grid == NextGrid(f, grow, lightning) && f'.ids == NextIds(f, lightning) &&
      f'.nextId == f.nextId + StrikesBefore(f, lightning, f.size)
  {
  }

  /** A rank below the strikes of row r up to column c belongs to a strike in that row. */
  lemma {:induction false} RowStrikeAt(f: Forest, lightning: Mask, r: int, c: nat, t: nat)
    requires Shaped(f) && IsSquare(lightning, f.size) && 0 <= r < f.size && c <= f.size
    requires t < RowStrikes(f, lightning, r, c)
    ensures exists j :: 0 <= j < c && StruckOnly(f, lightning, r, j) && RowStrikes(f, lightning, r, j) == t
  {
    if t < RowStrikes(f, lightning, r, c - 1) {
      RowStrikeAt(f, lightning, r, c - 1, t);
    } else {
      assert StruckOnly(f, lightning, r, c - 1);
    }
  }

  /** Every rank below the strikes of the first r rows belongs to a strike there. */
  lemma {:induction false} StrikeAt(f: Forest, lightning: Mask, r: nat, t: nat)
    requires Shaped(f) && IsSquare(lightning, f.size) && r <= f.size
    requires t < StrikesBefore(f, lightning, r)
    ensures exists i, j :: 0 <= i < r && 0 <= j < f.size && StruckOnly(f, lightning, i, j) && StrikeRank(f, lightning, i, j) == t
  {
    var below := StrikesBefore(f, lightning, r - 1);
    if t < below {
      StrikeAt(f, lightning, r - 1, t);
      var i, j :| 0 <= i < r - 1 && 0 <= j < f.size && StruckOnly(f, lightning, i, j) && StrikeRank(f, lightning, i, j) == t;
      assert 0 <= i < r;
    } else {
      RowStrikeAt(f, lightning, r - 1, f.size, t - below);
      var j :| 0 <= j < f.size && StruckOnly(f, lightning, r - 1, j) && RowStrikes(f, lightning, r - 1, j) == t - below;
      assert StrikeRank(f, lightning, r - 1, j) == t;
    }
  }

  /** A lightning-only fire carries its fresh ID after the step. */
  lemma StruckCarries(f: Forest, grow: Mask, lightning: Mask, r: int, c: int)
    requires Shaped(f) && IsSquare(grow, f.size) && IsSquare(lightning, f.size) && InGrid(f, r, c)
    requires StruckOnly(f, lightning, r, c)
    ensures Step(f, grow, lightning).ids[r][c] == f.nextId + StrikeRank(f, lightning, r, c)
  {
    StepGrid(f, grow, lightning);
    assert !KeepsAsh(f, lightning, r, c);
  }

  /** The counter grows by exactly the number of lightning-only fires: each ID from
      `next_cluster_id` up to the advanced counter is carried after the step by one
      lightning-only fire, and by no other one. */
  lemma StepFreshIds(f: Forest, grow: Mask, lightning: Mask, id: int)
    requires Shaped(f) && IsSquare(grow, f.size) && IsSquare(lightning, f.size)
    requires f.nextId <= id < Step(f, grow, lightning).nextId
    ensures exists r, c :: InGrid(f, r, c) && StruckOnly(f, lightning, r, c) && Step(f, grow, lightning).ids[r][c] == id
    ensures forall r1, c1, r2, c2 ::
      (InGrid(f, r1, c1) && InGrid(f, r2, c2) && StruckOnly(f, lightning, r1, c1) && StruckOnly(f, lightning, r2, c2) &&
       Step(f, grow, lightning).ids[r1][c1] == id && Step(f, grow, lightning).ids[r2][c2] == id) ==> r1 == r2 && c1 == c2
  {
    StepGrid(f, grow, lightning);
    StrikeAt(f, lightning, f.size, id - f.nextId);
    var r, c :| 0 <= r < f.size && 0 <= c < f.size && StruckOnly(f, lightning, r, c) && StrikeRank(f, lightning, r, c) == id - f.nextId;
    StruckCarries(f, grow, lightning, r, c);
    forall r1, c1, r2, c2 |
      InGrid(f, r1, c1) && InGrid(f, r2, c2) && StruckOnly(f, lightning, r1, c1) && StruckOnly(f, lightning, r2, c2) &&
      Step(f, grow, lightning).ids[r1][c1] == id && Step(f, grow, lightning).ids[r2][c2] == id
      ensures r1 == r2 && c1 == c2
    {
      StruckCarries(f, grow, lightning, r1, c1);
      StruckCarries(f, grow, lightning, r2, c2);
      StrikeIds(f, lightning, r1, c1, r2, c2);
    }
  }

  /** What a step records about cluster k. The fire history ends with (step,
      burning cells). k is current after the step exactly when a burning cell
      carries it, and then its live entry is its old entry, or a fresh one born
      at this step, with (step, its cell count) appended to the bounded size
      history and the peak raised to that count. A cluster current before the
      step that no longer burns is marked dead at this step. Any other entry is
      kept as it was, unless dead for more than the window, and no entry is
      created for a cluster that does not burn. */
  lemma StepRecords(f: Forest, grow: Mask, lightning: Mask, k: int)
    requires Inv(f) && IsSquare(grow, f.size) && IsSquare(lightning, f.size)
    ensures var f' := Step(f, grow, lightning);
      && f'.stepCount == f.stepCount + 1
      && f'.history[|f'.history| - 1] == (f'.stepCount, CountValue(f'.grid, FIRE))
      && (k in f'.current <==> k != 0 && exists r, c :: InGrid(f, r, c) && f'.grid[r][c] == FIRE && f'.ids[r][c] == k)
      && (k in f'.current ==>
            k in f'.registry && f'.registry[k].death.None? && f'.current[k] == CountValue(f'.ids, k) &&
            f'.registry[k].sizes[|f'.registry[k].sizes| - 1] == (f'.stepCount, f'.current[k]) &&
            f'.current[k] <= f'.registry[k].maxSize &&
            f'.registry[k].birth == (if k in f.registry then f.registry[k].birth else f'.stepCount))
      && (k in f.current && k !in f'.current ==> k in f'.registry && f'.registry[k].death == Some(f'.stepCount))
      && (k in f.registry && k !in f.current && k !in f'.current ==>
            (k in f'.registry <==> !Expired(f.registry[k], f'.stepCount)) &&
            (k in f'.registry ==> f'.registry[k] == f.registry[k]))
      && (k !in f.registry && k !in f'.current ==> k !in f'.registry)
    ensures var f' := Step(f, grow, lightning);
      k in f'.current ==>
        var size := f'.current[k];
        var base := if k in f.registry then f.registry[k] else ClusterInfo(f'.stepCount, None, size, []);
        && f'.registry[k].maxSize == (if size > base.maxSize then size else base.maxSize)
        && f'.registry[k].sizes == BoundedAppend(base.sizes, (f'.stepCount, size), WINDOW)
  {
    var f' := Step(f, grow, lightning);
    var b := Burned(f, grow, lightning);
    var step := f.stepCount + 1;
    var active := BurnedIds(f, grow, lightning);
    var tracked := Track(f.registry, active, b.ids, step);
    var dead := MarkDeaths(tracked, f.current.Keys - active, step);
    StepBookkeeping(f, grow, lightning);
    StepGrid(f, grow, lightning);
    assert f'.registry == Prune(dead, step);
    if k in active {
      BurningIdOrigin(f, grow, lightning, k);
      var size := CountValue(b.ids, k);
      var base := if k in f.registry then f.registry[k] else ClusterInfo(step, None, size, []);
      assert Bounded(base) by {
        if k in f.registry {
          assert EntryOk(f.registry[k], f.stepCount);
        }
      }
      SampleOk(base, step, size);
      assert tracked[k] == Sample(base, step, size);
      assert dead[k] == tracked[k];
    } else if k in f.current {
      assert k in f.registry && f.registry[k].death.None?;
      assert tracked[k] == f.registry[k];
      assert dead[k] == f.registry[k].(death := Some(step));
    } else if k in f.registry {
      assert tracked[k] == f.registry[k];
      assert dead[k] == f.registry[k];
    }
  }

  // ---------------------------------------------------------------------------
  // The registry loops, one cluster at a time

  lemma SameMap<K, V>(a: map<K, V>, b: map<K, V>)
    requires a.Keys == b.Keys && forall j :: j in a ==> a[j] == b[j]
    ensures a == b
  {
  }

  /** `m` is `base` with the entries of `target` for the keys in `done` laid over it. */
  ghost predicate Overlaid<K, V>(m: map<K, V>, base: map<K, V>, target: map<K, V>, done: set<K>)
  {
    done <= target.Keys && m.Keys == base.Keys + done &&
    forall j :: j in m ==> m[j] == if j in done then target[j] else base[j]
  }

  /** Laying one more entry of `target` over the map extends the keys done. */
  lemma OverlayStep<K, V>(m: map<K, V>, base: map<K, V>, target: map<K, V>, done: set<K>, k: K)
    requires Overlaid(m, base, target, done) && k in target
    ensures Overlaid(m[k := target[k]], base, target, done + {k})
  {
  }

  /** A map that lays the tracked entry of every active cluster over the old
      registry is the tracked registry. */
  lemma TrackIs(m: map<int, ClusterInfo>, reg: map<int, ClusterInfo>, active: set<int>, ids: Grid, step: int)
    requires Overlaid(m, reg, Track(reg, active, ids, step), active)
    ensures m == Track(reg, active, ids, step)
  {
    var t := Track(reg, active, ids, step);
    assert t.Keys == reg.Keys + active;
    forall j | j in m ensures m[j] == t[j] {
      assert j in t;
    }
    SameMap(m, t);
  }

  /** A map with the same clusters that marks exactly the listed live ones dead is
      the registry after the deaths. */
  lemma MarkIs(m: map<int, ClusterInfo>, reg: map<int, ClusterInfo>, died: set<int>, step: int)
    requires m.Keys == reg.Keys
    requires forall j :: j in m ==> m[j] == if j in died && reg[j].death.None? then reg[j].(death := Some(step)) else reg[j]
    ensures m == MarkDeaths(reg, died, step)
  {
    var t := MarkDeaths(reg, died, step);
    assert t.Keys == reg.Keys;
    forall j | j in m ensures m[j] == t[j] {
      assert j in t;
    }
    SameMap(m, t);
  }

  /** A map from exactly the active clusters to their cell counts is `CurrentSizes`. */
  lemma SizesIs(m: map<int, int>, active: set<int>, ids: Grid)
    requires m.Keys == active && forall j :: j in m ==> m[j] == CountValue(ids, j)
    ensures m == CurrentSizes(active, ids)
  {
    SameMap(m, CurrentSizes(active, ids));
  }
}
