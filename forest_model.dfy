/** `ForestFireModel`: the simulator object.  Its grid and its cluster-ID grid are
    two N x N arrays that `Step` overwrites in place; the step counter, the ID
    counter, the bounded fire history, the cluster registry and the current
    clusters are fields that `Step` reassigns.  Every method is proved to leave
    `State()` equal to the value-level transition of ForestFireRules. */
module ForestFire {
  import opened Wrappers
  import opened ForestFireRules

  /** The contents of a 2-D array, row by row. */
  function Snapshot(a: array2<int>): (s: Grid)
    reads a
    ensures |s| == a.Length0
    ensures forall r :: 0 <= r < a.Length0 ==> |s[r]| == a.Length1
    ensures forall r, c :: 0 <= r < a.Length0 && 0 <= c < a.Length1 ==> s[r][c] == a[r, c]
  {
    seq(a.Length0, r requires 0 <= r < a.Length0 reads a =>
      seq(a.Length1, c requires 0 <= c < a.Length1 reads a => a[r, c]))
  }

  lemma SnapshotIs(a: array2<int>, s: Grid)
    requires |s| == a.Length0 && forall r :: 0 <= r < a.Length0 ==> |s[r]| == a.Length1
    requires forall r, c :: 0 <= r < a.Length0 && 0 <= c < a.Length1 ==> s[r][c] == a[r, c]
    ensures Snapshot(a) == s
  {
    var t := Snapshot(a);
    forall r | 0 <= r < a.Length0 ensures t[r] == s[r] {
      assert |t[r]| == |s[r]|;
    }
  }

  /** The cluster-ID assignment of one step: every ignited tree gets its ID, the
      lightning-only ones numbered from `next_cluster_id` in row-major order by a
      running counter; `active` collects the IDs handed out. */
  method AssignClusterIds(f: Forest, lightning: Mask) returns (newIds: Grid, active: set<int>, counter: int)
    requires Shaped(f) && IsSquare(lightning, f.size)
    ensures IsSquare(newIds, f.size)
    ensures forall r, c :: 0 <= r < f.size && 0 <= c < f.size ==> newIds[r][c] == NewId(f, lightning, r, c)
    ensures active == ActiveIds(f, lightning)
    ensures counter == f.nextId + StrikesBefore(f, lightning, f.size)
  {
    var n := f.size;
    newIds, active, counter := [], {}, f.nextId;
    var r := 0;
    while r < n
      invariant 0 <= r <= n && |newIds| == r
      invariant forall i :: 0 <= i < r ==> |newIds[i]| == n
      invariant forall i, j :: 0 <= i < r && 0 <= j < n ==> newIds[i][j] == NewId(f, lightning, i, j)
      invariant active == ActiveUpTo(f, lightning, r)
      invariant counter == f.nextId + StrikesBefore(f, lightning, r)
    {
      var row: seq<int> := [];
      var c := 0;
      while c < n
        invariant 0 <= c <= n && |row| == c
        invariant forall j :: 0 <= j < c ==> row[j] == NewId(f, lightning, r, j)
        invariant active == ActiveUpTo(f, lightning, r) + ActiveInRow(f, lightning, r, c)
        invariant counter == f.nextId + StrikesBefore(f, lightning, r) + RowStrikes(f, lightning, r, c)
      {
        var id := 0;
        if Ignites(f, lightning, r, c) {
          if FireNeighbour(f.grid, r, c) {
            id := NeighbourId(f, r, c);
          } else {
            id := counter;
            counter := counter + 1;
          }
          active := active + {id};
        }
        row := row + [id];
        c := c + 1;
      }
      newIds := newIds + [row];
      r := r + 1;
    }
  }

  class ForestFireModel {
    const gridSize: nat
    const pTree: real
    const pFire: real
    var grid: array2<int>
    var clusterIds: array2<int>
    var nextClusterId: int
    var stepCount: int
    var activeFireHistory: seq<(int, int)>
    var clusterRegistry: map<int, ClusterInfo>
    var currentClusters: map<int, int>

    /** The simulator's state as a value. */
    function State(): Forest
      reads this, grid, clusterIds
    {
      Forest(gridSize, Snapshot(grid), Snapshot(clusterIds), nextClusterId, stepCount,
             activeFireHistory, clusterRegistry, currentClusters)
    }

    ghost predicate Valid()
      reads this, grid, clusterIds
    {
      grid != clusterIds &&
      grid.Length0 == gridSize && grid.Length1 == gridSize &&
      clusterIds.Length0 == gridSize && clusterIds.Length1 == gridSize &&
      Inv(State())
    }

    /** `ForestFireModel(grid_size, p_tree, p_fire)` with the seeding draws supplied. */
    constructor (gridSize: nat, pTree: real, pFire: real, seed: seq<seq<real>>)
      requires IsSquare(seed, gridSize)
      ensures Valid() && fresh(grid) && fresh(clusterIds)
      ensures this.gridSize == gridSize && this.pTree == pTree && this.pFire == pFire
      ensures State() == Initial(gridSize, seed)
    {
      this.gridSize, this.pTree, this.pFire := gridSize, pTree, pFire;
      var init := Initial(gridSize, seed);
      grid := new int[gridSize, gridSize]((r, c) requires 0 <= r < gridSize && 0 <= c < gridSize =>
        if seed[r][c] < SEED_TREE_PROBABILITY then TREE else EMPTY);
      clusterIds := new int[gridSize, gridSize]((r, c) => 0);
      nextClusterId, stepCount := 1, 0;
      activeFireHistory, clusterRegistry, currentClusters := [], map[], map[];
      new;
      SnapshotIs(grid, init.grid);
      SnapshotIs(clusterIds, init.ids);
    }

    /** One `step()`, with the two grids of random draws supplied. */
    method Step(growDraws: seq<seq<real>>, lightningDraws: seq<seq<real>>)
      requires Valid() && IsSquare(growDraws, gridSize) && IsSquare(lightningDraws, gridSize)
      modifies this, grid, clusterIds
      ensures Valid() && grid == old(grid) && clusterIds == old(clusterIds)
      ensures State() == ForestFireRules.Step(old(State()), Below(growDraws, pTree), Below(lightningDraws, pFire))
    {
      var f := State();
      var grow := Below(growDraws, pTree);
      var lightning := Below(lightningDraws, pFire);
      ghost var f' := ForestFireRules.Step(f, grow, lightning);
      StepKeepsInv(f, grow, lightning);
      StepGrid(f, grow, lightning);
      UpdateGrid(f, grow, lightning);
      var g, ids := Snapshot(grid), Snapshot(clusterIds);
      CollectData(f, grow, lightning, g, ids);
      assert g == f'.grid && ids == f'.ids && nextClusterId == f'.nextId;
      assert State() == f';
    }

    /** The grid update of `step()`: fresh IDs, then the new cells written in place. */
    method UpdateGrid(f: Forest, grow: Mask, lightning: Mask)
      requires Valid() && f == State() && IsSquare(grow, gridSize) && IsSquare(lightning, gridSize)
      modifies this`nextClusterId, grid, clusterIds
      ensures Snapshot(grid) == NextGrid(f, grow, lightning) && Snapshot(clusterIds) == NextIds(f, lightning)
      ensures nextClusterId == f.nextId + StrikesBefore(f, lightning, f.size)
    {
      var newIds, active, counter := AssignClusterIds(f, lightning);
      nextClusterId := counter;
      WriteCells(f, grow, lightning, newIds, active);
      SnapshotIs(grid, NextGrid(f, grow, lightning));
      SnapshotIs(clusterIds, NextIds(f, lightning));
    }

    /** The data collection of `step()`: the fire history, the cluster registry
        (creation, sampling, deaths, pruning) and the current clusters, computed
        from the new grid `g` and cluster IDs `ids`. */
    method CollectData(f: Forest, grow: Mask, lightning: Mask, g: Grid, ids: Grid)
      requires Shaped(f) && IsSquare(grow, f.size) && IsSquare(lightning, f.size)
      requires g == NextGrid(f, grow, lightning) && ids == NextIds(f, lightning)
      requires stepCount == f.stepCount && activeFireHistory == f.history
      requires clusterRegistry == f.registry && currentClusters == f.current && gridSize == f.size
      modifies this`stepCount, this`activeFireHistory, this`clusterRegistry, this`currentClusters
      ensures var f' := ForestFireRules.Step(f, grow, lightning);
        stepCount == f'.stepCount && activeFireHistory == f'.history &&
        clusterRegistry == f'.registry && currentClusters == f'.current
    {
      stepCount := stepCount + 1;
      activeFireHistory := BoundedAppend(activeFireHistory, (stepCount, CountValue(g, FIRE)), WINDOW);
      var activeClusters := BurningIds(gridSize, g, ids);
      var newCurrent := TrackClusters(activeClusters, ids);
      RecordDeaths(currentClusters.Keys - activeClusters);
      currentClusters := newCurrent;
      PruneRegistry();
    }

    /** Writes the new grid and the new cluster IDs in place, mask by mask. */
    method WriteCells(f: Forest, grow: Mask, lightning: Mask, newIds: Grid, active: set<int>)
      requires Shaped(f) && IsSquare(grow, f.size) && IsSquare(lightning, f.size) && IsSquare(newIds, f.size)
      requires grid != clusterIds && f.size == grid.Length0 == grid.Length1 == clusterIds.Length0 == clusterIds.Length1
      requires forall r, c :: 0 <= r < f.size && 0 <= c < f.size ==> newIds[r][c] == NewId(f, lightning, r, c)
      requires active == ActiveIds(f, lightning)
      modifies grid, clusterIds
      ensures forall r, c :: 0 <= r < f.size && 0 <= c < f.size ==>
        grid[r, c] == NextCell(f, grow, lightning, r, c) && clusterIds[r, c] == NextIdCell(f, lightning, r, c)
    {
      var n := f.size;
      var r := 0;
      while r < n
        invariant 0 <= r <= n
        invariant forall i, j :: 0 <= i < r && 0 <= j < n ==>
          grid[i, j] == NextCell(f, grow, lightning, i, j) && clusterIds[i, j] == NextIdCell(f, lightning, i, j)
      {
        var c := 0;
        while c < n
          invariant 0 <= c <= n
          invariant forall i, j :: ((0 <= i < r && 0 <= j < n) || (i == r && 0 <= j < c)) ==>
            grid[i, j] == NextCell(f, grow, lightning, i, j) && clusterIds[i, j] == NextIdCell(f, lightning, i, j)
        {
          var old_ := f.grid[r][c];
          var ignited := Ignites(f, lightning, r, c);
          var ashId := if old_ == FIRE || old_ == ASH then f.ids[r][c] else 0;
          var keepsAsh := ashId > 0 && ashId in active;
          grid[r, c] := EMPTY;
          if old_ == TREE && !ignited { grid[r, c] := TREE; }
          if old_ == EMPTY && grow[r][c] { grid[r, c] := TREE; }
          if keepsAsh { grid[r, c] := ASH; }
          if ignited { grid[r, c] := FIRE; }
          clusterIds[r, c] := 0;
          if ignited { clusterIds[r, c] := newIds[r][c]; }
          if keepsAsh { clusterIds[r, c] := ashId; }
          c := c + 1;
        }
        r := r + 1;
      }
    }

    /** The `for cluster_id in active_cluster_ids` loop: creates or updates the
        entry of every active cluster and returns their sizes. */
    method TrackClusters(active: set<int>, ids: Grid) returns (sizes: map<int, int>)
      modifies this`clusterRegistry
      ensures clusterRegistry == Track(old(clusterRegistry), active, ids, stepCount)
      ensures sizes == CurrentSizes(active, ids)
    {
      var reg0 := clusterRegistry;
      ghost var target := Track(reg0, active, ids, stepCount);
      var reg := reg0;
      sizes := map[];
      var todo := active;
      while todo != {}
        invariant todo <= active
        invariant Overlaid(reg, reg0, target, active - todo)
        invariant sizes.Keys == active - todo && forall j :: j in sizes ==> sizes[j] == CountValue(ids, j)
        decreases todo
      {
        assert (forall x :: x !in todo) ==> todo == {};  // so some element exists
        var k :| k in todo;
        var size := CountValue(ids, k);
        sizes := sizes[k := size];
        assert k in reg ==> reg[k] == reg0[k];
        var info := if k in reg then reg[k] else ClusterInfo(stepCount, None, size, []);
        info := info.(sizes := BoundedAppend(info.sizes, (stepCount, size), WINDOW));
        if size > info.maxSize {
          info := info.(maxSize := size);
        }
        assert info == Touched(reg0, k, stepCount, size) == target[k];
        OverlayStep(reg, reg0, target, active - todo, k);
        reg := reg[k := info];
        assert active - (todo - {k}) == (active - todo) + {k};
        todo := todo - {k};
      }
      TrackIs(reg, reg0, active, ids, stepCount);
      SizesIs(sizes, active, ids);
      clusterRegistry := reg;
    }

    /** The `for cluster_id in died_cluster_ids` loop. */
    method RecordDeaths(died: set<int>)
      modifies this`clusterRegistry
      ensures clusterRegistry == MarkDeaths(old(clusterRegistry), died, stepCount)
    {
      var reg0 := clusterRegistry;
      var reg := reg0;
      var todo := died;
      while todo != {}
        invariant todo <= died
        invariant reg.Keys == reg0.Keys
        invariant forall j :: j in reg ==> reg[j] == if j in died - todo && reg0[j].death.None? then reg0[j].(death := Some(stepCount)) else reg0[j]
        decreases todo
      {
        assert (forall x :: x !in todo) ==> todo == {};  // so some element exists
        var k :| k in todo;
        if k in reg && reg[k].death.None? {
          reg := reg[k := reg[k].(death := Some(stepCount))];
        }
        todo := todo - {k};
      }
      MarkIs(reg, reg0, died, stepCount);
      clusterRegistry := reg;
    }

    /** Collects `clusters_to_remove` and deletes them. */
    method PruneRegistry()
      modifies this`clusterRegistry
      ensures clusterRegistry == Prune(old(clusterRegistry), stepCount)
    {
      var toRemove: set<int> := {};
      var todo := clusterRegistry.Keys;
      while todo != {}
        invariant todo <= clusterRegistry.Keys
        invariant toRemove == set k | k in clusterRegistry.Keys - todo && Expired(clusterRegistry[k], stepCount)
        decreases todo
      {
        assert (forall x :: x !in todo) ==> todo == {};  // so some element exists
        var k :| k in todo;
        var info := clusterRegistry[k];
        if info.death.Some? && stepCount - info.death.value > WINDOW {
          toRemove := toRemove + {k};
        }
        todo := todo - {k};
      }
      clusterRegistry := clusterRegistry - toRemove;
    }
  }
}
