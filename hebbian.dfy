/** What the two Hopfield scripts share: the Hebbian weight matrix (built by
    `create_memory_matrix` and, in the same way, by `crear_memoria`), the
    synchronous sign update of all neurons, match counting, and the overwriting
    of pattern entries with random values. */
module Hebbian {
  import opened Wrappers

  // ---------------------------------------------------------------------------
  // The weight matrix

  /** Sum over the first `k` patterns of `p[i] * p[j]`, counting a pattern only
      where both positions exist in it. */
  function HebbSum(patterns: seq<seq<int>>, k: nat, i: nat, j: nat): int
    requires k <= |patterns|
  {
    if k == 0 then 0
    else
      var p := patterns[k - 1];
      HebbSum(patterns, k - 1, i, j) + if i < |p| && j < |p| then p[i] * p[j] else 0
  }

  /** `m` is the matrix after the first `k` patterns: as many rows and columns as
      the first pattern has entries, a zero diagonal, and Hebbian sums elsewhere. */
  ghost predicate MemoryAfter(patterns: seq<seq<int>>, k: nat, m: seq<seq<int>>)
    requires 0 < k <= |patterns|
  {
    var n := |patterns[0]|;
    |m| == n && (forall i :: 0 <= i < n ==> |m[i]| == n) &&
    forall i, j :: 0 <= i < n && 0 <= j < n ==> m[i][j] == if i == j then 0 else HebbSum(patterns, k, i, j)
  }

  /** `m` is the memory of all the patterns; no patterns give an empty matrix. */
  ghost predicate IsMemory(patterns: seq<seq<int>>, m: seq<seq<int>>)
  {
    if |patterns| == 0 then m == [] else MemoryAfter(patterns, |patterns|, m)
  }

  /** A later pattern longer than the first indexes past the matrix. */
  predicate TooLong(patterns: seq<seq<int>>)
  {
    exists k :: 0 < k < |patterns| && |patterns[k]| > |patterns[0]|
  }

  /** `create_memory_matrix(pattern_list)` / `crear_memoria(lista_de_patrones)`:
      the first pattern creates the rows, every later one adds `x_i * x_j` to
      each off-diagonal weight it covers and resets the diagonal to 0. */
  method BuildMemory(patterns: seq<seq<int>>) returns (res: Result<seq<seq<int>>>)
    ensures res.Err? <==> TooLong(patterns)
    ensures res.Ok? ==> IsMemory(patterns, res.value)
  {
    if |patterns| == 0 {
      return Ok([]);
    }
    var matrix := FirstPattern(patterns);
    var n := |patterns[0]|;
    var idx := 1;
    while idx < |patterns|
      invariant 1 <= idx <= |patterns|
      invariant forall k :: 0 < k < idx ==> |patterns[k]| <= n
      invariant MemoryAfter(patterns, idx, matrix)
    {
      var x := patterns[idx];
      var i := 0;
      while i < |x|
        invariant 0 <= i <= |x| && (|x| <= n ==> i <= n)
        invariant |matrix| == n && forall r :: 0 <= r < n ==> |matrix[r]| == n
        invariant i > 0 ==> |x| <= n
        invariant forall r, c :: 0 <= r < n && 0 <= c < n ==>
          matrix[r][c] == if r == c then 0 else if r < i && c < |x| then HebbSum(patterns, idx + 1, r, c) else HebbSum(patterns, idx, r, c)
      {
        var j := 0;
        while j < |x|
          invariant 0 <= j <= |x|
          invariant |matrix| == n && forall r :: 0 <= r < n ==> |matrix[r]| == n
          invariant j > 0 ==> i < n && j <= n
          invariant forall r, c :: 0 <= r < n && 0 <= c < n ==>
            matrix[r][c] == if r == c then 0
              else if (r < i && c < |x|) || (r == i && c < j) then HebbSum(patterns, idx + 1, r, c)
              else HebbSum(patterns, idx, r, c)
        {
          if i >= |matrix| || j >= |matrix[i]| {
            assert |x| > n;
            return Err(IndexOutOfRange);
          }
          if i == j {
            matrix := matrix[i := matrix[i][j := 0]];
          } else {
            matrix := matrix[i := matrix[i][j := matrix[i][j] + x[i] * x[j]]];
          }
          j := j + 1;
        }
        i := i + 1;
      }
      idx := idx + 1;
    }
    assert !TooLong(patterns);
    return Ok(matrix);
  }

  /** The rows made from the first pattern: `0` on the diagonal, `x_i * x_j`
      elsewhere. */
  method FirstPattern(patterns: seq<seq<int>>) returns (matrix: seq<seq<int>>)
    requires |patterns| > 0
    ensures MemoryAfter(patterns, 1, matrix)
  {
    var x := patterns[0];
    matrix := [];
    var i := 0;
    while i < |x|
      invariant 0 <= i <= |x| && |matrix| == i
      invariant forall r :: 0 <= r < i ==> |matrix[r]| == |x|
      invariant forall r, c :: 0 <= r < i && 0 <= c < |x| ==> matrix[r][c] == if r == c then 0 else HebbSum(patterns, 1, r, c)
    {
      var row: seq<int> := [];
      var j := 0;
      while j < |x|
        invariant 0 <= j <= |x| && |row| == j
        invariant forall c :: 0 <= c < j ==> row[c] == if i == c then 0 else HebbSum(patterns, 1, i, c)
      {
        row := row + [if i == j then 0 else x[i] * x[j]];
        j := j + 1;
      }
      matrix := matrix + [row];
      i := i + 1;
    }
  }

  lemma {:induction false} HebbSumSymmetric(patterns: seq<seq<int>>, k: nat, i: nat, j: nat)
    requires k <= |patterns|
    ensures HebbSum(patterns, k, i, j) == HebbSum(patterns, k, j, i)
  {
    if k > 0 {
      HebbSumSymmetric(patterns, k - 1, i, j);
    }
  }

  /** The memory is a symmetric matrix with a zero diagonal. */
  lemma MemorySymmetric(patterns: seq<seq<int>>, m: seq<seq<int>>)
    requires IsMemory(patterns, m)
    ensures forall i :: 0 <= i < |m| ==> |m[i]| == |m| && m[i][i] == 0
    ensures forall i, j :: 0 <= i < |m| && 0 <= j < |m| ==> m[i][j] == m[j][i]
  {
    forall i, j | 0 <= i < |m| && 0 <= j < |m| ensures m[i][j] == m[j][i] {
      HebbSumSymmetric(patterns, |patterns|, i, j);
    }
  }

  // ---------------------------------------------------------------------------
  // The synchronous update

  /** Sum of `a[i] * b[i]` over the first `t` positions. */
  function DotUpTo(a: seq<int>, b: seq<int>, t: nat): int
    requires t <= |a| && t <= |b|
  {
    if t == 0 then 0 else DotUpTo(a, b, t - 1) + a[t - 1] * b[t - 1]
  }

  function Min(a: int, b: int): int
  {
    if a <= b then a else b
  }

  /** `sum(w * s for w, s in zip(row, x))`: `zip` stops at the shorter list. */
  function Dot(row: seq<int>, x: seq<int>): int
  {
    DotUpTo(row, x, Min(|row|, |x|))
  }

  /** The activation function: -1, 0 or 1 by the sign of the activation. */
  function Sign(v: int): (s: int)
    ensures s == -1 || s == 0 || s == 1
    ensures (s == 1 <==> v > 0) && (s == -1 <==> v < 0)
  {
    if v != 0 then (if v < 0 then -1 else 1) else 0
  }

  /** One synchronous update: neuron `i` takes the sign of row `i` times the state. */
  function Update(memory: seq<seq<int>>, x: seq<int>): seq<int>
  {
    if |memory| == 0 then []
    else
      var n := |memory| - 1;
      Update(memory[..n], x) + [Sign(Dot(memory[n], x))]
  }

  /** The update has one entry per row: the sign of that row's activation. */
  lemma {:induction false} UpdateAt(memory: seq<seq<int>>, x: seq<int>)
    ensures |Update(memory, x)| == |memory|
    ensures forall i :: 0 <= i < |memory| ==> Update(memory, x)[i] == Sign(Dot(memory[i], x))
  {
    if |memory| > 0 {
      var n := |memory| - 1;
      UpdateAt(memory[..n], x);
    }
  }

  /** The state after `t` updates. */
  function Iterate(memory: seq<seq<int>>, x: seq<int>, t: nat): seq<int>
  {
    if t == 0 then x else Update(memory, Iterate(memory, x, t - 1))
  }

  /** Every update yields one entry per memory row, each -1, 0 or 1. */
  lemma IterateShape(memory: seq<seq<int>>, x: seq<int>, t: nat)
    requires t > 0
    ensures |Iterate(memory, x, t)| == |memory|
    ensures forall i :: 0 <= i < |memory| ==> Iterate(memory, x, t)[i] in {-1, 0, 1}
  {
    UpdateAt(memory, Iterate(memory, x, t - 1));
  }

  /** Against the memory of one pattern of -1/1 entries, neuron `i`'s
      activation over the first `t` states is `p[i]` once for every other
      position before `t`. */
  lemma {:induction false} SingleActivation(p: seq<int>, m: seq<seq<int>>, i: nat, t: nat)
    requires IsMemory([p], m)
    requires forall j :: 0 <= j < |p| ==> p[j] in {-1, 1}
    requires i < |p| && t <= |p|
    ensures DotUpTo(m[i], p, t) == p[i] * (if i < t then t - 1 else t)
  {
    if t > 0 {
      var j := t - 1;
      var c := if i < j then j - 1 else j;
      SingleActivation(p, m, i, j);
      assert DotUpTo(m[i], p, t) == p[i] * c + m[i][j] * p[j];
      if j == i {
        assert m[i][j] == 0;
      } else {
        assert HebbSum([p], 1, i, j) == p[i] * p[j];
        assert m[i][j] * p[j] == p[i] by {
          assert m[i][j] == p[i] * p[j];
          if p[j] == 1 {
          } else {
            assert p[j] == -1;
          }
        }
        assert p[i] * c + p[i] == p[i] * (c + 1);
      }
    }
  }

  /** A single stored pattern of -1/1 entries, of at least two entries, is a
      fixed point of the update against its own memory. */
  lemma SinglePatternStable(p: seq<int>, m: seq<seq<int>>)
    requires IsMemory([p], m)
    requires forall j :: 0 <= j < |p| ==> p[j] in {-1, 1}
    requires |p| >= 2
    ensures Update(m, p) == p
  {
    UpdateAt(m, p);
    forall i | 0 <= i < |p|
      ensures Update(m, p)[i] == p[i]
    {
      SingleActivation(p, m, i, |p|);
      assert Dot(m[i], p) == p[i] * (|p| - 1);
      if p[i] == 1 {
        assert Dot(m[i], p) > 0;
      } else {
        assert Dot(m[i], p) < 0;
      }
    }
  }

  /** The activation loop of both scripts: `activation += weight * state` over
      `zip(row, x)`. */
  method Activation(row: seq<int>, x: seq<int>) returns (activation: int)
    ensures activation == Dot(row, x)
  {
    activation := 0;
    var t := 0;
    var n := Min(|row|, |x|);
    while t < n
      invariant 0 <= t <= n
      invariant activation == DotUpTo(row, x, t)
    {
      activation := activation + row[t] * x[t];
      t := t + 1;
    }
  }

  /** The neuron loop of both scripts: every row's activation through `Sign`. */
  method UpdateAll(memory: seq<seq<int>>, x: seq<int>) returns (y: seq<int>)
    ensures y == Update(memory, x)
  {
    y := [];
    var i := 0;
    while i < |memory|
      invariant 0 <= i <= |memory|
      invariant y == Update(memory[..i], x)
    {
      assert memory[..i + 1][..i] == memory[..i];
      var activation := Activation(memory[i], x);
      if activation != 0 {
        if activation < 0 {
          y := y + [-1];
        } else {
          y := y + [1];
        }
      } else {
        y := y + [0];
      }
      i := i + 1;
    }
    assert memory[..i] == memory;
  }

  // ---------------------------------------------------------------------------
  // Matches and corruption

  /** `sum(1 for o, r in zip(a, b) if o == r)`. */
  function Matches(a: seq<int>, b: seq<int>): (m: nat)
    ensures m <= |a| && m <= |b|
  {
    if |a| == 0 || |b| == 0 then 0
    else (if a[0] == b[0] then 1 else 0) + Matches(a[1..], b[1..])
  }

  /** A count of matches out of `n` positions, as a percentage, is between 0 and 100. */
  lemma PercentBounds(m: nat, n: nat)
    requires 0 < n && m <= n
    ensures 0.0 <= m as real * 100.0 / n as real <= 100.0
    ensures m as real * 100.0 / n as real == 100.0 <==> m == n
  {
  }

  /** A pattern matches itself everywhere. */
  lemma {:induction false} MatchesSelf(a: seq<int>)
    ensures Matches(a, a) == |a|
  {
    if |a| > 0 {
      MatchesSelf(a[1..]);
    }
  }

  /** The result of overwriting, in order, entry `f.0` with `f.1` for every draw `f`. */
  function Overwrite(p: seq<int>, flips: seq<(int, int)>): (r: seq<int>)
    requires forall t :: 0 <= t < |flips| ==> 0 <= flips[t].0 < |p|
    ensures |r| == |p|
  {
    if |flips| == 0 then p
    else
      var n := |flips| - 1;
      Overwrite(p, flips[..n])[flips[n].0 := flips[n].1]
  }

  /** The positions where two patterns differ. */
  function Differences(a: seq<int>, b: seq<int>): set<int>
    requires |a| == |b|
  {
    set i | 0 <= i < |a| && a[i] != b[i]
  }

  /** Overwriting changes only drawn positions, to drawn values. */
  lemma {:induction false} OverwriteChanges(p: seq<int>, flips: seq<(int, int)>)
    requires forall t :: 0 <= t < |flips| ==> 0 <= flips[t].0 < |p|
    ensures forall i :: i in Differences(p, Overwrite(p, flips)) ==>
      exists t :: 0 <= t < |flips| && flips[t].0 == i && Overwrite(p, flips)[i] == flips[t].1
  {
    if |flips| > 0 {
      var n := |flips| - 1;
      OverwriteChanges(p, flips[..n]);
      var r := Overwrite(p, flips);
      forall i | i in Differences(p, r)
        ensures exists t :: 0 <= t < |flips| && flips[t].0 == i && r[i] == flips[t].1
      {
        if i == flips[n].0 {
          assert flips[n].0 == i && r[i] == flips[n].1;
        } else {
          assert Overwrite(p, flips[..n])[i] == r[i];
          assert i in Differences(p, Overwrite(p, flips[..n]));
          var t :| 0 <= t < n && flips[..n][t].0 == i && Overwrite(p, flips[..n])[i] == flips[..n][t].1;
          assert flips[t].0 == i && r[i] == flips[t].1;
        }
      }
    }
  }

  /** The drawn positions, as a set. */
  function Drawn(flips: seq<(int, int)>): set<int>
  {
    set t | 0 <= t < |flips| :: flips[t].0
  }

  lemma {:induction false} DrawnSize(flips: seq<(int, int)>)
    ensures |Drawn(flips)| <= |flips|
  {
    if |flips| > 0 {
      var n := |flips| - 1;
      DrawnSize(flips[..n]);
      assert Drawn(flips) == Drawn(flips[..n]) + {flips[n].0};
    }
  }

  /** After overwriting with `|flips|` draws of -1 or 1, the pattern keeps its
      length, differs in at most `|flips|` positions, and holds -1 or 1 at each
      of them. */
  lemma OverwriteBound(p: seq<int>, flips: seq<(int, int)>)
    requires forall t :: 0 <= t < |flips| ==> 0 <= flips[t].0 < |p| && flips[t].1 in {-1, 1}
    ensures |Overwrite(p, flips)| == |p|
    ensures |Differences(p, Overwrite(p, flips))| <= |flips|
    ensures forall i :: i in Differences(p, Overwrite(p, flips)) ==> Overwrite(p, flips)[i] in {-1, 1}
  {
    OverwriteChanges(p, flips);
    var d := Differences(p, Overwrite(p, flips));
    assert d <= Drawn(flips);
    DrawnSize(flips);
    assert |d| <= |Drawn(flips)| by {
      SubsetSize(d, Drawn(flips));
    }
  }

  lemma SubsetSize(a: set<int>, b: set<int>)
    requires a <= b
    ensures |a| <= |b|
  {
    assert b == a + (b - a);
  }
}
