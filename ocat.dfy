/** The discrete parts of the One Clause At a Time (OCAT) rule learner: the
    observed values per column, threshold binarisation, the split into positive
    and negative examples, the `Pos`/`Neg` index filters, the fitness of a term,
    the sorted candidate list, the removal of covered examples, and the
    evaluation of a learned CNF on one instance.  Table values are only compared,
    so they are modelled as `real`. */
module Ocat {
  import opened Wrappers

  // ---------------------------------------------------------------------------
  // Index lists

  predicate StrictlyIncreasing(ix: seq<int>)
  {
    forall i, j :: 0 <= i < j < |ix| ==> ix[i] < ix[j]
  }

  /** The indices whose flag is set, in increasing order: the shape of every
      `for i, x in enumerate(...): if ...: append(i)` loop below. */
  function Where(flags: seq<bool>): (ix: seq<int>)
    ensures StrictlyIncreasing(ix)
    ensures forall i :: i in ix <==> 0 <= i < |flags| && flags[i]
    ensures forall t :: 0 <= t < |ix| ==> 0 <= ix[t] < |flags|
    ensures |ix| <= |flags|
  {
    if |flags| == 0 then []
    else
      var n := |flags| - 1;
      var w := Where(flags[..n]);
      assert forall t :: 0 <= t < |w| ==> w[t] in w;
      w + (if flags[n] then [n] else [])
  }

  /** Where `Where` grows when one more flag is read. */
  lemma WhereSnoc(flags: seq<bool>, i: nat)
    requires i < |flags|
    ensures Where(flags[..i + 1]) == Where(flags[..i]) + (if flags[i] then [i] else [])
  {
    assert flags[..i + 1][..i] == flags[..i];
  }

  function Negate(flags: seq<bool>): (g: seq<bool>)
    ensures |g| == |flags| && forall i :: 0 <= i < |flags| ==> g[i] == !flags[i]
  {
    seq(|flags|, i requires 0 <= i < |flags| => !flags[i])
  }

  /** The indices with a flag and those without it together number all indices. */
  lemma {:induction false} WhereSplits(flags: seq<bool>)
    ensures |Where(flags)| + |Where(Negate(flags))| == |flags|
  {
    if |flags| > 0 {
      var n := |flags| - 1;
      assert Negate(flags)[..n] == Negate(flags[..n]);
      WhereSplits(flags[..n]);
    }
  }

  /** The elements of `s` at the positions `ix`, in that order. */
  function Pick<T>(s: seq<T>, ix: seq<int>): (r: seq<T>)
    requires forall t :: 0 <= t < |ix| ==> 0 <= ix[t] < |s|
    ensures |r| == |ix| && forall t :: 0 <= t < |ix| ==> r[t] == s[ix[t]]
  {
    seq(|ix|, t requires 0 <= t < |ix| => s[ix[t]])
  }

  lemma PickSnoc<T>(s: seq<T>, ix: seq<int>, j: int)
    requires forall t :: 0 <= t < |ix| ==> 0 <= ix[t] < |s|
    requires 0 <= j < |s|
    ensures Pick(s, ix + [j]) == Pick(s, ix) + [s[j]]
  {
  }

  /** Selecting by one more flag appends at most the element at its position. */
  lemma PickWhereSnoc<T>(s: seq<T>, flags: seq<bool>, i: nat)
    requires i < |flags| == |s|
    ensures Pick(s, Where(flags[..i + 1])) == Pick(s, Where(flags[..i])) + (if flags[i] then [s[i]] else [])
  {
    WhereSnoc(flags, i);
    if flags[i] {
      PickSnoc(s, Where(flags[..i]), i);
    }
  }

  /** Positions below `n` pick the same elements from a prefix of length `n`. */
  lemma PickPrefix<T>(s: seq<T>, ix: seq<int>, n: nat)
    requires n <= |s| && forall t :: 0 <= t < |ix| ==> 0 <= ix[t] < n
    ensures Pick(s[..n], ix) == Pick(s, ix)
  {
  }

  // ---------------------------------------------------------------------------
  // Observed values per column (`obtener_valoresObservadosDiferentes`)

  /** A numeric table as a 2-D array: every row as wide as the first. */
  predicate Rectangular(table: seq<seq<real>>)
  {
    forall r :: 0 <= r < |table| ==> |table[r]| == |table[0]|
  }

  predicate Ascending(s: seq<real>)
  {
    forall i, j :: 0 <= i < j < |s| ==> s[i] <= s[j]
  }

  predicate StrictlyAscending(s: seq<real>)
  {
    forall i, j :: 0 <= i < j < |s| ==> s[i] < s[j]
  }

  ghost predicate NoDuplicates(s: seq<real>)
  {
    forall x :: multiset(s)[x] <= 1
  }

  /** Value `x` occurs in column `c` of the table. */
  ghost predicate InColumn(table: seq<seq<real>>, c: nat, x: real)
    requires Rectangular(table) && (|table| > 0 ==> c < |table[0]|)
  {
    exists r :: 0 <= r < |table| && table[r][c] == x
  }

  /** `vals[c]` lists the values of column `c` once each, in ascending order. */
  ghost predicate ObservedOf(table: seq<seq<real>>, vals: seq<seq<real>>)
  {
    Rectangular(table) && |table| > 0 && |vals| == |table[0]| &&
    forall c :: 0 <= c < |vals| ==>
      StrictlyAscending(vals[c]) && forall x :: x in vals[c] <==> InColumn(table, c, x)
  }

  /** Inserts `x` into an ascending list. */
  function Insert(s: seq<real>, x: real): (r: seq<real>)
    requires Ascending(s)
    ensures Ascending(r) && multiset(r) == multiset(s) + multiset{x}
  {
    if |s| == 0 then [x]
    else if x <= s[0] then
      ConsAscending(x, s);
      [x] + s
    else
      assert s == [s[0]] + s[1..];
      var t := Insert(s[1..], x);
      assert forall i :: 0 <= i < |t| ==> s[0] <= t[i] by {
        forall i | 0 <= i < |t| ensures s[0] <= t[i] {
          assert t[i] in multiset(t);
        }
      }
      ConsAscending(s[0], t);
      assert multiset([s[0]] + t) == multiset{s[0]} + multiset(t);
      [s[0]] + t
  }

  lemma ConsAscending(a: real, t: seq<real>)
    requires Ascending(t) && forall i :: 0 <= i < |t| ==> a <= t[i]
    ensures Ascending([a] + t)
  {
    forall i, j | 0 <= i < j < |t| + 1 ensures ([a] + t)[i] <= ([a] + t)[j] {
      if i > 0 {
        assert ([a] + t)[i] == t[i - 1];
      }
      assert ([a] + t)[j] == t[j - 1];
    }
  }

  /** Python's `sorted(arreglo, reverse=False)` on a list of numbers. */
  function SortAscending(s: seq<real>): (r: seq<real>)
    ensures Ascending(r) && multiset(r) == multiset(s)
  {
    if |s| == 0 then []
    else
      assert s == s[..|s| - 1] + [s[|s| - 1]];
      Insert(SortAscending(s[..|s| - 1]), s[|s| - 1])
  }

  /** An ascending list without duplicates is strictly ascending. */
  lemma AscendingDistinct(s: seq<real>)
    requires Ascending(s) && NoDuplicates(s)
    ensures StrictlyAscending(s)
  {
    forall i, j | 0 <= i < j < |s| ensures s[i] < s[j] {
      assert s == s[..j] + s[j..];
      assert multiset(s)[s[j]] == multiset(s[..j])[s[j]] + multiset(s[j..])[s[j]];
      assert s[j] in s[j..];
      assert s[i] in s[..j];
    }
  }

  /** `obtener_valoresObservadosDiferentes`: for every column, the values met while
      scanning the rows, each kept once, then sorted.  An empty table has no
      first row to take the width from. */
  method ObservedValues(table: seq<seq<real>>) returns (res: Result<seq<seq<real>>>)
    requires Rectangular(table)
    ensures res.Err? <==> |table| == 0
    ensures res.Ok? ==> ObservedOf(table, res.value)
  {
    if |table| == 0 {
      return Err(IndexOutOfRange);
    }
    var width := |table[0]|;
    var values: seq<seq<real>> := [];
    var c := 0;
    while c < width
      invariant 0 <= c <= width && |values| == c
      invariant forall j :: 0 <= j < c ==>
        NoDuplicates(values[j]) && forall x :: x in values[j] <==> InColumn(table, j, x)
    {
      var column: seq<real> := [];
      var r := 0;
      while r < |table|
        invariant 0 <= r <= |table|
        invariant NoDuplicates(column)
        invariant forall x :: x in column <==> exists i :: 0 <= i < r && table[i][c] == x
      {
        if table[r][c] !in column {
          column := column + [table[r][c]];
        }
        r := r + 1;
      }
      values := values + [column];
      c := c + 1;
    }
    var o := 0;
    while o < |values|
      invariant 0 <= o <= |values| == width
      invariant forall j :: 0 <= j < width ==> forall x :: x in values[j] <==> InColumn(table, j, x)
      invariant forall j :: 0 <= j < o ==> StrictlyAscending(values[j])
      invariant forall j :: o <= j < width ==> NoDuplicates(values[j])
    {
      var s := SortAscending(values[o]);
      assert forall x :: x in s <==> x in multiset(values[o]);
      AscendingDistinct(s);
      values := values[o := s];
      o := o + 1;
    }
    return Ok(values);
  }

  // ---------------------------------------------------------------------------
  // Binarisation (`binarizacion`)

  /** Threshold bit: 1 when the value reaches the threshold. */
  function Bit(v: real, threshold: real): (b: int)
    ensures b == 0 || b == 1
    ensures b == 1 <==> v >= threshold
  {
    if v >= threshold then 1 else 0
  }

  /** A binarised table: for every column, for every row, one bit per threshold. */
  type Binarized = seq<seq<seq<int>>>

  /** `binarizacion`: bit k of row r in column c is 1 iff the value reaches the
      k-th threshold of that column.  An empty table, or fewer threshold lists
      than columns, is an index error. */
  method Binarize(table: seq<seq<real>>, vals: seq<seq<real>>) returns (res: Result<Binarized>)
    requires Rectangular(table)
    ensures res.Err? <==> |table| == 0 || |vals| < |table[0]|
    ensures res.Ok? ==>
      var bin := res.value;
      |bin| == |table[0]| &&
      forall c :: 0 <= c < |bin| ==>
        |bin[c]| == |table| &&
        forall r :: 0 <= r < |table| ==>
          |bin[c][r]| == |vals[c]| &&
          forall k :: 0 <= k < |vals[c]| ==> bin[c][r][k] == Bit(table[r][c], vals[c][k])
  {
    if |table| == 0 || |vals| < |table[0]| {
      return Err(IndexOutOfRange);
    }
    var bin: Binarized := [];
    var c := 0;
    while c < |table[0]|
      invariant 0 <= c <= |table[0]| && |bin| == c
      invariant forall j :: 0 <= j < c ==>
        |bin[j]| == |table| &&
        forall r :: 0 <= r < |table| ==>
          |bin[j][r]| == |vals[j]| &&
          forall k :: 0 <= k < |vals[j]| ==> bin[j][r][k] == Bit(table[r][j], vals[j][k])
    {
      var column: seq<seq<int>> := [];
      var r := 0;
      while r < |table|
        invariant 0 <= r <= |table| && |column| == r
        invariant forall i :: 0 <= i < r ==>
          |column[i]| == |vals[c]| &&
          forall k :: 0 <= k < |vals[c]| ==> column[i][k] == Bit(table[i][c], vals[c][k])
      {
        var bits: seq<int> := [];
        var k := 0;
        while k < |vals[c]|
          invariant 0 <= k <= |vals[c]| && |bits| == k
          invariant forall q :: 0 <= q < k ==> bits[q] == Bit(table[r][c], vals[c][q])
        {
          if table[r][c] >= vals[c][k] {
            bits := bits + [1];
          } else {
            bits := bits + [0];
          }
          k := k + 1;
        }
        column := column + [bits];
        r := r + 1;
      }
      bin := bin + [column];
      c := c + 1;
    }
    return Ok(bin);
  }

  /** With the observed values as thresholds, a value's bits are 1 exactly up to
      its own position among the observed values: the bit vector starts with 1,
      never rises again once it drops, and its number of ones is that position
      plus one. */
  lemma ObservedBits(table: seq<seq<real>>, vals: seq<seq<real>>, c: nat, r: nat)
    requires ObservedOf(table, vals) && c < |vals| && r < |table|
    ensures exists i :: (0 <= i < |vals[c]| && vals[c][i] == table[r][c] &&
      forall k :: 0 <= k < |vals[c]| ==> (Bit(table[r][c], vals[c][k]) == 1 <==> k <= i))
  {
    assert InColumn(table, c, table[r][c]);
    var i :| 0 <= i < |vals[c]| && vals[c][i] == table[r][c];
    assert forall k :: 0 <= k < |vals[c]| ==> (Bit(table[r][c], vals[c][k]) == 1 <==> k <= i);
  }

  // ---------------------------------------------------------------------------
  // Positive and negative examples (`division_ejemplos`)

  /** An example: its bit vector in every column. */
  type Example = seq<seq<int>>

  /** Row `i` of a binarised table, taken from every column. */
  function Row(bin: Binarized, i: nat): (e: Example)
    requires forall a :: 0 <= a < |bin| ==> i < |bin[a]|
    ensures |e| == |bin| && forall a :: 0 <= a < |bin| ==> e[a] == bin[a][i]
  {
    seq(|bin|, a requires 0 <= a < |bin| => bin[a][i])
  }

  /** Every column of the binarised table has the same number of rows. */
  predicate SameRows(bin: Binarized)
  {
    forall a :: 0 <= a < |bin| ==> |bin[a]| == |bin[0]|
  }

  function AllRows(bin: Binarized): (rows: seq<Example>)
    requires |bin| > 0 && SameRows(bin)
    ensures |rows| == |bin[0]|
  {
    seq(|bin[0]|, i requires 0 <= i < |bin[0]| => Row(bin, i))
  }

  /** Row `i` is listed among the positive indices. */
  function IsPositive(n: nat, positives: seq<int>): (flags: seq<bool>)
    ensures |flags| == n && forall i :: 0 <= i < n ==> (flags[i] <==> i in positives)
  {
    seq(n, i => i in positives)
  }

  /** `division_ejemplos`: the rows whose index is listed as positive, and the
      others, each in row order; together they are all the rows.  A table
      without columns has no first column to count the rows of. */
  method SplitExamples(bin: Binarized, positives: seq<int>) returns (res: Result<(seq<Example>, seq<Example>)>)
    requires SameRows(bin)
    ensures res.Err? <==> |bin| == 0
    ensures res.Ok? ==>
      var flags := IsPositive(|bin[0]|, positives);
      && res.value.0 == Pick(AllRows(bin), Where(flags))
      && res.value.1 == Pick(AllRows(bin), Where(Negate(flags)))
      && |res.value.0| + |res.value.1| == |bin[0]|
  {
    if |bin| == 0 {
      return Err(IndexOutOfRange);
    }
    var n := |bin[0]|;
    ghost var flags := IsPositive(n, positives);
    ghost var rows := AllRows(bin);
    var ePos: seq<Example>, eNeg: seq<Example> := [], [];
    var i := 0;
    while i < n
      invariant 0 <= i <= n
      invariant ePos == Pick(rows, Where(flags[..i]))
      invariant eNeg == Pick(rows, Where(Negate(flags)[..i]))
    {
      var row := CollectRow(bin, i);
      PickWhereSnoc(rows, flags, i);
      PickWhereSnoc(rows, Negate(flags), i);
      if i in positives {
        ePos := ePos + [row];
      } else {
        eNeg := eNeg + [row];
      }
      i := i + 1;
    }
    assert flags[..n] == flags && Negate(flags)[..n] == Negate(flags);
    WhereSplits(flags);
    return Ok((ePos, eNeg));
  }

  /** The `for attr in dataTableBinarizado: row.append(attr[i])` loop. */
  method CollectRow(bin: Binarized, i: nat) returns (row: Example)
    requires forall a :: 0 <= a < |bin| ==> i < |bin[a]|
    ensures row == Row(bin, i)
  {
    row := [];
    var a := 0;
    while a < |bin|
      invariant 0 <= a <= |bin| && |row| == a
      invariant forall q :: 0 <= q < a ==> row[q] == bin[q][i]
    {
      row := row + [bin[a][i]];
      a := a + 1;
    }
  }

  // ---------------------------------------------------------------------------
  // `Pos` and `Neg`

  /** The flags of the entries a literal accepts: 1 for `x`, 0 for `¬x`. */
  function Accepts(column: seq<int>, negated: bool): (flags: seq<bool>)
    ensures |flags| == |column|
    ensures forall i :: 0 <= i < |column| ==> (flags[i] <==> column[i] == if negated then 0 else 1)
  {
    seq(|column|, i requires 0 <= i < |column| => column[i] == if negated then 0 else 1)
  }

  /** The loop shared by `Pos` and `Neg`: the indices of the entries equal to 1
      ('no negado') or to 0 ('negado'). */
  method AcceptedIndices(column: seq<int>, negated: bool) returns (indices: seq<int>)
    ensures indices == Where(Accepts(column, negated))
  {
    indices := [];
    var i := 0;
    while i < |column|
      invariant 0 <= i <= |column|
      invariant indices == Where(Accepts(column, negated)[..i])
    {
      WhereSnoc(Accepts(column, negated), i);
      if !negated {
        if column[i] == 1 {
          indices := indices + [i];
        }
      } else {
        if column[i] == 0 {
          indices := indices + [i];
        }
      }
      i := i + 1;
    }
    assert Accepts(column, negated)[..i] == Accepts(column, negated);
  }

  /** `Pos(xi, negado, E_pos)`: the positive examples accepted by literal `xi` or
      `¬xi`, as increasing indices. */
  method Pos(xi: nat, negated: bool, ePos: seq<seq<int>>) returns (indices: seq<int>)
    requires xi < |ePos|
    ensures indices == Where(Accepts(ePos[xi], negated))
    ensures StrictlyIncreasing(indices)
    ensures forall i :: i in indices <==> 0 <= i < |ePos[xi]| && ePos[xi][i] == if negated then 0 else 1
  {
    indices := AcceptedIndices(ePos[xi], negated);
  }

  /** `Neg(xi, negado, E_neg)`: the same filter over the negative examples. */
  method Neg(xi: nat, negated: bool, eNeg: seq<seq<int>>) returns (indices: seq<int>)
    requires xi < |eNeg|
    ensures indices == Where(Accepts(eNeg[xi], negated))
    ensures StrictlyIncreasing(indices)
    ensures forall i :: i in indices <==> 0 <= i < |eNeg[xi]| && eNeg[xi][i] == if negated then 0 else 1
  {
    indices := AcceptedIndices(eNeg[xi], negated);
  }

  predicate Binary(column: seq<int>)
  {
    forall i :: 0 <= i < |column| ==> column[i] == 0 || column[i] == 1
  }

  /** On a 0/1 column a literal and its negation accept disjoint sets of examples
      that together are all of them. */
  lemma LiteralsPartition(column: seq<int>)
    requires Binary(column)
    ensures forall i :: i in Where(Accepts(column, false)) <==> i !in Where(Accepts(column, true)) && 0 <= i < |column|
    ensures |Where(Accepts(column, false))| + |Where(Accepts(column, true))| == |column|
  {
    assert Accepts(column, true) == Negate(Accepts(column, false));
    WhereSplits(Accepts(column, false));
  }

  // ---------------------------------------------------------------------------
  // Removing covered examples (`eliminar_filas_E_pos`, `eliminar_filas_E_neg`)

  /** `[k for j, k in enumerate(row) if j not in removed]`. */
  function KeepRow(row: seq<int>, removed: set<int>): (r: seq<int>)
    ensures r == Pick(row, Where(Kept(|row|, removed)))
  {
    if |row| == 0 then []
    else
      var n := |row| - 1;
      var w := Where(Kept(n, removed));
      assert Kept(n + 1, removed)[..n] == Kept(n, removed);
      PickPrefix(row, w, n);
      PickSnoc(row, w, n);
      KeepRow(row[..n], removed) + (if n in removed then [] else [row[n]])
  }

  /** The flags of the positions that are not removed. */
  function Kept(n: nat, removed: set<int>): (flags: seq<bool>)
    ensures |flags| == n && forall j :: 0 <= j < n ==> (flags[j] <==> j !in removed)
  {
    seq(n, j => j !in removed)
  }

  /** Both removal functions: every row of the term table keeps, in order, exactly
      the entries whose example index is not removed; the number of rows is kept. */
  function RemoveExamples(removed: set<int>, e: seq<seq<int>>): (r: seq<seq<int>>)
    ensures |r| == |e|
    ensures forall t :: 0 <= t < |e| ==> r[t] == Pick(e[t], Where(Kept(|e[t]|, removed)))
  {
    seq(|e|, t requires 0 <= t < |e| => KeepRow(e[t], removed))
  }

  // ---------------------------------------------------------------------------
  // Fitness of a literal (`calculate_fitness_value`)

  /** `calculate_fitness_value(ti, negado, E_pos, E_neg)`: how many positive
      examples the literal accepts (`len(Pos(...))`), times the number of negative
      examples (`len(E_neg[0])`) minus how many of them it accepts
      (`len(Neg(...))`).  The rows of the term tables are indexed by literal. */
  function Fitness(ti: nat, negated: bool, ePos: seq<seq<int>>, eNeg: seq<seq<int>>): (f: int)
    requires ti < |ePos| && ti < |eNeg|
    ensures |eNeg[ti]| <= |eNeg[0]| ==> f >= 0
  {
    var accepted, rejected := Accepted(ePos[ti], negated), |eNeg[0]| - Accepted(eNeg[ti], negated);
    MulNonNegative(accepted, rejected);
    accepted * rejected
  }

  /** How many entries of the row the literal accepts: the length of the
      index list `Pos`/`Neg` return. */
  function Accepted(column: seq<int>, negated: bool): (c: nat)
    ensures c <= |column|
  {
    if |column| == 0 then 0
    else
      var n := |column| - 1;
      Accepted(column[..n], negated) + if column[n] == (if negated then 0 else 1) then 1 else 0
  }

  lemma {:induction false} AcceptedIsLength(column: seq<int>, negated: bool)
    ensures Accepted(column, negated) == |Where(Accepts(column, negated))|
  {
    if |column| > 0 {
      var n := |column| - 1;
      AcceptedIsLength(column[..n], negated);
      assert Accepts(column, negated)[..n] == Accepts(column[..n], negated);
    }
  }

  lemma MulNonNegative(a: int, b: int)
    ensures a >= 0 && b >= 0 ==> a * b >= 0
  {
  }

  /** On 0/1 term rows of one length, the fitness of a literal is the number of
      positive examples it accepts times the number of negative examples it
      rejects. */
  lemma FitnessCounts(ti: nat, negated: bool, ePos: seq<seq<int>>, eNeg: seq<seq<int>>)
    requires ti < |ePos| && ti < |eNeg|
    requires Binary(eNeg[ti]) && |eNeg[ti]| == |eNeg[0]|
    ensures Fitness(ti, negated, ePos, eNeg) ==
      |Where(Accepts(ePos[ti], negated))| * |Where(Accepts(eNeg[ti], !negated))|
  {
    var column := eNeg[ti];
    LiteralsPartition(column);
    AcceptedIsLength(ePos[ti], negated);
    AcceptedIsLength(column, negated);
    var accepted, rejected := Accepted(ePos[ti], negated), |Where(Accepts(column, !negated))|;
    assert |eNeg[0]| - Accepted(column, negated) == rejected;
    assert Fitness(ti, negated, ePos, eNeg) == accepted * rejected;
  }

  // ---------------------------------------------------------------------------
  // The sorted candidate list (`build_sorted_fitness_list`)

  /** One entry `[0, i, f]` (literal `x(i+1)`) or `[1, i, f]` (literal `¬x(i+1)`). */
  datatype Candidate = Candidate(negated: bool, term: nat, fitness: int)

  /** The position at which the entry is appended before sorting. */
  function Key(c: Candidate): nat
  {
    2 * c.term + if c.negated then 1 else 0
  }

  /** The fitness of both literals of the first `n` terms, plain first. */
  function FitnessTable(ePos: seq<seq<int>>, eNeg: seq<seq<int>>, n: nat): (table: seq<(int, int)>)
    requires n <= |ePos| && n <= |eNeg|
    ensures |table| == n
  {
    if n == 0 then []
    else FitnessTable(ePos, eNeg, n - 1) + [(Fitness(n - 1, false, ePos, eNeg), Fitness(n - 1, true, ePos, eNeg))]
  }

  lemma {:induction false} FitnessTableAt(ePos: seq<seq<int>>, eNeg: seq<seq<int>>, n: nat, i: nat)
    requires i < n <= |ePos| && n <= |eNeg|
    ensures FitnessTable(ePos, eNeg, n)[i] == (Fitness(i, false, ePos, eNeg), Fitness(i, true, ePos, eNeg))
  {
    if i < n - 1 {
      FitnessTableAt(ePos, eNeg, n - 1, i);
    }
  }

  /** The list before sorting: for each term the plain literal, then its
      negation, with the fitness from the table. */
  function CandidatesUpTo(table: seq<(int, int)>, n: nat): (r: seq<Candidate>)
    requires n <= |table|
    ensures |r| == 2 * n
  {
    if n == 0 then []
    else
      var i := n - 1;
      CandidatesUpTo(table, i) + [Candidate(false, i, table[i].0), Candidate(true, i, table[i].1)]
  }

  /** Entry `j` of the list before sorting has key `j`. */
  lemma {:induction false} CandidateKeys(table: seq<(int, int)>, n: nat)
    requires n <= |table|
    ensures forall j :: 0 <= j < 2 * n ==> Key(CandidatesUpTo(table, n)[j]) == j
  {
    if n > 0 {
      CandidateKeys(table, n - 1);
    }
  }

  /** `a` comes before `b` in the sorted list: higher fitness first, and among
      equal fitness the one appended first. */
  predicate Precedes(a: Candidate, b: Candidate)
  {
    a.fitness > b.fitness || (a.fitness == b.fitness && Key(a) < Key(b))
  }

  predicate Ordered(r: seq<Candidate>)
  {
    forall i, j :: 0 <= i < j < |r| ==> Precedes(r[i], r[j])
  }

  /** Puts `x` after every entry whose fitness is at least its own. */
  function InsertStable(r: seq<Candidate>, x: Candidate): (q: seq<Candidate>)
    ensures |q| == |r| + 1 && multiset(q) == multiset(r) + multiset{x}
  {
    if |r| == 0 || r[|r| - 1].fitness >= x.fitness then r + [x]
    else
      var n := |r| - 1;
      assert r == r[..n] + [r[n]];
      InsertStable(r[..n], x) + [r[n]]
  }

  /** `arreglo.sort(key=fitness, reverse=True)`: Python's sort is stable, also in
      reverse, so entries of equal fitness keep their order. */
  function SortByFitness(s: seq<Candidate>): (r: seq<Candidate>)
    ensures |r| == |s| && multiset(r) == multiset(s)
  {
    if |s| == 0 then []
    else
      var n := |s| - 1;
      assert s == s[..n] + [s[n]];
      InsertStable(SortByFitness(s[..n]), s[n])
  }

  lemma {:induction false} InsertStableOrdered(r: seq<Candidate>, x: Candidate)
    requires Ordered(r) && forall y :: y in r ==> Key(y) < Key(x)
    ensures Ordered(InsertStable(r, x))
  {
    if |r| == 0 || r[|r| - 1].fitness >= x.fitness {
      forall i | 0 <= i < |r| ensures Precedes(r[i], x) {
        assert r[i] in r;
      }
    } else {
      var n := |r| - 1;
      var q := InsertStable(r[..n], x);
      assert forall y :: y in r[..n] ==> y in r;
      InsertStableOrdered(r[..n], x);
      forall i | 0 <= i < |q| ensures Precedes(q[i], r[n]) {
        assert q[i] in multiset(r[..n]) + multiset{x};
        if q[i] != x {
          assert q[i] in r[..n];
        }
      }
    }
  }

  /** Sorting a list appended in key order yields it ordered by fitness, ties in
      key order. */
  lemma {:induction false} SortByFitnessOrdered(s: seq<Candidate>)
    requires forall i, j :: 0 <= i < j < |s| ==> Key(s[i]) < Key(s[j])
    ensures Ordered(SortByFitness(s))
  {
    if |s| > 0 {
      var n := |s| - 1;
      var r := SortByFitness(s[..n]);
      SortByFitnessOrdered(s[..n]);
      forall y | y in r ensures Key(y) < Key(s[n]) {
        assert y in multiset(s[..n]);
        var i :| 0 <= i < n && s[..n][i] == y;
      }
      InsertStableOrdered(r, s[n]);
    }
  }

  /** `build_sorted_fitness_list(E_pos, E_neg)`: both literals of every term with
      their fitness, sorted by fitness from high to low, ties in the order
      `x1, ¬x1, x2, ¬x2, ...`. */
  method SortedFitnessList(ePos: seq<seq<int>>, eNeg: seq<seq<int>>) returns (list: seq<Candidate>)
    requires |ePos| <= |eNeg|
    ensures |list| == 2 * |ePos|
    ensures multiset(list) == multiset(CandidatesUpTo(FitnessTable(ePos, eNeg, |ePos|), |ePos|))
    ensures forall i, negated :: 0 <= i < |ePos| ==> Candidate(negated, i, Fitness(i, negated, ePos, eNeg)) in list
    ensures Ordered(list)
  {
    ghost var table := FitnessTable(ePos, eNeg, |ePos|);
    list := AppendCandidates(ePos, eNeg);
    ghost var appended := list;
    list := SortByFitness(list);
    CandidateKeys(table, |ePos|);
    SortByFitnessOrdered(appended);
    CandidatesComplete(table, |ePos|);
    forall i, negated | 0 <= i < |ePos|
      ensures Candidate(negated, i, Fitness(i, negated, ePos, eNeg)) in list
    {
      var c := Candidate(negated, i, Fitness(i, negated, ePos, eNeg));
      FitnessTableAt(ePos, eNeg, |ePos|, i);
      assert c == Candidate(negated, i, if negated then table[i].1 else table[i].0);
      assert c in appended;
      assert c in multiset(list);
    }
  }

  /** The `for i, fila in enumerate(E_pos)` loop appending both literals of each term. */
  method AppendCandidates(ePos: seq<seq<int>>, eNeg: seq<seq<int>>) returns (list: seq<Candidate>)
    requires |ePos| <= |eNeg|
    ensures list == CandidatesUpTo(FitnessTable(ePos, eNeg, |ePos|), |ePos|)
  {
    ghost var table := FitnessTable(ePos, eNeg, |ePos|);
    list := [];
    var i := 0;
    while i < |ePos|
      invariant 0 <= i <= |ePos|
      invariant list == CandidatesUpTo(table, i)
    {
      var plain, negated := Candidate(false, i, Fitness(i, false, ePos, eNeg)), Candidate(true, i, Fitness(i, true, ePos, eNeg));
      list := list + [plain];
      list := list + [negated];
      FitnessTableAt(ePos, eNeg, |ePos|, i);
      assert list == CandidatesUpTo(table, i) + [plain, negated];
      i := i + 1;
    }
  }

  /** Every literal of every term below `n` is appended. */
  lemma {:induction false} CandidatesComplete(table: seq<(int, int)>, n: nat)
    requires n <= |table|
    ensures forall i :: 0 <= i < n ==>
      Candidate(false, i, table[i].0) in CandidatesUpTo(table, n) && Candidate(true, i, table[i].1) in CandidatesUpTo(table, n)
  {
    if n > 0 {
      CandidatesComplete(table, n - 1);
      var prefix, r := CandidatesUpTo(table, n - 1), CandidatesUpTo(table, n);
      assert r == prefix + [Candidate(false, n - 1, table[n - 1].0), Candidate(true, n - 1, table[n - 1].1)];
      assert r[2 * n - 2] == Candidate(false, n - 1, table[n - 1].0);
      assert r[2 * n - 1] == Candidate(true, n - 1, table[n - 1].1);
    }
  }

  // ---------------------------------------------------------------------------
  // Evaluating a learned CNF (`evaluate_instance`)

  /** A term of a clause: the separator 'V', or a literal `xN` / `¬xN` with its
      number N as written (1-based). */
  datatype Term = Or | Literal(negated: bool, number: int)

  /** An item of the learned model `C`: the separator 'Λ', or a clause. */
  datatype Item = And | Clause(terms: seq<Term>)

  /** All thresholds as (attribute, threshold) pairs, attribute by attribute: the
      numbering of the literals. */
  function Thresholds(vals: seq<seq<real>>): (t: seq<(int, real)>)
    ensures forall q :: 0 <= q < |t| ==> 0 <= t[q].0 < |vals|
  {
    if |vals| == 0 then []
    else
      var n := |vals| - 1;
      Thresholds(vals[..n]) + seq(|vals[n]|, k requires 0 <= k < |vals[n]| => (n, vals[n][k]))
  }

  /** The thresholds of the first attributes start the list of all thresholds. */
  lemma {:induction false} ThresholdsPrefix(vals: seq<seq<real>>, a: nat)
    requires a <= |vals|
    ensures |Thresholds(vals[..a])| <= |Thresholds(vals)|
    ensures Thresholds(vals)[..|Thresholds(vals[..a])|] == Thresholds(vals[..a])
  {
    if a < |vals| {
      var n := |vals| - 1;
      assert vals[..n][..a] == vals[..a];
      ThresholdsPrefix(vals[..n], a);
    } else {
      assert vals[..a] == vals;
    }
  }

  /** Literal number `|Thresholds(vals[..a])| + k + 1` compares attribute `a`
      with its `k`-th threshold. */
  lemma ThresholdAt(vals: seq<seq<real>>, a: nat, k: nat)
    requires a < |vals| && k < |vals[a]|
    ensures |Thresholds(vals[..a + 1])| == |Thresholds(vals[..a])| + |vals[a]|
    ensures |Thresholds(vals[..a])| + k < |Thresholds(vals)|
    ensures Thresholds(vals)[|Thresholds(vals[..a])| + k] == (a, vals[a][k])
  {
    assert vals[..a + 1][..a] == vals[..a];
    ThresholdsPrefix(vals, a + 1);
    var t := Thresholds(vals);
    var p := Thresholds(vals[..a + 1]);
    assert t[|Thresholds(vals[..a])| + k] == p[|Thresholds(vals[..a])| + k];
  }

  lemma ThresholdsGrow(vals: seq<seq<real>>, a: nat)
    requires a < |vals|
    ensures |Thresholds(vals[..a + 1])| == |Thresholds(vals[..a])| + |vals[a]|
  {
    assert vals[..a + 1][..a] == vals[..a];
  }

  /** Literal number `number` holds for the instance: `xN` means the attribute
      reaches the N-th threshold, `¬xN` that it stays below it; a number with no
      threshold never holds. */
  predicate Holds(instance: seq<real>, negated: bool, number: int, vals: seq<seq<real>>)
    requires |instance| >= |vals|
  {
    var t := Thresholds(vals);
    var q := number - 1;
    0 <= q < |t| && if negated then instance[t[q].0] < t[q].1 else instance[t[q].0] >= t[q].1
  }

  /** Some literal of the clause holds. */
  ghost predicate ClauseHolds(instance: seq<real>, terms: seq<Term>, vals: seq<seq<real>>)
    requires |instance| >= |vals|
  {
    exists j :: 0 <= j < |terms| && terms[j].Literal? && Holds(instance, terms[j].negated, terms[j].number, vals)
  }

  /** Every clause of the model holds. */
  ghost predicate Satisfies(instance: seq<real>, c: seq<Item>, vals: seq<seq<real>>)
    requires |instance| >= |vals|
  {
    forall i :: 0 <= i < |c| && c[i].Clause? ==> ClauseHolds(instance, c[i].terms, vals)
  }

  /** `Copia_C = [clause for clause in C if clause != 'Λ']`. */
  function Clauses(c: seq<Item>): (r: seq<seq<Term>>)
    ensures forall i :: 0 <= i < |c| && c[i].Clause? ==> c[i].terms in r
    ensures forall p :: 0 <= p < |r| ==> exists i :: 0 <= i < |c| && c[i] == Clause(r[p])
  {
    if |c| == 0 then []
    else
      var rest := Clauses(c[1..]);
      assert forall p :: 0 <= p < |rest| ==> exists i :: 0 <= i < |c| && c[i] == Clause(rest[p]) by {
        forall p | 0 <= p < |rest| ensures exists i :: 0 <= i < |c| && c[i] == Clause(rest[p]) {
          var i :| 0 <= i < |c[1..]| && c[1..][i] == Clause(rest[p]);
          assert c[i + 1] == Clause(rest[p]);
        }
      }
      (if c[0].Clause? then [c[0].terms] else []) + rest
  }

  /** The search of `evaluate_instance` for one literal: walk the thresholds
      attribute by attribute with a running counter until it reaches the
      literal's number, then compare.  After a literal holds, the walk goes on
      (only `found` ends it), re-evaluating the literal against the first
      threshold of later attributes; this can set `clause_satisfied` again but
      never clear it. */
  method EvaluateTerm(instance: seq<real>, negated: bool, number: int, vals: seq<seq<real>>) returns (satisfied: bool)
    requires |instance| >= |vals|
    ensures satisfied == Holds(instance, negated, number, vals)
  {
    var termNum := number - 1;
    ghost var holds := Holds(instance, negated, number, vals);
    satisfied := false;
    var current := 0;
    var found := false;
    var a := 0;
    while a < |vals|
      invariant 0 <= a <= |vals|
      invariant
        || (!found && !satisfied && current == |Thresholds(vals[..a])| && !(0 <= termNum < current))
        || (0 <= termNum < |Thresholds(vals[..a])| && current == termNum && satisfied == holds && (!holds ==> found))
      invariant !found
    {
      ThresholdsGrow(vals, a);
      var k := 0;
      while k < |vals[a]|
        invariant 0 <= k <= |vals[a]|
        invariant
          || (!found && !satisfied && current == |Thresholds(vals[..a])| + k && !(0 <= termNum < current))
          || (0 <= termNum < |Thresholds(vals[..a + 1])| && current == termNum && satisfied == holds && (!holds ==> found))
        invariant !found
      {
        if current == termNum {
          ThresholdAt(vals, a, k);
          var attributeValue := instance[a];
          var termValue := if negated then attributeValue < vals[a][k] else attributeValue >= vals[a][k];
          if termValue {
            satisfied := true;
            break;
          }
          found := true;
          break;
        }
        current := current + 1;
        k := k + 1;
      }
      if found {
        break;
      }
      a := a + 1;
    }
    assert vals[..|vals|] == vals;
  }

  /** `evaluate_instance(instance, C, valoresObservadosDiferentes)`: 1 iff every
      clause of `C` has a literal that holds for the instance; an empty model
      gives 1 and an empty clause gives 0. */
  method EvaluateInstance(instance: seq<real>, c: seq<Item>, vals: seq<seq<real>>) returns (r: int)
    requires |instance| >= |vals|
    ensures r == if Satisfies(instance, c, vals) then 1 else 0
  {
    var clauses := Clauses(c);
    var p := 0;
    while p < |clauses|
      invariant 0 <= p <= |clauses|
      invariant forall q :: 0 <= q < p ==> ClauseHolds(instance, clauses[q], vals)
    {
      var terms := clauses[p];
      var clauseSatisfied := false;
      var t := 0;
      while t < |terms|
        invariant 0 <= t <= |terms|
        invariant !clauseSatisfied
        invariant forall q :: 0 <= q < t && terms[q].Literal? ==> !Holds(instance, terms[q].negated, terms[q].number, vals)
      {
        if terms[t].Or? {
          t := t + 1;
          continue;
        }
        clauseSatisfied := EvaluateTerm(instance, terms[t].negated, terms[t].number, vals);
        if clauseSatisfied {
          break;
        }
        t := t + 1;
      }
      if !clauseSatisfied {
        var i :| 0 <= i < |c| && c[i] == Clause(clauses[p]);
        assert !ClauseHolds(instance, c[i].terms, vals);
        return 0;
      }
      p := p + 1;
    }
    forall i | 0 <= i < |c| && c[i].Clause? ensures ClauseHolds(instance, c[i].terms, vals) {
      var q :| 0 <= q < |clauses| && clauses[q] == c[i].terms;
    }
    return 1;
  }
}
