/** The letter-recall script: recall that stops as soon as an update yields one
    of the stored patterns, and the trial that corrupts a stored pattern,
    recalls it and scores the result. The weight matrix is built by
    `Hebbian.BuildMemory`. */
module HopNewbie {
  import opened Wrappers
  import opened Hebbian

  // ---------------------------------------------------------------------------
  // Recall

  /** The pattern `recuperar_patron` returns for `k >= 1` cycles: the first
      update that is one of the stored patterns, or the `k`-th update. */
  function Recall(memory: seq<seq<int>>, x: seq<int>, stored: seq<seq<int>>, k: int): seq<int>
    requires k >= 1
    decreases k
  {
    var y := Update(memory, x);
    if y in stored || k == 1 then y else Recall(memory, y, stored, k - 1)
  }

  /** `recuperar_patron(memoria, patron, lista_de_patrones, ciclos_maximos)`.
      With no cycle the final `return` reads a variable never bound. */
  method RecoverPattern(memory: seq<seq<int>>, pattern: seq<int>, stored: seq<seq<int>>, cycles: int)
    returns (res: Result<seq<int>>)
    ensures res.Err? <==> cycles <= 0
    ensures res.Err? ==> res.error == UnboundLocal
    ensures res.Ok? ==> res.value == Recall(memory, pattern, stored, cycles)
  {
    var x := pattern;
    var recovered: seq<int> := [];
    var bound := false;
    var cycle := 0;
    while cycle < cycles
      invariant 0 <= cycle && (cycle == 0 || cycle <= cycles)
      invariant bound <==> cycle > 0
      invariant cycle > 0 ==> recovered == x
      invariant cycle < cycles ==> Recall(memory, pattern, stored, cycles) == Recall(memory, x, stored, cycles - cycle)
      invariant cycle == cycles && cycle > 0 ==> Recall(memory, pattern, stored, cycles) == recovered
    {
      recovered := UpdateAll(memory, x);
      bound := true;
      if recovered in stored {
        return Ok(recovered);
      }
      x := recovered;
      cycle := cycle + 1;
    }
    if !bound {
      return Err(UnboundLocal);
    }
    return Ok(recovered);
  }

  /** Update `i` yields a stored pattern. */
  ghost predicate Recognised(memory: seq<seq<int>>, x: seq<int>, stored: seq<seq<int>>, i: nat)
  {
    Iterate(memory, x, i) in stored
  }

  /** Recall from the state after `s` updates ends at the state after `t`
      updates, `s < t <= s + k`: no update between `s` and `t` is a stored
      pattern and, if `t` falls short of `s + k`, update `t` is one. */
  ghost predicate EndsAt(memory: seq<seq<int>>, x: seq<int>, stored: seq<seq<int>>, s: nat, k: int, t: nat)
  {
    s + 1 <= t <= s + k &&
    (forall i :: s + 1 <= i < t ==> !Recognised(memory, x, stored, i)) &&
    (t < s + k ==> Recognised(memory, x, stored, t))
  }

  lemma {:induction false} RecallFrom(memory: seq<seq<int>>, x: seq<int>, stored: seq<seq<int>>, s: nat, k: int)
    requires k >= 1
    ensures exists t :: EndsAt(memory, x, stored, s, k, t) && Recall(memory, Iterate(memory, x, s), stored, k) == Iterate(memory, x, t)
    decreases k
  {
    var y := Iterate(memory, x, s + 1);
    assert y == Update(memory, Iterate(memory, x, s));
    if y in stored || k == 1 {
      assert EndsAt(memory, x, stored, s, k, s + 1);
    } else {
      RecallFrom(memory, x, stored, s + 1, k - 1);
      var t: nat :| EndsAt(memory, x, stored, s + 1, k - 1, t) && Recall(memory, y, stored, k - 1) == Iterate(memory, x, t);
      assert !Recognised(memory, x, stored, s + 1);
      EndsAtEarlier(memory, x, stored, s, k, t);
    }
  }

  /** A recall that passes update `s + 1` unrecognised and then ends at `t`
      ends at `t` when started one update earlier. */
  lemma EndsAtEarlier(memory: seq<seq<int>>, x: seq<int>, stored: seq<seq<int>>, s: nat, k: int, t: nat)
    requires !Recognised(memory, x, stored, s + 1) && EndsAt(memory, x, stored, s + 1, k - 1, t)
    ensures EndsAt(memory, x, stored, s, k, t)
  {
  }

  /** Recall returns the first update that is a stored pattern, if one of the
      first `k` updates is; otherwise the `k`-th update. */
  lemma RecallFirstStored(memory: seq<seq<int>>, x: seq<int>, stored: seq<seq<int>>, k: int)
    requires k >= 1
    ensures exists t :: EndsAt(memory, x, stored, 0, k, t) && Recall(memory, x, stored, k) == Iterate(memory, x, t)
    ensures Recall(memory, x, stored, k) in stored || Recall(memory, x, stored, k) == Iterate(memory, x, k)
  {
    RecallFrom(memory, x, stored, 0, k);
    assert Iterate(memory, x, 0) == x;
  }

  // ---------------------------------------------------------------------------
  // The trial

  /** Python's `lista[elegido]` accepts `-n <= elegido < n`. */
  predicate InRange(index: int, n: nat)
  {
    -(n as int) <= index < n
  }

  function Normalise(index: int, n: nat): (k: nat)
    requires InRange(index, n)
    ensures k < n
    ensures index >= 0 ==> k == index
    ensures index < 0 ==> k == n + index
  {
    if index < 0 then n + index else index
  }

  /** The number of iterations of `range(count)`. */
  function Iterations(count: int): nat
  {
    if count > 0 then count else 0
  }

  /** The overwriting loop of `prueba`: draw `t` is the `t`-th pair
      `(random.choice(list(range(len(patrón)))), random.choice([-1, 1]))`; an
      empty pattern leaves nothing to choose from. */
  method Corrupt(pattern: seq<int>, alterations: int, draws: seq<(int, int)>) returns (res: Result<seq<int>>)
    requires |draws| == Iterations(alterations)
    requires |pattern| > 0 ==> forall t :: 0 <= t < |draws| ==> 0 <= draws[t].0 < |pattern| && draws[t].1 in {-1, 1}
    ensures res.Err? <==> |pattern| == 0 && alterations > 0
    ensures res.Err? ==> res.error == IndexOutOfRange
    ensures res.Ok? ==> res.value == Overwrite(pattern, draws)
    ensures res.Ok? ==> |res.value| == |pattern| && |Differences(pattern, res.value)| <= Iterations(alterations)
  {
    var corrupted := pattern;
    var t := 0;
    while t < alterations
      invariant 0 <= t <= |draws|
      invariant |pattern| > 0 || t == 0
      invariant |pattern| > 0 ==> corrupted == Overwrite(pattern, draws[..t])
      invariant |pattern| == 0 ==> corrupted == pattern
    {
      if |pattern| == 0 {
        return Err(IndexOutOfRange);
      }
      var (index, value) := draws[t];
      assert draws[..t + 1][..t] == draws[..t];
      corrupted := corrupted[index := value];
      t := t + 1;
    }
    assert draws[..t] == draws;
    if |pattern| > 0 {
      OverwriteBound(pattern, draws);
    }
    return Ok(corrupted);
  }

  /** `prueba(memoria, lista_de_patrones, número_de_veces_a_alterar,
      número_de_ciclos_a_iterar, imprimir, elegido)`: the percentage of the
      chosen pattern's positions that the recall of its corrupted copy
      matches, with every way the script raises an exception. */
  method Trial(memory: seq<seq<int>>, stored: seq<seq<int>>, alterations: int, cycles: int, chosen: int,
               draws: seq<(int, int)>) returns (res: Result<real>)
    requires |draws| == Iterations(alterations)
    requires InRange(chosen, |stored|) && |stored[Normalise(chosen, |stored|)]| > 0 ==>
      forall t :: 0 <= t < |draws| ==> 0 <= draws[t].0 < |stored[Normalise(chosen, |stored|)]| && draws[t].1 in {-1, 1}
    ensures !InRange(chosen, |stored|) ==> res == Err(IndexOutOfRange)
    ensures InRange(chosen, |stored|) ==>
      var p := stored[Normalise(chosen, |stored|)];
      if |p| == 0 && alterations > 0 then res == Err(IndexOutOfRange)
      else if cycles <= 0 then res == Err(UnboundLocal)
      else if |p| == 0 then res == Err(ZeroDivision)
      else res.Ok? && res.value == Matches(p, Recall(memory, Overwrite(p, draws), stored, cycles)) as real * 100.0 / |p| as real
    ensures res.Ok? ==> 0.0 <= res.value <= 100.0
  {
    if !InRange(chosen, |stored|) {
      return Err(IndexOutOfRange);
    }
    var pattern := stored[Normalise(chosen, |stored|)];
    var corrupted := Corrupt(pattern, alterations, draws);
    if corrupted.Err? {
      return Err(corrupted.error);
    }
    var recovered := RecoverPattern(memory, corrupted.value, stored, cycles);
    if recovered.Err? {
      return Err(recovered.error);
    }
    var matches := Matches(pattern, recovered.value);
    if |pattern| == 0 {
      return Err(ZeroDivision);
    }
    PercentBounds(matches, |pattern|);
    return Ok(matches as real * 100.0 / |pattern| as real);
  }

  /** A stored pattern that the update leaves unchanged, tried without
      alterations, is recalled exactly and scores 100. */
  lemma StableTrial(memory: seq<seq<int>>, stored: seq<seq<int>>, cycles: int, k: nat)
    requires k < |stored| && |stored[k]| > 0 && cycles >= 1
    requires Update(memory, stored[k]) == stored[k]
    ensures Recall(memory, Overwrite(stored[k], []), stored, cycles) == stored[k]
    ensures Matches(stored[k], Recall(memory, Overwrite(stored[k], []), stored, cycles)) as real * 100.0 / |stored[k]| as real == 100.0
  {
    var p := stored[k];
    assert Overwrite(p, []) == p;
    assert p in stored;
    assert Recall(memory, p, stored, cycles) == p;
    MatchesSelf(p);
    WholePercent(|p|);
  }

  lemma WholePercent(n: nat)
    requires n > 0
    ensures n as real * 100.0 / n as real == 100.0
  {
  }
}
