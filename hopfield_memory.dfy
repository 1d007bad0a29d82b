/** The letter-recognition script: recall of a stored pattern by repeated
    synchronous updates, random corruption of a pattern, the accuracy of a
    recalled pattern and the choice of the best-matching letter. The weight
    matrix is built by `Hebbian.BuildMemory`. */
module HopfieldMemory {
  import opened Wrappers
  import opened Hebbian

  // ---------------------------------------------------------------------------
  // Retrieval

  /** The state `retrieve_pattern` returns: at most `k` updates, stopping right
      after the first update that leaves the state unchanged. */
  function Retrieve(memory: seq<seq<int>>, x: seq<int>, k: int): seq<int>
    decreases k
  {
    if k <= 0 then x
    else
      var y := Update(memory, x);
      if y == x then y else Retrieve(memory, y, k - 1)
  }

  /** `retrieve_pattern(memory, corrupted_pattern, max_iterations)`. */
  method RetrievePattern(memory: seq<seq<int>>, corrupted: seq<int>, maxIterations: int) returns (x: seq<int>)
    ensures x == Retrieve(memory, corrupted, maxIterations)
    ensures maxIterations <= 0 ==> x == corrupted
    ensures maxIterations > 0 ==> |x| == |memory| && forall i :: 0 <= i < |x| ==> x[i] in {-1, 0, 1}
  {
    x := corrupted;
    var iteration := 0;
    while iteration < maxIterations
      invariant 0 <= iteration && (maxIterations >= 0 ==> iteration <= maxIterations)
      invariant Retrieve(memory, corrupted, maxIterations) == Retrieve(memory, x, maxIterations - iteration)
      invariant iteration > 0 ==> |x| == |memory| && forall i :: 0 <= i < |x| ==> x[i] in {-1, 0, 1}
    {
      var previous := x;
      var retrieved := UpdateAll(memory, x);
      RetrieveStep(memory, x, maxIterations - iteration);
      UpdateAt(memory, x);
      x := retrieved;
      if x == previous {
        break;
      }
      iteration := iteration + 1;
    }
  }

  /** One step of `Retrieve`, unfolded. */
  lemma RetrieveStep(memory: seq<seq<int>>, x: seq<int>, k: int)
    requires k >= 1
    ensures Retrieve(memory, x, k) == if Update(memory, x) == x then x else Retrieve(memory, Update(memory, x), k - 1)
  {
  }

  /** Retrieval from the state after `s` updates stops at the state after `t`
      updates, `s < t <= s + k`: no update between `s` and `t` was without
      effect and, if `t` falls short of `s + k`, update `t` had none. */
  ghost predicate StopsAt(memory: seq<seq<int>>, x: seq<int>, s: nat, k: int, t: nat)
  {
    s + 1 <= t <= s + k &&
    (forall i :: s <= i < t - 1 ==> Moves(memory, x, i)) &&
    (t < s + k ==> !Moves(memory, x, t - 1))
  }

  /** Update `i + 1` changes the state. */
  ghost predicate Moves(memory: seq<seq<int>>, x: seq<int>, i: nat)
  {
    Iterate(memory, x, i + 1) != Iterate(memory, x, i)
  }

  lemma {:induction false} RetrieveFrom(memory: seq<seq<int>>, x: seq<int>, s: nat, k: int)
    requires k >= 1
    ensures exists t :: StopsAt(memory, x, s, k, t) && Retrieve(memory, Iterate(memory, x, s), k) == Iterate(memory, x, t)
    decreases k
  {
    var y := Iterate(memory, x, s + 1);
    RetrieveStep(memory, Iterate(memory, x, s), k);
    if y == Iterate(memory, x, s) || k == 1 {
      assert StopsAt(memory, x, s, k, s + 1);
      assert Retrieve(memory, Iterate(memory, x, s), k) == y;
    } else {
      assert Retrieve(memory, Iterate(memory, x, s), k) == Retrieve(memory, y, k - 1);
      RetrieveFrom(memory, x, s + 1, k - 1);
      var t: nat :| StopsAt(memory, x, s + 1, k - 1, t) && Retrieve(memory, y, k - 1) == Iterate(memory, x, t);
      StopsAtEarlier(memory, x, s, k, t);
    }
  }

  /** A run that moves at update `s + 1` and then stops at `t` stops at `t`
      when started one update earlier. */
  lemma StopsAtEarlier(memory: seq<seq<int>>, x: seq<int>, s: nat, k: int, t: nat)
    requires Moves(memory, x, s) && StopsAt(memory, x, s + 1, k - 1, t)
    ensures StopsAt(memory, x, s, k, t)
  {
  }

  /** Retrieval runs the updates until the first one without effect, or until
      `k` of them have run; when it stops early the result is a fixed point of
      the update. */
  lemma RetrieveFirstFixedPoint(memory: seq<seq<int>>, x: seq<int>, k: int)
    requires k >= 1
    ensures exists t :: StopsAt(memory, x, 0, k, t) && Retrieve(memory, x, k) == Iterate(memory, x, t)
    ensures Retrieve(memory, x, k) == Iterate(memory, x, k) || Update(memory, Retrieve(memory, x, k)) == Retrieve(memory, x, k)
  {
    RetrieveFrom(memory, x, 0, k);
    var t: nat :| StopsAt(memory, x, 0, k, t) && Retrieve(memory, Iterate(memory, x, 0), k) == Iterate(memory, x, t);
    assert Iterate(memory, x, 0) == x;
    if t < k {
      var r := Iterate(memory, x, t);
      assert !Moves(memory, x, t - 1);
      assert r == Iterate(memory, x, t - 1);
      assert Update(memory, r) == Iterate(memory, x, t);
    }
  }

  // ---------------------------------------------------------------------------
  // Noise

  /** Python's `int(v)` on a float: truncation toward zero. */
  function Trunc(v: real): (r: int)
    ensures v >= 0.0 ==> r as real <= v < r as real + 1.0
    ensures v < 0.0 ==> r as real - 1.0 < v <= r as real
  {
    if v >= 0.0 then v.Floor else -((-v).Floor)
  }

  /** `int(len(pattern) * noise_level)`, read as the number of iterations of
      `range(...)`, which is none for a negative count. */
  function FlipCount(length: nat, noise: real): (c: nat)
    ensures 0.0 <= noise <= 1.0 ==> c <= length
  {
    var t := Trunc(length as real * noise);
    if t > 0 then t else 0
  }

  /** `add_noise_to_pattern(pattern, noise_level)`: draw `t` is the `t`-th
      `(random.randint(0, len - 1), random.choice([-1, 1]))` pair. */
  method AddNoise(pattern: seq<int>, noise: real, draws: seq<(int, int)>) returns (noisy: seq<int>)
    requires |draws| == FlipCount(|pattern|, noise)
    requires forall t :: 0 <= t < |draws| ==> 0 <= draws[t].0 < |pattern| && draws[t].1 in {-1, 1}
    ensures noisy == Overwrite(pattern, draws)
    ensures |noisy| == |pattern|
    ensures |Differences(pattern, noisy)| <= FlipCount(|pattern|, noise)
    ensures forall i :: i in Differences(pattern, noisy) ==> noisy[i] in {-1, 1}
  {
    noisy := pattern;
    var count := FlipCount(|pattern|, noise);
    var t := 0;
    while t < count
      invariant 0 <= t <= count
      invariant noisy == Overwrite(pattern, draws[..t])
    {
      var (index, value) := draws[t];
      assert draws[..t + 1][..t] == draws[..t];
      noisy := noisy[index := value];
      t := t + 1;
    }
    assert draws[..t] == draws;
    OverwriteBound(pattern, draws);
  }

  // ---------------------------------------------------------------------------
  // Accuracy and prediction

  /** `calculate_accuracy(original, retrieved)`: the percentage of positions of
      `original` that the retrieved pattern matches; an empty original divides
      by zero. */
  function CalculateAccuracy(original: seq<int>, retrieved: seq<int>): (r: Result<real>)
    ensures r.Err? <==> |original| == 0
    ensures r.Err? ==> r.error == ZeroDivision
    ensures r.Ok? ==> 0.0 <= r.value <= 100.0
    ensures r.Ok? ==> (r.value == 100.0 <==> Matches(original, retrieved) == |original|)
  {
    if |original| == 0 then Err(ZeroDivision)
    else Ok((Matches(original, retrieved) as real / |original| as real) * 100.0)
  }

  /** A pattern recalled exactly scores 100. */
  lemma AccuracyOfSame(p: seq<int>)
    requires |p| > 0
    ensures CalculateAccuracy(p, p) == Ok(100.0)
  {
    MatchesSelf(p);
  }

  ghost predicate AllNonEmpty(refs: seq<(string, seq<int>)>)
  {
    forall j :: 0 <= j < |refs| ==> |refs[j].1| > 0
  }

  ghost function Score(refs: seq<(string, seq<int>)>, retrieved: seq<int>, j: nat): real
    requires j < |refs| && |refs[j].1| > 0
  {
    CalculateAccuracy(refs[j].1, retrieved).value
  }

  /** Entry `i` has the highest accuracy, and every earlier entry a lower one. */
  ghost predicate IsBest(refs: seq<(string, seq<int>)>, retrieved: seq<int>, i: nat)
    requires AllNonEmpty(refs)
  {
    i < |refs| &&
    (forall j :: 0 <= j < i ==> Score(refs, retrieved, j) < Score(refs, retrieved, i)) &&
    (forall j :: i < j < |refs| ==> Score(refs, retrieved, j) <= Score(refs, retrieved, i))
  }

  /** `predict_letter(retrieved_pattern, reference_patterns)`, with the
      dictionary as its entries in insertion order: the name of the first entry
      of highest accuracy; `None` for no entries; an empty reference pattern
      divides by zero. */
  method PredictLetter(retrieved: seq<int>, refs: seq<(string, seq<int>)>) returns (res: Result<Option<string>>)
    ensures res.Err? <==> !AllNonEmpty(refs)
    ensures res.Ok? ==> (res.value.None? <==> |refs| == 0)
    ensures res.Ok? && res.value.Some? ==>
      (exists i :: 0 <= i < |refs| && refs[i].0 == res.value.value && IsBest(refs, retrieved, i))
  {
    var best: Option<string> := None;
    var bestAccuracy := -1.0;
    ghost var bestIndex := 0;
    var n := 0;
    while n < |refs|
      invariant 0 <= n <= |refs|
      invariant forall j :: 0 <= j < n ==> |refs[j].1| > 0
      invariant n == 0 ==> best == None && bestAccuracy == -1.0
      invariant n > 0 ==> 0 <= bestIndex < n && best == Some(refs[bestIndex].0)
      invariant n > 0 ==> bestAccuracy == CalculateAccuracy(refs[bestIndex].1, retrieved).value
      invariant n > 0 ==> forall j :: 0 <= j < bestIndex ==> CalculateAccuracy(refs[j].1, retrieved).value < bestAccuracy
      invariant n > 0 ==> forall j :: bestIndex < j < n ==> CalculateAccuracy(refs[j].1, retrieved).value <= bestAccuracy
    {
      var (name, reference) := refs[n];
      var accuracy := CalculateAccuracy(reference, retrieved);
      if accuracy.Err? {
        assert |refs[n].1| == 0;
        assert !AllNonEmpty(refs);
        return Err(accuracy.error);
      }
      if accuracy.value > bestAccuracy {
        bestAccuracy := accuracy.value;
        best := Some(name);
        bestIndex := n;
      }
      n := n + 1;
    }
    assert AllNonEmpty(refs);
    if best.Some? {
      assert IsBest(refs, retrieved, bestIndex);
      assert refs[bestIndex].0 == best.value;
    }
    return Ok(best);
  }
}
