/** The Monty Hall game: one show with its random draws as parameters, the
    rule that decides its outcome, and the average over a series of shows. */
module MontyHall {
  import opened Wrappers

  datatype Prize = Goat1 | Goat2 | Car

  /** No prize appears twice. */
  predicate Distinct(s: seq<Prize>)
  {
    forall i, j :: 0 <= i < j < |s| ==> s[i] != s[j]
  }

  /** `list.remove(x)`: drops the first occurrence of `x`. */
  function Remove(s: seq<Prize>, x: Prize): (r: seq<Prize>)
    requires x in s
    ensures |r| == |s| - 1
  {
    if s[0] == x then s[1..] else [s[0]] + Remove(s[1..], x)
  }

  /** From a list without repetitions, `remove` drops exactly the prize named. */
  lemma {:induction false} RemoveDistinct(s: seq<Prize>, x: Prize)
    requires x in s && Distinct(s)
    ensures Distinct(Remove(s, x))
    ensures forall y :: y in Remove(s, x) <==> y in s && y != x
  {
    var t := s[1..];
    assert Distinct(t);
    assert s[0] !in t;
    if s[0] != x {
      assert x in t;
      RemoveDistinct(t, x);
      assert Remove(s, x) == [s[0]] + Remove(t, x);
    }
  }

  /** Every shuffle hides the car behind one of its doors. */
  lemma ShuffleHasCar(s: seq<Prize>)
    requires IsShuffle(s)
    ensures Car in s
  {
    assert s[0] != s[1] && s[0] != s[2] && s[1] != s[2];
  }

  /** A shuffle of `['goat1', 'goat2', 'car']`: three different prizes. */
  predicate IsShuffle(shuffled: seq<Prize>)
  {
    |shuffled| == 3 && Distinct(shuffled)
  }

  /** The outcome rule: switching wins exactly when the first pick was a goat,
      staying exactly when it was the car. */
  function Wins(switchPolicy: bool, firstPick: Prize): bool
  {
    if switchPolicy then firstPick != Car else firstPick == Car
  }

  /** `monty_hall_show(switch_policy)`. `shuffled` is the list after
      `random.shuffle`, `pick` the index `random.choice` takes from it, and
      `hostDraw` the index of the host's `random.choice` among the two goats
      left when the contestant picked the car. Besides the outcome, the
      contestant's first pick, the door the host reveals and the doors left
      are returned. */
  method MontyHallShow(switchPolicy: bool, shuffled: seq<Prize>, pick: nat, hostDraw: nat)
    returns (win: bool, firstPick: Prize, revealed: Prize, remaining: seq<Prize>)
    requires IsShuffle(shuffled)
    requires pick < 3 && hostDraw < 2
    ensures firstPick == shuffled[pick]
    ensures revealed != firstPick && revealed != Car
    ensures |remaining| == 1 && remaining[0] != firstPick && remaining[0] != revealed
    ensures win == Wins(switchPolicy, firstPick)
  {
    win := false;
    var choices := shuffled;
    var contestantsChoice := choices[pick];
    firstPick := contestantsChoice;
    RemoveDistinct(choices, contestantsChoice);
    choices := Remove(choices, contestantsChoice);
    if Car !in choices {
      ShuffleHasCar(shuffled);
      revealed := choices[hostDraw];
      RemoveDistinct(choices, revealed);
      choices := Remove(choices, revealed);
      assert choices[0] in choices;
    } else {
      RemoveDistinct(choices, Car);
      choices := Remove(choices, Car);
      revealed := choices[0];
      assert revealed in choices;
      choices := [Car];
    }
    if switchPolicy {
      contestantsChoice := choices[0];
    }
    if contestantsChoice == Car {
      win := true;
    }
    remaining := choices;
  }

  /** The picks with which the policy wins. */
  function WinningPicks(switchPolicy: bool, shuffled: seq<Prize>): set<int>
    requires |shuffled| == 3
  {
    set i | 0 <= i < 3 && Wins(switchPolicy, shuffled[i])
  }

  /** For any shuffle, switching wins for two of the three picks and staying
      for the remaining one. */
  lemma SwitchingWinsTwoOfThree(shuffled: seq<Prize>)
    requires IsShuffle(shuffled)
    ensures |WinningPicks(true, shuffled)| == 2 && |WinningPicks(false, shuffled)| == 1
  {
    var c := if shuffled[0] == Car then 0 else if shuffled[1] == Car then 1 else 2;
    assert shuffled[c] == Car;
    assert WinningPicks(false, shuffled) == {c};
    assert WinningPicks(true, shuffled) == {0, 1, 2} - {c};
  }

  // ---------------------------------------------------------------------------
  // Series of experiments

  /** The random draws of one show. */
  datatype Draw = Draw(shuffled: seq<Prize>, pick: nat, hostDraw: nat)

  predicate ValidDraw(d: Draw)
  {
    IsShuffle(d.shuffled) && d.pick < 3 && d.hostDraw < 2
  }

  /** The number of shows among `draws` that the policy wins. */
  function CountWins(switchPolicy: bool, draws: seq<Draw>): (w: nat)
    requires forall k :: 0 <= k < |draws| ==> ValidDraw(draws[k])
    ensures w <= |draws|
  {
    if |draws| == 0 then 0
    else
      var n := |draws| - 1;
      assert ValidDraw(draws[n]);
      CountWins(switchPolicy, draws[..n]) + if Wins(switchPolicy, draws[n].shuffled[draws[n].pick]) then 1 else 0
  }

  /** On the same draws, the shows that switching wins are exactly those that
      staying loses. */
  lemma {:induction false} PoliciesComplement(draws: seq<Draw>)
    requires forall k :: 0 <= k < |draws| ==> ValidDraw(draws[k])
    ensures CountWins(true, draws) + CountWins(false, draws) == |draws|
  {
    if |draws| > 0 {
      PoliciesComplement(draws[..|draws| - 1]);
    }
  }

  /** The number of shows `range(quantity_of_runs)` runs. */
  function Runs(quantity: int): nat
  {
    if quantity > 0 then quantity else 0
  }

  /** The list comprehension of `series_of_experiments`, summed: one show per
      draw, counting those won. */
  method PlayShows(switchPolicy: bool, draws: seq<Draw>) returns (wins: nat)
    requires forall k :: 0 <= k < |draws| ==> ValidDraw(draws[k])
    ensures wins == CountWins(switchPolicy, draws)
  {
    wins := 0;
    var k := 0;
    while k < |draws|
      invariant 0 <= k <= |draws|
      invariant wins == CountWins(switchPolicy, draws[..k])
    {
      var d := draws[k];
      var win, firstPick, revealed, remaining := MontyHallShow(switchPolicy, d.shuffled, d.pick, d.hostDraw);
      assert draws[..k + 1][..k] == draws[..k];
      wins := wins + if win then 1 else 0;
      k := k + 1;
    }
    assert draws[..k] == draws;
  }

  lemma FractionBounds(w: nat, n: int)
    requires w == 0 || 0 < w <= n
    requires n != 0
    ensures 0.0 <= w as real / n as real <= 1.0
  {
  }

  /** `series_of_experiments(quantity_of_runs, switching_policy)`: the fraction
      of the shows won; zero runs divides by zero, and a negative number of
      runs runs no show and averages to zero. */
  method SeriesOfExperiments(quantity: int, switchPolicy: bool, draws: seq<Draw>) returns (res: Result<real>)
    requires |draws| == Runs(quantity)
    requires forall k :: 0 <= k < |draws| ==> ValidDraw(draws[k])
    ensures res.Err? <==> quantity == 0
    ensures res.Err? ==> res.error == ZeroDivision
    ensures res.Ok? ==> res.value == CountWins(switchPolicy, draws) as real / quantity as real
    ensures res.Ok? ==> 0.0 <= res.value <= 1.0
  {
    var wins := PlayShows(switchPolicy, draws);
    if quantity == 0 {
      return Err(ZeroDivision);
    }
    FractionBounds(wins, quantity);
    return Ok(wins as real / quantity as real);
  }
}
