/**
 * The schedule recommender: given places, each with a visit duration and a
 * score, and a time budget, find the largest total score of a set of places
 * whose durations fit in the budget (a 0/1 knapsack).
 *
 * `MaxScore` is the un-memoised recursion of `find_max_score`; `Memo` is the
 * memo dictionary that the recursion fills in place, and `Memo.FindMaxScore`
 * is the memoised recursion proved equal to `MaxScore`.
 */
module Schedule {

  /** One candidate place: how long a visit takes and what it is worth. */
  datatype Place = Place(duration: int, score: int)

  function Max(a: int, b: int): (m: int)
    ensures m >= a && m >= b && (m == a || m == b)
  {
    if a >= b then a else b
  }

  /**
   * Best score obtainable from `places[i..]` with `remain` time units left:
   * either skip place `i`, or take it when its duration fits.
   */
  function MaxScore(places: seq<Place>, i: nat, remain: int): (r: int)
    ensures r >= 0
    decreases |places| - i
  {
    if i >= |places| then 0
    else
      var skip := MaxScore(places, i + 1, remain);
      if places[i].duration <= remain then
        Max(MaxScore(places, i + 1, remain - places[i].duration) + places[i].score, skip)
      else skip
  }

  /**
   * The three cases of the recursion: past the last place the best score is
   * 0; otherwise it is never below skipping place `i`, nor below taking it
   * when it fits, with the remaining time lowered by its duration.
   */
  lemma MaxScoreCases(places: seq<Place>, i: nat, remain: int)
    ensures i >= |places| ==> MaxScore(places, i, remain) == 0
    ensures i < |places| ==> MaxScore(places, i, remain) >= MaxScore(places, i + 1, remain)
    ensures i < |places| && places[i].duration <= remain ==>
              MaxScore(places, i, remain) >= MaxScore(places, i + 1, remain - places[i].duration) + places[i].score
  {
  }

  /** Every place takes a non-negative amount of time. */
  ghost predicate NonNegativeDurations(places: seq<Place>) {
    forall k :: 0 <= k < |places| ==> places[k].duration >= 0
  }

  /**
   * A selection of `places[i..]`: `picks[j]` says whether `places[i + j]` is
   * visited. `TotalDuration` and `TotalScore` add up the selected places.
   */
  function TotalDuration(places: seq<Place>, i: nat, picks: seq<bool>): int
    requires i + |picks| == |places|
    decreases |picks|
  {
    if picks == [] then 0
    else (if picks[0] then places[i].duration else 0) + TotalDuration(places, i + 1, picks[1..])
  }

  function TotalScore(places: seq<Place>, i: nat, picks: seq<bool>): int
    requires i + |picks| == |places|
    decreases |picks|
  {
    if picks == [] then 0
    else (if picks[0] then places[i].score else 0) + TotalScore(places, i + 1, picks[1..])
  }

  /** A selection of `places[i..]` whose durations add up to at most `remain`. */
  ghost predicate Fits(places: seq<Place>, i: nat, picks: seq<bool>, remain: int) {
    i + |picks| == |places| && TotalDuration(places, i, picks) <= remain
  }

  /**
   * The selection the recursion chooses: place `i` is taken exactly when its
   * duration fits and taking it scores at least as much as skipping it.
   */
  function Itinerary(places: seq<Place>, i: nat, remain: int): (picks: seq<bool>)
    requires i <= |places|
    ensures i + |picks| == |places|
    ensures TotalScore(places, i, picks) == MaxScore(places, i, remain)
    ensures remain >= 0 ==> TotalDuration(places, i, picks) <= remain
    ensures i < |places| && picks[0] ==> places[i].duration <= remain
    decreases |places| - i
  {
    if i == |places| then []
    else
      var skip := MaxScore(places, i + 1, remain);
      if places[i].duration <= remain
         && MaxScore(places, i + 1, remain - places[i].duration) + places[i].score >= skip
      then [true] + Itinerary(places, i + 1, remain - places[i].duration)
      else [false] + Itinerary(places, i + 1, remain)
  }

  lemma {:induction false} TotalDurationNonNegative(places: seq<Place>, i: nat, picks: seq<bool>)
    requires i + |picks| == |places|
    requires NonNegativeDurations(places)
    ensures TotalDuration(places, i, picks) >= 0
    decreases |picks|
  {
    if picks != [] {
      TotalDurationNonNegative(places, i + 1, picks[1..]);
    }
  }

  /** No selection that fits the budget scores more than `MaxScore`. */
  lemma {:induction false} FittingSelectionBounded(places: seq<Place>, i: nat, picks: seq<bool>, remain: int)
    requires NonNegativeDurations(places)
    requires Fits(places, i, picks, remain)
    ensures TotalScore(places, i, picks) <= MaxScore(places, i, remain)
    decreases |picks|
  {
    if picks != [] {
      var rest := picks[1..];
      var d := places[i].duration;
      TotalDurationNonNegative(places, i + 1, rest);
      if picks[0] {
        assert TotalDuration(places, i, picks) == d + TotalDuration(places, i + 1, rest);
        assert d <= remain;
        FittingSelectionBounded(places, i + 1, rest, remain - d);
        assert TotalScore(places, i, picks) == places[i].score + TotalScore(places, i + 1, rest);
        assert MaxScore(places, i, remain) >= MaxScore(places, i + 1, remain - d) + places[i].score;
      } else {
        assert TotalDuration(places, i, picks) == TotalDuration(places, i + 1, rest);
        FittingSelectionBounded(places, i + 1, rest, remain);
        assert TotalScore(places, i, picks) == TotalScore(places, i + 1, rest);
      }
    }
  }

  /**
   * `MaxScore` is the maximum total score over the selections of
   * `places[i..]` whose durations fit in `remain`: one selection reaches it,
   * and none exceeds it.
   */
  lemma MaxScoreIsOptimal(places: seq<Place>, i: nat, remain: int)
    requires i <= |places| && remain >= 0
    requires NonNegativeDurations(places)
    ensures Fits(places, i, Itinerary(places, i, remain), remain)
    ensures TotalScore(places, i, Itinerary(places, i, remain)) == MaxScore(places, i, remain)
    ensures forall picks :: Fits(places, i, picks, remain) ==>
              TotalScore(places, i, picks) <= MaxScore(places, i, remain)
  {
    forall picks | Fits(places, i, picks, remain)
      ensures TotalScore(places, i, picks) <= MaxScore(places, i, remain)
    {
      FittingSelectionBounded(places, i, picks, remain);
    }
  }

  /** More time never lowers the best score. */
  lemma {:induction false} MaxScoreMonotone(places: seq<Place>, i: nat, remain: int, more: int)
    requires remain <= more
    ensures MaxScore(places, i, remain) <= MaxScore(places, i, more)
    decreases |places| - i
  {
    if i < |places| {
      var d, s := places[i].duration, places[i].score;
      MaxScoreMonotone(places, i + 1, remain, more);
      var skipMore := MaxScore(places, i + 1, more);
      assert MaxScore(places, i, more) >= skipMore;
      if d <= remain {
        MaxScoreMonotone(places, i + 1, remain - d, more - d);
        var takeMore := MaxScore(places, i + 1, more - d) + s;
        assert MaxScore(places, i, more) >= takeMore;
      }
    }
  }

  /**
   * The memo dictionary `memo[(i, remain_time)]` that the recursion fills.
   * It is sound for a list of places when every entry is the un-memoised
   * value, so a cache hit returns what recomputing would.
   */
  class Memo {
    var table: map<(nat, int), int>

    ghost predicate Sound(places: seq<Place>)
      reads this
    {
      forall key :: key in table ==> table[key] == MaxScore(places, key.0, key.1)
    }

    constructor ()
      ensures table == map[]
    {
      table := map[];
    }

    /** `find_max_score(i, remain_time, places, memo)`. */
    method FindMaxScore(i: nat, remain: int, places: seq<Place>) returns (result: int)
      requires Sound(places)
      modifies this
      ensures Sound(places)
      ensures result == MaxScore(places, i, remain)
      ensures old(table).Keys <= table.Keys
      ensures i < |places| ==> (i, remain) in table
      decreases |places| - i
    {
      if i >= |places| {
        return 0;
      }
      if (i, remain) in table {
        return table[(i, remain)];
      }
      result := FindMaxScore(i + 1, remain, places);
      var duration, score := places[i].duration, places[i].score;
      if duration <= remain {
        var cand := FindMaxScore(i + 1, remain - duration, places);
        cand := cand + score;
        result := Max(cand, result);
      }
      table := table[(i, remain) := result];
    }
  }

  /** `find_max_score(0, m, places, {})`: a fresh memo, from the first place. */
  method Recommend(places: seq<Place>, budget: int) returns (best: int)
    ensures best == MaxScore(places, 0, budget)
    ensures best >= 0
    ensures budget >= 0 ==> exists picks :: Fits(places, 0, picks, budget) && TotalScore(places, 0, picks) == best
    ensures NonNegativeDurations(places) ==>
              forall picks :: Fits(places, 0, picks, budget) ==> TotalScore(places, 0, picks) <= best
  {
    var memo := new Memo();
    best := memo.FindMaxScore(0, budget, places);
    if budget >= 0 {
      var picks := Itinerary(places, 0, budget);
      assert Fits(places, 0, picks, budget);
    }
    if NonNegativeDurations(places) {
      forall picks | Fits(places, 0, picks, budget)
        ensures TotalScore(places, 0, picks) <= best
      {
        FittingSelectionBounded(places, 0, picks, budget);
      }
    }
  }

  /** The two cases of `test()`. */
  method TestExamples() returns (five: int, three: int)
    ensures five == 40 && three == 30
  {
    var places := [Place(2, 5), Place(5, 20), Place(1, 10), Place(3, 30)];
    five := Recommend(places, 5);
    three := Recommend(places, 3);
    assert MaxScore(places, 3, 0) == 0 && MaxScore(places, 3, 1) == 0 && MaxScore(places, 3, 2) == 0;
    assert MaxScore(places, 3, 3) == 30 && MaxScore(places, 3, 4) == 30 && MaxScore(places, 3, 5) == 30;
    assert MaxScore(places, 2, 1) == 10 && MaxScore(places, 2, 3) == 30 && MaxScore(places, 2, 5) == 40;
    assert MaxScore(places, 2, -2) == 0 && MaxScore(places, 2, 0) == 0;
    assert MaxScore(places, 1, 3) == 30 && MaxScore(places, 1, 5) == 40 && MaxScore(places, 1, 1) == 10;
  }
}
