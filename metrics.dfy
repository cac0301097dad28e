/**
 * The diet-streak part of the metrics endpoint: over the caller's meals in
 * date-descending order, the longest stretch of consecutive diet meals.
 */
module Metrics {
  import opened MealRecords

  /** What the metrics endpoint replies. */
  datatype MetricsReport = MetricsReport(totalMeals: nat, totalDiets: nat, totalNotDiets: nat, sequenceMeals: nat)

  /** Meals i up to (not including) j are all diet meals. */
  ghost predicate IsDietRun(t: seq<Meal>, i: int, j: int)
  {
    0 <= i <= j <= |t| && forall k :: i <= k < j ==> t[k].diet
  }

  function Max(a: nat, b: nat): nat
  {
    if a >= b then a else b
  }

  /**
   * The length of the diet run that ends the sequence: the loop's `sequence`
   * once it has seen all of `t`. The run cannot be extended to the left.
   */
  function TrailingDietRun(t: seq<Meal>): (r: nat)
    ensures r <= |t|
    ensures IsDietRun(t, |t| - r, |t|)
    ensures r < |t| ==> !t[|t| - 1 - r].diet
  {
    if t == [] then 0
    else if t[|t| - 1].diet then
      var p := t[..|t| - 1];
      var r := TrailingDietRun(p) + 1;
      assert forall k :: |t| - r <= k < |t| - 1 ==> t[k] == p[k];
      r
    else 0
  }

  /**
   * The length of the longest diet run in `t`, meal by meal from the front:
   * the loop's `biggestSequence` once it has seen all of `t`.
   */
  function LongestDietRun(t: seq<Meal>): (r: nat)
    ensures TrailingDietRun(t) <= r <= |t|
  {
    if t == [] then 0 else Max(LongestDietRun(t[..|t| - 1]), TrailingDietRun(t))
  }

  /** Extending the prefix seen by one meal updates both runs as the loop body does. */
  lemma StreakStep(t: seq<Meal>, i: nat)
    requires i < |t|
    ensures TrailingDietRun(t[..i + 1]) == if t[i].diet then TrailingDietRun(t[..i]) + 1 else 0
    ensures LongestDietRun(t[..i + 1]) == Max(LongestDietRun(t[..i]), TrailingDietRun(t[..i + 1]))
  {
    assert t[..i + 1][..i] == t[..i];
  }

  /** A run that reaches the end of `t` is no longer than the trailing run. */
  lemma {:induction false} EndingRunBound(t: seq<Meal>, i: int)
    requires IsDietRun(t, i, |t|)
    ensures |t| - i <= TrailingDietRun(t)
    decreases |t|
  {
  }

  /** No diet run in `t` is longer than LongestDietRun(t). */
  lemma {:induction false} LongestDietRunIsUpperBound(t: seq<Meal>, i: int, j: int)
    requires IsDietRun(t, i, j)
    ensures j - i <= LongestDietRun(t)
    decreases |t|
  {
    if j == |t| {
      EndingRunBound(t, i);
    } else {
      var p := t[..|t| - 1];
      assert IsDietRun(p, i, j);
      LongestDietRunIsUpperBound(p, i, j);
    }
  }

  /** Some diet run in `t` is exactly LongestDietRun(t) long. */
  lemma {:induction false} LongestDietRunIsAttained(t: seq<Meal>)
    ensures exists i, j :: IsDietRun(t, i, j) && j - i == LongestDietRun(t)
    decreases |t|
  {
    if t == [] {
      assert IsDietRun(t, 0, 0);
    } else {
      var p := t[..|t| - 1];
      if LongestDietRun(t) == TrailingDietRun(t) {
        assert IsDietRun(t, |t| - TrailingDietRun(t), |t|);
      } else {
        LongestDietRunIsAttained(p);
        var i, j :| IsDietRun(p, i, j) && j - i == LongestDietRun(p);
        assert IsDietRun(t, i, j);
      }
    }
  }

  /** The streak is a maximum: attained by some run and bounding every run. */
  lemma LongestDietRunIsMaximum(t: seq<Meal>)
    ensures exists i, j :: IsDietRun(t, i, j) && j - i == LongestDietRun(t)
    ensures forall i, j :: IsDietRun(t, i, j) ==> j - i <= LongestDietRun(t)
  {
    LongestDietRunIsAttained(t);
    forall i, j | IsDietRun(t, i, j) ensures j - i <= LongestDietRun(t) {
      LongestDietRunIsUpperBound(t, i, j);
    }
  }

  /** The streak never exceeds the number of diet meals. */
  lemma {:induction false} LongestDietRunAtMostDietCount(t: seq<Meal>)
    ensures TrailingDietRun(t) <= DietCount(t, true)
    ensures LongestDietRun(t) <= DietCount(t, true)
  {
    if t != [] {
      LongestDietRunAtMostDietCount(t[..|t| - 1]);
    }
  }

  /** With no meals, or no diet meals, the streak is 0. */
  lemma {:induction false} NoDietNoStreak(t: seq<Meal>)
    requires forall k :: 0 <= k < |t| ==> !t[k].diet
    ensures LongestDietRun(t) == 0
  {
    LongestDietRunAtMostDietCount(t);
  }

  /** When every meal is a diet meal, the streak is the number of meals. */
  lemma AllDietStreakIsLength(t: seq<Meal>)
    requires forall k :: 0 <= k < |t| ==> t[k].diet
    ensures LongestDietRun(t) == |t|
  {
    LongestDietRunIsUpperBound(t, 0, |t|);
  }

  /**
   * What the metrics reply promises about the caller's meals `owned`: the two
   * diet counts add up to the number of meals, and the streak over the
   * date-ordered meals is a maximum no larger than the diet count.
   */
  lemma SortedReportFacts(owned: seq<Meal>)
    ensures DietCount(owned, true) + DietCount(owned, false) == |SortByDateDesc(owned)|
    ensures LongestDietRun(SortByDateDesc(owned)) <= DietCount(owned, true)
    ensures var ordered := SortByDateDesc(owned);
            (exists i, j :: IsDietRun(ordered, i, j) && j - i == LongestDietRun(ordered))
            && forall i, j :: IsDietRun(ordered, i, j) ==> j - i <= LongestDietRun(ordered)
  {
    var ordered := SortByDateDesc(owned);
    DietCountsPartition(owned);
    DietCountPermutation(ordered, owned, true);
    LongestDietRunAtMostDietCount(ordered);
    LongestDietRunIsMaximum(ordered);
  }

  /** Diet flags true, true, false, true (most recent first) give a streak of 2. */
  lemma StreakExample(a: Meal, b: Meal, c: Meal, d: Meal)
    requires a.diet && b.diet && !c.diet && d.diet
    ensures LongestDietRun([a, b, c, d]) == 2
    ensures DietCount([a, b, c, d], true) == 3 && DietCount([a, b, c, d], false) == 1
  {
    var t := [a, b, c, d];
    assert t[..3] == [a, b, c] && t[..3][..2] == [a, b] && [a, b][..1] == [a] && [a][..0] == [];
    assert DietCount([a], true) == 1 && DietCount([a], false) == 0;
    assert DietCount([a, b], true) == 2 && DietCount([a, b], false) == 0;
    assert DietCount([a, b, c], true) == 2 && DietCount([a, b, c], false) == 1;
  }
}
