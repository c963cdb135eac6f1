/**
 The `/meals/info` aggregation: over one session's rows in the order the query
 returned them, the number of meals, of on-diet and off-diet meals, and the
 longest run of consecutive on-diet meals.
 */
module MealInfo {
  import opened MealRecord
  import opened Streak

  /** The response body of `GET /meals/info`. */
  datatype Summary = Summary(
    mealsCount: nat,
    mealsOnDietCount: nat,
    mealsOffDietCount: nat,
    bestSequenceOfMealsOnDiet: nat)

  predicate IsOnDiet(m: Meal) {
    m.isOnDiet
  }

  /** `meals.filter(meal => meal.is_on_diet)`. */
  function OnDiet(meals: seq<Meal>): (r: seq<Meal>)
    ensures forall m :: m in r <==> m in meals && m.isOnDiet
    ensures |r| == multiset(Flags(meals))[true]
  {
    OnDietCountIsFlagCount(meals);
    CountTrueIsMultiplicity(Flags(meals));
    Where(meals, IsOnDiet)
  }

  /** The on-diet filter has one row per `true` in the `is_on_diet` column. */
  lemma {:induction false} OnDietCountIsFlagCount(meals: seq<Meal>)
    ensures |Where(meals, IsOnDiet)| == CountTrue(Flags(meals))
  {
    if |meals| > 0 {
      var init := meals[..|meals| - 1];
      assert meals == init + [meals[|meals| - 1]];
      assert Flags(meals)[..|meals| - 1] == Flags(init);
      OnDietCountIsFlagCount(init);
    }
  }

  /**
   The summary of `meals` taken in the given order: the counts add up, the
   on-diet count is the number of on-diet rows, and the best sequence is the
   length of a run of consecutive on-diet meals that no other run exceeds.
   */
  function Summarize(meals: seq<Meal>): (r: Summary)
    ensures r.mealsCount == |meals|
    ensures r.mealsOnDietCount == multiset(Flags(meals))[true]
    ensures r.mealsOnDietCount + r.mealsOffDietCount == r.mealsCount
    ensures r.bestSequenceOfMealsOnDiet <= r.mealsOnDietCount
    ensures exists i: nat :: IsRunFrom(Flags(meals), i, r.bestSequenceOfMealsOnDiet)
    ensures forall i: nat, n: nat :: IsRunFrom(Flags(meals), i, n) ==> n <= r.bestSequenceOfMealsOnDiet
  {
    var flags := Flags(meals);
    OnDietCountIsFlagCount(meals);
    CountTrueIsMultiplicity(flags);
    LongestRunAtMostCount(flags);
    LongestRunIsLongest(flags);
    var onDiet := |OnDiet(meals)|;
    Summary(|meals|, onDiet, |meals| - onDiet, LongestRun(flags))
  }

  /**
   The handler's single pass: `current` counts the open run of on-diet meals,
   an off-diet meal closes it into `best`, and the comparison after the loop
   closes a run that reaches the last meal.
   */
  method SummarizeMeals(meals: seq<Meal>) returns (info: Summary)
    ensures info == Summarize(meals)
  {
    var mealsCount := |meals|;
    var mealsOnDietCount := |OnDiet(meals)|;
    var mealsOffDietCount := mealsCount - mealsOnDietCount;
    var best := BestSequence(meals);
    info := Summary(mealsCount, mealsOnDietCount, mealsOffDietCount, best);
  }

  /** The loop of the summary handler, on its own: the longest run of on-diet meals. */
  method BestSequence(meals: seq<Meal>) returns (best: nat)
    ensures best == LongestRun(Flags(meals))
  {
    best := 0;
    var current := 0;
    ghost var flags := Flags(meals);
    for i := 0 to |meals|
      invariant current == TrailingRun(flags[..i])
      invariant Max(best, current) == LongestRun(flags[..i])
    {
      assert flags[..i + 1][..i] == flags[..i];
      if meals[i].isOnDiet {
        current := current + 1;
        continue;
      }
      if current > best {
        best := current;
      }
      current := 0;
    }
    assert flags[..|meals|] == flags;
    if current > best {
      best := current;
    }
  }

  /** No meals: every figure is zero. */
  lemma SummaryOfNoMeals()
    ensures Summarize([]) == Summary(0, 0, 0, 0)
  {
  }

  /** When every meal is on diet, the best sequence is all of them. */
  lemma SummaryAllOnDiet(meals: seq<Meal>)
    requires forall k :: 0 <= k < |meals| ==> meals[k].isOnDiet
    ensures Summarize(meals) == Summary(|meals|, |meals|, 0, |meals|)
  {
    assert IsRunFrom(Flags(meals), 0, |meals|);
  }

  /** The history of the end-to-end test: Pizza, Salad, Donut, herbs, Creatine. */
  lemma SummaryOfTestHistory(meals: seq<Meal>)
    requires Flags(meals) == [false, true, false, true, true]
    ensures Summarize(meals) == Summary(5, 3, 2, 2)
  {
    var r := Summarize(meals);
    var flags := Flags(meals);
    assert IsRunFrom(flags, 3, 2);
    assert multiset(flags)[true] == 3 by {
      assert flags == [false] + [true] + [false] + [true] + [true];
    }
  }

  /** A history that ends inside a run of on-diet meals: that trailing run counts. */
  lemma SummaryCountsTrailingRun(meals: seq<Meal>)
    requires Flags(meals) == [false, true, true]
    ensures Summarize(meals).bestSequenceOfMealsOnDiet == 2
  {
    var flags := Flags(meals);
    assert IsRunFrom(flags, 1, 2);
    var r := Summarize(meals);
  }

  /** An off-diet meal between two on-diet ones splits them into two runs of one. */
  lemma SummaryOfSplitRun(meals: seq<Meal>)
    requires Flags(meals) == [true, false, true]
    ensures Summarize(meals).bestSequenceOfMealsOnDiet == 1
  {
    var flags := Flags(meals);
    var best := Summarize(meals).bestSequenceOfMealsOnDiet;
    assert IsRunFrom(flags, 0, 1);
    var i: nat :| IsRunFrom(flags, i, best);
    RunAvoidsFalse(flags, i, best, 1);
  }

  /** A longer history with three separate runs, the last one the longest. */
  lemma SummaryOfThreeRuns(meals: seq<Meal>)
    requires Flags(meals) == [true, false, true, true, false, true, true, true]
    ensures Summarize(meals) == Summary(8, 6, 2, 3)
  {
    var r := Summarize(meals);
    OnDietOfThreeRuns(Flags(meals));
    BestOfThreeRuns(Flags(meals), r.bestSequenceOfMealsOnDiet);
  }

  /** The three-run history has six on-diet entries. */
  lemma OnDietOfThreeRuns(flags: seq<bool>)
    requires flags == [true, false, true, true, false, true, true, true]
    ensures multiset(flags)[true] == 6
  {
    var front, back := [true, false, true, true], [false, true, true, true];
    assert multiset(front)[true] == 3 by { assert front == [true] + [false] + [true] + [true]; }
    assert multiset(back)[true] == 3 by { assert back == [false] + [true] + [true] + [true]; }
    assert flags == front + back;
  }

  /** In the three-run history, a longest run has length 3: the two off-diet entries cap every run. */
  lemma BestOfThreeRuns(flags: seq<bool>, best: nat)
    requires flags == [true, false, true, true, false, true, true, true]
    requires exists i: nat :: IsRunFrom(flags, i, best)
    requires forall i: nat, n: nat :: IsRunFrom(flags, i, n) ==> n <= best
    ensures best == 3
  {
    assert IsRunFrom(flags, 5, 3);
    var i: nat :| IsRunFrom(flags, i, best);
    RunAvoidsFalse(flags, i, best, 1);
    RunAvoidsFalse(flags, i, best, 4);
  }
}
