/** GET `/metrics`: three aggregate queries over the `meals` table. The rows
    are taken to be stored in `created_at` order, the order both window
    functions of the grouped query use. */
module Metrics {
  import opened Http
  import opened Tables
  import opened Meals
  import opened Runs

  datatype MealMetrics = MealMetrics(
    totalMeals: nat,
    inDietMeals: nat,
    outOfDietMeals: int,
    highestInDietSequence: nat)

  /** Every flag value: the reduce of the handler keeps groups of both flags. */
  const BothFlags: set<bool> := {false, true}

  /** The `is_inside_diet` column, in `created_at` order. */
  function Flags(table: seq<Meal>): (f: seq<bool>)
    ensures |f| == |table|
    ensures forall k :: 0 <= k < |table| ==> f[k] == table[k].isInsideDiet
  {
    seq(|table|, k requires 0 <= k < |table| => table[k].isInsideDiet)
  }

  /** `where({ is_inside_diet: true })` */
  function InDiet(meals: seq<Meal>): (r: seq<Meal>)
    ensures forall m :: m in r <==> m in meals && m.isInsideDiet
  {
    if meals == [] then []
    else (if meals[0].isInsideDiet then [meals[0]] else []) + InDiet(meals[1..])
  }

  /** The meals with the in-diet flag false. */
  function OutOfDiet(meals: seq<Meal>): (r: seq<Meal>)
    ensures forall m :: m in r <==> m in meals && !m.isInsideDiet
  {
    if meals == [] then []
    else (if meals[0].isInsideDiet then [] else [meals[0]]) + OutOfDiet(meals[1..])
  }

  /** Every meal is either in or out of the diet. */
  lemma {:induction false} DietSplit(meals: seq<Meal>)
    ensures |InDiet(meals)| + |OutOfDiet(meals)| == |meals|
  {
    if meals != [] {
      DietSplit(meals[1..]);
    }
  }

  /** The grouped query over every row of the table followed by the reduce
      over every group, as the handler runs them. */
  function HighestSequenceAsWritten(table: seq<Meal>): (n: nat)
    ensures IsLongestRun(Flags(table), BothFlags, n)
    ensures n == 0 <==> table == []
    ensures n <= |table|
  {
    var f := Flags(table);
    KeepAll(GroupBy(f));
    GroupedReduceIsLongestRun(f, BothFlags);
    var n := Reduce(GroupBy(f), 0);
    LongestRunBounds(f, BothFlags, n);
    n
  }

  /** The grouped query over the user's rows followed by the reduce over the
      in-diet groups only. */
  function HighestInDietSequence(table: seq<Meal>, userId: string): (n: nat)
    ensures IsLongestRun(Flags(OwnedBy(table, userId)), {true}, n)
    ensures n == 0 <==> InDiet(OwnedBy(table, userId)) == []
    ensures n <= |OwnedBy(table, userId)|
  {
    var owned := OwnedBy(table, userId);
    var f := Flags(owned);
    GroupedReduceIsLongestRun(f, {true});
    var n := Reduce(Keep(GroupBy(f), {true}), 0);
    LongestRunBounds(f, {true}, n);
    NoStreakIffNoInDiet(owned, n);
    n
  }

  /** The in-diet streak is 0 exactly when there is no in-diet meal. */
  lemma NoStreakIffNoInDiet(meals: seq<Meal>, n: nat)
    requires n == 0 <==> forall j :: 0 <= j < |meals| ==> Flags(meals)[j] !in {true}
    ensures n == 0 <==> InDiet(meals) == []
  {
    if InDiet(meals) != [] {
      var m :| m in InDiet(meals);
      var k :| 0 <= k < |meals| && meals[k] == m;
      assert Flags(meals)[k] in {true};
    }
  }

  /** The metrics object of the handler. */
  function GetMetrics(table: seq<Meal>, userId: string): (r: Reply<MealMetrics>)
    ensures r.Reply? && r.code == StatusOk && r.payload.Some?
    ensures var m := r.payload.value;
      && m.totalMeals == |OwnedBy(table, userId)|
      && m.inDietMeals == |InDiet(OwnedBy(table, userId))|
      && m.outOfDietMeals == |OutOfDiet(OwnedBy(table, userId))|
      && 0 <= m.outOfDietMeals <= m.totalMeals
      && IsLongestRun(Flags(table), BothFlags, m.highestInDietSequence)
  {
    var owned := OwnedBy(table, userId);
    DietSplit(owned);
    var total := |owned|;
    var inDiet := |InDiet(owned)|;
    Reply(StatusOk, Some(MealMetrics(total, inDiet, total - inDiet, HighestSequenceAsWritten(table))))
  }

  /** The metrics with the streak computed as intended: over the user's meals
      and over in-diet runs only. */
  function GetMetricsIntended(table: seq<Meal>, userId: string): (r: Reply<MealMetrics>)
    ensures r.Reply? && r.code == StatusOk && r.payload.Some?
    ensures var m := r.payload.value;
      && m.totalMeals == |OwnedBy(table, userId)|
      && m.inDietMeals == |InDiet(OwnedBy(table, userId))|
      && m.outOfDietMeals == |OutOfDiet(OwnedBy(table, userId))|
      && IsLongestRun(Flags(OwnedBy(table, userId)), {true}, m.highestInDietSequence)
      && m.highestInDietSequence <= m.inDietMeals
  {
    var owned := OwnedBy(table, userId);
    DietSplit(owned);
    var total := |owned|;
    var inDiet := |InDiet(owned)|;
    var streak := HighestInDietSequence(table, userId);
    LongestTrueRunAtMostTrueCount(owned, streak);
    Reply(StatusOk, Some(MealMetrics(total, inDiet, total - inDiet, streak)))
  }

  /** A run of in-diet meals is no longer than the number of in-diet meals. */
  lemma LongestTrueRunAtMostTrueCount(meals: seq<Meal>, n: nat)
    requires IsLongestRun(Flags(meals), {true}, n)
    ensures n <= |InDiet(meals)|
  {
    if n != 0 {
      var f := Flags(meals);
      var a, b :| 0 <= a < b <= |f| && UniformSegment(f, a, b) && f[a] in {true} && b - a == n;
      SegmentInDiet(meals, a, b);
    }
  }

  /** An in-diet stretch `[a, b)` of the table contributes `b - a` rows to
      the in-diet filter. */
  lemma {:induction false} SegmentInDiet(meals: seq<Meal>, a: nat, b: nat)
    requires a <= b <= |meals|
    requires forall j :: a <= j < b ==> meals[j].isInsideDiet
    ensures b - a <= |InDiet(meals)|
  {
    if a < b {
      if a == 0 {
        SegmentInDiet(meals[1..], 0, b - 1);
      } else {
        SegmentInDiet(meals[1..], a - 1, b - 1);
      }
    }
  }

  /** The in-diet and out-of-diet filters count the true and false flags. */
  lemma {:induction false} DietCounts(meals: seq<Meal>)
    ensures |InDiet(meals)| == Count(Flags(meals), true)
    ensures |OutOfDiet(meals)| == Count(Flags(meals), false)
  {
    if meals != [] {
      DietCounts(meals[1..]);
      assert Flags(meals)[1..] == Flags(meals[1..]);
    }
  }
}
