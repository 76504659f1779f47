/** Tables with given flag patterns for the metrics handler: a
    six-meal scenario, and the two inputs on which the handler's streak
    differs from the in-diet streak of the requesting user. */
module MetricsScenarios {
  import opened Http
  import opened Tables
  import opened Meals
  import opened Runs
  import opened Metrics

  lemma {:induction false} OwnedByAllOwned(table: seq<Meal>, userId: string)
    requires forall k :: 0 <= k < |table| ==> table[k].fkUserId == userId
    ensures OwnedBy(table, userId) == table
  {
    if table != [] {
      OwnedByAllOwned(table[1..], userId);
      assert table == [table[0]] + table[1..];
    }
  }

  /** The longest run of the flags true, true, false, true, true, true is 3. */
  lemma SixFlagsLongestRun(f: seq<bool>)
    requires f == [true, true, false, true, true, true]
    ensures IsLongestRun(f, BothFlags, 3)
  {
    forall a, b | 0 <= a < b <= |f| && UniformSegment(f, a, b) && f[a] in BothFlags
      ensures b - a <= 3
    {
      if a <= 2 < b {
        assert f[2] == f[a];
      }
      if 3 < b {
        assert f[3] == f[a];
      }
    }
    assert UniformSegment(f, 3, 6);
  }

  lemma SixFlagsCount(f: seq<bool>)
    requires f == [true, true, false, true, true, true]
    ensures Count(f, true) == 5 && Count(f, false) == 1
  {
    assert f == [true, true, false] + [true, true, true];
    CountAppend([true, true, false], [true, true, true], true);
    CountAppend([true, true, false], [true, true, true], false);
    assert [true, true, false][1..] == [true, false];
    assert [true, false][1..] == [false];
    assert [true, true, true][1..] == [true, true];
    assert [true, true][1..] == [true];
  }

  /** One user creates six meals with flags true, true, false, true, true,
      true, in that order, and nobody else has meals: six meals, five in the
      diet, one out, and a longest streak of three. */
  lemma SixMealScenario(table: seq<Meal>, userId: string)
    requires forall k :: 0 <= k < |table| ==> table[k].fkUserId == userId
    requires Flags(table) == [true, true, false, true, true, true]
    ensures GetMetrics(table, userId) == Reply(StatusOk, Some(MealMetrics(6, 5, 1, 3)))
  {
    OwnedByAllOwned(table, userId);
    DietCounts(table);
    var f := Flags(table);
    SixFlagsCount(f);
    SixFlagsLongestRun(f);
    var m := GetMetrics(table, userId).payload.value;
    LongestRunUnique(f, BothFlags, m.highestInDietSequence, 3);
  }

  /** Another user's two in-diet meals followed by one in-diet meal of
      `userId` form a single run: the handler reports a streak of three to a
      user who has one meal. */
  lemma StreakCountsOtherUsers(table: seq<Meal>, userId: string)
    requires |table| == 3
    requires table[0].fkUserId != userId && table[1].fkUserId != userId && table[2].fkUserId == userId
    requires Flags(table) == [true, true, true]
    ensures HighestSequenceAsWritten(table) == 3
    ensures HighestInDietSequence(table, userId) == 1
  {
    var f := Flags(table);
    assert UniformSegment(f, 0, 3);
    assert IsLongestRun(f, BothFlags, 3);
    LongestRunUnique(f, BothFlags, 3, HighestSequenceAsWritten(table));
    var owned := OwnedBy(table, userId);
    assert OwnedBy(table[2..], userId) == [table[2]] by {
      assert table[2..][1..] == [];
    }
    assert OwnedBy(table[1..], userId) == [table[2]] by {
      assert table[1..][1..] == table[2..];
    }
    assert owned == [table[2]];
    var g := Flags(owned);
    assert g == [true];
    assert UniformSegment(g, 0, 1);
    assert IsLongestRun(g, {true}, 1);
    LongestRunUnique(g, {true}, 1, HighestInDietSequence(table, userId));
  }

  /** Three out-of-diet meals followed by one in-diet meal: the handler
      reports a streak of three, the in-diet streak is one. */
  lemma StreakCountsOutOfDietRuns(table: seq<Meal>, userId: string)
    requires forall k :: 0 <= k < |table| ==> table[k].fkUserId == userId
    requires Flags(table) == [false, false, false, true]
    ensures HighestSequenceAsWritten(table) == 3
    ensures HighestInDietSequence(table, userId) == 1
  {
    var f := Flags(table);
    forall a, b | 0 <= a < b <= |f| && UniformSegment(f, a, b) && f[a] in BothFlags
      ensures b - a <= 3
    {
      if 3 < b {
        assert f[3] == f[a];
      }
    }
    assert UniformSegment(f, 0, 3);
    assert IsLongestRun(f, BothFlags, 3);
    LongestRunUnique(f, BothFlags, 3, HighestSequenceAsWritten(table));
    OwnedByAllOwned(table, userId);
    assert UniformSegment(f, 3, 4);
    assert IsLongestRun(f, {true}, 1);
    LongestRunUnique(f, {true}, 1, HighestInDietSequence(table, userId));
  }
}
