/** The "gaps and islands" grouping of the metrics query, over the in-diet
    flags of the rows in `created_at` order:

      grp = row_number() over (order by created_at)
          - row_number() over (partition by is_inside_diet order by created_at)

    followed by `group by grp, is_inside_diet` with `count(*) as total`, and
    a reduce that keeps the largest total. The module proves that the groups
    are exactly the maximal runs of equal flags, so the reduce yields the
    longest run. */
module Runs {

  /** How many entries of `f` equal `b`. */
  function Count(f: seq<bool>, b: bool): (n: nat)
    ensures n <= |f|
  {
    if f == [] then 0 else (if f[0] == b then 1 else 0) + Count(f[1..], b)
  }

  lemma {:induction false} CountAppend(a: seq<bool>, c: seq<bool>, b: bool)
    ensures Count(a + c, b) == Count(a, b) + Count(c, b)
  {
    if a == [] {
      assert a + c == c;
    } else {
      assert (a + c)[1..] == a[1..] + c;
      CountAppend(a[1..], c, b);
    }
  }

  lemma {:induction false} CountComplement(f: seq<bool>, b: bool)
    ensures Count(f, b) + Count(f, !b) == |f|
  {
    if f != [] {
      CountComplement(f[1..], b);
    }
  }

  lemma {:induction false} CountZero(f: seq<bool>, b: bool)
    ensures Count(f, b) == 0 <==> forall j :: 0 <= j < |f| ==> f[j] != b
  {
    if f != [] {
      CountZero(f[1..], b);
      assert forall j :: 1 <= j < |f| ==> f[j] == f[1..][j - 1];
    }
  }

  /** `row_number() over (order by created_at)` of row `i`: the number of
      rows up to and including it, of either flag. */
  function RowNumber(f: seq<bool>, i: nat): (r: nat)
    requires i < |f|
    ensures r == Count(f[..i + 1], f[i]) + Count(f[..i + 1], !f[i])
  {
    CountComplement(f[..i + 1], f[i]);
    i + 1
  }

  /** `row_number() over (partition by is_inside_diet order by created_at)`
      of row `i`: its position among the rows with its own flag. */
  function PartitionRowNumber(f: seq<bool>, i: nat): (r: nat)
    requires i < |f|
    ensures 1 <= r <= RowNumber(f, i)
  {
    assert f[..i + 1] == f[..i] + [f[i]];
    CountAppend(f[..i], [f[i]], f[i]);
    assert [f[i]][1..] == [];
    Count(f[..i + 1], f[i])
  }

  /** The `grp` column of row `i`. */
  function Grp(f: seq<bool>, i: nat): (r: int)
    requires i < |f|
    ensures 0 <= r <= i
  {
    RowNumber(f, i) - PartitionRowNumber(f, i)
  }

  /** The `group by grp, is_inside_diet` key of row `i`. */
  datatype GroupKey = GroupKey(grp: int, flag: bool)

  function Key(f: seq<bool>, i: nat): GroupKey
    requires i < |f|
  {
    GroupKey(Grp(f, i), f[i])
  }

  /** `grp` counts the earlier rows whose flag differs. */
  lemma GrpCountsOthers(f: seq<bool>, i: nat)
    requires i < |f|
    ensures Grp(f, i) == Count(f[..i], !f[i])
  {
    assert f[..i + 1] == f[..i] + [f[i]];
    CountAppend(f[..i], [f[i]], f[i]);
    assert Count([f[i]], f[i]) == 1 by {
      assert [f[i]][1..] == [];
    }
    CountComplement(f[..i], f[i]);
  }

  /** Between two rows with equal flags, `grp` grows by the number of rows of
      the other flag in between. */
  lemma GrpStep(f: seq<bool>, i: nat, k: nat)
    requires i <= k < |f| && f[i] == f[k]
    ensures Grp(f, k) == Grp(f, i) + Count(f[i..k], !f[i])
  {
    GrpCountsOthers(f, i);
    GrpCountsOthers(f, k);
    assert f[..k] == f[..i] + f[i..k];
    CountAppend(f[..i], f[i..k], !f[i]);
  }

  /** `f` is constant on the closed index range `[lo, hi]`. */
  ghost predicate Uniform(f: seq<bool>, lo: nat, hi: nat)
    requires lo <= hi < |f|
  {
    forall j :: lo <= j <= hi ==> f[j] == f[lo]
  }

  /** Rows `i` and `k` lie in the same maximal run of equal flags. */
  ghost predicate SameRun(f: seq<bool>, i: nat, k: nat)
    requires i < |f| && k < |f|
  {
    if i <= k then Uniform(f, i, k) else Uniform(f, k, i)
  }

  /** Two rows share a `(grp, is_inside_diet)` key exactly when they lie in
      the same maximal run. */
  lemma {:induction false} KeyIffSameRun(f: seq<bool>, i: nat, k: nat)
    requires i < |f| && k < |f|
    ensures Key(f, i) == Key(f, k) <==> SameRun(f, i, k)
  {
    if k < i {
      KeyIffSameRun(f, k, i);
    } else if f[i] == f[k] {
      GrpStep(f, i, k);
      CountZero(f[i..k], !f[i]);
      if Uniform(f, i, k) {
        forall j | 0 <= j < |f[i..k]| ensures f[i..k][j] != !f[i] {
          assert f[i..k][j] == f[i + j];
        }
      } else {
        var j :| i <= j <= k && f[j] != f[i];
        assert f[i..k][j - i] == f[j];
      }
    }
  }

  /** The first row of the run containing row `i`. */
  function RunStart(f: seq<bool>, i: nat): (s: nat)
    requires i < |f|
    ensures s <= i
    ensures s == 0 || f[s - 1] != f[i]
    ensures forall j :: s <= j <= i ==> f[j] == f[i]
    decreases i
  {
    if i > 0 && f[i - 1] == f[i] then RunStart(f, i - 1) else i
  }

  /** One past the last row of the run containing row `i`. */
  function RunEnd(f: seq<bool>, i: nat): (e: nat)
    requires i < |f|
    ensures i < e <= |f|
    ensures e == |f| || f[e] != f[i]
    ensures forall j :: i <= j < e ==> f[j] == f[i]
    decreases |f| - i
  {
    if i + 1 < |f| && f[i + 1] == f[i] then RunEnd(f, i + 1) else i + 1
  }

  /** The length of the maximal run containing row `i`. */
  function RunLength(f: seq<bool>, i: nat): (n: nat)
    requires i < |f|
    ensures 1 <= n <= |f|
  {
    RunEnd(f, i) - RunStart(f, i)
  }

  /** The maximal run containing row `i` is the index range
      `[RunStart, RunEnd)`. */
  lemma SameRunIffInRun(f: seq<bool>, i: nat, k: nat)
    requires i < |f| && k < |f|
    ensures SameRun(f, i, k) <==> RunStart(f, i) <= k < RunEnd(f, i)
  {
  }

  /** Rows of one run have one run length. */
  lemma SameRunSameLength(f: seq<bool>, i: nat, k: nat)
    requires i < |f| && k < |f| && SameRun(f, i, k)
    ensures RunStart(f, i) == RunStart(f, k) && RunEnd(f, i) == RunEnd(f, k)
  {
  }

  /** `count(*)` of the group with key `key` among the first `n` rows. */
  function GroupSize(f: seq<bool>, key: GroupKey, n: nat): (r: nat)
    requires n <= |f|
    ensures r <= n
  {
    if n == 0 then 0 else GroupSize(f, key, n - 1) + (if Key(f, n - 1) == key then 1 else 0)
  }

  /** The group of row `i` holds exactly the rows of its run. */
  lemma {:induction false} GroupSizePrefix(f: seq<bool>, i: nat, n: nat)
    requires i < |f| && n <= |f|
    ensures var s, e := RunStart(f, i), RunEnd(f, i);
      GroupSize(f, Key(f, i), n) == if n <= s then 0 else if n <= e then n - s else e - s
  {
    if n > 0 {
      GroupSizePrefix(f, i, n - 1);
      KeyIffSameRun(f, i, n - 1);
      SameRunIffInRun(f, i, n - 1);
    }
  }

  lemma GroupSizeIsRunLength(f: seq<bool>, i: nat)
    requires i < |f|
    ensures GroupSize(f, Key(f, i), |f|) == RunLength(f, i)
  {
    GroupSizePrefix(f, i, |f|);
  }

  /** Row `i` is the first row with its key. */
  predicate FirstOfKey(f: seq<bool>, i: nat)
    requires i < |f|
  {
    forall j :: 0 <= j < i ==> Key(f, j) != Key(f, i)
  }

  /** One group per run: the first row of a key is the first row of a run. */
  lemma FirstOfKeyIffRunStart(f: seq<bool>, i: nat)
    requires i < |f|
    ensures FirstOfKey(f, i) <==> RunStart(f, i) == i
  {
    if RunStart(f, i) < i {
      KeyIffSameRun(f, i - 1, i);
      assert Uniform(f, i - 1, i);
    } else {
      forall j | 0 <= j < i ensures Key(f, j) != Key(f, i) {
        KeyIffSameRun(f, i, j);
        SameRunIffInRun(f, i, j);
      }
    }
  }

  /** One output row of the grouped query. */
  datatype GroupRow = GroupRow(flag: bool, total: nat)

  /** The grouped rows whose key first appears among the first `n` rows. */
  function GroupRowsPrefix(f: seq<bool>, n: nat): seq<GroupRow>
    requires n <= |f|
  {
    if n == 0 then []
    else GroupRowsPrefix(f, n - 1)
         + (if FirstOfKey(f, n - 1) then [GroupRow(f[n - 1], GroupSize(f, Key(f, n - 1), |f|))] else [])
  }

  /** The grouped rows of the first `n` rows are exactly the flag and length
      of each maximal run starting among them. */
  lemma {:induction false} GroupRowsPrefixRuns(f: seq<bool>, n: nat)
    requires n <= |f|
    ensures forall x :: x in GroupRowsPrefix(f, n) ==>
      exists i :: 0 <= i < n && RunStart(f, i) == i && x == GroupRow(f[i], RunLength(f, i))
    ensures forall i :: 0 <= i < n && RunStart(f, i) == i ==> GroupRow(f[i], RunLength(f, i)) in GroupRowsPrefix(f, n)
  {
    GroupRowsPrefixSound(f, n);
    GroupRowsPrefixComplete(f, n);
  }

  /** Each grouped row of the first `n` rows is the flag and length of a run
      starting among them. */
  lemma {:induction false} GroupRowsPrefixSound(f: seq<bool>, n: nat)
    requires n <= |f|
    ensures forall x :: x in GroupRowsPrefix(f, n) ==>
      exists i :: 0 <= i < n && RunStart(f, i) == i && x == GroupRow(f[i], RunLength(f, i))
  {
    if n > 0 {
      var i := n - 1;
      var prev := GroupRowsPrefix(f, i);
      GroupRowsPrefixSound(f, i);
      FirstOfKeyIffRunStart(f, i);
      if FirstOfKey(f, i) {
        GroupSizeIsRunLength(f, i);
        var row := GroupRow(f[i], RunLength(f, i));
        assert GroupRowsPrefix(f, n) == prev + [row];
        forall x | x in prev + [row]
          ensures exists j :: 0 <= j < n && RunStart(f, j) == j && x == GroupRow(f[j], RunLength(f, j))
        {
          if x == row {
            assert RunStart(f, i) == i && x == GroupRow(f[i], RunLength(f, i));
          } else {
            assert x in prev;
          }
        }
      } else {
        assert GroupRowsPrefix(f, n) == prev;
      }
    }
  }

  /** Every run starting among the first `n` rows has its grouped row. */
  lemma {:induction false} GroupRowsPrefixComplete(f: seq<bool>, n: nat)
    requires n <= |f|
    ensures forall i :: 0 <= i < n && RunStart(f, i) == i ==> GroupRow(f[i], RunLength(f, i)) in GroupRowsPrefix(f, n)
  {
    if n > 0 {
      var prev := GroupRowsPrefix(f, n - 1);
      GroupRowsPrefixComplete(f, n - 1);
      FirstOfKeyIffRunStart(f, n - 1);
      var tail := if FirstOfKey(f, n - 1) then [GroupRow(f[n - 1], GroupSize(f, Key(f, n - 1), |f|))] else [];
      assert GroupRowsPrefix(f, n) == prev + tail;
      if FirstOfKey(f, n - 1) {
        GroupSizeIsRunLength(f, n - 1);
        assert tail[0] in GroupRowsPrefix(f, n);
      }
      forall i | 0 <= i < n && RunStart(f, i) == i
        ensures GroupRow(f[i], RunLength(f, i)) in GroupRowsPrefix(f, n)
      {
        if i < n - 1 {
          assert GroupRow(f[i], RunLength(f, i)) in prev;
        }
      }
    }
  }

  /** The result of `group by grp, is_inside_diet`, one row per key. SQL
      leaves the order of groups open; the reduce below does not depend on it.
      Its rows are exactly the flag and length of each maximal run. */
  function GroupBy(f: seq<bool>): (r: seq<GroupRow>)
    ensures forall x :: x in r ==>
      exists i :: 0 <= i < |f| && RunStart(f, i) == i && x == GroupRow(f[i], RunLength(f, i))
    ensures forall i :: 0 <= i < |f| && RunStart(f, i) == i ==> GroupRow(f[i], RunLength(f, i)) in r
  {
    GroupRowsPrefixRuns(f, |f|);
    GroupRowsPrefix(f, |f|)
  }

  /** `rows.reduce((acc, curr) => curr.total > acc ? curr.total : acc, acc)`:
      the largest total, or `acc` when it is larger. */
  function Reduce(rows: seq<GroupRow>, acc: nat): (r: nat)
    ensures acc <= r
    ensures forall x :: x in rows ==> x.total <= r
    decreases |rows|
  {
    if rows == [] then acc
    else Reduce(rows[1..], if rows[0].total > acc then rows[0].total else acc)
  }

  /** The reduce returns its start value or one of the totals. */
  lemma {:induction false} ReduceAttained(rows: seq<GroupRow>, acc: nat)
    ensures Reduce(rows, acc) == acc || exists x :: x in rows && Reduce(rows, acc) == x.total
  {
    if rows != [] {
      ReduceAttained(rows[1..], if rows[0].total > acc then rows[0].total else acc);
    }
  }

  function Max(a: nat, b: nat): nat {
    if a < b then b else a
  }

  lemma {:induction false} ReduceSnoc(rows: seq<GroupRow>, row: GroupRow, acc: nat)
    ensures Reduce(rows + [row], acc) == Max(Reduce(rows, acc), row.total)
  {
    if rows == [] {
      assert rows + [row] == [row];
      assert [row][1..] == [];
    } else {
      assert (rows + [row])[1..] == rows[1..] + [row];
      ReduceSnoc(rows[1..], row, if rows[0].total > acc then rows[0].total else acc);
    }
  }

  /** Keeps the grouped rows whose flag is in `flags`. */
  function Keep(rows: seq<GroupRow>, flags: set<bool>): (r: seq<GroupRow>)
    ensures forall x :: x in r <==> x in rows && x.flag in flags
  {
    if rows == [] then [] else (if rows[0].flag in flags then [rows[0]] else []) + Keep(rows[1..], flags)
  }

  lemma {:induction false} KeepSnoc(rows: seq<GroupRow>, row: GroupRow, flags: set<bool>)
    ensures Keep(rows + [row], flags) == Keep(rows, flags) + (if row.flag in flags then [row] else [])
  {
    if rows == [] {
      assert rows + [row] == [row];
      assert [row][1..] == [];
    } else {
      assert (rows + [row])[1..] == rows[1..] + [row];
      KeepSnoc(rows[1..], row, flags);
    }
  }

  lemma {:induction false} KeepAll(rows: seq<GroupRow>)
    ensures Keep(rows, {false, true}) == rows
  {
    if rows != [] {
      KeepAll(rows[1..]);
    }
  }

  /** The largest run length over the first `n` rows whose flag is in `flags`
      (0 when there is none). */
  function LongestRunPrefix(f: seq<bool>, flags: set<bool>, n: nat): nat
    requires n <= |f|
  {
    if n == 0 then 0
    else if f[n - 1] in flags then Max(LongestRunPrefix(f, flags, n - 1), RunLength(f, n - 1))
    else LongestRunPrefix(f, flags, n - 1)
  }

  lemma {:induction false} LongestRunPrefixBounds(f: seq<bool>, flags: set<bool>, n: nat)
    requires n <= |f|
    ensures forall j :: 0 <= j < n && f[j] in flags ==> RunLength(f, j) <= LongestRunPrefix(f, flags, n)
    ensures LongestRunPrefix(f, flags, n) == 0
         || exists j :: 0 <= j < n && f[j] in flags && RunLength(f, j) == LongestRunPrefix(f, flags, n)
  {
    if n > 0 {
      var prev := LongestRunPrefix(f, flags, n - 1);
      var cur := LongestRunPrefix(f, flags, n);
      LongestRunPrefixBounds(f, flags, n - 1);
      assert prev <= cur;
      if cur != prev {
        assert f[n - 1] in flags && RunLength(f, n - 1) == cur;
      }
    }
  }

  /** Folding the kept groups of the first `n` rows gives the longest kept run
      among them. */
  lemma {:induction false} ReduceGroups(f: seq<bool>, flags: set<bool>, n: nat)
    requires n <= |f|
    ensures Reduce(Keep(GroupRowsPrefix(f, n), flags), 0) == LongestRunPrefix(f, flags, n)
  {
    if n > 0 {
      ReduceGroups(f, flags, n - 1);
      if FirstOfKey(f, n - 1) {
        ReduceGroupsNewKey(f, flags, n);
      } else {
        ReduceGroupsOldKey(f, flags, n);
      }
    }
  }

  /** The step of `ReduceGroups` where row `n - 1` opens a new group. */
  lemma ReduceGroupsNewKey(f: seq<bool>, flags: set<bool>, n: nat)
    requires 0 < n <= |f| && FirstOfKey(f, n - 1)
    requires Reduce(Keep(GroupRowsPrefix(f, n - 1), flags), 0) == LongestRunPrefix(f, flags, n - 1)
    ensures Reduce(Keep(GroupRowsPrefix(f, n), flags), 0) == LongestRunPrefix(f, flags, n)
  {
    var i := n - 1;
    var prev := GroupRowsPrefix(f, i);
    var row := GroupRow(f[i], GroupSize(f, Key(f, i), |f|));
    assert GroupRowsPrefix(f, n) == prev + [row];
    KeepSnoc(prev, row, flags);
    GroupSizeIsRunLength(f, i);
    if f[i] in flags {
      ReduceSnoc(Keep(prev, flags), row, 0);
    } else {
      assert Keep(prev, flags) + [] == Keep(prev, flags);
    }
  }

  /** The step of `ReduceGroups` where row `n - 1` joins an earlier group. */
  lemma ReduceGroupsOldKey(f: seq<bool>, flags: set<bool>, n: nat)
    requires 0 < n <= |f| && !FirstOfKey(f, n - 1)
    requires Reduce(Keep(GroupRowsPrefix(f, n - 1), flags), 0) == LongestRunPrefix(f, flags, n - 1)
    ensures Reduce(Keep(GroupRowsPrefix(f, n), flags), 0) == LongestRunPrefix(f, flags, n)
  {
    var i := n - 1;
    assert GroupRowsPrefix(f, n) == GroupRowsPrefix(f, i) + [];
    assert GroupRowsPrefix(f, n) == GroupRowsPrefix(f, i);
    if f[i] in flags {
      EarlierRunCovers(f, flags, i);
    }
  }

  /** A row that shares its key with an earlier row adds no longer run. */
  lemma EarlierRunCovers(f: seq<bool>, flags: set<bool>, i: nat)
    requires i < |f| && !FirstOfKey(f, i) && f[i] in flags
    ensures RunLength(f, i) <= LongestRunPrefix(f, flags, i)
  {
    var j :| 0 <= j < i && Key(f, j) == Key(f, i);
    KeyIffSameRun(f, j, i);
    SameRunSameLength(f, j, i);
    LongestRunPrefixBounds(f, flags, i);
  }

  /** `f[a..b]` is one flag throughout. */
  ghost predicate UniformSegment(f: seq<bool>, a: nat, b: nat)
    requires a <= b <= |f|
  {
    forall j :: a <= j < b ==> f[j] == f[a]
  }

  /** `n` is the length of the longest stretch of equal flags whose flag is in
      `flags`, and 0 when there is no such stretch. */
  ghost predicate IsLongestRun(f: seq<bool>, flags: set<bool>, n: nat) {
    && (forall a, b :: 0 <= a < b <= |f| && UniformSegment(f, a, b) && f[a] in flags ==> b - a <= n)
    && (n == 0 || exists a, b :: 0 <= a < b <= |f| && UniformSegment(f, a, b) && f[a] in flags && b - a == n)
  }

  /** A stretch of equal flags lies inside the maximal run of its first row. */
  lemma SegmentWithinRun(f: seq<bool>, a: nat, b: nat)
    requires a < b <= |f| && UniformSegment(f, a, b)
    ensures b - a <= RunLength(f, a)
  {
  }

  /** The longest kept run length, characterised without groups. */
  lemma LongestRunPrefixIsLongest(f: seq<bool>, flags: set<bool>)
    ensures IsLongestRun(f, flags, LongestRunPrefix(f, flags, |f|))
  {
    var n := LongestRunPrefix(f, flags, |f|);
    LongestRunPrefixBounds(f, flags, |f|);
    forall a, b | 0 <= a < b <= |f| && UniformSegment(f, a, b) && f[a] in flags
      ensures b - a <= n
    {
      SegmentWithinRun(f, a, b);
    }
    if n != 0 {
      var j :| 0 <= j < |f| && f[j] in flags && RunLength(f, j) == n;
      var s, e := RunStart(f, j), RunEnd(f, j);
      assert UniformSegment(f, s, e);
    }
  }

  /** The grouped query followed by the reduce over the groups whose flag is
      in `flags` yields the longest run among those flags. */
  lemma GroupedReduceIsLongestRun(f: seq<bool>, flags: set<bool>)
    ensures IsLongestRun(f, flags, Reduce(Keep(GroupBy(f), flags), 0))
  {
    ReduceGroups(f, flags, |f|);
    LongestRunPrefixIsLongest(f, flags);
  }

  /** The longest run is 0 exactly when no row has a kept flag, and otherwise
      lies between 1 and the number of rows. */
  lemma LongestRunBounds(f: seq<bool>, flags: set<bool>, n: nat)
    requires IsLongestRun(f, flags, n)
    ensures n <= |f|
    ensures n == 0 <==> forall j :: 0 <= j < |f| ==> f[j] !in flags
  {
    if n != 0 {
      var a, b :| 0 <= a < b <= |f| && UniformSegment(f, a, b) && f[a] in flags && b - a == n;
    }
    if exists j :: 0 <= j < |f| && f[j] in flags {
      var j :| 0 <= j < |f| && f[j] in flags;
      assert UniformSegment(f, j, j + 1);
    }
  }

  /** A table has one longest-run length. */
  lemma LongestRunUnique(f: seq<bool>, flags: set<bool>, n: nat, m: nat)
    requires IsLongestRun(f, flags, n) && IsLongestRun(f, flags, m)
    ensures n == m
  {
  }
}
