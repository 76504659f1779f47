/** Properties that relate several meal operations: round trips, the
    update/delete asymmetry, id uniqueness and isolation between users. */
module MealLaws {
  import opened Http
  import opened Schema
  import opened Tables
  import opened Meals

  /** The requests that can write to the table. */
  datatype Write =
    | Create(body: Json, freshId: string, now: string)
    | Update(id: string, body: Json, now: string)
    | Delete(id: string)

  /** The table after `userId` issues `w`. */
  function TableAfter(table: seq<Meal>, userId: string, w: Write): seq<Meal>
    requires w.Create? ==> FreshMealId(table, w.freshId)
  {
    match w
    case Create(body, freshId, now) => CreateMeal(table, userId, body, freshId, now).table
    case Update(id, body, now) => UpdateMeal(table, userId, id, body, now).table
    case Delete(id) => DeleteMeal(table, userId, id).table
  }

  /** Filtering by owner distributes over concatenation, so a listing keeps
      table order. */
  lemma {:induction false} OwnedByAppend(a: seq<Meal>, b: seq<Meal>, userId: string)
    ensures OwnedBy(a + b, userId) == OwnedBy(a, userId) + OwnedBy(b, userId)
  {
    if a == [] {
      assert a + b == b;
    } else {
      assert (a + b)[0] == a[0];
      assert (a + b)[1..] == a[1..] + b;
      OwnedByAppend(a[1..], b, userId);
    }
  }

  /** The rows kept from a table are those kept from its first row followed
      by those kept from the rest. */
  lemma RemoveMatchingCons(t: seq<Meal>, userId: string, id: string)
    requires t != []
    ensures RemoveMatching(t, userId, id)
         == (if Matches(t[0], userId, id) then [] else [t[0]]) + RemoveMatching(t[1..], userId, id)
  {
  }

  /** Deleting distributes over concatenation, so the rows that remain keep
      their relative order. */
  lemma {:induction false} RemoveMatchingAppend(a: seq<Meal>, b: seq<Meal>, userId: string, id: string)
    ensures RemoveMatching(a + b, userId, id) == RemoveMatching(a, userId, id) + RemoveMatching(b, userId, id)
  {
    if a == [] {
      assert a + b == b;
    } else {
      var head := if Matches(a[0], userId, id) then [] else [a[0]];
      var ra, rb := RemoveMatching(a[1..], userId, id), RemoveMatching(b, userId, id);
      assert (a + b)[0] == a[0];
      assert (a + b)[1..] == a[1..] + b;
      calc {
        RemoveMatching(a + b, userId, id);
        { RemoveMatchingCons(a + b, userId, id); }
        head + RemoveMatching(a[1..] + b, userId, id);
        { RemoveMatchingAppend(a[1..], b, userId, id); }
        head + (ra + rb);
        (head + ra) + rb;
        { RemoveMatchingCons(a, userId, id); }
        RemoveMatching(a, userId, id) + rb;
      }
    }
  }

  lemma {:induction false} RewriteKeepsOthers(table: seq<Meal>, u: string, v: string, id: string, f: MealFields, now: string)
    requires u != v
    ensures OwnedBy(Rewrite(table, u, id, f, now), v) == OwnedBy(table, v)
  {
    if table != [] {
      var r := Rewrite(table, u, id, f, now);
      assert r == [r[0]] + r[1..];
      assert table == [table[0]] + table[1..];
      assert r[1..] == Rewrite(table[1..], u, id, f, now);
      RewriteKeepsOthers(table[1..], u, v, id, f, now);
      OwnedByAppend([r[0]], r[1..], v);
      OwnedByAppend([table[0]], table[1..], v);
    }
  }

  lemma {:induction false} RemoveKeepsOthers(table: seq<Meal>, u: string, v: string, id: string)
    requires u != v
    ensures OwnedBy(RemoveMatching(table, u, id), v) == OwnedBy(table, v)
  {
    if table != [] {
      var head := if Matches(table[0], u, id) then [] else [table[0]];
      assert RemoveMatching(table, u, id) == head + RemoveMatching(table[1..], u, id);
      assert table == [table[0]] + table[1..];
      RemoveKeepsOthers(table[1..], u, v, id);
      OwnedByAppend(head, RemoveMatching(table[1..], u, id), v);
      OwnedByAppend([table[0]], table[1..], v);
    }
  }

  /** No request by one user changes what another user sees: every query is
      scoped by the owning user. */
  lemma OtherUsersUntouched(table: seq<Meal>, u: string, v: string, w: Write)
    requires w.Create? ==> FreshMealId(table, w.freshId)
    requires u != v
    ensures OwnedBy(TableAfter(table, u, w), v) == OwnedBy(table, v)
  {
    match w
    case Create(body, freshId, now) =>
      var s := CreateMeal(table, u, body, freshId, now);
      if Conforms(body, MealBodyShape) {
        assert s.table == table + [s.table[|table|]];
        OwnedByAppend(table, [s.table[|table|]], v);
      }
    case Update(id, body, now) =>
      if Conforms(body, MealBodyShape) && IsUuid(id) {
        var f := ParseMealBody(body).value;
        assert UpdateMeal(table, u, id, body, now).table == Rewrite(table, u, id, f, now);
        RewriteKeepsOthers(table, u, v, id, f, now);
      }
    case Delete(id) =>
      RemoveKeepsOthers(table, u, v, id);
  }

  /** Creating a meal and then listing adds exactly the new row at the end of
      the user's listing. */
  lemma CreateThenList(table: seq<Meal>, userId: string, body: Json, freshId: string, now: string)
    requires FreshMealId(table, freshId)
    requires Conforms(body, MealBodyShape)
    ensures var f := ParseMealBody(body).value;
      ListMeals(CreateMeal(table, userId, body, freshId, now).table, userId)
        == Reply(StatusOk, Some(OwnedBy(table, userId)
             + [Meal(freshId, f.name, f.description, f.time, f.isInsideDiet, userId, now, None)]))
  {
    var f := ParseMealBody(body).value;
    var row := Meal(freshId, f.name, f.description, f.time, f.isInsideDiet, userId, now, None);
    var s := CreateMeal(table, userId, body, freshId, now);
    assert s.table == table + [row];
    OwnedByAppend(table, [row], userId);
    assert OwnedBy([row], userId) == [row] by {
      assert [row][1..] == [];
    }
  }

  /** Creating a meal and then fetching it by its generated id returns the
      fields that were sent. */
  lemma CreateThenGet(table: seq<Meal>, userId: string, body: Json, freshId: string, now: string)
    requires FreshMealId(table, freshId) && IsUuid(freshId)
    requires Conforms(body, MealBodyShape)
    ensures var f := ParseMealBody(body).value;
      GetMeal(CreateMeal(table, userId, body, freshId, now).table, userId, freshId)
        == Reply(StatusOk, Some(Meal(freshId, f.name, f.description, f.time, f.isInsideDiet, userId, now, None)))
  {
  }

  /** On a `(userId, id)` pair with no row, an edit still replies 201 and
      changes nothing, while a delete replies 404. */
  lemma UpdateDeleteAsymmetry(table: seq<Meal>, userId: string, id: string, body: Json, now: string)
    requires IsUuid(id) && Conforms(body, MealBodyShape)
    requires NoMatch(table, userId, id)
    ensures UpdateMeal(table, userId, id, body, now) == Step(Reply(StatusCreated, None), table)
    ensures DeleteMeal(table, userId, id) == Step(Reply(StatusNotFound, None), table)
  {
  }

  /** Every write keeps meal ids pairwise distinct. */
  lemma WritesKeepIdsUnique(table: seq<Meal>, userId: string, w: Write)
    requires w.Create? ==> FreshMealId(table, w.freshId)
    requires UniqueMealIds(table)
    ensures UniqueMealIds(TableAfter(table, userId, w))
  {
    match w
    case Create(body, freshId, now) =>
    case Update(id, body, now) =>
    case Delete(id) =>
      RemoveKeepsIdsUnique(table, userId, id);
  }

  lemma {:induction false} RemoveKeepsIdsUnique(table: seq<Meal>, userId: string, id: string)
    requires UniqueMealIds(table)
    ensures UniqueMealIds(RemoveMatching(table, userId, id))
  {
    if table != [] {
      var rest := RemoveMatching(table[1..], userId, id);
      assert UniqueMealIds(table[1..]) by {
        forall j, k | 0 <= j < k < |table[1..]| ensures table[1..][j].id != table[1..][k].id {
          assert table[1..][j] == table[j + 1] && table[1..][k] == table[k + 1];
        }
      }
      RemoveKeepsIdsUnique(table[1..], userId, id);
      forall m | m in rest ensures m.id != table[0].id {
        assert m in table[1..];
        var k :| 0 <= k < |table[1..]| && table[1..][k] == m;
        assert table[k + 1] == m;
      }
      var r := RemoveMatching(table, userId, id);
      if !Matches(table[0], userId, id) {
        assert r == [table[0]] + rest;
        forall j, k | 0 <= j < k < |r| ensures r[j].id != r[k].id {
          if j == 0 {
            assert r[k] == rest[k - 1];
            assert r[k] in rest;
          } else {
            assert r[j] == rest[j - 1] && r[k] == rest[k - 1];
          }
        }
      } else {
        assert r == rest;
      }
    }
  }
}
