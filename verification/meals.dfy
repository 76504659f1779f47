/** The meal routes as pure operations on the `meals` table. Every operation
    runs on behalf of `userId`, the value of the `userId` cookie, whose
    presence the route guard has already established. */
module Meals {
  import opened Http
  import opened Schema
  import opened Tables

  /** The validated body of a create or edit request. */
  datatype MealFields = MealFields(name: string, description: string, time: string, isInsideDiet: bool)

  /** `{ name: string, description: string, time: string, isInsideDiet: boolean }` */
  const MealBodyShape: Shape :=
    [("name", KString), ("description", KString), ("time", KString), ("isInsideDiet", KBoolean)]

  /** Validates a create or edit body and extracts its four fields. */
  function ParseMealBody(body: Json): (r: Parsed<MealFields>)
    ensures r.Valid? <==> Conforms(body, MealBodyShape)
    ensures r.Valid? ==>
      && body.JObject?
      && "name" in body.fields && body.fields["name"] == JString(r.value.name)
      && "description" in body.fields && body.fields["description"] == JString(r.value.description)
      && "time" in body.fields && body.fields["time"] == JString(r.value.time)
      && "isInsideDiet" in body.fields && body.fields["isInsideDiet"] == JBool(r.value.isInsideDiet)
    ensures r.Invalid? ==> r.issues != [] && r.issues == Issues(body, MealBodyShape)
  {
    var issues := Issues(body, MealBodyShape);
    if issues != [] then Invalid(issues)
    else
      assert FieldOk(body.fields, MealBodyShape[0]);
      assert FieldOk(body.fields, MealBodyShape[1]);
      assert FieldOk(body.fields, MealBodyShape[2]);
      assert FieldOk(body.fields, MealBodyShape[3]);
      Valid(MealFields(
        body.fields["name"].s, body.fields["description"].s,
        body.fields["time"].s, body.fields["isInsideDiet"].b))
  }

  /** The `where({ fk_user_id: userId, id })` filter of the single-meal routes. */
  predicate Matches(m: Meal, userId: string, id: string) {
    m.fkUserId == userId && m.id == id
  }

  predicate NoMatch(table: seq<Meal>, userId: string, id: string) {
    forall k :: 0 <= k < |table| ==> !Matches(table[k], userId, id)
  }

  /** `where('fk_user_id', userId)`: the user's rows, in table order. */
  function OwnedBy(table: seq<Meal>, userId: string): (r: seq<Meal>)
    ensures |r| <= |table|
    ensures forall m :: m in r <==> m in table && m.fkUserId == userId
  {
    if table == [] then []
    else (if table[0].fkUserId == userId then [table[0]] else []) + OwnedBy(table[1..], userId)
  }

  /** `.first()` of the single-meal filter: the index of the first matching row. */
  function FirstMatch(table: seq<Meal>, userId: string, id: string): (r: Option<nat>)
    ensures r.Some? ==>
      && r.value < |table|
      && Matches(table[r.value], userId, id)
      && forall k :: 0 <= k < r.value ==> !Matches(table[k], userId, id)
    ensures r.None? <==> NoMatch(table, userId, id)
  {
    FirstMatchFrom(table, userId, id, 0)
  }

  function FirstMatchFrom(table: seq<Meal>, userId: string, id: string, from: nat): (r: Option<nat>)
    requires from <= |table|
    requires forall k :: 0 <= k < from ==> !Matches(table[k], userId, id)
    ensures r.Some? ==>
      && from <= r.value < |table|
      && Matches(table[r.value], userId, id)
      && forall k :: 0 <= k < r.value ==> !Matches(table[k], userId, id)
    ensures r.None? <==> NoMatch(table, userId, id)
    decreases |table| - from
  {
    if from == |table| then None
    else if Matches(table[from], userId, id) then Some(from)
    else FirstMatchFrom(table, userId, id, from + 1)
  }

  /** `.del()` of the single-meal filter: every matching row goes, the rest
      keep their order. */
  function RemoveMatching(table: seq<Meal>, userId: string, id: string): (r: seq<Meal>)
    ensures |r| <= |table|
    ensures forall m :: m in r <==> m in table && !Matches(m, userId, id)
    ensures NoMatch(table, userId, id) ==> r == table
    ensures !NoMatch(table, userId, id) ==> |r| < |table|
  {
    if table == [] then []
    else
      assert NoMatch(table, userId, id) ==> NoMatch(table[1..], userId, id);
      assert !NoMatch(table, userId, id) && !Matches(table[0], userId, id) ==> !NoMatch(table[1..], userId, id);
      (if Matches(table[0], userId, id) then [] else [table[0]]) + RemoveMatching(table[1..], userId, id)
  }

  /** A row after an edit: the four editable fields and the update time are
      replaced, everything else is kept. */
  function Edited(m: Meal, f: MealFields, now: string): (e: Meal)
    ensures e.id == m.id && e.fkUserId == m.fkUserId && e.createdAt == m.createdAt
    ensures e.updatedAt == Some(now)
    ensures e.name == f.name && e.description == f.description && e.time == f.time
    ensures e.isInsideDiet == f.isInsideDiet
  {
    m.(name := f.name, description := f.description, time := f.time,
       isInsideDiet := f.isInsideDiet, updatedAt := Some(now))
  }

  /** `.update({...})` of the single-meal filter: matching rows are edited in
      place, every other row is untouched. */
  function Rewrite(table: seq<Meal>, userId: string, id: string, f: MealFields, now: string): (r: seq<Meal>)
    ensures |r| == |table|
    ensures forall k :: 0 <= k < |table| ==>
      r[k] == if Matches(table[k], userId, id) then Edited(table[k], f, now) else table[k]
    ensures forall k :: 0 <= k < |table| ==> r[k].id == table[k].id && r[k].fkUserId == table[k].fkUserId
    ensures NoMatch(table, userId, id) ==> r == table
  {
    if table == [] then []
    else [if Matches(table[0], userId, id) then Edited(table[0], f, now) else table[0]]
         + Rewrite(table[1..], userId, id, f, now)
  }

  /** POST `/`: validate the body, then insert one row owned by `userId` with
      the generated id `freshId` and the store's timestamp `now`; reply 201. */
  function CreateMeal(table: seq<Meal>, userId: string, body: Json, freshId: string, now: string): (s: Step<Meal, ()>)
    requires FreshMealId(table, freshId)
    ensures !Conforms(body, MealBodyShape) ==> s.reply == Rejected(Issues(body, MealBodyShape)) && s.table == table
    ensures Conforms(body, MealBodyShape) ==>
      var f := ParseMealBody(body).value;
      && s.reply == Reply(StatusCreated, None)
      && |s.table| == |table| + 1
      && s.table[..|table|] == table
      && s.table[|table|] == Meal(freshId, f.name, f.description, f.time, f.isInsideDiet, userId, now, None)
  {
    match ParseMealBody(body)
    case Invalid(issues) => Step(Rejected(issues), table)
    case Valid(f) =>
      var row := Meal(freshId, f.name, f.description, f.time, f.isInsideDiet, userId, now, None);
      Step(Reply(StatusCreated, None), table + [row])
  }

  /** PUT `/:id`: validate the body, then the id, then edit the rows matching
      `(userId, id)`; the reply is 201 whether or not a row matched. */
  function UpdateMeal(table: seq<Meal>, userId: string, id: string, body: Json, now: string): (s: Step<Meal, ()>)
    ensures !Conforms(body, MealBodyShape) ==> s.reply == Rejected(Issues(body, MealBodyShape)) && s.table == table
    ensures Conforms(body, MealBodyShape) && !IsUuid(id) ==> s.reply == Rejected(["id"]) && s.table == table
    ensures Conforms(body, MealBodyShape) && IsUuid(id) ==>
      var f := ParseMealBody(body).value;
      && s.reply == Reply(StatusCreated, None)
      && |s.table| == |table|
      && forall k :: 0 <= k < |table| ==>
           s.table[k] == if Matches(table[k], userId, id) then Edited(table[k], f, now) else table[k]
    ensures NoMatch(table, userId, id) ==> s.table == table
  {
    match ParseMealBody(body)
    case Invalid(issues) => Step(Rejected(issues), table)
    case Valid(f) =>
      match ParseIdParam(id)
      case Invalid(issues) => Step(Rejected(issues), table)
      case Valid(_) => Step(Reply(StatusCreated, None), Rewrite(table, userId, id, f, now))
  }

  /** DELETE `/:id`: validate the id; if a row matches `(userId, id)` delete
      every matching row and reply 204, otherwise reply 404. */
  function DeleteMeal(table: seq<Meal>, userId: string, id: string): (s: Step<Meal, ()>)
    ensures !IsUuid(id) ==> s.reply == Rejected(["id"]) && s.table == table
    ensures IsUuid(id) && NoMatch(table, userId, id) ==> s.reply == Reply(StatusNotFound, None) && s.table == table
    ensures IsUuid(id) && !NoMatch(table, userId, id) ==>
      && s.reply == Reply(StatusNoContent, None)
      && s.table == RemoveMatching(table, userId, id)
      && |s.table| < |table|
      && forall m :: m in s.table <==> m in table && !Matches(m, userId, id)
  {
    match ParseIdParam(id)
    case Invalid(issues) => Step(Rejected(issues), table)
    case Valid(_) =>
      if FirstMatch(table, userId, id).Some? then
        Step(Reply(StatusNoContent, None), RemoveMatching(table, userId, id))
      else
        Step(Reply(StatusNotFound, None), table)
  }

  /** GET `/`: the user's meals in table order. */
  function ListMeals(table: seq<Meal>, userId: string): (r: Reply<seq<Meal>>)
    ensures r.Reply? && r.code == StatusOk && r.payload.Some?
    ensures forall m :: m in r.payload.value <==> m in table && m.fkUserId == userId
  {
    Reply(StatusOk, Some(OwnedBy(table, userId)))
  }

  /** GET `/:id`: validate the id, then the first row matching `(userId, id)`,
      or 404. */
  function GetMeal(table: seq<Meal>, userId: string, id: string): (r: Reply<Meal>)
    ensures !IsUuid(id) ==> r == Rejected(["id"])
    ensures IsUuid(id) && NoMatch(table, userId, id) ==> r == Reply(StatusNotFound, None)
    ensures IsUuid(id) && !NoMatch(table, userId, id) ==>
      exists k :: 0 <= k < |table| && r == Reply(StatusOk, Some(table[k])) && Matches(table[k], userId, id)
    ensures r.Reply? && r.payload.Some? ==>
      r.payload.value in table && r.payload.value.fkUserId == userId && r.payload.value.id == id
  {
    match ParseIdParam(id)
    case Invalid(issues) => Rejected(issues)
    case Valid(_) =>
      match FirstMatch(table, userId, id)
      case Some(k) => Reply(StatusOk, Some(table[k]))
      case None => Reply(StatusNotFound, None)
  }
}
