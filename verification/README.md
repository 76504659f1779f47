# Meal diet API — Dafny model

A model of a small HTTP API that tracks meals and whether each meal keeps
to a diet. It covers two route files:

- **Identity service** (`src/routes/users.ts`). Register appends a user row.
  Login finds the first row whose name and password both match exactly. It
  then hands that row's id back as the `userId` session cookie.
- **Meal ledger** (`src/routes/meals.ts`). Create, edit, delete, get-one
  and list operate on the `meals` table. Each is scoped by the pair
  (owning user, meal id). The metrics route counts the user's meals and
  computes a longest-streak aggregate with a "gaps and islands" SQL query.

Each handler is a pure function. It takes the table as a `seq` of records,
the cookie's user id, and the decoded request body and route parameter. It
returns a `Reply` (status code and optional payload, or a validation
rejection). Handlers that write also return the table afterwards (`Step`).
Read-only handlers (get-one, list, metrics, login) return only a reply, so
they cannot change a table.

Modules:

- `Http` (`http.dfy`): `Option`, `Reply`, `Step` and the status codes.
- `Schema` (`schema.dfy`): JSON bodies and `z.object` shapes with their
  issue lists. Also the UUID shape that `z.string().uuid()` accepts.
- `Tables` (`tables.dfy`): the `User` and `Meal` rows, following
  `src/@types/knex.d.ts`. Also the id-freshness and id-uniqueness
  predicates.
- `Meals` and `MealLaws`: the CRUD handlers and the properties that relate
  them.
- `Runs`: the windowed grouping of the streak query. It proves that rows
  share a `(grp, is_inside_diet)` key exactly when they lie in the same
  maximal run of equal flags, and that each group's `count(*)` is that run's
  length. So the reduce over the groups yields the longest run.
- `Metrics` and `MetricsScenarios`: the metrics handler, its corrected
  counterpart and concrete flag patterns.
- `Users` and `UserLaws`: register, login, the session cookie and the
  register/login round trip.

Where the code and what its names and comments promise disagree, the
model follows the code:

- The streak query has no `fk_user_id` filter. It groups every user's rows.
- The reduce keeps the largest group of either flag, not only in-diet runs.
  Both points appear under Findings.
- The cookie's `maxAge` is the number `1000 * 60 * 60 * 24 * 7 = 604800000`,
  which the source annotates as seven days in milliseconds. The cookie
  plugin documents `maxAge` in seconds; the plugin is not part of this
  model. Read that way, the cookie would last about 19 years, while the
  `// 7 days` comment at `src/routes/users.ts:41` asks for 604800 seconds.
- A body or parameter that fails its schema makes the handler throw before
  it touches any table. The model reports this as `Rejected(issues)`. The
  resulting status number is set by the application's error handler, which
  is not part of this model.

## Model

| member | source | states |
|---|---|---|
| Schema.Issues | src/routes/meals.ts:16-17 | a body passes a `z.object` shape exactly when it is an object holding every field with its kind; a non-object body yields the single root issue |
| Schema.FieldIssues | src/routes/meals.ts:9-14 | the issues name exactly the fields that are missing or of the wrong kind, and there are none exactly when every field is present with its kind |
| Meals.ParseMealBody | src/routes/meals.ts:9-17 | the meal body is accepted exactly when it conforms; the extracted name, description, time and flag are the body's own values; a rejection lists the body's issues |
| Meals.OwnedBy | src/routes/meals.ts:109 | the rows kept are exactly the table rows owned by the user |
| Meals.FirstMatch | src/routes/meals.ts:126-131 | the result is the first row with both the user and the id, and is absent exactly when no row has both |
| Meals.RemoveMatching | src/routes/meals.ts:92-97 | exactly the rows matching (user, id) are gone and all others remain; with no match the table is identical, with one it shrinks |
| MealLaws.RemoveMatchingAppend | src/routes/meals.ts:92-97 | the delete filter distributes over concatenation, so the surviving rows keep their table order and multiplicity |
| Schema.ParseIdParam | src/routes/meals.ts:44-51 | the `id` route parameter is accepted exactly when it has the 8-4-4-4-12 hexadecimal UUID shape, the accepted value is the parameter itself, and a rejection names the `id` field |
| Meals.Edited | src/routes/meals.ts:60-66 | an edited row keeps its id, owner and creation time, takes the sent name, description, time and flag, and gets the new update time |
| Meals.Rewrite | src/routes/meals.ts:55-66 | rows matching (user, id) get the new name, description, time, flag and update time; every other row is unchanged; ids and owners never change |
| Meals.CreateMeal | src/routes/meals.ts:8-31 | a conforming body appends exactly one row owned by the user with the sent fields and no update time, leaves existing rows in place, and replies 201; otherwise the table is untouched |
| Meals.UpdateMeal | src/routes/meals.ts:33-70 | the body is checked before the id and both before any table access; when both pass, the reply is 201 whether or not a row matched; with no matching row the table is identical |
| Meals.DeleteMeal | src/routes/meals.ts:72-104 | a non-UUID id is rejected; with a matching row every matching row is removed and the reply is 204; otherwise the table is unchanged and the reply is 404 |
| Meals.ListMeals | src/routes/meals.ts:106-112 | the reply is 200 and lists exactly the user's meals |
| Meals.GetMeal | src/routes/meals.ts:114-139 | the reply is 200 with a row carrying both the requested id and the user, or 404 when there is none; another user's meal is never returned |
| MealLaws.OwnedByAppend | src/routes/meals.ts:109-111 | the listing filter distributes over concatenation, so a listing keeps table order |
| MealLaws.RewriteKeepsOthers | src/routes/meals.ts:55-59 | an edit scoped to one user leaves every other user's rows as they were |
| MealLaws.RemoveKeepsOthers | src/routes/meals.ts:92-97 | a delete scoped to one user leaves every other user's rows as they were |
| MealLaws.OtherUsersUntouched | src/routes/meals.ts:21-97 | no create, edit or delete by one user changes what another user lists |
| MealLaws.CreateThenList | src/routes/meals.ts:21-28 | after a create, the user's listing is the old listing followed by the new row |
| MealLaws.CreateThenGet | src/routes/meals.ts:126-134 | after a create, fetching the generated id returns exactly the fields that were sent |
| MealLaws.UpdateDeleteAsymmetry | src/routes/meals.ts:55-102 | on a (user, id) pair with no row, an edit replies 201 and changes nothing, while a delete replies 404 |
| MealLaws.WritesKeepIdsUnique | src/routes/meals.ts:21-28 | creates with a fresh id, edits and deletes all keep meal ids pairwise distinct |
| MealLaws.RemoveKeepsIdsUnique | src/routes/meals.ts:92-97 | deleting rows keeps meal ids pairwise distinct |
| Runs.RowNumber | src/routes/meals.ts:162 | the overall row number of a row counts the rows up to and including it, of both flags |
| Runs.PartitionRowNumber | src/routes/meals.ts:163 | the row number within the row's own flag is at least 1 and never exceeds its overall row number |
| Runs.Grp | src/routes/meals.ts:162-164 | the `grp` difference is never negative and never exceeds the row's index |
| Runs.GrpCountsOthers | src/routes/meals.ts:162-164 | a row's `grp` (overall row number minus row number within its flag) is the number of earlier rows with the other flag |
| Runs.GrpStep | src/routes/meals.ts:162-164 | between two rows with the same flag, `grp` grows by the number of other-flag rows in between |
| Runs.KeyIffSameRun | src/routes/meals.ts:160-167 | two rows share the `(grp, is_inside_diet)` group key exactly when they lie in the same maximal run of equal flags |
| Runs.RunStart | src/routes/meals.ts:160-167 | the first row of a row's run: all rows from it to the row share the flag, and the row before it differs |
| Runs.RunEnd | src/routes/meals.ts:160-167 | one past the last row of a row's run: all rows up to it share the flag, and the row at it differs |
| Runs.SameRunIffInRun | src/routes/meals.ts:160-167 | a row is in the same run as another exactly when it lies in that run's index range |
| Runs.SameRunSameLength | src/routes/meals.ts:160-167 | rows of one run agree on where the run starts and ends |
| Runs.GroupSize | src/routes/meals.ts:160 | the `count(*)` of a key among the first n rows is at most n |
| Runs.GroupRowsPrefixSound | src/routes/meals.ts:160-167 | every grouped row of the first n rows is the flag and length of a run that starts among them |
| Runs.GroupRowsPrefixComplete | src/routes/meals.ts:160-167 | every run that starts among the first n rows has its flag and length among the grouped rows |
| Runs.GroupRowsPrefixRuns | src/routes/meals.ts:160-167 | the grouped rows of the first n rows are exactly the flag and length of the runs starting among them |
| Runs.GroupBy | src/routes/meals.ts:160-167 | the grouped query's rows are exactly the flag and length of each maximal run of equal flags |
| Runs.GroupSizeIsRunLength | src/routes/meals.ts:160-167 | the `count(*)` of a row's group is the length of the row's maximal run |
| Runs.FirstOfKeyIffRunStart | src/routes/meals.ts:167 | a row is the first of its group exactly when it starts a run, so there is one group per run |
| Runs.Reduce | src/routes/meals.ts:177-182 | the reduce is at least its start value and at least every row's total |
| Runs.ReduceAttained | src/routes/meals.ts:177-182 | the reduce returns its start value or the total of one of the rows |
| Runs.ReduceSnoc | src/routes/meals.ts:177-182 | folding one more group into the reduce gives the larger of the previous result and that group's total |
| Runs.ReduceGroups | src/routes/meals.ts:160-182 | the reduce over the groups of the first n rows equals the longest run among those rows |
| Runs.GroupedReduceIsLongestRun | src/routes/meals.ts:160-182 | the grouped query followed by the reduce yields the length of the longest stretch of equal flags, and no stretch is longer |
| Runs.LongestRunBounds | src/routes/meals.ts:177-182 | the longest run is 0 exactly when no row has a kept flag, and never exceeds the row count |
| Runs.LongestRunUnique | src/routes/meals.ts:177-182 | the longest-run length of a flag sequence is unique |
| Metrics.InDiet | src/routes/meals.ts:153 | the in-diet filter keeps exactly the meals whose flag is true |
| Metrics.DietSplit | src/routes/meals.ts:174-176 | every meal is either in or out of the diet, so the out-of-diet count is the total minus the in-diet count |
| Metrics.DietCounts | src/routes/meals.ts:152-155 | the in-diet filter keeps as many rows as there are true flags, the out-of-diet one as many as false flags |
| Metrics.HighestSequenceAsWritten | src/routes/meals.ts:160-182 | the streak the handler reports is the longest run of equal flags of either value over all rows of all users; it is 0 exactly on an empty table and at most the row count |
| Metrics.GetMetrics | src/routes/meals.ts:141-188 | the reply is 200; totalMeals and inDietMeals count the user's meals and in-diet meals; outOfDietMeals is the number of the user's out-of-diet meals and lies between 0 and totalMeals; the streak is the whole-table longest run |
| Metrics.HighestInDietSequence | src/routes/meals.ts:157-182 | corrected streak: the longest run of in-diet meals among the user's own meals, 0 exactly when the user has no in-diet meal |
| Metrics.GetMetricsIntended | src/routes/meals.ts:141-188 | the metrics with the corrected streak, which never exceeds the user's in-diet count |
| Metrics.LongestTrueRunAtMostTrueCount | src/routes/meals.ts:157-182 | a run of in-diet meals is no longer than the number of in-diet meals |
| MetricsScenarios.SixMealScenario | src/routes/meals.ts:147-182 | one user with flags true, true, false, true, true, true gets 6 meals, 5 in the diet, 1 out and a streak of 3 |
| MetricsScenarios.StreakCountsOtherUsers | src/routes/meals.ts:160-167 | another user's two in-diet meals followed by one of the requester's give a reported streak of 3, while the requester's own in-diet streak is 1 |
| MetricsScenarios.StreakCountsOutOfDietRuns | src/routes/meals.ts:177-182 | three out-of-diet meals followed by one in-diet meal give a reported streak of 3, while the in-diet streak is 1 |
| Users.ParseCredentials | src/routes/users.ts:24-29 | the name/password body is accepted exactly when both are strings, and the extracted values are the body's own; a rejection lists the body's issues |
| Users.SessionCookie | src/routes/users.ts:39-42 | the cookie is named `userId`, holds the user id, has path `/` and maxAge 604800000, seven days in milliseconds |
| Users.FirstUser | src/routes/users.ts:31-36 | the result is the first row with exactly that name and password, and is absent exactly when no row has both |
| Users.Register | src/routes/users.ts:7-22 | a conforming body appends exactly one user with the given name and password, whatever names already exist, and replies 201; otherwise the table is untouched |
| Users.Login | src/routes/users.ts:23-48 | with a conforming body the reply is 201 with the cookie of the first row with exactly that name and password, or 404 without a cookie when none exists |
| UserLaws.RegisterThenLogin | src/routes/users.ts:15-44 | after registering a name and password, login with them succeeds with the new id, or with the id of an earlier user who already had that name and password |
| UserLaws.LoginFailuresIndistinguishable | src/routes/users.ts:38-47 | an unknown name and a known name with a wrong password get the same reply, 404 and no cookie |
| UserLaws.RegisterKeepsIdsUnique | src/routes/users.ts:15-19 | registering with a fresh id keeps user ids pairwise distinct |

## Findings

| source | as written | input that shows it | evidently intended | confidence | as-written member | corrected member |
|---|---|---|---|---|---|---|
| src/routes/meals.ts:160-167 | the streak query groups the rows of every user, since it has no `fk_user_id` filter | another user has two in-diet meals, then the requester creates one: the requester is shown a streak of 3 | group only the requester's meals, as the two count queries do | not executed; high | MetricsScenarios.StreakCountsOtherUsers | Metrics.HighestInDietSequence |
| src/routes/meals.ts:177-182 | the reduce keeps the largest group of either flag | three out-of-diet meals followed by one in-diet meal: a streak of 3 is reported | keep only the groups with `is_inside_diet` true, as the field name says | not executed; high | MetricsScenarios.StreakCountsOutOfDietRuns | Metrics.HighestInDietSequence |

`Metrics.HighestSequenceAsWritten` is the code as written, and `Metrics.GetMetrics`
reports it, as the handler does. `Metrics.GetMetricsIntended` is the same handler
with the corrected streak.

## Left out

- Routing, the reply object and asynchronous execution are left out. Each handler is a function from its inputs to its reply and table.
- The `checkUserIdExists` guard is not part of this model. The cookie's value is a parameter of every meal operation, and a request without the cookie is not modelled.
- The store is not modelled. Queries become sequence filters and searches, and the query engine never fails. So the 500 branch of the metrics handler (`src/routes/meals.ts:185-187`), taken only when a query yields no result, is not modelled.
- Generated UUIDs, the current time and column-default timestamps are parameters. A new meal or user id must not already be in its table.
- The table order is taken as `created_at` order, which both window functions of the streak query use. Ties in `created_at` are not modelled.
- SQL leaves the order of the `group by` output rows open. The model emits groups in order of first appearance. The reduce takes a maximum, which does not depend on the order.
- The store may return counts as strings, hence the `Number(...)` conversions. Counts are modelled as natural numbers.
- The exact UUID pattern differs between versions of the validation library. Some versions also constrain the version digit. The model accepts the 8-4-4-4-12 hexadecimal shape.
- The status number of a validation rejection is left out. It depends on the application's error handler.
- The payload wrappers `{ meals }`, `{ meal }` and `{ metrics }` are left out. Only their contents are modelled.
- The `updated_at` column is typed as a string but is not set by the insert. The model holds it as an optional value, absent until the first edit.
- JSON numbers are modelled as integers. No handler accepts a number field.
- Meals.ListMeals: its contract states membership only. Table order is stated by MealLaws.OwnedByAppend and MealLaws.CreateThenList.
