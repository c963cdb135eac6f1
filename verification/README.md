# Daily-diet meals API: a verified model of its core

The service records meals (name, description, timestamp, and whether the meal
was on diet) for an anonymous session identified by a `session_id` cookie. The
session can list its own meals, read one, update one, delete one, and ask for a
summary: how many meals it has logged, how many were on or off diet, and the
longest run of consecutive on-diet meals.

The model has four modules:

- `MealRecord` (`meal_record.dfy`) holds the row of the `meals` table. It has a
  uuid primary key and non-null name, description, `is_on_diet` and
  `session_id` columns, plus `created_at`, as laid out in
  `database/migrations/20230617154659_create-meals-table.ts:5-12`. The module
  also holds the optional-field body of an update, and the row filter (`Where`)
  that every query is built on.
- `Streak` (`streak.dfy`) is the reference definition of runs of `true` in a
  `seq<bool>`. `TrailingRun` is the run that ends the sequence, and
  `LongestRun` is the longest run anywhere. It is proved that `LongestRun` is the
  length of an actual run and that no run is longer.
- `MealInfo` (`meal_info.dfy`) is the `/meals/info` aggregation. `Summarize` is
  its specification: counts, plus a best sequence characterized as the longest
  run. `SummarizeMeals` is the handler: it counts the meals and the on-diet
  meals, then runs `BestSequence`, the single pass with a `current`/`best`
  counter pair and the comparison after the loop. Loop invariants prove that pass
  equal to the longest run, so the handler equals `Summarize`.
- `MealStore` (`meal_store.dfy`) holds the table as a sequence of rows in
  insertion order. It has the session-filtered handlers for create, list, get,
  update, delete and info, with lemmas for round trips, isolation between
  sessions, idempotence and ordering.

The session guard that runs before every handler except creation rejects a
missing or empty `session_id` cookie with 401. It appears here as the type
`SessionId`, a non-empty string, which every protected operation takes.

A few behaviours of the handlers are worth stating plainly:

- An update that matches no row returns an empty list of rows. It does not answer 404.
- A delete always answers 204, whether or not a row matched.
- `name` and `description` may be empty strings, because the body schema only
  requires strings.

## Model

| member | source | states |
|---|---|---|
| `MealRecord.Where` | src/routes/meals.routes.ts:15-17 | the `.where({...})` row filter behind every query (also lines 36-39, 59-61, 151-154 and 179-182): a row is kept exactly when it is in the table and satisfies the condition, and no rows are added |
| `Streak.TrailingRun` | src/routes/meals.routes.ts:70-74 | the open run counter: the last `n` meals are on diet and the one before them, if any, is not |
| `Streak.LongestRunIsAchieved` | src/routes/meals.routes.ts:67-83 | some run of consecutive on-diet meals has exactly the length of the best sequence |
| `Streak.LongestRunIsMaximal` | src/routes/meals.routes.ts:67-83 | every run of consecutive on-diet meals is at most as long as the best sequence |
| `Streak.LongestRunIsLongest` | src/routes/meals.routes.ts:67-83 | both halves together: the best sequence is the length of the longest run |
| `Streak.LongestRunAtMostCount` | src/routes/meals.routes.ts:63-83 | the best sequence never exceeds the number of on-diet meals |
| `Streak.LongestRunAllTrue` | src/routes/meals.routes.ts:70-83 | when every meal is on diet, the best sequence is the whole history, with the trailing run flushed after the loop |
| `Streak.RunAvoidsFalse` | src/routes/meals.routes.ts:76-79 | an off-diet meal splits runs: no run of on-diet meals covers it |
| `Streak.CountTrueIsMultiplicity` | src/routes/meals.routes.ts:64 | counting on-diet entries one by one agrees with the multiplicity of `true` |
| `MealInfo.OnDiet` | src/routes/meals.routes.ts:64 | `meals.filter(meal => meal.is_on_diet)`: a meal is kept exactly when it is one of the meals and is on diet, and the filter's length is the number of on-diet entries |
| `MealInfo.OnDietCountIsFlagCount` | src/routes/meals.routes.ts:64 | the length of the on-diet filter is the number of `true` entries in the `is_on_diet` column |
| `MealInfo.Summarize` | src/routes/meals.routes.ts:63-90 | `mealsCount` is the number of meals; the on-diet count is the number of on-diet meals; on + off = total; the best sequence is at most the on-diet count, is the length of some run, and bounds every run |
| `MealInfo.SummarizeMeals` | src/routes/meals.routes.ts:63-90 | the handler's counts and its one-pass loop together compute exactly the specified summary, including a run that ends the history |
| `MealInfo.BestSequence` | src/routes/meals.routes.ts:67-83 | the loop with `continue`, the reset on an off-diet meal and the comparison after the loop computes the longest run of on-diet meals |
| `MealInfo.SummaryOfNoMeals` | src/routes/meals.routes.ts:63-83 | no meals: all four figures are zero |
| `MealInfo.SummaryAllOnDiet` | src/routes/meals.routes.ts:67-83 | `n` meals all on diet: `n`, `n`, 0, `n` |
| `MealInfo.SummaryOfTestHistory` | tests/meals.test.ts:162-226 | the order off, on, off, on, on gives 5, 3, 2, 2 |
| `MealInfo.SummaryCountsTrailingRun` | src/routes/meals.routes.ts:82-83 | off, on, on gives a best sequence of 2: the trailing run counts |
| `MealInfo.SummaryOfSplitRun` | src/routes/meals.routes.ts:76-79 | on, off, on gives a best sequence of 1: the off-diet meal resets the run |
| `MealInfo.SummaryOfThreeRuns` | src/routes/meals.routes.ts:63-83 | on, off, on, on, off, on, on, on gives 8, 6, 2, 3 |
| `MealStore.List` | src/routes/meals.routes.ts:14-19 | a row is listed exactly when it is in the table and belongs to the caller's session |
| `MealStore.Get` | src/routes/meals.routes.ts:36-47 | "not found" exactly when no row has both the id and the caller's session; otherwise a row of the table with both |
| `MealStore.GetFindsOwnedRow` | src/routes/meals.routes.ts:36-39 | with ids unique, looking up a row's own id from its own session returns that row |
| `MealStore.GetHidesOtherSessions` | src/routes/meals.routes.ts:36-45 | a row's id looked up from another session is not found, exactly as an absent id is not |
| `MealStore.Create` | src/routes/meals.routes.ts:104-126 | exactly one row is appended, with the fresh id, the given fields, `created_at` or else now, and the cookie's session or else a freshly minted one that is also issued; ids stay unique |
| `MealStore.CreateWithSession` | src/routes/meals.routes.ts:104-124 | a request carrying a non-empty session cookie stores its row under that session, issues no cookie, and that session's list gains the row |
| `MealStore.CreateWithoutSession` | src/routes/meals.routes.ts:104-124 | a request with no cookie or an empty one gets the minted session: the row is stored under it, it is issued as the cookie, and the new session lists exactly that row |
| `MealStore.CreateThenGet` | tests/meals.test.ts:58-89 | after creation the creating session finds the new row by its id |
| `MealStore.CreateThenList` | tests/meals.test.ts:31-56 | after creation the creator's listing gains exactly the new row at its end; every other session's listing is unchanged |
| `MealStore.CreateThenDelete` | tests/meals.test.ts:130-160 | deleting the row just created, from its session, restores the table |
| `MealStore.Patch` | src/routes/meals.routes.ts:148-158 | an update never writes id or session; a field present in the body takes the body's value, and a field absent from it keeps its value |
| `MealStore.PatchIdempotent` | src/routes/meals.routes.ts:154-158 | applying the same body twice equals applying it once |
| `MealStore.Update` | src/routes/meals.routes.ts:151-161 | matching rows get the body applied, all others stay in place unchanged; the returned rows are exactly the updated matches and are empty exactly when nothing matched; ids stay unique, and under the primary key at most one row is returned |
| `MealStore.SelectedAtMostOne` | src/routes/meals.routes.ts:151-154 | under the primary key, the filter by id and session selects at most one row |
| `MealStore.UpdateReturnsRow` | tests/meals.test.ts:110-127 | updating a row by its own id from its own session returns a one-element list holding exactly that row with the body applied |
| `MealStore.UpdateIdempotent` | src/routes/meals.routes.ts:151-159 | repeating an update with the same body leaves the table as the first one left it |
| `MealStore.UpdateIsolation` | src/routes/meals.routes.ts:151-154 | an update never changes what another session lists |
| `MealStore.UpdateThenGet` | tests/meals.test.ts:91-128 | after an update the row is found with the body applied and every absent field as before |
| `MealStore.Delete` | src/routes/meals.routes.ts:179-184 | a row survives exactly when it does not have both the id and the caller's session; ids stay unique |
| `MealStore.DeleteThenGet` | src/routes/meals.routes.ts:179-182 | after a delete the same session no longer finds the id |
| `MealStore.DeleteIdempotent` | src/routes/meals.routes.ts:179-184 | a second identical delete removes nothing |
| `MealStore.DeleteIsolation` | src/routes/meals.routes.ts:179-182 | a delete never changes what another session lists |
| `MealStore.CrossSessionIsolation` | src/routes/meals.routes.ts:36-39 | a row is not listed or found from another session, and an update or delete by its id from another session leaves it in place and returns no rows |
| `MealStore.Info` | src/routes/meals.routes.ts:56-91 | on a createdAt-sorted arrangement of the session's rows, the counts are those of the session's rows whatever the order, and the result is the specified summary of that order |
| `MealStore.SortedOrderIsUnique` | src/routes/meals.routes.ts:59-61 | when no two rows share a timestamp, the sorted query has exactly one possible result |
| `MealStore.SameInstantIsSorted` | src/routes/meals.routes.ts:59-61 | rows that share a single timestamp are sorted in every order |
| `MealStore.CreateKeepsChronology` | src/routes/meals.routes.ts:115-123 | a clock-stamped row created after every stored timestamp keeps the session's listing strictly time-ordered |
| `MealStore.InfoOfTestHistory` | tests/meals.test.ts:162-226 | five meals created in turn with distinct timestamps give 5, 3, 2, 2 under every order the sorted query may return |
| `MealStore.TiedTimestampsLeaveStreakOpen` | src/routes/meals.routes.ts:59-61 | with tied timestamps, two valid sorted orders of the same rows give best sequences 2 and 1 |

## Left out

- HTTP routing, status codes and response envelopes (`{ meal }`, `{ meals }`) are not modelled. A 404 is the `NotFound` lookup result, and a 201 or 204 is the return of the operation.
- Request parsing with zod is left out, and inputs are taken as already typed. A `created_at` supplied by the caller is a `Timestamp` (`nat`), because only its order matters.
- The SQL engine, `returning("*")` and SQLite's 0/1 encoding of booleans are left out. The table is a sequence of rows in insertion order, and `is_on_diet` is a `bool`. Creation returns the inserted row itself rather than a one-element array.
- `randomUUID()` becomes the parameters `newId` and `mintedSession`. Creation requires that `newId` is not already a key, in place of the database's primary-key check.
- `new Date()` becomes the parameter `now`.
- The session cookie's path and its 7-day lifetime are transport. Creation only reports which session, if any, it issued.
- The session guard is represented by the non-empty `SessionId` type. Its 401 response is not modelled.
- Storage failures and concurrency between requests are left out, because the code has no logic for either.
- `MealStore.Update`: an update whose body carries no field at all is modelled as a no-op that returns the matched rows. The knex query builder rejects an update with no values to write, so in the service such a request fails with a server error instead. The model does not reproduce that failure, because it comes from the library rather than from the handler's code.
- The plain listing has no `ORDER BY`, so the database may return rows in any order. The model returns them in table order.
- A lookup returns the first match in table order. With unique ids there is at most one match.
- `MealStore.List`: the contract states which rows are listed. It does not state their order or multiplicity. `MealRecord.WhereAppend` proves that the filter keeps table order, and `MealRecord.WhereMultiset` proves that each kept row appears as many times as it does in the table.
- `MealStore.Delete`: the contract states which rows survive. It does not state their order. `MealRecord.WhereAppend` proves that the filter keeps table order.
- `MealStore.Info` takes the sorted rows from its caller and does not sort them itself. With tied timestamps the database's tie order is unknown, so the best sequence may depend on it. `MealStore.TiedTimestampsLeaveStreakOpen` shows this.
