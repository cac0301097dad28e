# Daily diet API: a Dafny model of the meal and user routes

This project models the two route files that hold the logic of a small
meal-tracking HTTP API, and proves properties of them.

- **Meals** (`src/routes/meals.ts`). Each meal handler is scoped to the caller's
  user id. Create, patch and delete change the `meals` table. The model keeps
  that table as the field `rows: seq<Meal>` of the class `Meals.MealTable`, in
  insertion order, with no two rows sharing an id. List and get are functions
  that read the table. The metrics handler is a method. It computes the three
  counts, then runs the source's single loop over the caller's meals, most
  recent first. The loop tracks the current diet run and the longest run seen.
  The loop is the method `Meals.DietStreak`, proved against
  `Metrics.LongestDietRun`, a recursive specification function. Lemmas show
  that this function is a maximum: some diet run reaches it and no diet run
  exceeds it.
- **Users** (`src/routes/users.ts`). `Users.UserTable.Register` follows the
  handler step by step. First it reuses the request's `sessionId` cookie, or
  issues a fresh id together with a 7-day cookie. Then it validates the body
  and rejects an email that is already registered. Otherwise it appends
  exactly one row. The class invariant says that no two users share an email
  or an id, and every registration keeps it.

Replies are datatypes (`Meals.MealReply`, `Users.RegisterReply`). Each has a
`Status()` function that gives the HTTP status code. A request body is a
`Request.Body`: either not a JSON object, or a map from key to scalar JSON
value. A key the client left out is absent from the map.

How the handlers behave at their edges, as the model follows them:

- A body or path parameter that fails its schema makes the handler throw. No
  route catches the error, so the framework's default handler answers 500. The
  model calls this reply `Invalid` with status 500.
- The string schemas accept the empty string. The model does not require
  names or descriptions to be non-empty.
- Patch already is a true partial update. The query builder drops undefined
  keys, so absent fields are left unchanged. For a patch that provides at
  least one column, `MealRecords.ApplyPatch` models exactly that. A body that
  provides no column passes the schema and the lookup. The update then finds
  no values, the query builder throws, and the reply is 500.
- Every meal query, metrics included, filters by the caller's id.
- A duplicate email replies 401 "User already exists".
- The session id is reused only when the cookie is present and non-empty:
  `!sessionId` is also true for `""`. A new cookie is issued before the body is
  validated, so a rejected registration still sets it.
- A client that already holds a session cookie and registers a second person
  gives both users the same session id (`Users.RegisterWithSharedCookie`).

## Model

| member | source | states |
|---|---|---|
| Request.IsUuid | src/routes/meals.ts:45-49 | the `mealId` parameter is accepted iff it is 36 characters long, with hyphens at positions 8, 13, 18 and 23 and a hexadecimal digit of either case everywhere else |
| Request.CoerceDate | src/routes/meals.ts:15 | an absent date is invalid; null is epoch 0, true is 1 ms and false is 0 ms; a number is valid iff its numeric value lies within ±8.64e15 ms, and a number keeps its value; a string is whatever the date parser makes of it |
| MealRecords.OwnedBy | src/routes/meals.ts:37 | the caller's view has no more rows than the table, every row in it is owned by the caller, and it is empty iff the caller owns no row |
| MealRecords.OwnedByMembers | src/routes/meals.ts:37 | the caller's view holds exactly the rows whose `user_id` is the caller, and no other user's |
| MealRecords.OwnedByConcat | src/routes/meals.ts:37 | the owner filter keeps table order: filtering a concatenation concatenates the filtered parts |
| MealRecords.OwnedByRemove | src/routes/meals.ts:118-121 | removing one row leaves other owners' views unchanged and shortens its owner's view by one |
| MealRecords.OwnedByReplace | src/routes/meals.ts:92-94 | updating one row in place, owner kept, leaves every other owner's view unchanged |
| MealRecords.RemoveKeepsUniqueIds | src/routes/meals.ts:118-121 | after a delete, ids stay unique and no row keeps the deleted id |
| MealRecords.Find | src/routes/meals.ts:51-53 | the lookup returns a row with both the given id and the caller as owner, and returns nothing exactly when no such row exists |
| MealRecords.FindIsUnique | src/routes/meals.ts:84-86 | when ids are unique, the row found is the only row with that id |
| MealRecords.ApplyPatch | src/routes/meals.ts:92-94 | the update keeps id and owner; each provided column takes the new value and each absent column keeps the old one |
| MealRecords.ApplyPatchIdempotent | src/routes/meals.ts:94 | applying the same update twice equals applying it once |
| MealRecords.DietCount | src/routes/meals.ts:134-148 | the count of rows with a given diet flag is at most the number of rows; it is 0 iff no row has that flag, and equals the number of rows iff every row has it |
| MealRecords.DietCountsPartition | src/routes/meals.ts:134-148 | the diet count and the not-diet count add up to the number of meals |
| MealRecords.DietCountPermutation | src/routes/meals.ts:130-148 | the counts depend only on which meals there are, not on their order |
| MealRecords.InsertByDate | src/routes/meals.ts:132 | inserting into a date-descending list keeps it date-descending and adds exactly that meal |
| MealRecords.SortByDateDesc | src/routes/meals.ts:130-133 | the ordered meals are sorted by date, most recent first, and are a permutation of the caller's meals |
| Metrics.TrailingDietRun | src/routes/meals.ts:154-161 | the loop's `sequence`: the diet run that ends the prefix seen, which cannot be extended to the left |
| Metrics.LongestDietRun | src/routes/meals.ts:150-162 | the loop's `biggestSequence`: at least the current run and at most the number of meals |
| Metrics.LongestDietRunIsUpperBound | src/routes/meals.ts:150-162 | no run of consecutive diet meals is longer than the streak |
| Metrics.LongestDietRunIsAttained | src/routes/meals.ts:150-162 | some run of consecutive diet meals is exactly as long as the streak |
| Metrics.LongestDietRunIsMaximum | src/routes/meals.ts:150-162 | the streak is the maximum length of a run of consecutive diet meals |
| Metrics.LongestDietRunAtMostDietCount | src/routes/meals.ts:150-168 | the streak, and the current run, never exceed the number of diet meals |
| Metrics.NoDietNoStreak | src/routes/meals.ts:150-162 | with no meals, or no diet meals, the streak is 0 |
| Metrics.AllDietStreakIsLength | src/routes/meals.ts:150-162 | when every meal is a diet meal, the streak equals the number of meals |
| Metrics.SortedReportFacts | src/routes/meals.ts:130-169 | over the date-ordered meals, diet plus not-diet equals the total, and the streak is a maximum that is at most the diet count |
| Metrics.StreakExample | src/routes/meals.ts:150-169 | diet flags true, true, false, true give totals 3 and 1 and streak 2 |
| Meals.ParseCreateBody | src/routes/meals.ts:12-21 | a create body is accepted iff name and description are strings, date coerces to a valid date and diet is a boolean; a missing field or a non-boolean diet is rejected |
| Meals.ParsePatchBody | src/routes/meals.ts:73-82 | a patch body is accepted iff every field present has its schema's type; exactly the present fields become provided columns, and each takes its value from the body (the date through the date coercion) |
| Meals.NameOnlyPatch | src/routes/meals.ts:73-82 | a body holding only a name parses to an update of the name alone |
| Meals.NoChangeWithoutColumns | src/routes/meals.ts:73-94 | an object body parses to the update with no column iff it has none of the four keys |
| Meals.MealTable.List | src/routes/meals.ts:36-39 | 200 with exactly the caller's meals |
| Meals.MealTable.Get | src/routes/meals.ts:41-60 | a non-UUID id is rejected before lookup; found iff a row has that id and the caller as owner, else 404 "Meal not found" |
| Meals.MealTable.Create | src/routes/meals.ts:8-33 | an invalid body writes nothing; otherwise exactly one row is appended, with the fresh id and the caller as owner, the reply is 201, get finds it, the caller's list grows by it and other users' lists are unchanged |
| Meals.MealTable.Patch | src/routes/meals.ts:63-97 | the id, then the body, then ownership are checked; an absent or foreign meal gives 404 and no write; a found meal with a body that provides no column gives 500 and no write; otherwise only that row changes, as ApplyPatch says, and the reply is 201 |
| Meals.FindAfterPatch | src/routes/meals.ts:92-94 | after the row is updated in place, the lookup still finds it at the same position |
| Meals.MealTable.Delete | src/routes/meals.ts:100-124 | an absent or foreign meal gives 404 "Meal not found!" and no write; otherwise exactly that row is removed, the reply is 204, a later get gives 404 and other users' lists are unchanged |
| Meals.MealTable.Metrics | src/routes/meals.ts:126-170 | totals are the caller's meal count and diet/not-diet counts, which add up; the streak is the longest diet run over the caller's meals in date-descending order, and it is at most the diet count |
| Meals.DietStreak | src/routes/meals.ts:150-162 | the loop's result is the longest diet run: some run of consecutive diet meals has exactly that length and none is longer |
| Users.SessionCookie | src/routes/users.ts:19-22 | the cookie is named `sessionId`, has path `/` and max age 604800 seconds |
| Users.ParseRegisterBody | src/routes/users.ts:8-12 | a registration body is accepted iff both names are strings and the email is a string that passes the email check |
| Users.HasSession | src/routes/users.ts:14-16 | a missing cookie and an empty one both count as no session; any other cookie value is reused |
| Users.FindByEmail | src/routes/users.ts:29-31 | the lookup returns the first row carrying the email, and returns nothing exactly when no row carries it |
| Users.UserTable.List | src/routes/users.ts:47-51 | every row of the table, unfiltered and in order |
| Users.UserTable.Register | src/routes/users.ts:7-45 | a cookie is issued iff the request has no usable session id, before and whatever the validation says; an invalid body or a known email (401 "User already exists") writes nothing; otherwise exactly one row is appended with the fresh id and the session id; emails stay unique |
| Users.RegisterTwice | src/routes/users.ts:29-33 | a second registration with the same body is rejected with 401, and at most one row is added in all |
| Users.RegisterWithSharedCookie | src/routes/users.ts:14-16 | two people registering under one existing cookie get rows with the same session id |

## Left out

- HTTP and framework plumbing: route registration, the cookie plugin, and the `/hello` endpoint in `src/app.ts`. Replies are datatypes with a status.
- The session middleware `checkSessionIdExists` is not part of this model. The meal handlers take the caller's user id as a parameter, and the unauthenticated path is not modelled.
- SQL and the query builder. Tables are sequences. `count`, `orderBy`, `.first()` and `.first().delete()` are their effects on those sequences, not the library.
- Request.IsUuid: the validation library's UUID pattern differs between its versions, and the version is not part of this model. The model uses the loose 8-4-4-4-12 hexadecimal shape and does not restrict the version or variant digits.
- `randomUUID()`. Drawn ids are parameters. Meals.MealTable.Create assumes the new meal id is a UUID not yet in the table, and Users.UserTable.Register assumes the new user id is not in the table.
- The email regular expression of the validation library. Users.ParseRegisterBody takes it as the parameter `isEmail`.
- Parsing date strings. `Request.CoerceDate` models `new Date(v)` for absent, null, boolean and number values, including the date range of ±8.64e15 ms. For strings it calls a `parseDate` parameter.
- JSON arrays and objects as field values, and fractional numbers. The model's JSON values are scalars with integer numbers.
- Metrics.LongestDietRun and Meals.MealTable.Metrics: SQL leaves the order of meals with equal dates unspecified. The model keeps their table order, so the streak is exact only up to that choice.
- The stored `created_at` is a `now` parameter. The 0/1 storage encoding of `diet` is a boolean here.
- Concurrent requests, for instance two registrations racing between the email check and the insert. Each request is atomic.
- Migrations and the test harness, including the users test that reads `body.users` when the route returns a bare array.
