# Users-and-tasks API service, modelled in Dafny

The backend of this project is a small REST service over two tables,
`users(id, username, email)` and `tasks(id, user_id, title, is_done)`. It has six
handlers:

- a health check;
- create a user;
- list all users;
- list one user's tasks;
- create a task for a user;
- set a task's `is_done` flag.

The three write handlers check the request body with a JavaScript test
(`src/backend/server.js:39`, `88`, `111`) and answer 400 when the check fails.
Every handler except the health check runs SQL. The two list handlers run a
single query. The two create handlers insert a row and read it back. The update
handler updates a row, answers 404 when no row matched, and otherwise reads the
row back. Each of these five handlers answers 500 when the store raises an
error. The health check reads nothing, runs no SQL and cannot fail.

The model replaces MySQL with an in-memory store whose statements have exact
semantics. The modules are:

- `json.dfy` (`Json`): the JSON values a request body can carry. It also defines
  JavaScript truthiness (`Truthy`, which backs `!username`, `!email` and
  `!title`) and the strict test `typeof is_done === 'boolean'` (`IsBoolean`).
  A key the body lacks reads as `Undefined`.
- `tables.dfy` (`Tables`): the row records and the meaning of each query as a
  function over the rows. The id order and the lookup by id are defined once
  for both tables, over each table's key (`UserKey`, `TaskKey`):
  - `SELECT … WHERE id = ?` with `rows[0]`;
  - `WHERE user_id = ?`;
  - `UPDATE … SET is_done = ? WHERE id = ?`;
  - the update's `affectedRows`.

  This module also holds the lemmas about these functions: ordering, the
  uniqueness of an ordered answer (so a listing equals exactly the expected
  list), appending a row, the single-row effect of an
  update, idempotence and read-back.
- `store.dfy` (`Store.Database`): a class that holds both tables and one
  AUTO_INCREMENT counter per table. Its object invariant `Valid` says:
  - ids are positive;
  - ids are below their table's counter;
  - each table is kept in strictly ascending id order.

  Inserts and the update are methods that reassign the table fields. The
  ordered selects are functions.
- `server.dfy` (`Server`): the six handlers. Each is a method that takes the
  store and returns a `Response(status, reply)`. A store failure is the
  parameter `fault`: `FailsAt(n)` means that the n-th statement of the request
  raises, and `NoFault` means that none does.
- `scenario.dfy` (`Scenario`): sequences of requests and what callers can
  conclude from the handlers' contracts alone:
  - the alice / "buy milk" walkthrough;
  - a creation followed by a listing;
  - the same `is_done` update sent twice.

Three points about the source that the model keeps as written:

- **No user check before inserting a task.** The task handler inserts the row
  without checking that the user exists (`src/backend/server.js:93-96`), and
  `Server.CreateTask` does the same.
- **Failure after a write.** A failure in the read-back after a successful
  `INSERT` or `UPDATE` still returns 500, but the write has already happened.
  The code uses no transaction, and `FailsAt(2)` models this case.
- **Ids as typed values.** The ids from the request path are typed integers
  compared by equality. The code passes the raw path string to the store.

## Model

| member | source | states |
|---|---|---|
| `Json.Field` | src/backend/server.js:38 | Destructuring a key from the body gives the key's value, or `undefined` when the body lacks the key (also at lines 86 and 109) |
| `Json.Truthy` | src/backend/server.js:39 | `!x` holds exactly for `undefined`, `null`, `false`, `0` and the empty string; arrays and objects, even empty ones, are truthy (also at line 88) |
| `Json.IsBoolean` | src/backend/server.js:111 | `typeof v === 'boolean'` holds exactly for `true` and `false` |
| `Server.UserFieldsGiven` | src/backend/server.js:39 | The create-user check passes exactly when both `username` and `email` are present and neither is `undefined`, `null`, `false`, `0` or the empty string |
| `Server.TitleGiven` | src/backend/server.js:88 | The create-task check passes exactly when `title` is present and is not `undefined`, `null`, `false`, `0` or the empty string |
| `Tables.RowWithId` | src/backend/server.js:49-50 | Reading a row back by id gives a stored row with that id, and it finds none exactly when no stored row has that id; it serves both tables (also at lines 98-99 and 125-126) |
| `Tables.TasksOfUser` | src/backend/server.js:72-75 | The `WHERE user_id = ?` answer holds a task exactly when that task is stored and its owner is the given id |
| `Tables.SetDone` | src/backend/server.js:116-119 | The update keeps the table's length. Every row with the id gets the new `is_done`, and every other row and every other field is unchanged |
| `Tables.MatchedRows` | src/backend/server.js:121 | `affectedRows` is 0 exactly when no stored task has the id |
| `Tables.TasksOfUserAscending` | src/backend/server.js:72-75 | On a table ordered by id, the filtered answer is in strictly ascending id order |
| `Tables.AscendingUnique` | src/backend/server.js:60-75 | Two strictly id-ascending lists with the same members are equal, so for either listing `ORDER BY id` plus the matching rows fixes the reply exactly |
| `Tables.TasksOfUserAppend` | src/backend/server.js:93-96 | Inserting a task appends it to the end of its owner's filtered list and leaves every other user's list unchanged |
| `Tables.SetDoneChangesOneRow` | src/backend/server.js:116-121 | On a table without repeated ids, the update matches at most one row. With no match the table is unchanged. With a match, the only change is the `is_done` of the row with that id |
| `Tables.MatchedRowsAtMostOne` | src/backend/server.js:121 | On a table without repeated ids, `affectedRows` is at most 1 |
| `Tables.SetDoneIdempotent` | src/backend/server.js:116-121 | Applying the same `(id, is_done)` twice gives the same table as applying it once, and the second update matches as many rows as the first |
| `Tables.MatchedRowsSetDone` | src/backend/server.js:116-121 | The update does not change which rows match its id |
| `Tables.SetDoneKeepsIds` | src/backend/server.js:116-119 | The update keeps the table in strictly ascending id order |
| `Tables.RowWithIdAfterInsert` | src/backend/server.js:44-50 | Reading back the id just inserted, which is above every stored id, returns the inserted row; it serves both tables (also at lines 93-99) |
| `Tables.RowWithIdAt` | src/backend/server.js:125-126 | On a table without repeated ids, reading back the id of a stored row returns that row |
| `Tables.TaskWithIdAfterSetDone` | src/backend/server.js:116-126 | After an update that matched, reading back the id returns the matched row with the new `is_done` |
| `Store.Database.constructor` | src/backend/server.js:44-48 | A new store has two empty tables, and both AUTO_INCREMENT counters start at 1, so the first inserted id is 1 |
| `Store.Database.InsertUser` | src/backend/server.js:44-48 | The insert appends one user row under the counter's value, which is above every stored id. It returns that id, advances the counter and leaves `tasks` alone |
| `Store.Database.InsertTask` | src/backend/server.js:93-97 | The insert appends one task row with the given owner and title and `is_done = false`, under an id above every stored id. It does not check the owner and leaves `users` alone |
| `Store.Database.UpdateIsDone` | src/backend/server.js:116-121 | `affectedRows` is the number of rows matched. The table becomes the updated table, and with no match nothing changes |
| `Store.Database.AllUsersById` | src/backend/server.js:60 | The answer is in strictly ascending id order and holds exactly the stored users |
| `Store.Database.TasksOfUserById` | src/backend/server.js:72-75 | The answer is in strictly ascending id order and holds exactly the stored tasks of the given owner |
| `Server.Health` | src/backend/server.js:32-34 | Always returns 200 with `{status: 'ok'}` |
| `Server.CreateUser` | src/backend/server.js:37-55 | Returns 400 exactly when `username` or `email` is falsy, and then changes nothing. A failed `INSERT` gives 500 and changes nothing. Otherwise it adds one user with a fresh id and the given fields and changes nothing else. It then returns 201 with that row, or 500 if the read-back fails |
| `Server.ListUsers` | src/backend/server.js:58-66 | Returns 500 exactly on a store failure. Otherwise it returns 200 with every user, in strictly ascending id order, and an empty table gives an empty list. The handler writes nothing |
| `Server.ListTasks` | src/backend/server.js:69-81 | Never returns 404. It returns 500 exactly on a store failure. Otherwise it returns 200 with exactly the tasks of that owner id in ascending id order, which is an empty list for an unknown user. The handler writes nothing |
| `Server.CreateTask` | src/backend/server.js:84-104 | Returns 400 exactly when `title` is falsy, and then changes nothing. A failed `INSERT` gives 500 and changes nothing. Otherwise it adds one task with a fresh id, the path's owner id, the given title and `is_done = false`, without checking that the user exists. It then returns 201 with that row, or 500 if the read-back fails |
| `Server.SetTaskState` | src/backend/server.js:107-131 | Returns 400 exactly when `is_done` is not a boolean. It returns 404 exactly when no task has the id. Both cases, and a failed `UPDATE`, leave the store unchanged. Otherwise the only change is the `is_done` of that one task, and the response is 200 with the updated row, or 500 if the read-back fails |
| `Scenario.Walkthrough` | src/backend/server.js:37-131 | From an empty store: creating alice gives user 1, her task "buy milk" gets id 1 and is open, marking it done returns it with `is_done = true`, and listing her tasks returns exactly that task |
| `Scenario.CreateUserThenList` | src/backend/server.js:37-66 | Creation answers 201 exactly when `username` and `email` both pass the check. A user that was created, with the given fields and a fresh id, is appended to the end of the previous user list in the next listing |
| `Scenario.CreateTaskThenList` | src/backend/server.js:69-104 | Creation answers 201 exactly when `title` passes the check. A task that was created, open and with the given title, is appended to its owner's previous listing |
| `Scenario.SetTaskStateTwice` | src/backend/server.js:107-131 | Sending the same `is_done` for the same task twice gives the same answer both times. The store ends as after one request: `tasks` is the once-updated table, and `users` and both counters are unchanged |

## Left out

- Process and transport wiring is not modelled: `dotenv`, `express`, `cors`, `express.json` and `app.listen`. The handlers are called directly with a parsed body map; a body that is an array has none of the keys read and appears as an empty map.
- Log output (`console.error`) and the French error texts are not modelled: every error reply is the opaque `Error` body.
- The MySQL connection pool is not modelled: its creation, `connectionLimit`, wait queue and the startup `process.exit(1)`. Requests are handled one at a time, so concurrent requests do not interleave.
- Path parameters are typed integers. The source passes the raw string to MySQL, which coerces it to the integer column; this coercion, and non-numeric ids, are not modelled.
- Stored values are the JSON values as sent. MySQL's conversion of a bound value to the column type is not modelled, and neither is returning `is_done` as a `TINYINT` 0/1 rather than a boolean.
- Unique and foreign-key constraints are not modelled. No such constraint appears in the code, and any constraint violation would be a store error, which `FailsAt(1)` covers.
- `Store.Database.UpdateIsDone`: treats `affectedRows` as the number of rows MATCHED, not changed, as the mysql2 driver reports it by default. A driver counting changed rows would answer 404 to a repeated identical update.
- AUTO_INCREMENT is modelled as a counter that starts at 1 and that a failed `INSERT` does not advance. The real engine may skip values, which can only make ids larger. That does not affect freshness.
- An exception thrown outside a handler's `try` is not modelled, for example destructuring a missing body. Express answers such a request itself.
- JSON numbers are finite here, held as rationals. `JSON.parse` never produces `NaN`, but it turns an out-of-range literal such as `1e400` into `Infinity`, which this model cannot hold. Infinity is truthy, so leaving it out changes no status.
- The single-page client `src/frontend/src/App.js` is not part of this model. It consists of UI state and `fetch` calls, and its form checks do not bind the service.
