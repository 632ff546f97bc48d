# Todo API request rules in Dafny

This project models the request-handling rules of a small task-tracking HTTP API
(`todo/views/routes.py`). Clients create, read, update, delete and list todo
records. The database behind the handlers is modelled as an in-memory todo
table: a map from integer id to a `Todo` row, the ids in store order, and a
next-id counter. Timestamps are whole seconds and "now" is a parameter.

- `wrappers.dfy`: module `Wrappers` holds `Option`. It stands for absent JSON keys and unset columns.
- `todos.dfy`: module `Todos` holds the values: `Todo` (a row), `Body` (the JSON object of a
  POST or PUT), the six recognised keys, the error kinds with their messages
  and status codes, and `Response` (status plus payload).
- `rules.dfy`: module `Rules` holds the rules as pure functions: `CreateCheck`
  (with `IntendedCreateCheck` beside it, see "Findings"), `NewRow`, `UpdateCheck`,
  `Merge`, `Filter` and `ListOutcome`, with the lemmas about them.
- `routes.dfy`: module `Routes` holds the class `TodoStore`. Its `Create`,
  `Update` and `Delete` change the table in place. `Get` is a lookup, and `List`
  walks the rows in a loop. Create, Update and List are proved against the
  functions of `Rules`. Get and Delete state their results directly; Delete
  uses `Without` for the store order. `Valid()` is the table invariant:
  every row is filed under its own id below the counter, and the order lists
  each id once, ascending. Every operation keeps it.

Behaviour worth knowing, all proved:

- A POST checks the empty title before the keys, so a body with `title: ""`
  fails on the title even when it also carries an unknown key. As written, that
  failure is a 500 server fault, not the 400 "Failed to create Todo" the handler
  means to send (see "Findings").
- A PUT has no empty-title check: `{"title": ""}` is merged like any other
  title (`Rules.UpdateAcceptsEmptyTitle`). A row's title is non-empty only as it was
  created (`Rules.NewRowTitleNotEmpty`).
- A rejected request leaves the table unchanged. A successful POST adds exactly
  one row under a fresh id. A successful PUT changes only the row it targets.
- DELETE of an absent id answers `{}` with 200 and changes nothing.
- `id` is not one of the recognised keys. A PUT body carrying `id` is
  therefore refused with "There are missing or extra fields" before the id
  comparison runs. The ID-mismatch error at `todo/views/routes.py:102-104` is
  never produced (`Rules.IdMismatchUnreachable`). One result is that the
  representation a GET returns, which contains `id`, cannot be sent back
  unchanged as a PUT body.
- The collection GET compares `deadline_at` with now plus `window` days. It
  does this for every row, or only for completed rows when `completed=true`.
  A compared row without a deadline makes the comparison raise. The model
  gives this case as a 500 response (`ServerFault`), not a filtered list.

Where the code and the written description of the API differ, the model
follows the code:

- An update with a mismatched `id` gives the "missing or extra fields" error,
  not an ID-mismatch error.
- A POST without a `title` key passes the handler's own checks.
- A POST with an empty title answers 500, not 400.
- The listing does not always answer 200 (see the 500 case above).

## Model

| member | source | states |
|---|---|---|
| `Rules.CreateCheckCases` | todo/views/routes.py:69-73 | as written: a POST body is accepted iff its title is not "" and all its keys are recognised; an empty title gives a 500 server fault even when unknown keys are present; otherwise an unknown key gives 400 MissingOrExtraFields |
| `Rules.IntendedCreateCheckCases` | todo/views/routes.py:69-88 | the intended check refuses exactly the bodies the written one refuses; an empty title gets 400 "Failed to create Todo" whatever other keys are present; on every body with a non-empty title the two checks agree |
| `Rules.EmptyTitleIsServerFault` | todo/views/routes.py:69-70 | for the body `{"title": ""}` the check as written answers 500 while the intended check answers 400 "Failed to create Todo" |
| `Rules.NewRowTitleNotEmpty` | todo/views/routes.py:61-70 | a row built from an accepted body never has an empty title, and it is completed only when the body says `completed: true` (default false) |
| `Rules.IdMismatchUnreachable` | todo/views/routes.py:99-104 | a PUT body carrying `id` is always refused as MissingOrExtraFields; the checks never yield IdMismatch; their outcome depends only on whether the keys are all recognised |
| `Rules.MergeByKeys` | todo/views/routes.py:106-109 | after a merge, each of title, description, completed, deadline_at equals the body's value when that key is present and the old value when it is absent; the id never changes |
| `Rules.MergeWithoutFieldsIsIdentity` | todo/views/routes.py:106-109 | a body with none of the four mergeable keys leaves the row unchanged |
| `Rules.MergeOnlyCompleted` | todo/views/routes.py:106-109 | a body carrying only `completed` changes only the completion flag |
| `Rules.UpdateAcceptsEmptyTitle` | todo/views/routes.py:99-106 | the PUT body `{"title": ""}` passes the checks and the merged row has an empty title, all else unchanged |
| `Rules.MergeIdempotent` | todo/views/routes.py:106-109 | applying the same PUT body twice equals applying it once |
| `Rules.FilterAppend` | todo/views/routes.py:37-45 | the filter of the rows plus one more row is the old filter, plus that row exactly when it is selected |
| `Rules.FilterSound` | todo/views/routes.py:39-45 | every listed row is a row of the store and is selected (examined, with a deadline before the cutoff) |
| `Rules.FilterComplete` | todo/views/routes.py:39-45 | every selected row of the store is listed |
| `Rules.FilterSubsequence` | todo/views/routes.py:36-47 | the listing is a subsequence of the store's rows: store order is kept |
| `Rules.ListOutcomeMeaning` | todo/views/routes.py:34-47 | the listing is 200 iff every examined row has a deadline, and 500 otherwise; on 200 it is an order-preserving selection holding exactly the rows whose deadline is before the cutoff, and with `completed=true` only completed ones |
| `Routes.WithoutMembers` | todo/views/routes.py:126-127 | removing an id from the store order keeps exactly the other ids |
| `Routes.WithoutAscending` | todo/views/routes.py:126-127 | removing an id keeps the store order ascending |
| `Routes.TodoStore.Rows` | todo/views/routes.py:36 | the rows in store order are exactly the stored rows, with strictly ascending ids |
| `Routes.TodoStore.Get` | todo/views/routes.py:49-55 | 200 with the row filed under the id (whose own id is that id) iff the id is present, else 404 "Todo not found" |
| `Routes.TodoStore.Create` | todo/views/routes.py:57-88 | a refused body returns the response of the check as written (500 for an empty title, 400 for an unknown key) and leaves the table unchanged; an accepted one adds exactly one row under a previously unused id, appends it to the store order, leaves the other rows unchanged and returns 201 with the new row; the invariant is kept |
| `Routes.TodoStore.Update` | todo/views/routes.py:91-117 | an absent id gives 404 and an unchanged table; a refused body gives its error and an unchanged table; otherwise only the target row changes, to Merge of it and the body, and is returned with 200; order and counter never change |
| `Routes.TodoStore.Delete` | todo/views/routes.py:119-128 | an absent id gives 200 `{}` and changes nothing; a present id is removed from the map and the order alone and its prior row is returned with 200 |
| `Routes.TodoStore.List` | todo/views/routes.py:31-47 | the loop's response equals ListOutcome over the rows in store order, with `completed == "true"` selecting completed-only mode and the cutoff now plus `window` days (default 100) |
| `Routes.TodoStore.CreateThenGet` | todo/views/routes.py:50-80 | after an accepted POST, a GET of the new id returns 200 with the created row, whose fields are the body's (completed defaulting to false); a refused POST answers the check's response (500 or 400), never 201 |
| `Routes.TodoStore.DeleteTwice` | todo/views/routes.py:120-128 | a second DELETE of an id answers 200 `{}`, a GET of it then answers 404, and the id alone has left the table |

## Findings

| source | as written | input that shows it | evidently intended | confidence | as-written member | corrected member |
|---|---|---|---|---|---|---|
| todo/views/routes.py:69-70 | `raise exc.IntegrityError` raises the class without the `statement, params, orig` arguments its constructor requires, so building the exception raises a `TypeError` that neither `except` clause catches: the request ends in a 500 (the table is unchanged) | POST `{"title": ""}` | the `except exc.IntegrityError` clause at lines 82-85 answers 400 "Failed to create Todo" | high; not executed (rests on the constructor signature of SQLAlchemy's `DBAPIError`) | `Rules.EmptyTitleIsServerFault` | `Rules.IntendedCreateCheckCases` |

`Routes.TodoStore.Create` follows the code as written (`Rules.CreateCheck`).
`Rules.IntendedCreateCheck` is the corrected check. Its proved properties
say that it refuses the same bodies, answers an empty title with 400, and
agrees with the written check everywhere else. So a handler using it would
differ only in the status and payload of that one response.

## Left out

- Flask routing, `jsonify`, `request` parsing and `to_dict` serialisation: a
  response is a status and a payload datatype, and a row's representation is the `Todo` value.
- The health endpoint (`todo/views/routes.py:25-28`): it returns a constant `{"status": "ok"}` and touches no state.
- The SQLAlchemy session (add, commit, rollback, transactions): the table is
  a plain map. "Rolled back" is stated as "table unchanged".
- Constraints of the `Todo` database model. The file `todo/models/todo.py` is
  not part of this model. A body without `title` is stored with an unset title,
  and a commit failure it might cause is not modelled.
- `created_at` and `updated_at`: they are accepted as body keys but the handlers never assign
  them. Whatever the database fills in is not modelled, so they are not row fields.
- Parsing: `datetime.fromisoformat` on create and the raw, unparsed value that update stores
  are both abstracted as an integer `Timestamp`. Parse failures, JSON `null` values
  and values of the wrong type are not modelled. `Body` fields are typed, and a field is
  present exactly when its key is.
- `int(window)` on a non-numeric value and `timedelta` overflow: `window` is an
  optional integer. `datetime.now()` is read once per comparison in the source and once
  (the `now` parameter) in the model.
- Id assignment: the store hands out a counter that never reuses a deleted id.
  A database may reuse one.
- Store order of `Todo.query.all()`: modelled as ascending id (insertion order).
- The ID-mismatch response at `todo/views/routes.py:117` passes a set to `jsonify`.
  That branch is unreachable, and the model gives it as a 400 with the ID-mismatch error.
- The 400 "Failed to create Todo" answer of the `except exc.IntegrityError` clause
  (`todo/views/routes.py:82-85`): as written, only an integrity failure at commit reaches it,
  and database constraints are not modelled.
- A request whose body is not JSON, the `print` at `todo/views/routes.py:83`, the unused `TEST_ITEM`.
- Concurrency between requests: each request is handled on its own.
