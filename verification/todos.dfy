/**
 * The values the todo API exchanges: a stored todo row, the JSON object of a
 * POST or PUT body, and the response a handler returns.
 */
module Todos {
  import opened Wrappers

  /** A point in time, in whole seconds. */
  type Timestamp = int

  const SecondsPerDay: int := 86400

  /**
   * One row of the todo table. `title`, `description` and `deadline` are
   * None when the request that created the row did not carry them.
   */
  datatype Todo = Todo(
    id: int,
    title: Option<string>,
    description: Option<string>,
    completed: bool,
    deadline: Option<Timestamp>)

  /**
   * The JSON object of a request body. Each named field is Some exactly when
   * its key is present; `otherKeys` are the remaining keys (a name already
   * covered by a field is ignored there).
   */
  datatype Body = Body(
    title: Option<string>,
    description: Option<string>,
    completed: Option<bool>,
    deadline: Option<Timestamp>,
    createdAt: Option<Timestamp>,
    updatedAt: Option<Timestamp>,
    id: Option<int>,
    otherKeys: set<string>)

  /** The keys a POST or PUT body may carry. */
  const Recognised: set<string> :=
    {"title", "description", "completed", "deadline_at", "created_at", "updated_at"}

  /** The keys that have a field of their own in `Body`. */
  const Named: set<string> := Recognised + {"id"}

  function KeyIf(present: bool, key: string): set<string> {
    if present then {key} else {}
  }

  /** The set of keys of the JSON object. */
  function Keys(b: Body): set<string> {
    KeyIf(b.title.Some?, "title") + KeyIf(b.description.Some?, "description")
    + KeyIf(b.completed.Some?, "completed") + KeyIf(b.deadline.Some?, "deadline_at")
    + KeyIf(b.createdAt.Some?, "created_at") + KeyIf(b.updatedAt.Some?, "updated_at")
    + KeyIf(b.id.Some?, "id") + (b.otherKeys - Named)
  }

  /** The keys of the body outside the recognised six. */
  function UnknownKeys(b: Body): set<string> {
    Keys(b) - Recognised
  }

  datatype ErrorKind = NotFound | FailedToCreate | MissingOrExtraFields | IdMismatch

  /** The text of the `error` member of an error payload. */
  function Message(e: ErrorKind): string {
    match e
    case NotFound => "Todo not found"
    case FailedToCreate => "Failed to create Todo"
    case MissingOrExtraFields => "There are missing or extra fields"
    case IdMismatch => "Todo ID does not match ID in JSON object"
  }

  function StatusOf(e: ErrorKind): int {
    if e == NotFound then 404 else 400
  }

  datatype Payload =
    | Item(todo: Todo)          // one todo's representation
    | Items(todos: seq<Todo>)   // a JSON array of representations
    | EmptyObject               // {}
    | Error(kind: ErrorKind)    // {"error": Message(kind)}
    | ServerFault               // an exception escaped the handler

  datatype Response = Response(status: int, payload: Payload)

  function Failure(e: ErrorKind): Response {
    Response(StatusOf(e), Error(e))
  }
}
