/**
 * The request-handling rules of the todo API as pure functions: the checks
 * a POST or PUT body must pass, the row a POST creates, the way a PUT merges
 * its body into a row, and the filter behind the collection GET. The store
 * in module Routes is specified by these functions.
 */
module Rules {
  import opened Wrappers
  import opened Todos

  // ----- POST /todos -----

  /**
   * The row a POST body describes, under the id the store assigns:
   * `completed` defaults to false, every other absent field stays unset.
   */
  function NewRow(id: int, b: Body): Todo {
    Todo(id, b.title, b.description, b.completed.GetOr(false), b.deadline)
  }

  /**
   * The validation of a POST body, as written: the empty-title check runs
   * first. It raises the exception class `IntegrityError` without the
   * arguments its constructor requires, so constructing the exception itself
   * fails, no `except` clause of the handler catches that failure, and the
   * request ends in a server fault. Nothing has been added to the table yet.
   */
  function CreateCheck(b: Body): Option<Response> {
    if b.title == Some("") then Some(Response(500, ServerFault))
    else if UnknownKeys(b) != {} then Some(Failure(MissingOrExtraFields))
    else None
  }

  /** Which POST bodies fail, and with which response, as the handler is written. */
  lemma CreateCheckCases(b: Body)
    ensures CreateCheck(b) == None <==> b.title != Some("") && Keys(b) <= Recognised
    ensures b.title == Some("") ==> CreateCheck(b) == Some(Response(500, ServerFault))
    ensures b.title != Some("") && !(Keys(b) <= Recognised) ==>
              CreateCheck(b) == Some(Failure(MissingOrExtraFields))
  {
  }

  /**
   * The validation the handler evidently intends: an empty title is answered
   * by its `except IntegrityError` clause, 400 "Failed to create Todo".
   */
  function IntendedCreateCheck(b: Body): Option<Response> {
    if b.title == Some("") then Some(Failure(FailedToCreate))
    else if UnknownKeys(b) != {} then Some(Failure(MissingOrExtraFields))
    else None
  }

  /**
   * The intended check refuses exactly the same bodies, answers an empty
   * title with 400 "Failed to create Todo" whatever other keys the body has,
   * and agrees with the check as written on every body whose title is not empty.
   */
  lemma IntendedCreateCheckCases(b: Body)
    ensures IntendedCreateCheck(b) == None <==> CreateCheck(b) == None
    ensures b.title == Some("") ==> IntendedCreateCheck(b) == Some(Failure(FailedToCreate))
    ensures b.title == Some("") ==> IntendedCreateCheck(b).value.status == 400
    ensures b.title != Some("") ==> IntendedCreateCheck(b) == CreateCheck(b)
  {
  }

  /**
   * A POST of `{"title": ""}` shows the difference: the handler as written
   * answers 500, the intended handler 400 "Failed to create Todo".
   */
  lemma EmptyTitleIsServerFault()
    ensures var b := Body(Some(""), None, None, None, None, None, None, {});
            && CreateCheck(b) == Some(Response(500, ServerFault))
            && IntendedCreateCheck(b) == Some(Response(400, Error(FailedToCreate)))
            && CreateCheck(b) != IntendedCreateCheck(b)
  {
  }

  /** A row created from a body that passed the checks never has an empty title. */
  lemma NewRowTitleNotEmpty(id: int, b: Body)
    requires CreateCheck(b) == None
    ensures NewRow(id, b).title != Some("")
    ensures NewRow(id, b).completed <==> b.completed == Some(true)
  {
  }

  // ----- PUT /todos/<id> -----

  /**
   * The validation of a PUT body against the row it targets: first the key
   * check, then the comparison of a truthy `id` member with the row's id.
   */
  function UpdateCheck(row: Todo, b: Body): Option<ErrorKind> {
    if UnknownKeys(b) != {} then Some(MissingOrExtraFields)
    else if b.id.Some? && b.id.value != 0 && row.id != b.id.value then Some(IdMismatch)
    else None
  }

  /**
   * `id` is not a recognised key, so a body carrying it is refused by the key
   * check; the id comparison therefore never yields IdMismatch, and the outcome
   * of the checks depends on the body's keys alone.
   */
  lemma IdMismatchUnreachable(row: Todo, b: Body)
    ensures b.id.Some? ==> UpdateCheck(row, b) == Some(MissingOrExtraFields)
    ensures UpdateCheck(row, b) != Some(IdMismatch)
    ensures UpdateCheck(row, b) == (if Keys(b) <= Recognised then None else Some(MissingOrExtraFields))
  {
  }

  /**
   * The row after a PUT: each of title, description, completed and
   * deadline_at takes the body's value when the body carries that key.
   */
  function Merge(row: Todo, b: Body): Todo {
    row.(title := if b.title.Some? then b.title else row.title,
         description := if b.description.Some? then b.description else row.description,
         completed := b.completed.GetOr(row.completed),
         deadline := if b.deadline.Some? then b.deadline else row.deadline)
  }

  /** Merge, field by field, in terms of the body's keys; the id never changes. */
  lemma MergeByKeys(row: Todo, b: Body)
    ensures Merge(row, b).id == row.id
    ensures "title" in Keys(b) ==> Merge(row, b).title == b.title
    ensures "title" !in Keys(b) ==> Merge(row, b).title == row.title
    ensures "description" in Keys(b) ==> Merge(row, b).description == b.description
    ensures "description" !in Keys(b) ==> Merge(row, b).description == row.description
    ensures "completed" in Keys(b) ==> Some(Merge(row, b).completed) == b.completed
    ensures "completed" !in Keys(b) ==> Merge(row, b).completed == row.completed
    ensures "deadline_at" in Keys(b) ==> Merge(row, b).deadline == b.deadline
    ensures "deadline_at" !in Keys(b) ==> Merge(row, b).deadline == row.deadline
  {
  }

  /** A body with none of the four mergeable keys leaves the row as it was. */
  lemma MergeWithoutFieldsIsIdentity(row: Todo, b: Body)
    requires Keys(b) !! {"title", "description", "completed", "deadline_at"}
    ensures Merge(row, b) == row
  {
  }

  /** A body carrying only `completed` changes only the completion flag. */
  lemma MergeOnlyCompleted(row: Todo, b: Body, c: bool)
    requires Keys(b) == {"completed"} && b.completed == Some(c)
    ensures Merge(row, b) == row.(completed := c)
  {
  }

  /**
   * A PUT has no empty-title check: `{"title": ""}` passes the checks and
   * empties the title of any row.
   */
  lemma UpdateAcceptsEmptyTitle(row: Todo)
    ensures var b := Body(Some(""), None, None, None, None, None, None, {});
            && UpdateCheck(row, b) == None
            && Merge(row, b) == row.(title := Some(""))
  {
  }

  /** Sending the same PUT body twice has the effect of sending it once. */
  lemma MergeIdempotent(row: Todo, b: Body)
    ensures Merge(Merge(row, b), b) == Merge(row, b)
  {
  }

  // ----- GET /todos -----

  const DefaultWindowDays: int := 100

  /** The instant deadlines are compared with: `window` days (default 100) after `now`. */
  function Cutoff(now: Timestamp, window: Option<int>): Timestamp {
    now + window.GetOr(DefaultWindowDays) * SecondsPerDay
  }

  /** Whether the handler compares the row's deadline at all. */
  predicate Examined(t: Todo, onlyCompleted: bool) {
    !onlyCompleted || t.completed
  }

  /** A row whose deadline is compared must have one; comparing an unset one raises. */
  predicate Comparable(t: Todo, onlyCompleted: bool) {
    Examined(t, onlyCompleted) ==> t.deadline.Some?
  }

  /** Whether the row belongs in the listing. */
  predicate Selected(t: Todo, onlyCompleted: bool, cutoff: Timestamp) {
    Examined(t, onlyCompleted) && t.deadline.Some? && t.deadline.value < cutoff
  }

  /** The selected rows of `s`, in the order of `s`. */
  function Filter(s: seq<Todo>, onlyCompleted: bool, cutoff: Timestamp): seq<Todo> {
    if s == [] then []
    else (if Selected(s[0], onlyCompleted, cutoff) then [s[0]] else [])
         + Filter(s[1..], onlyCompleted, cutoff)
  }

  /**
   * The response to the collection GET over the rows `s` in store order:
   * the filtered array, or a server fault when some examined row has no deadline.
   */
  function ListOutcome(s: seq<Todo>, onlyCompleted: bool, cutoff: Timestamp): Response {
    if forall t | t in s :: Comparable(t, onlyCompleted)
    then Response(200, Items(Filter(s, onlyCompleted, cutoff)))
    else Response(500, ServerFault)
  }

  /** One examined row without a deadline makes the whole listing fail. */
  lemma ListOutcomeFault(s: seq<Todo>, onlyCompleted: bool, cutoff: Timestamp, k: int)
    requires 0 <= k < |s| && !Comparable(s[k], onlyCompleted)
    ensures ListOutcome(s, onlyCompleted, cutoff) == Response(500, ServerFault)
  {
  }

  /** When every examined row has a deadline, the listing is the filtered rows. */
  lemma ListOutcomeOk(s: seq<Todo>, onlyCompleted: bool, cutoff: Timestamp)
    requires forall k | 0 <= k < |s| :: Comparable(s[k], onlyCompleted)
    ensures ListOutcome(s, onlyCompleted, cutoff) == Response(200, Items(Filter(s, onlyCompleted, cutoff)))
  {
  }

  /** `xs` is obtained from `ys` by deleting elements, keeping the rest in order. */
  ghost predicate SubsequenceOf<T>(xs: seq<T>, ys: seq<T>)
    decreases |ys|
  {
    xs == [] ||
    (ys != [] &&
     ((xs[0] == ys[0] && SubsequenceOf(xs[1..], ys[1..])) || SubsequenceOf(xs, ys[1..])))
  }

  /** Filtering a sequence one row longer adds at most that row, at the end. */
  lemma {:induction false} FilterAppend(s: seq<Todo>, t: Todo, onlyCompleted: bool, cutoff: Timestamp)
    ensures Filter(s + [t], onlyCompleted, cutoff)
         == Filter(s, onlyCompleted, cutoff) + (if Selected(t, onlyCompleted, cutoff) then [t] else [])
  {
    var tail := if Selected(t, onlyCompleted, cutoff) then [t] else [];
    if s == [] {
      assert s + [t] == [t];
      calc {
        Filter([t], onlyCompleted, cutoff);
        tail + Filter([t][1..], onlyCompleted, cutoff);
        { assert [t][1..] == []; }
        tail;
      }
    } else {
      var head := if Selected(s[0], onlyCompleted, cutoff) then [s[0]] else [];
      assert (s + [t])[0] == s[0];
      assert (s + [t])[1..] == s[1..] + [t];
      FilterAppend(s[1..], t, onlyCompleted, cutoff);
      calc {
        Filter(s + [t], onlyCompleted, cutoff);
        head + Filter(s[1..] + [t], onlyCompleted, cutoff);
        head + (Filter(s[1..], onlyCompleted, cutoff) + tail);
        (head + Filter(s[1..], onlyCompleted, cutoff)) + tail;
        Filter(s, onlyCompleted, cutoff) + tail;
      }
    }
  }

  /** Every listed row comes from `s` and is selected. */
  lemma {:induction false} FilterSound(s: seq<Todo>, onlyCompleted: bool, cutoff: Timestamp)
    ensures forall t | t in Filter(s, onlyCompleted, cutoff) :: t in s && Selected(t, onlyCompleted, cutoff)
  {
    if s != [] {
      FilterSound(s[1..], onlyCompleted, cutoff);
      forall t | t in Filter(s, onlyCompleted, cutoff)
        ensures t in s && Selected(t, onlyCompleted, cutoff)
      {
        if t != s[0] || !Selected(s[0], onlyCompleted, cutoff) {
          assert t in Filter(s[1..], onlyCompleted, cutoff);
        }
      }
    }
  }

  /** No selected row of `s` is left out. */
  lemma {:induction false} FilterComplete(s: seq<Todo>, onlyCompleted: bool, cutoff: Timestamp)
    ensures forall t | t in s && Selected(t, onlyCompleted, cutoff) :: t in Filter(s, onlyCompleted, cutoff)
  {
    if s != [] {
      FilterComplete(s[1..], onlyCompleted, cutoff);
      forall t | t in s && Selected(t, onlyCompleted, cutoff)
        ensures t in Filter(s, onlyCompleted, cutoff)
      {
        if t != s[0] {
          assert t in s[1..];
        }
      }
    }
  }

  /** The listing keeps store order. */
  lemma {:induction false} FilterSubsequence(s: seq<Todo>, onlyCompleted: bool, cutoff: Timestamp)
    ensures SubsequenceOf(Filter(s, onlyCompleted, cutoff), s)
    decreases |s|
  {
    if s != [] {
      var rest := Filter(s[1..], onlyCompleted, cutoff);
      FilterSubsequence(s[1..], onlyCompleted, cutoff);
      if Selected(s[0], onlyCompleted, cutoff) {
        var f := [s[0]] + rest;
        assert f[0] == s[0] && f[1..] == rest;
      } else {
        assert Filter(s, onlyCompleted, cutoff) == rest;
      }
    }
  }

  /**
   * The collection GET answers 200 exactly when every examined row has a
   * deadline; its array is then an order-preserving selection of the store
   * holding every row whose deadline is before the cutoff (and, with
   * `completed=true`, only completed rows), and nothing else.
   */
  lemma ListOutcomeMeaning(s: seq<Todo>, onlyCompleted: bool, cutoff: Timestamp)
    ensures ListOutcome(s, onlyCompleted, cutoff).status == 200
        <==> forall t | t in s :: Comparable(t, onlyCompleted)
    ensures ListOutcome(s, onlyCompleted, cutoff).status != 200 ==>
              ListOutcome(s, onlyCompleted, cutoff) == Response(500, ServerFault)
    ensures ListOutcome(s, onlyCompleted, cutoff).status == 200 ==>
              var r := ListOutcome(s, onlyCompleted, cutoff).payload;
              && r.Items?
              && SubsequenceOf(r.todos, s)
              && (forall t | t in r.todos ::
                    t in s && t.deadline.Some? && t.deadline.value < cutoff
                    && (onlyCompleted ==> t.completed))
              && (forall t | t in s && Selected(t, onlyCompleted, cutoff) :: t in r.todos)
  {
    FilterSound(s, onlyCompleted, cutoff);
    FilterComplete(s, onlyCompleted, cutoff);
    FilterSubsequence(s, onlyCompleted, cutoff);
  }
}
