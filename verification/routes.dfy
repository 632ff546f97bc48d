/**
 * The five todo endpoints as operations on an in-memory todo table: a map
 * from id to row, the ids in store order, and the id the next insert gets.
 * A request that is refused leaves all three as they were, which is what the
 * handlers' rollback guarantees.
 */
module Routes {
  import opened Wrappers
  import opened Todos
  import opened Rules

  /** Store order: ids strictly ascending. */
  ghost predicate Ascending(s: seq<int>) {
    forall j, k :: 0 <= j < k < |s| ==> s[j] < s[k]
  }

  /** The rows named by `order`, in that order. */
  function InOrder(rows: map<int, Todo>, order: seq<int>): (s: seq<Todo>)
    requires forall k :: 0 <= k < |order| ==> order[k] in rows
    ensures |s| == |order|
    ensures forall k :: 0 <= k < |s| ==> s[k] == rows[order[k]]
  {
    seq(|order|, k requires 0 <= k < |order| => rows[order[k]])
  }

  /** `s` with every occurrence of `x` removed. */
  function Without(s: seq<int>, x: int): seq<int> {
    if s == [] then []
    else (if s[0] == x then [] else [s[0]]) + Without(s[1..], x)
  }

  lemma {:induction false} WithoutMembers(s: seq<int>, x: int)
    ensures forall y :: y in Without(s, x) <==> y in s && y != x
  {
    if s != [] {
      WithoutMembers(s[1..], x);
      forall y ensures y in Without(s, x) <==> y in s && y != x {
        assert y in s <==> y == s[0] || y in s[1..];
      }
    }
  }

  lemma {:induction false} WithoutAscending(s: seq<int>, x: int)
    requires Ascending(s)
    ensures Ascending(Without(s, x))
  {
    if s != [] {
      var rest := Without(s[1..], x);
      assert Ascending(s[1..]) by {
        forall j, k | 0 <= j < k < |s[1..]| ensures s[1..][j] < s[1..][k] {
          assert s[1..][j] == s[j + 1] && s[1..][k] == s[k + 1];
        }
      }
      WithoutAscending(s[1..], x);
      WithoutMembers(s[1..], x);
      if s[0] != x {
        var w := [s[0]] + rest;
        forall j, k | 0 <= j < k < |w| ensures w[j] < w[k] {
          if j == 0 {
            assert w[k] == rest[k - 1] && rest[k - 1] in s[1..];
          } else {
            assert w[j] == rest[j - 1] && w[k] == rest[k - 1];
          }
        }
      }
    }
  }

  class TodoStore {
    var rows: map<int, Todo>
    var order: seq<int>
    var nextId: int

    /** Every row is filed under its own id, below `nextId`; `order` lists each id once, ascending. */
    ghost predicate Valid()
      reads this
    {
      && 1 <= nextId
      && (forall id | id in rows :: rows[id].id == id && id < nextId)
      && (forall k | 0 <= k < |order| :: order[k] in rows)
      && (forall id | id in rows :: id in order)
      && Ascending(order)
    }

    /** The rows in store order, as `Todo.query.all()` yields them. */
    function Rows(): (s: seq<Todo>)
      reads this
      requires Valid()
      ensures forall id | id in rows :: rows[id] in s
      ensures forall t | t in s :: t.id in rows && rows[t.id] == t
      ensures forall j, k :: 0 <= j < k < |s| ==> s[j].id < s[k].id
    {
      var s := InOrder(rows, order);
      assert forall id | id in rows :: rows[id] in s by {
        forall id | id in rows ensures rows[id] in s {
          var k :| 0 <= k < |order| && order[k] == id;
          assert s[k] == rows[id];
        }
      }
      s
    }

    constructor ()
      ensures Valid()
      ensures rows == map[] && order == [] && nextId == 1
    {
      rows, order, nextId := map[], [], 1;
    }

    /** GET /todos/<id>: the row under `id`, or 404 "Todo not found". */
    function Get(id: int): (r: Response)
      reads this
      requires Valid()
      ensures r.status == 200 <==> id in rows
      ensures id in rows ==> r.payload == Item(rows[id]) && r.payload.todo.id == id
      ensures id !in rows ==> r == Failure(NotFound) && r.status == 404
    {
      if id in rows then Response(200, Item(rows[id])) else Failure(NotFound)
    }

    /**
     * POST /todos, as written. The title check runs before the key check; a
     * refused body leaves the table unchanged; on success one row is added
     * under a fresh id and nothing else changes.
     */
    method Create(b: Body) returns (r: Response)
      requires Valid()
      modifies this
      ensures Valid()
      ensures CreateCheck(b).Some? ==>
                && r == CreateCheck(b).value && r.status != 201
                && rows == old(rows) && order == old(order) && nextId == old(nextId)
      ensures CreateCheck(b).None? ==>
                && old(nextId) !in old(rows)
                && rows == old(rows)[old(nextId) := NewRow(old(nextId), b)]
                && order == old(order) + [old(nextId)]
                && nextId > old(nextId)
                && r == Response(201, Item(NewRow(old(nextId), b)))
    {
      var todo := Todo(nextId, b.title, b.description, b.completed.GetOr(false), None);
      if b.deadline.Some? {
        todo := todo.(deadline := b.deadline);
      }
      if todo.title == Some("") {
        // raising IntegrityError without its constructor's arguments fails uncaught
        return Response(500, ServerFault);
      }
      if UnknownKeys(b) != {} {
        return Failure(MissingOrExtraFields);
      }
      rows := rows[nextId := todo];
      order := order + [nextId];
      nextId := nextId + 1;
      r := Response(201, Item(todo));
    }

    /**
     * PUT /todos/<id>: 404 when the id is absent, 400 when the body carries
     * an unrecognised key; otherwise only the row under `id` changes, by Merge.
     */
    method Update(id: int, b: Body) returns (r: Response)
      requires Valid()
      modifies this
      ensures Valid()
      ensures order == old(order) && nextId == old(nextId)
      ensures id !in old(rows) ==> r == Failure(NotFound) && rows == old(rows)
      ensures id in old(rows) && UpdateCheck(old(rows)[id], b).Some? ==>
                r == Failure(UpdateCheck(old(rows)[id], b).value) && rows == old(rows)
      ensures id in old(rows) && UpdateCheck(old(rows)[id], b).None? ==>
                && rows == old(rows)[id := Merge(old(rows)[id], b)]
                && r == Response(200, Item(Merge(old(rows)[id], b)))
    {
      if id !in rows {
        return Failure(NotFound);
      }
      var todo := rows[id];
      if UnknownKeys(b) != {} {
        return Failure(MissingOrExtraFields);
      }
      if b.id.Some? && b.id.value != 0 {
        if todo.id != b.id.value {
          return Failure(IdMismatch);
        }
      }
      todo := todo.(title := if b.title.Some? then b.title else todo.title);
      todo := todo.(description := if b.description.Some? then b.description else todo.description);
      todo := todo.(completed := if b.completed.Some? then b.completed.value else todo.completed);
      todo := todo.(deadline := if b.deadline.Some? then b.deadline else todo.deadline);
      rows := rows[id := todo];
      r := Response(200, Item(todo));
    }

    /**
     * DELETE /todos/<id>: an absent id answers `{}` with 200 and changes
     * nothing; a present one is removed and its former row returned.
     */
    method Delete(id: int) returns (r: Response)
      requires Valid()
      modifies this
      ensures Valid()
      ensures nextId == old(nextId)
      ensures id !in old(rows) ==>
                r == Response(200, EmptyObject) && rows == old(rows) && order == old(order)
      ensures id in old(rows) ==>
                && r == Response(200, Item(old(rows)[id]))
                && rows == old(rows) - {id}
                && order == Without(old(order), id)
    {
      if id !in rows {
        return Response(200, EmptyObject);
      }
      var todo := rows[id];
      WithoutMembers(order, id);
      WithoutAscending(order, id);
      ghost var was := order;
      rows := rows - {id};
      order := Without(order, id);
      assert forall k | 0 <= k < |order| :: order[k] in was && order[k] != id by {
        forall k | 0 <= k < |order| ensures order[k] in was && order[k] != id {
          assert order[k] in Without(was, id);
        }
      }
      r := Response(200, Item(todo));
    }

    /**
     * GET /todos?completed=&window=: walks the rows in store order and keeps
     * those whose deadline is before `now` plus `window` days; with
     * `completed=true` only completed rows are looked at.
     */
    method List(completed: Option<string>, window: Option<int>, now: Timestamp) returns (r: Response)
      requires Valid()
      ensures r == ListOutcome(Rows(), completed == Some("true"), Cutoff(now, window))
    {
      var onlyCompleted := completed == Some("true");
      var cutoff := Cutoff(now, window);
      ghost var all := InOrder(rows, order);
      var result: seq<Todo> := [];
      var i := 0;
      while i < |order|
        invariant 0 <= i <= |order|
        invariant forall k | 0 <= k < i :: Comparable(all[k], onlyCompleted)
        invariant result == Filter(all[..i], onlyCompleted, cutoff)
      {
        var todo := rows[order[i]];
        if onlyCompleted {
          if todo.completed {
            if todo.deadline.None? {
              ListOutcomeFault(all, onlyCompleted, cutoff, i);
              return Response(500, ServerFault);
            }
            if todo.deadline.value < cutoff {
              result := result + [todo];
            }
          }
        } else {
          if todo.deadline.None? {
            ListOutcomeFault(all, onlyCompleted, cutoff, i);
            return Response(500, ServerFault);
          }
          if todo.deadline.value < cutoff {
            result := result + [todo];
          }
        }
        assert all[..i + 1] == all[..i] + [todo];
        FilterAppend(all[..i], todo, onlyCompleted, cutoff);
        i := i + 1;
      }
      assert all[..i] == all;
      ListOutcomeOk(all, onlyCompleted, cutoff);
      r := Response(200, Items(result));
    }

    /**
     * A POST whose body passes the checks, followed by a GET of the id it
     * was given, returns the created row: the body's fields, with
     * `completed` defaulting to false.
     */
    method CreateThenGet(b: Body) returns (created: Response, fetched: Response)
      requires Valid()
      modifies this
      ensures Valid()
      ensures CreateCheck(b).None? ==>
                && created.status == 201
                && fetched == Response(200, created.payload)
                && fetched.payload.Item?
                && fetched.payload.todo.title == b.title
                && fetched.payload.todo.description == b.description
                && fetched.payload.todo.completed == b.completed.GetOr(false)
                && fetched.payload.todo.deadline == b.deadline
      ensures CreateCheck(b).Some? ==> created == CreateCheck(b).value && created.status != 201
    {
      created := Create(b);
      var id := if created.payload.Item? then created.payload.todo.id else 0;
      fetched := Get(id);
    }

    /**
     * Deleting is idempotent: a second DELETE of the same id answers `{}`,
     * and a GET of it afterwards answers 404.
     */
    method DeleteTwice(id: int) returns (first: Response, second: Response)
      requires Valid()
      modifies this
      ensures Valid()
      ensures first.status == 200 && second == Response(200, EmptyObject)
      ensures id in old(rows) <==> first.payload.Item?
      ensures Get(id) == Failure(NotFound)
      ensures rows == old(rows) - {id}
    {
      first := Delete(id);
      second := Delete(id);
    }
  }
}
