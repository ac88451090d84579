/** The delete handler: looks the record up by id and deletes it when it
    exists. It never establishes who the caller is. */
module DeleteTodoHandler {
  import opened Wrappers
  import opened TodoModel
  import opened DataAccess
  import opened TodosService
  import opened Http
  import UpdateTodoHandler

  /** The parts of the request event: the path's todoId and the
      Authorization header, which the handler does not read. */
  datatype Event = Event(todoId: string, authorization: Option<string>)

  const NotFoundMessage := "Failed to delete. Item not found."

  /** The handler's outcome and the table after it, for the record lookup
      `getTodo`. The existence test `if (todo)` is the only gate. */
  function Handle(t: Table, event: Event, getTodo: string -> Option<TodoItem>): (h: (Outcome, Table))
    requires WellKeyed(t)
    ensures WellKeyed(h.1)
  {
    match getTodo(event.todoId)
    case None => (Responded(NotFound(NotFoundMessage)), t)
    case Some(todo) =>
      var w := DeleteItem(t, todo.todoId, todo.userId);
      match w.outcome
      case Ok(_) => (Responded(Success(JsonTodo(todo))), w.table)
      case Err(e) => (Threw(StoreRejected(e)), w.table)
  }

  method HandleDelete(todoAccess: TodosAccess, event: Event, getTodo: string -> Option<TodoItem>)
    returns (outcome: Outcome)
    requires todoAccess.Valid()
    modifies todoAccess
    ensures todoAccess.Valid()
    ensures (outcome, todoAccess.table) == Handle(old(todoAccess.table), event, getTodo)
  {
    var todo := getTodo(event.todoId);
    if todo.Some? {
      var result := TodosService.DeleteTodo(todoAccess, todo.value.todoId, todo.value.userId);
      assert result == DeleteItem(old(todoAccess.table), todo.value.todoId, todo.value.userId).outcome;
      match result
      case Ok(_) => outcome := Responded(Success(JsonTodo(todo.value)));
      case Err(e) => outcome := Threw(StoreRejected(e));
    } else {
      outcome := Responded(NotFound(NotFoundMessage));
    }
  }

  /** No record found: 404 and no write. */
  lemma AbsentIsNotFound(t: Table, event: Event, getTodo: string -> Option<TodoItem>)
    requires WellKeyed(t) && getTodo(event.todoId) == None
    ensures Handle(t, event, getTodo) == (Responded(NotFound(NotFoundMessage)), t)
  {
  }

  /** A found, stored record is deleted (that key only) and returned with
      status 200. */
  lemma ExistingDeleted(t: Table, event: Event, getTodo: string -> Option<TodoItem>, todo: TodoItem)
    requires WellKeyed(t) && getTodo(event.todoId) == Some(todo) && KeyOf(todo) in t
    ensures Handle(t, event, getTodo).0 == Responded(Success(JsonTodo(todo)))
    ensures Handle(t, event, getTodo).1.Keys == t.Keys - {KeyOf(todo)}
    ensures forall k :: k in Handle(t, event, getTodo).1 ==> Handle(t, event, getTodo).1[k] == t[k]
  {
  }

  /** The caller's credentials play no part in the decision. */
  lemma CallerIgnored(t: Table, todoId: string, auth1: Option<string>, auth2: Option<string>,
                      getTodo: string -> Option<TodoItem>)
    requires WellKeyed(t)
    ensures Handle(t, Event(todoId, auth1), getTodo) == Handle(t, Event(todoId, auth2), getTodo)
  {
  }

  /** The tenant-isolation gap: a caller whom the identity provider knows as
      someone other than the owner deletes the owner's record; the update
      handler refuses the same caller on the same record with 404. */
  lemma CrossTenantDelete(t: Table, todoId: string, authorization: string,
                          parseUserId: Option<string> -> Option<string>,
                          getTodo: string -> Option<TodoItem>, caller: string, todo: TodoItem,
                          request: UpdateTodoRequest, now: string)
    requires WellKeyed(t)
    requires parseUserId(BearerToken(authorization)) == Some(caller)
    requires getTodo(todoId) == Some(todo) && KeyOf(todo) in t && caller != todo.userId
    ensures Handle(t, Event(todoId, Some(authorization)), getTodo).0.response.statusCode == 200
    ensures KeyOf(todo) !in Handle(t, Event(todoId, Some(authorization)), getTodo).1
    ensures UpdateTodoHandler.Handle(t, UpdateTodoHandler.Event(todoId, request, Some(authorization)),
                                     parseUserId, getTodo, now)
         == (Responded(NotFound(UpdateTodoHandler.NotFoundMessage)), t)
  {
  }

  /** Every response carries `Access-Control-Allow-Origin: *` and is 200 or
      404; the trailing `return undefined` is never reached. */
  lemma ResponseShape(t: Table, event: Event, getTodo: string -> Option<TodoItem>)
    requires WellKeyed(t)
    ensures var h := Handle(t, event, getTodo);
      h.0.Responded? ==>
        && h.0.response.headers["Access-Control-Allow-Origin"] == "*"
        && (h.0.response.statusCode == 200 || h.0.response.statusCode == 404)
        && (h.0.response.statusCode == 404 ==> h.1 == t)
  {
  }
}
