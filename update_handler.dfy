/** The update handler: extracts the caller from the bearer token, looks
    the record up, and updates it only when the caller owns it. */
module UpdateTodoHandler {
  import opened Wrappers
  import opened TodoModel
  import opened DataAccess
  import opened TodosService
  import opened Http

  /** The parts of the request event the handler reads: the path's todoId,
      the parsed body and the Authorization header. */
  datatype Event = Event(todoId: string, body: UpdateTodoRequest, authorization: Option<string>)

  const NotFoundMessage := "Failed to update. Item not found or user do not own item."

  /** The ownership gate `todo && todo.userId === userId`. */
  predicate MayUpdate(todo: Option<TodoItem>, userId: string)
  {
    todo.Some? && todo.value.userId == userId
  }

  /** A lookup that finds nothing. */
  function NoRecord(todoId: string): Option<TodoItem>
  {
    None
  }

  /** The handler's outcome and the table after it. `parseUserId` is the
      identity provider (None when it rejects the token), `getTodo` the
      record lookup by id, `now` the clock's reading. */
  function Handle(t: Table, event: Event, parseUserId: Option<string> -> Option<string>,
                  getTodo: string -> Option<TodoItem>, now: string): (h: (Outcome, Table))
    requires WellKeyed(t)
    ensures WellKeyed(h.1)
  {
    match event.authorization
    case None => (Threw(NoAuthorizationHeader), t)
    case Some(authorization) =>
      match parseUserId(BearerToken(authorization))
      case None => (Threw(TokenRejected), t)
      case Some(userId) =>
        var todo := getTodo(event.todoId);
        if MayUpdate(todo, userId) then
          var w := UpdateItem(t, UpdatedTodo(todo.value.todoId, event.body, userId, now));
          match w.outcome
          case Ok(result) => (Responded(Success(JsonString(result))), w.table)
          case Err(e) => (Threw(StoreRejected(e)), w.table)
        else (Responded(NotFound(NotFoundMessage)), t)
  }

  method HandleUpdate(todoAccess: TodosAccess, event: Event, parseUserId: Option<string> -> Option<string>,
                      getTodo: string -> Option<TodoItem>, now: string) returns (outcome: Outcome)
    requires todoAccess.Valid()
    modifies todoAccess
    ensures todoAccess.Valid()
    ensures (outcome, todoAccess.table) == Handle(old(todoAccess.table), event, parseUserId, getTodo, now)
  {
    if event.authorization.None? {
      outcome := Threw(NoAuthorizationHeader);
    } else {
      var jwtToken := BearerToken(event.authorization.value);
      var userId := parseUserId(jwtToken);
      if userId.None? {
        outcome := Threw(TokenRejected);
      } else {
        var todo := getTodo(event.todoId);
        if MayUpdate(todo, userId.value) {
          var result := TodosService.UpdateTodo(todoAccess, todo.value.todoId, event.body, userId.value, now);
          assert result == UpdateItem(old(todoAccess.table),
                                      UpdatedTodo(todo.value.todoId, event.body, userId.value, now)).outcome;
          match result
          case Ok(r) => outcome := Responded(Success(JsonString(r)));
          case Err(e) => outcome := Threw(StoreRejected(e));
        } else {
          outcome := Responded(NotFound(NotFoundMessage));
        }
      }
    }
  }

  /** No record found: 404 and no write. */
  lemma AbsentIsNotFound(t: Table, event: Event, parseUserId: Option<string> -> Option<string>,
                         getTodo: string -> Option<TodoItem>, now: string, userId: string)
    requires WellKeyed(t)
    requires event.authorization.Some? && parseUserId(BearerToken(event.authorization.value)) == Some(userId)
    requires getTodo(event.todoId) == None
    ensures Handle(t, event, parseUserId, getTodo, now) == (Responded(NotFound(NotFoundMessage)), t)
  {
  }

  /** Another user's record is treated exactly as a missing one: same
      response, no write. */
  lemma OthersRecordLooksAbsent(t: Table, event: Event, parseUserId: Option<string> -> Option<string>,
                                getTodo: string -> Option<TodoItem>, now: string, userId: string)
    requires WellKeyed(t)
    requires event.authorization.Some? && parseUserId(BearerToken(event.authorization.value)) == Some(userId)
    requires getTodo(event.todoId).Some? && getTodo(event.todoId).value.userId != userId
    ensures Handle(t, event, parseUserId, getTodo, now) == Handle(t, event, parseUserId, NoRecord, now)
    ensures Handle(t, event, parseUserId, getTodo, now).1 == t
  {
  }

  /** The owner's update of a stored record answers 200 "success" and
      applies the request to that record only, with a fresh createdAt. */
  lemma OwnerUpdates(t: Table, event: Event, parseUserId: Option<string> -> Option<string>,
                     getTodo: string -> Option<TodoItem>, now: string, todo: TodoItem)
    requires WellKeyed(t)
    requires event.authorization.Some? && parseUserId(BearerToken(event.authorization.value)) == Some(todo.userId)
    requires getTodo(event.todoId) == Some(todo) && KeyOf(todo) in t
    ensures var h := Handle(t, event, parseUserId, getTodo, now);
      && h.0 == Responded(Success(JsonString("success")))
      && h.1.Keys == t.Keys
      && UpdatedFrom(t[KeyOf(todo)], h.1[KeyOf(todo)], UpdatedTodo(todo.todoId, event.body, todo.userId, now))
      && h.1[KeyOf(todo)].createdAt == now
      && forall k :: k in t && k != KeyOf(todo) ==> h.1[k] == t[k]
  {
  }

  /** Every response carries `Access-Control-Allow-Origin: *`, is 200 or
      404, and a 404 never comes with a write. */
  lemma ResponseShape(t: Table, event: Event, parseUserId: Option<string> -> Option<string>,
                      getTodo: string -> Option<TodoItem>, now: string)
    requires WellKeyed(t)
    ensures var h := Handle(t, event, parseUserId, getTodo, now);
      h.0.Responded? ==>
        && h.0.response.headers["Access-Control-Allow-Origin"] == "*"
        && (h.0.response.statusCode == 200 || h.0.response.statusCode == 404)
        && (h.0.response.statusCode == 404 ==> h.1 == t)
  {
  }
}
