/** The business-logic façade: builds the record for each request and
    delegates to the single record store. The id generator and the clock
    are oracles whose answers arrive as parameters (`todoId`, `now`). */
module TodosService {
  import opened Wrappers
  import opened JsText
  import opened TodoModel
  import opened DataAccess

  /** The body of a create request. `dueDate` is accepted but not used. */
  datatype CreateTodoRequest = CreateTodoRequest(name: string, dueDate: Option<string>)

  /** The body of an update request. */
  datatype UpdateTodoRequest = UpdateTodoRequest(name: string, dueDate: string, done: bool)

  /** The record literal built on create. */
  function NewTodo(request: CreateTodoRequest, userId: string, todoId: string, createdAt: string): TodoItem
  {
    TodoItem(userId, todoId, createdAt, request.name, "", false, None)
  }

  /** The record literal built on update: the request's fields and a fresh
      timestamp. */
  function UpdatedTodo(todoId: string, request: UpdateTodoRequest, userId: string, createdAt: string): TodoItem
  {
    TodoItem(userId, todoId, createdAt, request.name, request.dueDate, request.done, None)
  }

  /** What a create request returns and stores, given the id and the
      timestamp the oracles produced. */
  function Created(request: CreateTodoRequest, userId: string, todoId: string, now: string,
                   bucketName: Option<string>): (item: TodoItem)
    ensures item.userId == userId && item.todoId == todoId
    ensures item.name == request.name && item.createdAt == now
    ensures item.dueDate == "" && !item.done
    ensures item.attachmentUrl.Some?
    ensures var url := item.attachmentUrl.value; |url| > |todoId| && url[|url| - |todoId|..] == todoId
  {
    WithAttachmentUrl(NewTodo(request, userId, todoId, now), bucketName)
  }

  /** Delegates to the store's query; the list is passed on unchanged. */
  function GetTodos(todoAccess: TodosAccess, userId: string): (items: seq<TodoItem>)
    reads todoAccess
    requires todoAccess.Valid()
    ensures items == Query(todoAccess.table, userId)
  {
    todoAccess.GetTodos(userId)
  }

  method CreateTodo(todoAccess: TodosAccess, createTodoRequest: CreateTodoRequest, userId: string,
                    todoId: string, now: string) returns (item: TodoItem)
    requires todoAccess.Valid()
    modifies todoAccess
    ensures todoAccess.Valid()
    ensures item == Created(createTodoRequest, userId, todoId, now, todoAccess.bucketName)
    ensures todoAccess.table == old(todoAccess.table)[Key(userId, todoId) := item]
  {
    item := todoAccess.CreateTodo(NewTodo(createTodoRequest, userId, todoId, now));
  }

  method UpdateTodo(todoAccess: TodosAccess, todoId: string, updatedTodo: UpdateTodoRequest,
                    userId: string, now: string) returns (result: Result<string, StoreError>)
    requires todoAccess.Valid()
    modifies todoAccess
    ensures todoAccess.Valid()
    ensures Write(result, todoAccess.table)
         == UpdateItem(old(todoAccess.table), UpdatedTodo(todoId, updatedTodo, userId, now))
  {
    result := todoAccess.UpdateTodo(UpdatedTodo(todoId, updatedTodo, userId, now));
  }

  method DeleteTodo(todoAccess: TodosAccess, todoId: string, userId: string)
    returns (result: Result<string, StoreError>)
    requires todoAccess.Valid()
    modifies todoAccess
    ensures todoAccess.Valid()
    ensures Write(result, todoAccess.table) == DeleteItem(old(todoAccess.table), todoId, userId)
  {
    result := todoAccess.DeleteTodo(todoId, userId);
  }

  /** With an id not yet used by the user, the created record is listed
      exactly once afterwards, next to everything listed before, and no
      other user's listing changes. */
  lemma CreateThenListedOnce(t: Table, request: CreateTodoRequest, userId: string, todoId: string,
                             now: string, bucketName: Option<string>, other: string)
    requires WellKeyed(t) && Key(userId, todoId) !in t && other != userId
    ensures var item := Created(request, userId, todoId, now, bucketName);
      var t' := t[Key(userId, todoId) := item];
      && WellKeyed(t')
      && (exists i :: 0 <= i < |Query(t', userId)| && Query(t', userId)[i] == item)
      && (forall i, j :: (0 <= i < |Query(t', userId)| && 0 <= j < |Query(t', userId)|
            && Query(t', userId)[i] == item && Query(t', userId)[j] == item) ==> i == j)
      && (forall x :: x in Query(t, userId) ==> x in Query(t', userId))
      && |Query(t', userId)| == |Query(t, userId)| + 1
      && Query(t', other) == Query(t, other)
  {
    var item := Created(request, userId, todoId, now, bucketName);
    assert KeyOf(item) == Key(userId, todoId);
    var t' := t[Key(userId, todoId) := item];
    PutFreshListed(t, item);
    ListedOnce(t', KeyOf(item));
    PutInvisibleToOthers(t, item, other);
  }

  /** An update of an existing record succeeds, sets name and done from the
      request, and replaces createdAt by the new timestamp; the request's
      dueDate is forwarded but the stored dueDate stays what it was. */
  lemma UpdateRestampsCreatedAt(t: Table, todoId: string, request: UpdateTodoRequest, userId: string, now: string)
    requires WellKeyed(t) && Key(userId, todoId) in t
    ensures var w := UpdateItem(t, UpdatedTodo(todoId, request, userId, now));
      var before, after := t[Key(userId, todoId)], w.table[Key(userId, todoId)];
      && w.outcome == Ok("success")
      && after.createdAt == now
      && (before.createdAt != now ==> after.createdAt != before.createdAt)
      && after.name == request.name && after.done == request.done
      && after.dueDate == before.dueDate
      && (request.dueDate != before.dueDate ==> after.dueDate != request.dueDate)
  {
  }

  /** An update of a key with no record fails with the store's error and
      writes nothing: there is no upsert. */
  lemma UpdateOfMissingFails(t: Table, todoId: string, request: UpdateTodoRequest, userId: string, now: string)
    requires WellKeyed(t) && Key(userId, todoId) !in t
    ensures UpdateItem(t, UpdatedTodo(todoId, request, userId, now)) == Write(Err(ConditionalCheckFailed), t)
  {
  }
}
