# Todo records: store, service and authorization gates

A Dafny model of the record access-and-authorization layer of a serverless
todo backend. Each user owns a partition of todo records in a key-value
table keyed by `(userId, todoId)`. The model covers three layers:

- **Record store** (`helpers/todosAcess.ts`, module `DataAccess`). The class
  `TodosAccess` keeps the table as a `map<Key, TodoItem>` field. `CreateTodo`
  is an unconditional put. It adds the derived attachment URL
  `https://<bucket>.s3.amazonaws.com/<todoId>` to the record first.
  `UpdateTodo` and `DeleteTodo` are conditional writes (`todoId = :todoId`).
  On a keyed table that condition means "the record exists". `GetTodos` is
  the partition query, read backwards (`ScanIndexForward: false`).
  `GenerateUploadUrl` builds the parameters of a pre-signed `putObject` URL.
- **Service façade** (`businessLogic/todos.ts`, module `TodosService`). It builds
  the record literal for each request and delegates to the store. The id
  generator (`uuid.v4()`) and the clock (`new Date().toISOString()`) are
  oracles. Their answers arrive as the parameters `todoId` and `now`.
- **Handler gates** (`lambda/http/updateTodo.ts` and `deleteTodo.ts`, modules
  `UpdateTodoHandler` and `DeleteTodoHandler`). Each handler has a pure
  specification `Handle`, which gives the outcome and the table afterwards,
  and a method that drives the store object and is proved equal to it. Two
  things are parameters: the identity provider (`parseUserId`) and the
  record lookup by id (`getTodo`).

Supporting modules:

- `JsText` models the JavaScript built-ins that the core relies on:
  `${undefined}` rendering as "undefined", `split(' ')`, and `parseInt`
  (leading white space, sign, `0x` prefix, longest digit prefix, NaN).
- `SortKeys` models the sort-key order. It is lexicographic by code point,
  which for Unicode text is the same as UTF-8 byte order.
- `TodoModel` defines the record, the key and the table.

What the proofs show about the source as written:

- A user's listing holds exactly that user's records, each once, with the
  greatest `todoId` first. Writes under one user's key never change another
  user's listing.
- A failed conditional write changes nothing, and a second delete of the
  same key fails.
- An update sets `name`, `createdAt` and `done`. It keeps `dueDate` even
  though the service forwards one, and it replaces the original `createdAt`
  with the new timestamp.
- The update handler answers a caller who does not own the record exactly as
  if the record were absent.
- The delete handler checks only that the record exists. A caller who is
  not the owner deletes the owner's record (`DeleteTodoHandler.CrossTenantDelete`).

Where the design description and the code differ, the model follows the
code. The code overwrites `createdAt` on update. It writes `dueDate = ''`
on create, whatever the request holds. Its delete path has no ownership
check. It reaches the upload-URL issuer through the record-store class. A
missing record is reported as the store's conditional-check failure, not as
a separate not-found error.

## Model

| member | source | states |
|---|---|---|
| `SortKeys.SortedDescending` | course-04/project/c4-final-project-starter-code/backend/src/helpers/todosAcess.ts:32 | the keys of a set, each exactly once, in strictly descending sort-key order |
| `DataAccess.PartitionIds` | course-04/project/c4-final-project-starter-code/backend/src/helpers/todosAcess.ts:28-31 | an id belongs to a user's partition exactly when the key `(userId, id)` is in the table |
| `DataAccess.Query` | course-04/project/c4-final-project-starter-code/backend/src/helpers/todosAcess.ts:25-36 | every listed record is stored under its own key and has the queried userId; every stored record of that user is listed; todoIds strictly descend; the listing is empty exactly when the user has no record; it has exactly one row per todoId in the partition |
| `DataAccess.ListedOnce` | course-04/project/c4-final-project-starter-code/backend/src/helpers/todosAcess.ts:25-36 | a stored record appears exactly once in its owner's listing |
| `DataAccess.QueryDependsOnlyOnPartition` | course-04/project/c4-final-project-starter-code/backend/src/helpers/todosAcess.ts:28-31 | two tables that agree on one user's partition give that user the same listing (tenant isolation of reads) |
| `DataAccess.AttachmentUrl` | course-04/project/c4-final-project-starter-code/backend/src/helpers/todosAcess.ts:43 | the URL starts with "https://" and ends with the todoId |
| `DataAccess.AttachmentUrlInjective` | course-04/project/c4-final-project-starter-code/backend/src/helpers/todosAcess.ts:43 | within one bucket, equal attachment URLs mean equal todoIds |
| `DataAccess.WithAttachmentUrl` | course-04/project/c4-final-project-starter-code/backend/src/helpers/todosAcess.ts:41-44 | the written record has the derived attachmentUrl and every other field of the input unchanged |
| `DataAccess.ConditionIsExistence` | course-04/project/c4-final-project-starter-code/backend/src/helpers/todosAcess.ts:66 | on a well-keyed table the condition `todoId = :todoId` at a key holds exactly when a record is stored there |
| `DataAccess.UpdateItem` | course-04/project/c4-final-project-starter-code/backend/src/helpers/todosAcess.ts:59-82 | absent key: fails with the conditional-check error and the table is unchanged (no upsert); present key: answers "success", sets only name, createdAt and done at that key, keeps userId, todoId, dueDate and attachmentUrl, and no other key changes |
| `DataAccess.DeleteItem` | course-04/project/c4-final-project-starter-code/backend/src/helpers/todosAcess.ts:87-101 | absent key: fails and the table is unchanged; present key: answers the userId and removes that key only |
| `DataAccess.DeleteTwiceFails` | course-04/project/c4-final-project-starter-code/backend/src/helpers/todosAcess.ts:87-101 | deleting the same key a second time fails and writes nothing |
| `DataAccess.PutInvisibleToOthers` | course-04/project/c4-final-project-starter-code/backend/src/helpers/todosAcess.ts:46-51 | a put under one user's key keeps the table well keyed and leaves every other user's listing unchanged |
| `DataAccess.UpdateInvisibleToOthers` | course-04/project/c4-final-project-starter-code/backend/src/helpers/todosAcess.ts:59-80 | a conditional update under one user's key, successful or not, leaves every other user's listing unchanged |
| `DataAccess.DeleteInvisibleToOthers` | course-04/project/c4-final-project-starter-code/backend/src/helpers/todosAcess.ts:87-99 | a conditional delete under one user's key, successful or not, leaves every other user's listing unchanged |
| `DataAccess.PutFreshListed` | course-04/project/c4-final-project-starter-code/backend/src/helpers/todosAcess.ts:46-51 | a put under an unused key lists the new record, keeps every earlier record listed and lengthens the owner's listing by one |
| `DataAccess.DeletedNotListed` | course-04/project/c4-final-project-starter-code/backend/src/helpers/todosAcess.ts:87-99 | after a successful delete no listed record of that user has the deleted todoId |
| `DataAccess.TodosAccess.constructor` | course-04/project/c4-final-project-starter-code/backend/src/helpers/todosAcess.ts:14-20 | the store starts from the given table with the configured bucket name and URL lifetime, each possibly unset |
| `DataAccess.TodosAccess.GetTodos` | course-04/project/c4-final-project-starter-code/backend/src/helpers/todosAcess.ts:22-37 | the answer is the partition query over the current table |
| `DataAccess.TodosAccess.CreateTodo` | course-04/project/c4-final-project-starter-code/backend/src/helpers/todosAcess.ts:39-54 | returns the input with its attachment URL; the table afterwards is the old table with exactly that value at the item's key, replacing any record there |
| `DataAccess.TodosAccess.UpdateTodo` | course-04/project/c4-final-project-starter-code/backend/src/helpers/todosAcess.ts:56-83 | result and new table are those of the conditional update `UpdateItem` on the old table |
| `DataAccess.TodosAccess.DeleteTodo` | course-04/project/c4-final-project-starter-code/backend/src/helpers/todosAcess.ts:85-102 | result and new table are those of the conditional delete `DeleteItem` at `(userId, todoId)` on the old table |
| `DataAccess.TodosAccess.GenerateUploadUrl` | course-04/project/c4-final-project-starter-code/backend/src/helpers/todosAcess.ts:104-111 | a `putObject` request on the configured bucket whose object key is exactly the todoId and whose expiry is `parseInt` of the configured lifetime; it reads no mutable field, so it neither depends on nor changes the table |
| `DataAccess.UploadTargetsAttachment` | course-04/project/c4-final-project-starter-code/backend/src/helpers/todosAcess.ts:104-110 | the upload request addresses exactly the object that a created record's attachment URL names |
| `DataAccess.UploadExpiry` | course-04/project/c4-final-project-starter-code/backend/src/helpers/todosAcess.ts:109 | a lifetime configured as the decimal numeral of n gives expiry n; an unset lifetime gives NaN |
| `JsText.Split` | course-04/project/c4-final-project-starter-code/backend/src/lambda/http/updateTodo.ts:18 | there is one more piece than there are separators, and no piece contains the separator |
| `JsText.JoinOfSplit` | course-04/project/c4-final-project-starter-code/backend/src/lambda/http/updateTodo.ts:18 | joining the pieces of a split restores the string |
| `JsText.SplitOfJoin` | course-04/project/c4-final-project-starter-code/backend/src/lambda/http/updateTodo.ts:18 | splitting a join of separator-free pieces restores the pieces |
| `JsText.ParseIntOfDecimal` | course-04/project/c4-final-project-starter-code/backend/src/helpers/todosAcess.ts:109 | `parseInt` reads back any integer's decimal numeral followed by a non-digit, unless the numeral is "0" and the next character is 'x' or 'X' (a hexadecimal prefix) |
| `JsText.UnsetIsNaN` | course-04/project/c4-final-project-starter-code/backend/src/helpers/todosAcess.ts:109 | `parseInt` of an unset setting ("undefined") is NaN |
| `TodosService.Created` | course-04/project/c4-final-project-starter-code/backend/src/businessLogic/todos.ts:24-33 | the created record has the caller's userId, the generated todoId, the request's name, the clock's createdAt, dueDate "" and done false, and an attachmentUrl ending in the todoId |
| `TodosService.GetTodos` | course-04/project/c4-final-project-starter-code/backend/src/businessLogic/todos.ts:14-17 | returns the store's listing unchanged |
| `TodosService.CreateTodo` | course-04/project/c4-final-project-starter-code/backend/src/businessLogic/todos.ts:19-34 | returns the created record and stores exactly it at `(userId, todoId)`, leaving every other key as it was |
| `TodosService.UpdateTodo` | course-04/project/c4-final-project-starter-code/backend/src/businessLogic/todos.ts:36-50 | passes the request's name, dueDate and done with a fresh createdAt to the store's conditional update; the store's result, failure included, is returned unchanged, with no ownership check or retry |
| `TodosService.DeleteTodo` | course-04/project/c4-final-project-starter-code/backend/src/businessLogic/todos.ts:52-58 | the store deletes key `(userId, todoId)` under its condition; the result, failure included, is returned unchanged |
| `TodosService.CreateThenListedOnce` | course-04/project/c4-final-project-starter-code/backend/src/businessLogic/todos.ts:24-33 | with an id unused by that user, the created record is listed exactly once afterwards, alongside every record listed before; the listing grows by one and other users' listings do not change |
| `TodosService.UpdateRestampsCreatedAt` | course-04/project/c4-final-project-starter-code/backend/src/businessLogic/todos.ts:42-49 | updating an existing record succeeds; the stored createdAt becomes the new timestamp, not the original; name and done come from the request; the stored dueDate stays as it was even when the request carries another |
| `TodosService.UpdateOfMissingFails` | course-04/project/c4-final-project-starter-code/backend/src/businessLogic/todos.ts:36-50 | updating a key with no record fails with the store's error and writes nothing |
| `Http.BearerToken` | course-04/project/c4-final-project-starter-code/backend/src/lambda/http/updateTodo.ts:17-19 | a token is extracted exactly when the header contains a space |
| `Http.BearerTokenOfCredentials` | course-04/project/c4-final-project-starter-code/backend/src/lambda/http/updateTodo.ts:17-19 | for "<scheme> <token>" with no other spaces, the extracted word is the token (section 2.1 of RFC 6750) |
| `Http.BearerTokenAfterTwoSpaces` | course-04/project/c4-final-project-starter-code/backend/src/lambda/http/updateTodo.ts:17-19 | with two spaces after the scheme, which RFC 6750 permits, the extracted token is empty |
| `UpdateTodoHandler.Handle` | course-04/project/c4-final-project-starter-code/backend/src/lambda/http/updateTodo.ts:12-43 | the specification of the handler: its outcome and the table afterwards, which stays well keyed |
| `UpdateTodoHandler.HandleUpdate` | course-04/project/c4-final-project-starter-code/backend/src/lambda/http/updateTodo.ts:12-43 | the handler's outcome and the store's new table are exactly those that `Handle` gives for the old table |
| `UpdateTodoHandler.AbsentIsNotFound` | course-04/project/c4-final-project-starter-code/backend/src/lambda/http/updateTodo.ts:23-43 | when the lookup finds nothing, the answer is 404 with the update message and the table is unchanged |
| `UpdateTodoHandler.OthersRecordLooksAbsent` | course-04/project/c4-final-project-starter-code/backend/src/lambda/http/updateTodo.ts:25-43 | when the record belongs to another user, outcome and table are identical to those for a lookup that finds nothing, and nothing is written |
| `UpdateTodoHandler.OwnerUpdates` | course-04/project/c4-final-project-starter-code/backend/src/lambda/http/updateTodo.ts:23-34 | when the owner updates a stored record: 200 with "success"; that record gets the request's name and done and the new createdAt; no other record changes |
| `UpdateTodoHandler.ResponseShape` | course-04/project/c4-final-project-starter-code/backend/src/lambda/http/updateTodo.ts:28-43 | every response carries `Access-Control-Allow-Origin: *` and is 200 or 404; a 404 never comes with a write |
| `DeleteTodoHandler.Handle` | course-04/project/c4-final-project-starter-code/backend/src/lambda/http/deleteTodo.ts:11-36 | the specification of the handler: its outcome and the table afterwards, which stays well keyed |
| `DeleteTodoHandler.HandleDelete` | course-04/project/c4-final-project-starter-code/backend/src/lambda/http/deleteTodo.ts:11-36 | the handler's outcome and the store's new table are exactly those that `Handle` gives for the old table |
| `DeleteTodoHandler.AbsentIsNotFound` | course-04/project/c4-final-project-starter-code/backend/src/lambda/http/deleteTodo.ts:15-35 | when the lookup finds nothing, the answer is 404 with the delete message and the table is unchanged |
| `DeleteTodoHandler.ExistingDeleted` | course-04/project/c4-final-project-starter-code/backend/src/lambda/http/deleteTodo.ts:15-26 | a found, stored record is deleted (only its key) and returned as the body with status 200 |
| `DeleteTodoHandler.CallerIgnored` | course-04/project/c4-final-project-starter-code/backend/src/lambda/http/deleteTodo.ts:12-18 | the Authorization header has no influence on outcome or table |
| `DeleteTodoHandler.CrossTenantDelete` | course-04/project/c4-final-project-starter-code/backend/src/lambda/http/deleteTodo.ts:15-18 | a caller whom the identity provider names as someone other than the owner still deletes the owner's record with 200, while the update handler answers the same caller 404 and writes nothing |
| `DeleteTodoHandler.ResponseShape` | course-04/project/c4-final-project-starter-code/backend/src/lambda/http/deleteTodo.ts:20-36 | every response carries `Access-Control-Allow-Origin: *` and is 200 or 404; a 404 never comes with a write; the final `return undefined` is unreachable |

## Left out

- The DynamoDB `DocumentClient`, X-Ray capture and `createDynamoDBClient`'s choice of local or remote endpoint (helpers/todosAcess.ts:114-124) are foreign clients. The map field replaces them, and the table name selects nothing because the model has a single table.
- Store unavailability (timeouts, throttling): the model's writes fail only through the condition check.
- Query pagination: the store answers at most 1 MB per query, and the source reads only the first page's `Items`. The model lists the whole partition.
- `DataAccess.TodosAccess.GenerateUploadUrl` states the parameters of the pre-signed URL, not the URL itself. `getSignedUrl` is a foreign cryptographic call.
- `JsText.ParseInt` returns an unbounded integer. It does not round magnitudes above 2^53 and does not tell -0 from 0.
- `uuid.v4()` and `new Date().toISOString()` are oracles passed in as parameters. Neither uniqueness of the id nor the ISO-8601 format is modelled; `TodosService.CreateThenListedOnce` assumes the id is unused.
- JWT decoding (`parseUserId`) and the record lookup `getTodo` are black-box function parameters, because they are not part of this model.
- The handlers import `getTodo`, `updateTodo` and `deleteTodo`, which the service does not export, and call them with mismatched arguments. The model reads `updateTodo(todo, updatedTodo)` as the service's `UpdateTodo(todo.todoId, updatedTodo, caller)` and `deleteTodo(todo)` as `DeleteTodo(todo.todoId, todo.userId)`.
- Framework plumbing: middy, the CORS and `httpErrorHandler` middleware, the logger, `async`/`Promise` and `process.env`. A rejected promise is the outcome `Threw`, and its mapping to an HTTP status is not modelled. `JSON.parse` and `JSON.stringify` are left symbolic.
- Concurrency: each store call is atomic, and interleavings of concurrent requests are not modelled. A stale lookup is covered only in that the store's conditional write then fails.
- lambda/http/getTodos.ts passes the raw token to a function the service does not define, and dataLayer/attachmentUtils.ts only delegates with a broken import. Neither is part of this model.
