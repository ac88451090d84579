/** The one persisted entity, a todo record, and the table that holds the
    records under their composite key (partition key `userId`, sort key
    `todoId`). */
module TodoModel {
  import opened Wrappers

  datatype TodoItem = TodoItem(
    userId: string,
    todoId: string,
    createdAt: string,
    name: string,
    dueDate: string,
    done: bool,
    attachmentUrl: Option<string>)

  datatype Key = Key(userId: string, todoId: string)

  function KeyOf(item: TodoItem): Key
  {
    Key(item.userId, item.todoId)
  }

  /** The table's contents: at most one record per key. */
  type Table = map<Key, TodoItem>

  /** Every record sits under the key made of its own key attributes. */
  ghost predicate WellKeyed(t: Table)
  {
    forall k :: k in t ==> KeyOf(t[k]) == k
  }
}
