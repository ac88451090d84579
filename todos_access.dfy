/** The record store: the `TodosAccess` class, whose table is modelled as a
    map from `(userId, todoId)` to the stored record, with the conditional
    writes the class issues and the upload request it hands to the object
    store. */
module DataAccess {
  import opened Wrappers
  import opened JsText
  import opened SortKeys
  import opened TodoModel

  /** The store's refusal of a conditional write whose condition is false. */
  datatype StoreError = ConditionalCheckFailed

  /** What a conditional write answers, and the table after it. */
  datatype Write = Write(outcome: Result<string, StoreError>, table: Table)

  /** The parameters of the pre-signed upload URL: the S3 operation, the
      bucket, the object key and the expiry in seconds. */
  datatype SignedUrlRequest = SignedUrlRequest(
    operation: string,
    bucket: Option<string>,
    key: string,
    expires: JsNumber)

  /** The sort keys present in one user's partition. */
  function PartitionIds(t: Table, userId: string): (ids: set<string>)
    ensures forall id :: id in ids <==> Key(userId, id) in t
  {
    set k | k in t && k.userId == userId :: k.todoId
  }

  /** The query `userId = :userId` with `ScanIndexForward: false`: the
      records of one partition, greatest sort key first. */
  function Query(t: Table, userId: string): (r: seq<TodoItem>)
    requires WellKeyed(t)
    ensures forall i :: 0 <= i < |r| ==>
      r[i].userId == userId && KeyOf(r[i]) in t && t[KeyOf(r[i])] == r[i]
    ensures forall k :: k in t && k.userId == userId ==> t[k] in r
    ensures forall i, j :: 0 <= i < j < |r| ==> Before(r[j].todoId, r[i].todoId)
    ensures r == [] <==> forall k :: k in t ==> k.userId != userId
    ensures |r| == |PartitionIds(t, userId)|
  {
    var ids := SortedDescending(PartitionIds(t, userId));
    RowsStored(t, userId, ids);
    RowsComplete(t, userId, ids);
    Rows(t, userId, ids)
  }

  /** The records stored under the given sort keys of one partition, in the
      order of the keys. */
  function Rows(t: Table, userId: string, ids: seq<string>): (r: seq<TodoItem>)
    requires forall i :: 0 <= i < |ids| ==> Key(userId, ids[i]) in t
    ensures |r| == |ids|
    ensures forall i :: 0 <= i < |r| ==> r[i] == t[Key(userId, ids[i])]
  {
    if ids == [] then [] else [t[Key(userId, ids[0])]] + Rows(t, userId, ids[1..])
  }

  /** On a well-keyed table each listed row is stored under its own key and
      carries the sort key it was read under. */
  lemma RowsStored(t: Table, userId: string, ids: seq<string>)
    requires WellKeyed(t)
    requires forall i :: 0 <= i < |ids| ==> Key(userId, ids[i]) in t
    ensures forall i :: 0 <= i < |ids| ==>
      Rows(t, userId, ids)[i].userId == userId && Rows(t, userId, ids)[i].todoId == ids[i]
  {
    forall i | 0 <= i < |ids|
      ensures Rows(t, userId, ids)[i].userId == userId && Rows(t, userId, ids)[i].todoId == ids[i]
    {
      assert KeyOf(t[Key(userId, ids[i])]) == Key(userId, ids[i]);
    }
  }

  /** Every record of the partition is among the rows read for a key list
      that holds all of the partition's sort keys. */
  lemma RowsComplete(t: Table, userId: string, ids: seq<string>)
    requires forall i :: 0 <= i < |ids| ==> Key(userId, ids[i]) in t
    requires forall k :: k in t && k.userId == userId ==> k.todoId in ids
    ensures forall k :: k in t && k.userId == userId ==> t[k] in Rows(t, userId, ids)
  {
    forall k | k in t && k.userId == userId
      ensures t[k] in Rows(t, userId, ids)
    {
      var i :| 0 <= i < |ids| && ids[i] == k.todoId;
      assert Rows(t, userId, ids)[i] == t[k];
    }
  }

  /** A stored record is listed exactly once in its owner's query. */
  lemma ListedOnce(t: Table, k: Key)
    requires WellKeyed(t) && k in t
    ensures exists i :: 0 <= i < |Query(t, k.userId)| && Query(t, k.userId)[i] == t[k]
    ensures forall i, j ::
      (0 <= i < |Query(t, k.userId)| && 0 <= j < |Query(t, k.userId)| &&
       Query(t, k.userId)[i] == t[k] && Query(t, k.userId)[j] == t[k]) ==> i == j
  {
    assert t[k] in Query(t, k.userId);
  }

  /** What a user lists depends on nothing but that user's partition. */
  lemma QueryDependsOnlyOnPartition(t1: Table, t2: Table, userId: string)
    requires WellKeyed(t1) && WellKeyed(t2)
    requires forall id :: Key(userId, id) in t1 <==> Key(userId, id) in t2
    requires forall id :: Key(userId, id) in t1 ==> t1[Key(userId, id)] == t2[Key(userId, id)]
    ensures Query(t1, userId) == Query(t2, userId)
  {
    assert PartitionIds(t1, userId) == PartitionIds(t2, userId);
    RowsAgree(t1, t2, userId, SortedDescending(PartitionIds(t1, userId)));
  }

  lemma RowsAgree(t1: Table, t2: Table, userId: string, ids: seq<string>)
    requires forall i :: 0 <= i < |ids| ==> Key(userId, ids[i]) in t1 && Key(userId, ids[i]) in t2
    requires forall i :: 0 <= i < |ids| ==> t1[Key(userId, ids[i])] == t2[Key(userId, ids[i])]
    ensures Rows(t1, userId, ids) == Rows(t2, userId, ids)
  {
  }

  /** `https://${bucketName}.s3.amazonaws.com/${todoId}`: the address of the
      object whose key is the record's id. */
  function AttachmentUrl(bucketName: Option<string>, todoId: string): (url: string)
    ensures |url| > |todoId| + 8 && url[..8] == "https://"
    ensures url[|url| - |todoId|..] == todoId
  {
    "https://" + Render(bucketName) + ".s3.amazonaws.com/" + todoId
  }

  /** Within one bucket, distinct records get distinct attachment URLs. */
  lemma AttachmentUrlInjective(bucketName: Option<string>, id1: string, id2: string)
    requires AttachmentUrl(bucketName, id1) == AttachmentUrl(bucketName, id2)
    ensures id1 == id2
  {
    var prefix := "https://" + Render(bucketName) + ".s3.amazonaws.com/";
    assert AttachmentUrl(bucketName, id1) == prefix + id1;
    assert AttachmentUrl(bucketName, id2) == prefix + id2;
    assert id1 == (prefix + id1)[|prefix|..];
    assert id2 == (prefix + id2)[|prefix|..];
  }

  /** The record `CreateTodo` writes: the given one with its derived
      `attachmentUrl`. */
  function WithAttachmentUrl(item: TodoItem, bucketName: Option<string>): (stored: TodoItem)
    ensures stored.attachmentUrl == Some(AttachmentUrl(bucketName, item.todoId))
    ensures stored.(attachmentUrl := item.attachmentUrl) == item
  {
    item.(attachmentUrl := Some(AttachmentUrl(bucketName, item.todoId)))
  }

  /** The condition `todoId = :todoId` on the record at `k`; it is false
      when there is no record there. */
  predicate ConditionHolds(t: Table, k: Key, todoId: string)
  {
    k in t && t[k].todoId == todoId
  }

  /** On a well-keyed table the condition checks only that the record
      exists. */
  lemma ConditionIsExistence(t: Table, k: Key)
    requires WellKeyed(t)
    ensures ConditionHolds(t, k, k.todoId) <==> k in t
  {
  }

  /** `set #n = :name, createdAt = :createdAt, done = :done` applied to a
      stored record. */
  function ApplyUpdate(record: TodoItem, item: TodoItem): TodoItem
  {
    record.(name := item.name, createdAt := item.createdAt, done := item.done)
  }

  /** `after` takes name, createdAt and done from `item` and every other
      attribute from `before`. */
  predicate UpdatedFrom(before: TodoItem, after: TodoItem, item: TodoItem)
  {
    && after.name == item.name && after.createdAt == item.createdAt && after.done == item.done
    && after.userId == before.userId && after.todoId == before.todoId
    && after.dueDate == before.dueDate && after.attachmentUrl == before.attachmentUrl
  }

  /** The conditional update at the item's key. */
  function UpdateItem(t: Table, item: TodoItem): (w: Write)
    requires WellKeyed(t)
    ensures WellKeyed(w.table)
    ensures KeyOf(item) !in t ==> w == Write(Err(ConditionalCheckFailed), t)
    ensures KeyOf(item) in t ==>
      && w.outcome == Ok("success")
      && w.table.Keys == t.Keys
      && UpdatedFrom(t[KeyOf(item)], w.table[KeyOf(item)], item)
      && forall k :: k in t && k != KeyOf(item) ==> w.table[k] == t[k]
  {
    var k := KeyOf(item);
    if ConditionHolds(t, k, item.todoId) then Write(Ok("success"), t[k := ApplyUpdate(t[k], item)])
    else Write(Err(ConditionalCheckFailed), t)
  }

  /** The conditional delete at key `(userId, todoId)`; it answers the
      user id. */
  function DeleteItem(t: Table, todoId: string, userId: string): (w: Write)
    requires WellKeyed(t)
    ensures WellKeyed(w.table)
    ensures Key(userId, todoId) !in t ==> w == Write(Err(ConditionalCheckFailed), t)
    ensures Key(userId, todoId) in t ==>
      && w.outcome == Ok(userId)
      && w.table.Keys == t.Keys - {Key(userId, todoId)}
      && forall k :: k in w.table ==> w.table[k] == t[k]
  {
    var k := Key(userId, todoId);
    if ConditionHolds(t, k, todoId) then Write(Ok(userId), t - {k})
    else Write(Err(ConditionalCheckFailed), t)
  }

  /** A second delete of the same key fails and changes nothing. */
  lemma DeleteTwiceFails(t: Table, todoId: string, userId: string)
    requires WellKeyed(t)
    ensures DeleteItem(DeleteItem(t, todoId, userId).table, todoId, userId)
         == Write(Err(ConditionalCheckFailed), DeleteItem(t, todoId, userId).table)
  {
  }

  /** An unconditional put at one user's key leaves every other user's
      listing as it was. */
  lemma PutInvisibleToOthers(t: Table, item: TodoItem, userId: string)
    requires WellKeyed(t) && userId != item.userId
    ensures WellKeyed(t[KeyOf(item) := item])
    ensures Query(t[KeyOf(item) := item], userId) == Query(t, userId)
  {
    QueryDependsOnlyOnPartition(t[KeyOf(item) := item], t, userId);
  }

  /** A conditional update at one user's key leaves every other user's
      listing as it was, whether it succeeds or not. */
  lemma UpdateInvisibleToOthers(t: Table, item: TodoItem, userId: string)
    requires WellKeyed(t) && userId != item.userId
    ensures Query(UpdateItem(t, item).table, userId) == Query(t, userId)
  {
    var t' := UpdateItem(t, item).table;
    assert forall id :: Key(userId, id) in t' <==> Key(userId, id) in t;
    assert forall id :: Key(userId, id) in t' ==> t'[Key(userId, id)] == t[Key(userId, id)];
    QueryDependsOnlyOnPartition(t', t, userId);
  }

  /** A conditional delete at one user's key leaves every other user's
      listing as it was, whether it succeeds or not. */
  lemma DeleteInvisibleToOthers(t: Table, todoId: string, owner: string, userId: string)
    requires WellKeyed(t) && userId != owner
    ensures Query(DeleteItem(t, todoId, owner).table, userId) == Query(t, userId)
  {
    var t' := DeleteItem(t, todoId, owner).table;
    assert forall id :: Key(userId, id) in t' <==> Key(userId, id) in t;
    assert forall id :: Key(userId, id) in t' ==> t'[Key(userId, id)] == t[Key(userId, id)];
    QueryDependsOnlyOnPartition(t', t, userId);
  }

  /** A put under a key not yet used lists the new record, keeps every
      record listed before, and lengthens the owner's listing by one. */
  lemma PutFreshListed(t: Table, item: TodoItem)
    requires WellKeyed(t) && KeyOf(item) !in t
    ensures WellKeyed(t[KeyOf(item) := item])
    ensures item in Query(t[KeyOf(item) := item], item.userId)
    ensures forall x :: x in Query(t, item.userId) ==> x in Query(t[KeyOf(item) := item], item.userId)
    ensures |Query(t[KeyOf(item) := item], item.userId)| == |Query(t, item.userId)| + 1
  {
    PutWellKeyed(t, item);
    PutKeepsListed(t, item);
    PartitionGrows(t, item);
  }

  lemma PutWellKeyed(t: Table, item: TodoItem)
    requires WellKeyed(t)
    ensures WellKeyed(t[KeyOf(item) := item])
    ensures t[KeyOf(item) := item][KeyOf(item)] == item
  {
  }

  lemma PutKeepsListed(t: Table, item: TodoItem)
    requires WellKeyed(t) && KeyOf(item) !in t
    ensures forall x :: x in Query(t, item.userId) ==> x in Query(t[KeyOf(item) := item], item.userId)
  {
    var t' := t[KeyOf(item) := item];
    PutWellKeyed(t, item);
    var before, after := Query(t, item.userId), Query(t', item.userId);
    forall x | x in before
      ensures x in after
    {
      var i :| 0 <= i < |before| && before[i] == x;
      var k := KeyOf(x);
      assert k in t && t[k] == x && k.userId == item.userId;
      assert k in t' && t'[k] == x;
    }
  }

  lemma PartitionGrows(t: Table, item: TodoItem)
    requires KeyOf(item) !in t
    ensures |PartitionIds(t[KeyOf(item) := item], item.userId)| == |PartitionIds(t, item.userId)| + 1
  {
    var u := item.userId;
    assert PartitionIds(t[KeyOf(item) := item], u) == PartitionIds(t, u) + {item.todoId};
    assert item.todoId !in PartitionIds(t, u);
  }

  /** After a successful delete the record is no longer listed. */
  lemma DeletedNotListed(t: Table, todoId: string, userId: string)
    requires WellKeyed(t) && Key(userId, todoId) in t
    ensures forall x :: x in Query(DeleteItem(t, todoId, userId).table, userId) ==> x.todoId != todoId
  {
  }

  /** The record store object: the table and the configuration it was built
      with (the bucket name and the signed-URL lifetime, each read from the
      environment and possibly unset). */
  class TodosAccess {
    var table: Table
    const bucketName: Option<string>
    const urlExpiration: Option<string>

    ghost predicate Valid()
      reads this
    {
      WellKeyed(table)
    }

    constructor (contents: Table, bucketName: Option<string>, urlExpiration: Option<string>)
      requires WellKeyed(contents)
      ensures Valid() && table == contents
      ensures this.bucketName == bucketName && this.urlExpiration == urlExpiration
    {
      table := contents;
      this.bucketName := bucketName;
      this.urlExpiration := urlExpiration;
    }

    /** All records of one user, greatest todoId first. */
    function GetTodos(userId: string): (items: seq<TodoItem>)
      reads this
      requires Valid()
      ensures items == Query(table, userId)
    {
      Query(table, userId)
    }

    /** Unconditional put of the item with its derived attachment URL. */
    method CreateTodo(todoItem: TodoItem) returns (newTodoItem: TodoItem)
      requires Valid()
      modifies this
      ensures Valid()
      ensures newTodoItem == WithAttachmentUrl(todoItem, bucketName)
      ensures table == old(table)[KeyOf(todoItem) := newTodoItem]
    {
      newTodoItem := WithAttachmentUrl(todoItem, bucketName);
      table := table[KeyOf(newTodoItem) := newTodoItem];
    }

    /** Conditional update of name, createdAt and done. */
    method UpdateTodo(todoItem: TodoItem) returns (result: Result<string, StoreError>)
      requires Valid()
      modifies this
      ensures Valid()
      ensures Write(result, table) == UpdateItem(old(table), todoItem)
    {
      var k := KeyOf(todoItem);
      if ConditionHolds(table, k, todoItem.todoId) {
        table := table[k := ApplyUpdate(table[k], todoItem)];
        result := Ok("success");
      } else {
        result := Err(ConditionalCheckFailed);
      }
    }

    /** Conditional delete of the record at `(userId, todoId)`. */
    method DeleteTodo(todoId: string, userId: string) returns (result: Result<string, StoreError>)
      requires Valid()
      modifies this
      ensures Valid()
      ensures Write(result, table) == DeleteItem(old(table), todoId, userId)
    {
      var k := Key(userId, todoId);
      if ConditionHolds(table, k, todoId) {
        table := table - {k};
        result := Ok(userId);
      } else {
        result := Err(ConditionalCheckFailed);
      }
    }

    /** The parameters of the pre-signed `putObject` URL. It reads no
        mutable field, so it neither depends on nor changes the table. */
    function GenerateUploadUrl(todoId: string): (request: SignedUrlRequest)
      ensures request.operation == "putObject"
      ensures request.bucket == bucketName && request.key == todoId
      ensures request.expires == ParseInt(Render(urlExpiration))
    {
      SignedUrlRequest("putObject", bucketName, todoId, ParseInt(Render(urlExpiration)))
    }
  }

  /** The upload URL writes exactly the object the record's attachment URL
      names. */
  lemma UploadTargetsAttachment(store: TodosAccess, item: TodoItem)
    ensures WithAttachmentUrl(item, store.bucketName).attachmentUrl
         == Some("https://" + Render(store.GenerateUploadUrl(item.todoId).bucket)
                 + ".s3.amazonaws.com/" + store.GenerateUploadUrl(item.todoId).key)
  {
  }

  /** A lifetime configured as a decimal numeral is used as that many
      seconds; an unset one becomes NaN. */
  lemma UploadExpiry(store: TodosAccess, todoId: string, seconds: int)
    ensures store.urlExpiration == Some(SignedDecimal(seconds)) ==>
      store.GenerateUploadUrl(todoId).expires == Int(seconds)
    ensures store.urlExpiration == None ==> store.GenerateUploadUrl(todoId).expires == NaN
  {
    ParseIntOfDecimal(seconds, "");
    assert SignedDecimal(seconds) + "" == SignedDecimal(seconds);
    UnsetIsNaN();
  }
}
