/**
 * The task routes (qr-manager/backend/src/routes/task.ts) over an in-memory `tasks`
 * table. `caller` is `req.user`, which the authentication middleware has set from
 * a verified token.
 */
module Tasks {
  import opened Prelude
  import opened Schema
  import opened Http

  /** The rows owned by `owner`: `select ... where uid = owner`. The store promises no order. */
  function OwnedBy(rows: seq<Task>, owner: UserId): (r: seq<Task>)
    ensures forall t :: multiset(r)[t] == if t.uid == owner then multiset(rows)[t] else 0
  {
    if rows == [] then []
    else
      assert rows == [rows[0]] + rows[1..];
      (if rows[0].uid == owner then [rows[0]] else []) + OwnedBy(rows[1..], owner)
  }

  /** The rows that survive `delete ... where id = taskId`, in their order. */
  function WithoutId(rows: seq<Task>, taskId: TaskId): (r: seq<Task>)
    ensures forall t :: multiset(r)[t] == if t.id == taskId then 0 else multiset(rows)[t]
  {
    if rows == [] then []
    else
      assert rows == [rows[0]] + rows[1..];
      (if rows[0].id == taskId then [] else [rows[0]]) + WithoutId(rows[1..], taskId)
  }

  /** The surviving rows of a delete that also checks the owner: only the caller's row with that id goes. */
  function WithoutOwnedId(rows: seq<Task>, owner: UserId, taskId: TaskId): (r: seq<Task>)
    ensures forall t :: multiset(r)[t] == if t.id == taskId && t.uid == owner then 0 else multiset(rows)[t]
  {
    if rows == [] then []
    else
      assert rows == [rows[0]] + rows[1..];
      (if rows[0].id == taskId && rows[0].uid == owner then [] else [rows[0]])
        + WithoutOwnedId(rows[1..], owner, taskId)
  }

  /** The object the sync loop builds from one client record. */
  function Stamp(d: Draft, caller: UserId): NewTask {
    NewTask(d.id, d.title, d.description, d.color, ParseDate(d.dueAt),
            Some(ParseDate(d.createdAt)), Some(ParseDate(d.updatedAt)), caller)
  }

  /**
   * The row the store keeps for the `i`-th record of a sync batch: the record's
   * own fields, its three timestamps parsed, and `caller` as the owner whatever
   * the record said. The id is the record's own, or the store's default.
   */
  ghost predicate SyncedFrom(t: Task, d: Draft, caller: UserId, generatedId: TaskId) {
    && t.uid == caller
    && t.id == (if d.id.Some? then d.id.value else generatedId)
    && t.title == d.title && t.description == d.description && t.color == d.color
    && t.dueAt == ParseDate(d.dueAt)
    && t.createdAt == ParseDate(d.createdAt)
    && t.updatedAt == ParseDate(d.updatedAt)
  }

  /**
   * The loop of `POST /tasks/sync` that builds `filteredTasks`: one entry per
   * record, in order, each with its timestamps parsed and `uid` replaced by the
   * caller and every other field kept.
   */
  method NormaliseBatch(batch: seq<Draft>, caller: UserId) returns (filtered: seq<NewTask>)
    ensures |filtered| == |batch|
    ensures forall i :: 0 <= i < |batch| ==> filtered[i].uid == caller
    ensures forall i :: 0 <= i < |batch| ==>
      && filtered[i].id == batch[i].id && filtered[i].title == batch[i].title
      && filtered[i].description == batch[i].description && filtered[i].color == batch[i].color
    ensures forall i :: 0 <= i < |batch| ==>
      && filtered[i].dueAt == ParseDate(batch[i].dueAt)
      && filtered[i].createdAt == Some(ParseDate(batch[i].createdAt))
      && filtered[i].updatedAt == Some(ParseDate(batch[i].updatedAt))
  {
    filtered := [];
    for i := 0 to |batch|
      invariant |filtered| == i
      invariant forall k :: 0 <= k < i ==> filtered[k] == Stamp(batch[k], caller)
    {
      filtered := filtered + [Stamp(batch[i], caller)];
    }
  }

  /** The rows `db.insert(tasks).values(batch).returning()` adds, the `i`-th with the `i`-th generated default id. */
  function Inserted(batch: seq<NewTask>, generatedId: nat -> TaskId, now: Date): (r: seq<Task>)
    ensures |r| == |batch|
    ensures forall i :: 0 <= i < |batch| ==>
      && r[i].uid == batch[i].uid && r[i].title == batch[i].title
      && r[i].description == batch[i].description && r[i].color == batch[i].color
      && r[i].dueAt == batch[i].dueAt
    ensures forall i :: 0 <= i < |batch| && batch[i].id.Some? ==> r[i].id == batch[i].id.value
    ensures forall i :: 0 <= i < |batch| && batch[i].createdAt.Some? ==> r[i].createdAt == batch[i].createdAt.value
    ensures forall i :: 0 <= i < |batch| && batch[i].updatedAt.Some? ==> r[i].updatedAt == batch[i].updatedAt.value
  {
    var r := seq(|batch|, i requires 0 <= i < |batch| => Materialise(batch[i], generatedId(i), now));
    assert forall i :: 0 <= i < |batch| ==> r[i] == Materialise(batch[i], generatedId(i), now);
    r
  }

  /** The `tasks` table. */
  class TaskTable {
    var rows: seq<Task>

    constructor ()
      ensures rows == []
    {
      rows := [];
    }

    /**
     * `POST /tasks`. The body's fields are kept, `dueAt` is parsed and `uid` is set
     * to the caller, whatever the body said. Exactly one row is added, and the
     * reply is 201 with it.
     */
    method Create(caller: UserId, body: Draft, generatedId: TaskId, now: Date) returns (reply: Reply)
      modifies this
      ensures |rows| == |old(rows)| + 1 && rows[..|old(rows)|] == old(rows)
      ensures reply == Reply(201, TaskJson(rows[|old(rows)|]))
      ensures var t := rows[|old(rows)|];
        && t.uid == caller && t.dueAt == ParseDate(body.dueAt)
        && t.id == (if body.id.Some? then body.id.value else generatedId)
        && t.title == body.title && t.description == body.description && t.color == body.color
        && t.createdAt == now && t.updatedAt == now
    {
      var newTask := NewTask(body.id, body.title, body.description, body.color,
                             ParseDate(body.dueAt), None, None, caller);
      var task := Materialise(newTask, generatedId, now);
      rows := rows + [task];
      reply := Reply(201, TaskJson(task));
    }

    /** `GET /tasks`: the caller's rows and no others, status 200. */
    function List(caller: UserId): (reply: Reply)
      reads this
      ensures reply.status == 200 && reply.body.TaskListJson?
      ensures forall t :: multiset(reply.body.tasks)[t] == if t.uid == caller then multiset(rows)[t] else 0
    {
      Reply(200, TaskListJson(OwnedBy(rows, caller)))
    }

    /**
     * `DELETE /tasks`. Every row with the id goes, whoever owns it; all other rows
     * stay, in order. The reply is `true` even when nothing matched.
     */
    method Delete(caller: UserId, taskId: TaskId) returns (reply: Reply)
      modifies this
      ensures rows == WithoutId(old(rows), taskId)
      ensures reply == Reply(200, Flag(true))
    {
      rows := WithoutId(rows, taskId);
      reply := Reply(200, Flag(true));
    }

    /** The delete with the owner check added: only the caller's row with the id goes. */
    method DeleteOwned(caller: UserId, taskId: TaskId) returns (reply: Reply)
      modifies this
      ensures rows == WithoutOwnedId(old(rows), caller, taskId)
      ensures reply == Reply(200, Flag(true))
    {
      rows := WithoutOwnedId(rows, caller, taskId);
      reply := Reply(200, Flag(true));
    }

    /**
     * `POST /tasks/sync`. Every record is rewritten (timestamps parsed, owner set to
     * the caller) and the whole batch is appended in one insert, with no check
     * against the rows already there. The reply is 201 with the inserted rows. The
     * query builder refuses an empty list of values: an empty batch throws, and
     * the handler replies 500 with nothing inserted.
     */
    method Sync(caller: UserId, batch: seq<Draft>, generatedId: nat -> TaskId, now: Date)
      returns (reply: Reply)
      modifies this
      ensures |batch| == 0 ==> rows == old(rows) && reply == Reply(500, ExceptionJson)
      ensures |batch| > 0 ==> |rows| == |old(rows)| + |batch| && rows[..|old(rows)|] == old(rows)
      ensures |batch| > 0 ==> forall i :: 0 <= i < |batch| ==>
        SyncedFrom(rows[|old(rows)| + i], batch[i], caller, generatedId(i))
      ensures |batch| > 0 ==> reply == Reply(201, TaskListJson(rows[|old(rows)|..]))
    {
      var filtered := NormaliseBatch(batch, caller);
      if |filtered| == 0 {
        reply := Reply(500, ExceptionJson);
        return;
      }
      var pushed := Inserted(filtered, generatedId, now);
      rows := rows + pushed;
      reply := Reply(201, TaskListJson(pushed));
      assert rows[|old(rows)|..] == pushed;
    }
  }

  // ---------------------------------------------------------------------------
  // Properties

  /** Every row listed for a caller is the caller's. */
  lemma ListedRowsAreOwned(rows: seq<Task>, owner: UserId, i: nat)
    requires i < |OwnedBy(rows, owner)|
    ensures OwnedBy(rows, owner)[i].uid == owner && OwnedBy(rows, owner)[i] in rows
  {
    var t := OwnedBy(rows, owner)[i];
    assert t in multiset(OwnedBy(rows, owner));
  }

  /** A delete by id removes each row with that id and keeps every row without it. */
  lemma DeleteEffect(rows: seq<Task>, taskId: TaskId, t: Task)
    ensures t in WithoutId(rows, taskId) <==> t in rows && t.id != taskId
  {
    assert t in WithoutId(rows, taskId) <==> t in multiset(WithoutId(rows, taskId));
    assert t in rows <==> t in multiset(rows);
  }

  /**
   * Through the route: a caller who sends the id of another user's task deletes
   * it, and the owner no longer sees it listed.
   */
  method DeleteIgnoresOwner(table: TaskTable, caller: UserId, victim: Task) returns (reply: Reply)
    requires victim in table.rows && victim.uid != caller
    modifies table
    ensures reply == Reply(200, Flag(true))
    ensures victim in old(table.List(victim.uid)).body.tasks
    ensures victim !in table.List(victim.uid).body.tasks
  {
    assert victim in multiset(table.rows);
    assert victim in multiset(table.List(victim.uid).body.tasks);
    reply := table.Delete(caller, victim.id);
    DeleteEffect(old(table.rows), victim.id, victim);
    assert victim !in multiset(table.rows);
    assert victim !in multiset(table.List(victim.uid).body.tasks);
  }

  /** With the owner check, a delete leaves every other user's rows exactly as they were. */
  lemma DeleteOwnedSparesOthers(rows: seq<Task>, caller: UserId, taskId: TaskId, other: UserId)
    requires other != caller
    ensures multiset(OwnedBy(WithoutOwnedId(rows, caller, taskId), other)) == multiset(OwnedBy(rows, other))
  {
    var a, b := OwnedBy(WithoutOwnedId(rows, caller, taskId), other), OwnedBy(rows, other);
    forall t ensures multiset(a)[t] == multiset(b)[t] {}
  }

  /**
   * Sync the same non-empty batch twice: the table gains the batch's rows twice
   * over, with nothing merged. The two replies agree row by row in everything but
   * the id, and in the id too wherever the record carries its own.
   */
  method SyncTwice(table: TaskTable, caller: UserId, batch: seq<Draft>,
                   gen1: nat -> TaskId, gen2: nat -> TaskId, now1: Date, now2: Date)
    returns (first: Reply, second: Reply)
    modifies table
    ensures |batch| == 0 ==> table.rows == old(table.rows) && first == second == Reply(500, ExceptionJson)
    ensures |batch| > 0 ==> first.body.TaskListJson? && second.body.TaskListJson?
    ensures |batch| > 0 ==> |first.body.tasks| == |second.body.tasks| == |batch|
    ensures |batch| > 0 ==> table.rows == old(table.rows) + first.body.tasks + second.body.tasks
    ensures |batch| > 0 ==> forall i :: 0 <= i < |batch| ==>
      first.body.tasks[i].(id := second.body.tasks[i].id) == second.body.tasks[i]
    ensures |batch| > 0 ==> forall i :: 0 <= i < |batch| && batch[i].id.Some? ==>
      first.body.tasks[i].id == second.body.tasks[i].id == batch[i].id.value
  {
    ghost var start := table.rows;
    first := table.Sync(caller, batch, gen1, now1);
    ghost var middle := table.rows;
    second := table.Sync(caller, batch, gen2, now2);
    if |batch| > 0 {
      assert middle == start + first.body.tasks;
      assert table.rows == middle + second.body.tasks;
      forall i | 0 <= i < |batch|
        ensures first.body.tasks[i].(id := second.body.tasks[i].id) == second.body.tasks[i]
        ensures batch[i].id.Some? ==> first.body.tasks[i].id == second.body.tasks[i].id == batch[i].id.value
      {
        assert SyncedFrom(first.body.tasks[i], batch[i], caller, gen1(i));
        assert SyncedFrom(second.body.tasks[i], batch[i], caller, gen2(i));
      }
    }
  }
}
