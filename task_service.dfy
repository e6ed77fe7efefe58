/**
 * `TaskService`: the lifecycle operations over the store, and its read-only
 * pass-throughs to the repository queries.
 *
 * Each state-changing operation is specified by a function of the old store (`Updated`,
 * `Deleted`, `Restored`; creation is `Persist` itself). The lemmas below state what those
 * functions promise, and the class `TaskService` performs the operations step by step, the
 * way the source fetches an entity, sets its fields and saves it back.
 */
module TaskService {
  import opened Options
  import opened TaskModel
  import opened TaskRepository

  /** The six fields `updateTask` copies from the request body onto the stored entity. */
  function CopyDetails(task: Task, details: Task): Task
  {
    task.(title := details.title, description := details.description, dueDate := details.dueDate,
          priority := details.priority, category := details.category, status := details.status)
  }

  /** `updateTask`: absent id -> null and no change; otherwise copy the six fields and save. */
  function Updated(db: Store, id: Id, details: Task, now: Timestamp): (r: (Store, Option<Task>))
    requires db.Valid() && db.NotAfter(now)
    ensures r.0.Valid() && r.0.NotAfter(now)
  {
    if id !in db.rows then (db, None)
    else
      MergeSpec(db, CopyDetails(db.rows[id], details), now);
      var (db', saved) := Merge(db, CopyDetails(db.rows[id], details), now);
      (db', Some(saved))
  }

  /** `deleteTask`: absent id -> false and no change; otherwise set `isDeleted` and save. */
  function Deleted(db: Store, id: Id, now: Timestamp): (r: (Store, bool))
    requires db.Valid() && db.NotAfter(now)
    ensures r.0.Valid() && r.0.NotAfter(now)
  {
    if id !in db.rows then (db, false)
    else
      MergeSpec(db, db.rows[id].(isDeleted := true), now);
      (Merge(db, db.rows[id].(isDeleted := true), now).0, true)
  }

  /** `restoreTask`: absent id -> null and no change; otherwise clear `isDeleted` and save. */
  function Restored(db: Store, id: Id, now: Timestamp): (r: (Store, Option<Task>))
    requires db.Valid() && db.NotAfter(now)
    ensures r.0.Valid() && r.0.NotAfter(now)
  {
    if id !in db.rows then (db, None)
    else
      MergeSpec(db, db.rows[id].(isDeleted := false), now);
      var (db', saved) := Merge(db, db.rows[id].(isDeleted := false), now);
      (db', Some(saved))
  }

  // ---------------------------------------------------------------------------------
  // What the lifecycle operations promise
  // ---------------------------------------------------------------------------------

  /**
   * On an unknown id, update answers null and changes nothing. On a known id it sets the
   * six copied fields to the body's values, keeps id, createdAt, parentTaskId and
   * isDeleted, refreshes updatedAt unless nothing changed, returns the stored row and
   * touches no other row.
   */
  lemma UpdateSpec(db: Store, id: Id, details: Task, now: Timestamp)
    requires db.Valid() && db.NotAfter(now)
    ensures var (db', r) := Updated(db, id, details, now);
      && (id !in db.rows ==> db' == db && r.None?)
      && (id in db.rows ==>
            && r.Some? && db'.rows == db.rows[id := r.value] && db'.nextId == db.nextId
            && r.value.title == details.title && r.value.description == details.description
            && r.value.dueDate == details.dueDate && r.value.priority == details.priority
            && r.value.category == details.category && r.value.status == details.status
            && r.value.id == Some(id) && r.value.createdAt == db.rows[id].createdAt
            && r.value.parentTaskId == db.rows[id].parentTaskId
            && r.value.isDeleted == db.rows[id].isDeleted
            && (r.value.updatedAt == Some(now) || r.value == db.rows[id]))
      && db'.Valid() && db'.NotAfter(now)
  {
    if id in db.rows {
      MergeSpec(db, CopyDetails(db.rows[id], details), now);
    }
  }

  /**
   * Delete answers true iff the id is stored. Then only that row changes: `isDeleted`
   * becomes true and `updatedAt` is refreshed when the row was live; a row already deleted
   * is left exactly as it was.
   */
  lemma DeleteSpec(db: Store, id: Id, now: Timestamp)
    requires db.Valid() && db.NotAfter(now)
    ensures var (db', ok) := Deleted(db, id, now);
      && (ok <==> id in db.rows)
      && (!ok ==> db' == db)
      && (ok ==> db'.rows == db.rows[id := db.rows[id].(isDeleted := true,
                   updatedAt := if db.rows[id].isDeleted then db.rows[id].updatedAt else Some(now))])
      && db'.nextId == db.nextId
      && db'.Valid() && db'.NotAfter(now)
  {
    if id in db.rows {
      MergeSpec(db, db.rows[id].(isDeleted := true), now);
    }
  }

  /** Deleting twice is deleting once: the second call still answers true and changes nothing. */
  lemma DeleteIdempotent(db: Store, id: Id, now1: Timestamp, now2: Timestamp)
    requires db.Valid() && db.NotAfter(now1) && now1 <= now2
    ensures var (db1, ok1) := Deleted(db, id, now1);
      var (db2, ok2) := Deleted(db1, id, now2);
      ok2 == ok1 && db2 == db1
  {
    DeleteSpec(db, id, now1);
    var (db1, ok1) := Deleted(db, id, now1);
    if ok1 {
      assert db1.rows[id].isDeleted;
      MergeSpec(db1, db1.rows[id].(isDeleted := true), now2);
    }
  }

  /**
   * Restore answers null and changes nothing on an unknown id. On a known id it returns the
   * row with `isDeleted` false, refreshes `updatedAt` when the row was deleted, and
   * touches no other row.
   */
  lemma RestoreSpec(db: Store, id: Id, now: Timestamp)
    requires db.Valid() && db.NotAfter(now)
    ensures var (db', r) := Restored(db, id, now);
      && (id !in db.rows ==> db' == db && r.None?)
      && (id in db.rows ==>
            && r == Some(db.rows[id].(isDeleted := false,
                   updatedAt := if db.rows[id].isDeleted then Some(now) else db.rows[id].updatedAt))
            && db'.rows == db.rows[id := r.value])
      && db'.nextId == db.nextId
      && db'.Valid() && db'.NotAfter(now)
  {
    if id in db.rows {
      MergeSpec(db, db.rows[id].(isDeleted := false), now);
    }
  }

  /** No operation removes a row: the set of stored ids only grows. */
  lemma NoOperationShrinksIds(db: Store, id: Id, details: Task, now: Timestamp)
    requires db.Valid() && db.NotAfter(now)
    ensures Persist(db, details, now).0.rows.Keys == db.rows.Keys + {db.nextId}
    ensures db.nextId !in db.rows.Keys
    ensures db.rows.Keys == Updated(db, id, details, now).0.rows.Keys
    ensures db.rows.Keys == Deleted(db, id, now).0.rows.Keys
    ensures db.rows.Keys == Restored(db, id, now).0.rows.Keys
  {
    PersistSpec(db, details, now);
    UpdateSpec(db, id, details, now);
    DeleteSpec(db, id, now);
    RestoreSpec(db, id, now);
  }

  /**
   * A soft-deleted row leaves every live listing (roots, every status, every category,
   * every search, every parent's subtasks) but stays visible by id and in the deleted
   * listing.
   */
  lemma DeleteHides(db: Store, id: Id, now: Timestamp)
    requires db.Valid() && db.NotAfter(now) && id in db.rows
    ensures var db' := Deleted(db, id, now).0;
      && id in db'.rows && db'.rows[id].isDeleted
      && FindById(db', id) == Some(db'.rows[id])
      && db'.rows[id] in FindDeletedRecentFirst(db')
      && db'.rows[id] !in FindRootsNewestFirst(db')
      && db'.rows[id] !in FindLiveNewestFirst(db')
      && (forall s: Status :: db'.rows[id] !in FindByStatus(db', s))
      && (forall c: Category :: db'.rows[id] !in FindByCategory(db', c))
      && (forall p: Id :: db'.rows[id] !in FindByParent(db', p))
      && (forall kw: string :: db'.rows[id] !in TaskRepository.SearchTasks(db', kw))
  {
    DeleteSpec(db, id, now);
    var db' := Deleted(db, id, now).0;
    assert db'.rows[id] in db'.rows.Values;
  }

  /**
   * Restoring a deleted row makes it live again, with `updatedAt` refreshed: it is back in
   * the list of its status and of its category, in the root listing when it has no parent,
   * and no longer in the deleted listing.
   */
  lemma RestoreRevives(db: Store, id: Id, now: Timestamp)
    requires db.Valid() && db.NotAfter(now) && id in db.rows && db.rows[id].isDeleted
    ensures var (db', r) := Restored(db, id, now);
      && r == Some(db.rows[id].(isDeleted := false, updatedAt := Some(now)))
      && r.value in FindByStatus(db', r.value.status)
      && r.value in FindByCategory(db', r.value.category)
      && (r.value.parentTaskId.None? ==> r.value in FindRootsNewestFirst(db'))
      && r.value !in FindDeletedRecentFirst(db')
  {
    RestoreSpec(db, id, now);
    var (db', r) := Restored(db, id, now);
    assert db'.rows[id] in db'.rows.Values;
  }

  /** A delete followed by a restore brings a live root task back, changed only in `updatedAt`. */
  lemma DeleteThenRestore(db: Store, id: Id, now1: Timestamp, now2: Timestamp)
    requires db.Valid() && db.NotAfter(now1) && now1 <= now2
    requires id in db.rows && db.rows[id] in FindRootsNewestFirst(db)
    ensures var db1 := Deleted(db, id, now1).0;
      var (db2, r) := Restored(db1, id, now2);
      && r == Some(db.rows[id].(updatedAt := Some(now2)))
      && r.value in FindRootsNewestFirst(db2)
  {
    var t := db.rows[id];
    assert !t.isDeleted && t.parentTaskId.None?;
    DeleteSpec(db, id, now1);
    var db1 := Deleted(db, id, now1).0;
    assert db1.rows[id] == t.(isDeleted := true, updatedAt := Some(now1));
    assert db1.Valid() && db1.NotAfter(now2);
    RestoreRevives(db1, id, now2);
  }

  /** A list without members is empty. */
  lemma NoMembersEmpty(r: seq<Task>)
    requires forall t :: t !in r
    ensures r == []
  {
    forall t ensures multiset(r)[t] == 0 {
      assert t !in r;
    }
    assert multiset(r) == multiset{};
  }

  /** A duplicate-free list whose only member is `x` is `[x]`. */
  lemma OnlyMember(r: seq<Task>, x: Task)
    requires NoDuplicates(r)
    requires forall t :: t in r <==> t == x
    ensures r == [x]
  {
    assert x in r;
    forall t ensures multiset(r)[t] == multiset{x}[t] {
      if t != x {
        assert t !in r;
      }
    }
    assert multiset(r) == multiset{x};
    assert |r| == |multiset(r)| == 1;
  }

  /** Saving a live task under a parent that had no children makes it that parent's only subtask. */
  lemma FirstChild(db: Store, b: Task, p: Id, now: Timestamp)
    requires db.Valid() && db.NotAfter(now)
    requires b.parentTaskId == Some(p) && !b.isDeleted
    requires FindByParent(db, p) == []
    ensures var (db', tb) := Persist(db, b, now);
      FindByParent(db', p) == [tb]
  {
    PersistSpec(db, b, now);
    var (db', tb) := Persist(db, b, now);
    var children := FindByParent(db', p);
    forall t ensures t in children <==> t == tb {
      if t in children {
        var k :| k in db'.rows && db'.rows[k] == t;
      }
    }
    OnlyMember(children, tb);
  }

  /** Soft-deleting a parent's only subtask leaves it with none. */
  lemma OnlyChildDeleted(db: Store, p: Id, id: Id, now: Timestamp)
    requires db.Valid() && db.NotAfter(now)
    requires id in db.rows && FindByParent(db, p) == [db.rows[id]]
    ensures var (db', ok) := Deleted(db, id, now);
      ok && FindByParent(db', p) == []
  {
    DeleteSpec(db, id, now);
    var (db', ok) := Deleted(db, id, now);
    NoMembersEmpty(FindByParent(db', p));
  }

  /**
   * The end-to-end subtask scenario: create a root task A, then a task B whose parent is
   * A; the subtasks of A are exactly [B]; after B is soft-deleted they are []. It holds
   * only if no live row already names A's future id as its parent, since nothing checks
   * that a parent exists when a task is created.
   */
  lemma SubtaskScenario(db: Store, a: Task, b: Task, now1: Timestamp, now2: Timestamp, now3: Timestamp)
    requires db.Valid() && db.NotAfter(now1) && now1 <= now2 <= now3
    requires a.parentTaskId.None? && !b.isDeleted
    requires FindByParent(db, db.nextId) == []
    ensures var (db1, ta) := Persist(db, a, now1);
      var (db2, tb) := Persist(db1, b.(parentTaskId := ta.id), now2);
      var (db3, ok) := Deleted(db2, tb.id.value, now3);
      && FindByParent(db2, ta.id.value) == [tb]
      && ok
      && FindByParent(db3, ta.id.value) == []
  {
    PersistSpec(db, a, now1);
    var (db1, ta) := Persist(db, a, now1);
    var p := db.nextId;
    NoMembersEmpty(FindByParent(db1, p));
    FirstChild(db1, b.(parentTaskId := ta.id), p, now2);
    PersistSpec(db1, b.(parentTaskId := ta.id), now2);
    var (db2, tb) := Persist(db1, b.(parentTaskId := ta.id), now2);
    OnlyChildDeleted(db2, p, tb.id.value, now3);
  }

  // ---------------------------------------------------------------------------------
  // The service object
  // ---------------------------------------------------------------------------------

  /** The service together with the database its repository reads and writes. */
  class TaskService {
    var db: Store

    ghost predicate Valid()
      reads this
    {
      db.Valid()
    }

    /** A service over an empty table. */
    constructor ()
      ensures Valid() && db == EmptyStore
    {
      db := EmptyStore;
    }

    /** `getAllTasks`: the live root tasks, newest first. */
    method GetAllTasks() returns (tasks: seq<Task>)
      requires Valid()
      ensures tasks == FindRootsNewestFirst(db)
    {
      tasks := FindRootsNewestFirst(db);
    }

    /** `getTaskById`: the stored row, soft-deleted or not; absent only for an unknown id. */
    method GetTaskById(id: Id) returns (task: Option<Task>)
      ensures task.Some? <==> id in db.rows
      ensures task.Some? ==> task.value == db.rows[id]
    {
      task := FindById(db, id);
    }

    /** `createTask`: save the body as a new row under a fresh id. */
    method CreateTask(task: Task, now: Timestamp) returns (created: Task)
      requires Valid() && db.NotAfter(now)
      modifies this
      ensures Valid() && db.NotAfter(now)
      ensures (db, created) == Persist(old(db), task, now)
    {
      PersistSpec(db, task, now);
      var (db', saved) := Persist(db, task, now);
      db, created := db', saved;
    }

    /** `updateTask`. */
    method UpdateTask(id: Id, details: Task, now: Timestamp) returns (updated: Option<Task>)
      requires Valid() && db.NotAfter(now)
      modifies this
      ensures Valid() && db.NotAfter(now)
      ensures (db, updated) == Updated(old(db), id, details, now)
    {
      UpdateSpec(db, id, details, now);
      var found := FindById(db, id);
      if found.Some? {
        var task := found.value;
        task := task.(title := details.title);
        task := task.(description := details.description);
        task := task.(dueDate := details.dueDate);
        task := task.(priority := details.priority);
        task := task.(category := details.category);
        task := task.(status := details.status);
        var (db', saved) := Merge(db, task, now);
        db := db';
        updated := Some(saved);
      } else {
        updated := None;
      }
    }

    /** `deleteTask`. */
    method DeleteTask(id: Id, now: Timestamp) returns (deleted: bool)
      requires Valid() && db.NotAfter(now)
      modifies this
      ensures Valid() && db.NotAfter(now)
      ensures (db, deleted) == Deleted(old(db), id, now)
    {
      DeleteSpec(db, id, now);
      var found := FindById(db, id);
      if found.Some? {
        var task := found.value;
        task := task.(isDeleted := true);
        db := Merge(db, task, now).0;
        deleted := true;
      } else {
        deleted := false;
      }
    }

    /** `restoreTask`. */
    method RestoreTask(id: Id, now: Timestamp) returns (restored: Option<Task>)
      requires Valid() && db.NotAfter(now)
      modifies this
      ensures Valid() && db.NotAfter(now)
      ensures (db, restored) == Restored(old(db), id, now)
    {
      RestoreSpec(db, id, now);
      var found := FindById(db, id);
      if found.Some? {
        var task := found.value;
        task := task.(isDeleted := false);
        var (db', saved) := Merge(db, task, now);
        db := db';
        restored := Some(saved);
      } else {
        restored := None;
      }
    }

    /** `getTasksByStatus`. */
    method GetTasksByStatus(status: Status) returns (tasks: seq<Task>)
      requires Valid()
      ensures forall t :: t in tasks <==> t in db.rows.Values && !t.isDeleted && t.status == status
      ensures NoDuplicates(tasks)
    {
      tasks := FindByStatus(db, status);
    }

    /** `getTasksByCategory`. */
    method GetTasksByCategory(category: Category) returns (tasks: seq<Task>)
      requires Valid()
      ensures forall t :: t in tasks <==> t in db.rows.Values && !t.isDeleted && t.category == category
      ensures NoDuplicates(tasks)
    {
      tasks := FindByCategory(db, category);
    }

    /** `searchTasks`. */
    method SearchTasks(keyword: string) returns (tasks: seq<Task>)
      requires Valid()
      ensures tasks == TaskRepository.SearchTasks(db, keyword)
    {
      tasks := TaskRepository.SearchTasks(db, keyword);
    }

    /** `getSubTasks`: no check that the parent exists. */
    method GetSubTasks(parentTaskId: Id) returns (tasks: seq<Task>)
      requires Valid()
      ensures tasks == FindByParent(db, parentTaskId)
    {
      tasks := FindByParent(db, parentTaskId);
    }

    /** `getDeletedTasks`: soft-deleted tasks, most recently updated first. */
    method GetDeletedTasks() returns (tasks: seq<Task>)
      requires Valid()
      ensures tasks == FindDeletedRecentFirst(db)
    {
      tasks := FindDeletedRecentFirst(db);
    }

    /** `getTasksByDateRange`. */
    method GetTasksByDateRange(start: Option<Date>, end: Option<Date>) returns (tasks: seq<Task>)
      requires Valid()
      ensures tasks == FindByDateRange(db, start, end)
    {
      tasks := FindByDateRange(db, start, end);
    }
  }
}
