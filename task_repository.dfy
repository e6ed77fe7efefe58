/**
 * The `tasks` table and the queries of `TaskRepository`.
 *
 * The table is a map from id to row together with the next value of the `task_seq`
 * sequence (step 1, starting at 1). Every query is a function: it reads the store and
 * never changes it. A query scans the ids in ascending order (the store's default order)
 * and keeps the rows its condition admits; the queries whose method names say
 * `OrderBy...Desc` then sort by that timestamp, newest first.
 */
module TaskRepository {
  import opened Options
  import opened TaskModel
  import opened Text

  /** The persistent state: the rows by id, and the next value the id sequence hands out. */
  datatype Store = Store(rows: map<Id, Task>, nextId: Id)
  {
    /**
     * Every id was drawn from the sequence (so lies in [1, nextId)), every row carries its
     * own key as id, and every row has been stamped by the lifecycle callbacks.
     */
    predicate Valid()
    {
      nextId >= 1 &&
      forall k | k in rows :: 1 <= k < nextId && rows[k].id == Some(k) && Stamped(rows[k])
    }

    /** No stored timestamp lies after `now`: the clock has not gone back. */
    predicate NotAfter(now: Timestamp)
    {
      forall k | k in rows :: rows[k].updatedAt.Some? && rows[k].updatedAt.value <= now
    }
  }

  /** The empty table with a fresh sequence. */
  const EmptyStore: Store := Store(map[], 1)

  /** Every element occurs exactly once. */
  predicate NoDuplicates<T(==)>(s: seq<T>)
  {
    forall x | x in s :: multiset(s)[x] == 1
  }

  /** `createdAt` of a stored row (always present there). */
  function CreatedKey(t: Task): int
  {
    if t.createdAt.Some? then t.createdAt.value else 0
  }

  /** `updatedAt` of a stored row (always present there). */
  function UpdatedKey(t: Task): int
  {
    if t.updatedAt.Some? then t.updatedAt.value else 0
  }

  /** `s` is in non-increasing order of `key`. */
  predicate SortedDesc(s: seq<Task>, key: Task -> int)
  {
    forall i, j | 0 <= i < j < |s| :: key(s[i]) >= key(s[j])
  }

  // ---------------------------------------------------------------------------------
  // Scanning and sorting
  // ---------------------------------------------------------------------------------

  /**
   * The rows with ids in [lo, hi) that satisfy `p`, in ascending id order: each row it
   * returns is stored under its own id and satisfies `p`, each such row is returned, and
   * ids strictly increase along the result.
   */
  function Scan(rows: map<Id, Task>, lo: Id, hi: Id, p: Task -> bool): (r: seq<Task>)
    requires forall k | k in rows :: rows[k].id == Some(k)
    ensures forall i | 0 <= i < |r| ::
      r[i].id.Some? && lo <= r[i].id.value < hi && r[i].id.value in rows &&
      rows[r[i].id.value] == r[i] && p(r[i])
    ensures forall k | lo <= k < hi && k in rows && p(rows[k]) :: rows[k] in r
    ensures forall i, j | 0 <= i < j < |r| :: r[i].id.value < r[j].id.value
    decreases hi - lo
  {
    if lo >= hi then []
    else
      var rest := Scan(rows, lo + 1, hi, p);
      if lo in rows && p(rows[lo]) then [rows[lo]] + rest else rest
  }

  /** Strictly increasing ids mean no row appears twice. */
  lemma {:induction false} IncreasingIdsNoDuplicates(r: seq<Task>)
    requires forall i | 0 <= i < |r| :: r[i].id.Some?
    requires forall i, j | 0 <= i < j < |r| :: r[i].id.value < r[j].id.value
    ensures NoDuplicates(r)
  {
    if |r| > 0 {
      IncreasingIdsNoDuplicates(r[1..]);
      assert r == [r[0]] + r[1..];
      assert r[0] !in r[1..];
      forall x | x in r ensures multiset(r)[x] == 1 {
        assert multiset(r) == multiset{r[0]} + multiset(r[1..]);
      }
    }
  }

  /**
   * The rows of a valid store that satisfy `p`: a row is in the result iff it is stored
   * and satisfies `p`, and no row appears twice.
   */
  function Where(db: Store, p: Task -> bool): (r: seq<Task>)
    requires db.Valid()
    ensures forall t :: t in r <==> t in db.rows.Values && p(t)
    ensures NoDuplicates(r)
  {
    var r := Scan(db.rows, 1, db.nextId, p);
    IncreasingIdsNoDuplicates(r);
    r
  }

  /** Insert `x` into a list sorted newest first, before every element with a key not above its own. */
  function InsertDesc(x: Task, s: seq<Task>, key: Task -> int): (r: seq<Task>)
    requires SortedDesc(s, key)
    ensures multiset(r) == multiset(s) + multiset{x}
    ensures SortedDesc(r, key)
  {
    if s == [] || key(s[0]) <= key(x) then
      ConsSorted(x, s, key);
      [x] + s
    else
      var rest := InsertDesc(x, s[1..], key);
      assert s == [s[0]] + s[1..];
      BoundedByHead(s, key);
      BoundedAfterInsert(x, s[1..], rest, key(s[0]), key);
      ConsSorted(s[0], rest, key);
      [s[0]] + rest
  }

  /** Every element of a list sorted newest first has a key at most its head's. */
  lemma BoundedByHead(s: seq<Task>, key: Task -> int)
    requires |s| > 0 && SortedDesc(s, key)
    ensures forall y | y in s[1..] :: key(y) <= key(s[0])
  {
    forall y | y in s[1..] ensures key(y) <= key(s[0]) {
      var k :| 0 <= k < |s[1..]| && s[1..][k] == y;
      assert s[k + 1] == y;
    }
  }

  /** Inserting an element below a bound into a list below that bound keeps every element below it. */
  lemma BoundedAfterInsert(x: Task, s: seq<Task>, r: seq<Task>, bound: int, key: Task -> int)
    requires forall y | y in s :: key(y) <= bound
    requires key(x) <= bound
    requires multiset(r) == multiset(s) + multiset{x}
    ensures forall j | 0 <= j < |r| :: key(r[j]) <= bound
  {
    forall j | 0 <= j < |r| ensures key(r[j]) <= bound {
      assert r[j] in multiset(r);
      if r[j] != x {
        assert r[j] in multiset(s);
      }
    }
  }

  /** A head with a key at least every key of a sorted tail makes a sorted list. */
  lemma ConsSorted(h: Task, s: seq<Task>, key: Task -> int)
    requires SortedDesc(s, key)
    requires forall j | 0 <= j < |s| :: key(s[j]) <= key(h)
    ensures SortedDesc([h] + s, key)
  {
    var r := [h] + s;
    forall i, j | 0 <= i < j < |r| ensures key(r[i]) >= key(r[j]) {
      assert r[j] == s[j - 1];
      if i > 0 {
        assert r[i] == s[i - 1];
      }
    }
  }

  /** `ORDER BY key DESC`: a permutation of `s`, newest first. */
  function SortDesc(s: seq<Task>, key: Task -> int): (r: seq<Task>)
    ensures multiset(r) == multiset(s)
    ensures SortedDesc(r, key)
  {
    if s == [] then []
    else
      assert s == [s[0]] + s[1..];
      InsertDesc(s[0], SortDesc(s[1..], key), key)
  }

  /** Reordering keeps membership and keeps every element unique. */
  lemma PermutationKeepsMembers(s: seq<Task>, r: seq<Task>)
    requires multiset(r) == multiset(s)
    ensures forall t :: t in r <==> t in s
    ensures NoDuplicates(s) ==> NoDuplicates(r)
  {
    forall t ensures t in r <==> t in s {
      assert t in r <==> t in multiset(r);
      assert t in s <==> t in multiset(s);
    }
  }

  /** The rows of a valid store that satisfy `p`, sorted by `key`, largest first. */
  function WhereSorted(db: Store, p: Task -> bool, key: Task -> int): (r: seq<Task>)
    requires db.Valid()
    ensures forall t :: t in r <==> t in db.rows.Values && p(t)
    ensures NoDuplicates(r)
    ensures SortedDesc(r, key)
  {
    var selected := Where(db, p);
    var r := SortDesc(selected, key);
    PermutationKeepsMembers(selected, r);
    r
  }

  // ---------------------------------------------------------------------------------
  // The query methods
  // ---------------------------------------------------------------------------------

  /** `findById`: the row stored under `id`, soft-deleted or not. */
  function FindById(db: Store, id: Id): (r: Option<Task>)
    ensures r.Some? <==> id in db.rows
    ensures r.Some? ==> r.value == db.rows[id]
  {
    if id in db.rows then Some(db.rows[id]) else None
  }

  /** `findByIsDeletedFalseOrderByCreatedAtDesc`. */
  function FindLiveNewestFirst(db: Store): (r: seq<Task>)
    requires db.Valid()
    ensures forall t :: t in r <==> t in db.rows.Values && !t.isDeleted
    ensures NoDuplicates(r)
    ensures SortedDesc(r, CreatedKey)
  {
    WhereSorted(db, (t: Task) => !t.isDeleted, CreatedKey)
  }

  /** `findByStatusAndIsDeletedFalse`. */
  function FindByStatus(db: Store, status: Status): (r: seq<Task>)
    requires db.Valid()
    ensures forall t :: t in r <==> t in db.rows.Values && !t.isDeleted && t.status == status
    ensures NoDuplicates(r)
  {
    Where(db, (t: Task) => !t.isDeleted && t.status == status)
  }

  /** `findByCategoryAndIsDeletedFalse`. */
  function FindByCategory(db: Store, category: Category): (r: seq<Task>)
    requires db.Valid()
    ensures forall t :: t in r <==> t in db.rows.Values && !t.isDeleted && t.category == category
    ensures NoDuplicates(r)
  {
    Where(db, (t: Task) => !t.isDeleted && t.category == category)
  }

  /** `findByParentTaskIdAndIsDeletedFalse`: whether a row with id `parentId` exists is not consulted. */
  function FindByParent(db: Store, parentId: Id): (r: seq<Task>)
    requires db.Valid()
    ensures forall t :: t in r <==> t in db.rows.Values && !t.isDeleted && t.parentTaskId == Some(parentId)
    ensures NoDuplicates(r)
  {
    Where(db, (t: Task) => !t.isDeleted && t.parentTaskId == Some(parentId))
  }

  /** `findByParentTaskIdIsNullAndIsDeletedFalseOrderByCreatedAtDesc`: live root tasks, newest first. */
  function FindRootsNewestFirst(db: Store): (r: seq<Task>)
    requires db.Valid()
    ensures forall t :: t in r <==> t in db.rows.Values && !t.isDeleted && t.parentTaskId.None?
    ensures NoDuplicates(r)
    ensures SortedDesc(r, CreatedKey)
  {
    WhereSorted(db, (t: Task) => !t.isDeleted && t.parentTaskId.None?, CreatedKey)
  }

  /** `findByIsDeletedTrueOrderByUpdatedAtDesc`: soft-deleted tasks, most recently updated first. */
  function FindDeletedRecentFirst(db: Store): (r: seq<Task>)
    requires db.Valid()
    ensures forall t :: t in r <==> t in db.rows.Values && t.isDeleted
    ensures NoDuplicates(r)
    ensures SortedDesc(r, UpdatedKey)
  {
    WhereSorted(db, (t: Task) => t.isDeleted, UpdatedKey)
  }

  /**
   * `LOWER(column) LIKE LOWER(CONCAT('%', :keyword, '%'))`. A null column yields SQL
   * NULL, which the `WHERE` clause treats as not matching.
   */
  predicate LikeKeyword(column: Option<string>, keyword: string)
  {
    column.Some? && Contains(ToLower(column.value), ToLower(keyword))
  }

  /** `searchTasks`: live tasks whose title or description contains the keyword, ignoring case. */
  function SearchTasks(db: Store, keyword: string): (r: seq<Task>)
    requires db.Valid()
    ensures forall t :: t in r <==>
      (t in db.rows.Values && !t.isDeleted && (LikeKeyword(t.title, keyword) || LikeKeyword(t.description, keyword)))
    ensures NoDuplicates(r)
  {
    Where(db, (t: Task) => !t.isDeleted && (LikeKeyword(t.title, keyword) || LikeKeyword(t.description, keyword)))
  }

  /**
   * `t.dueDate BETWEEN :startDate AND :endDate`: inclusive at both ends; a null due date or
   * a null bound yields SQL NULL, which does not match.
   */
  predicate DueBetween(dueDate: Option<Date>, start: Option<Date>, end: Option<Date>)
  {
    dueDate.Some? && start.Some? && end.Some? && start.value <= dueDate.value <= end.value
  }

  /** `findTasksByDateRange`. */
  function FindByDateRange(db: Store, start: Option<Date>, end: Option<Date>): (r: seq<Task>)
    requires db.Valid()
    ensures forall t :: t in r <==> t in db.rows.Values && !t.isDeleted && DueBetween(t.dueDate, start, end)
    ensures NoDuplicates(r)
  {
    Where(db, (t: Task) => !t.isDeleted && DueBetween(t.dueDate, start, end))
  }

  // ---------------------------------------------------------------------------------
  // save
  // ---------------------------------------------------------------------------------

  /**
   * `save` of an entity without an id (JPA persist): the next sequence value becomes its id,
   * `@PrePersist` stamps it, and it is stored under that id.
   */
  function Persist(db: Store, t: Task, now: Timestamp): (r: (Store, Task))
    ensures db.Valid() && db.NotAfter(now) ==> r.0.Valid() && r.0.NotAfter(now)
  {
    var row := OnCreate(t.(id := Some(db.nextId)), now);
    (db.(rows := db.rows[db.nextId := row], nextId := db.nextId + 1), row)
  }

  /**
   * `save` of an entity whose id is stored (JPA merge). The `created_at` column is not
   * updatable, so it keeps its stored value. When no column differs from the stored row,
   * no UPDATE is issued and `@PreUpdate` does not run; otherwise `updatedAt` is refreshed.
   */
  function Merge(db: Store, t: Task, now: Timestamp): (Store, Task)
    requires t.id.Some? && t.id.value in db.rows
  {
    var id := t.id.value;
    var row := t.(createdAt := db.rows[id].createdAt);
    if row == db.rows[id] then (db, row)
    else
      var updated := OnUpdate(row, now);
      (db.(rows := db.rows[id := updated]), updated)
  }

  /**
   * Persisting hands out an id no row has, adds exactly that row (the entity with its id and
   * both timestamps set to `now`), and keeps the store valid and the clock ahead of it.
   */
  lemma PersistSpec(db: Store, t: Task, now: Timestamp)
    requires db.Valid() && db.NotAfter(now)
    ensures var (db', row) := Persist(db, t, now);
      && db.nextId !in db.rows
      && row.id == Some(db.nextId)
      && db'.rows == db.rows[db.nextId := row]
      && db'.rows.Keys == db.rows.Keys + {db.nextId}
      && row.createdAt == row.updatedAt == Some(now)
      && row.(id := t.id, createdAt := t.createdAt, updatedAt := t.updatedAt) == t
      && db'.Valid() && db'.NotAfter(now)
  {
  }

  /**
   * Merging leaves every other row alone, keeps the stored id and `createdAt`, writes every
   * other field of the entity, and refreshes `updatedAt` to `now` exactly when some column
   * changed; the store stays valid and the clock stays ahead of it.
   */
  lemma MergeSpec(db: Store, t: Task, now: Timestamp)
    requires db.Valid() && db.NotAfter(now)
    requires t.id.Some? && t.id.value in db.rows
    ensures var (db', row) := Merge(db, t, now);
      var prev := db.rows[t.id.value];
      && db'.nextId == db.nextId
      && db'.rows.Keys == db.rows.Keys
      && db'.rows == db.rows[t.id.value := row]
      && row.id == prev.id && row.createdAt == prev.createdAt
      && row.(createdAt := t.createdAt, updatedAt := t.updatedAt) == t
      && (row.updatedAt == Some(now) || row == prev)
      && (t.(createdAt := prev.createdAt) != prev ==> row.updatedAt == Some(now))
      && (t.(createdAt := prev.createdAt) == prev ==> db' == db)
      && db'.Valid() && db'.NotAfter(now)
  {
  }

  // ---------------------------------------------------------------------------------
  // Properties of the queries
  // ---------------------------------------------------------------------------------

  /** Two conditions that agree on every row select the same rows, in the same order. */
  lemma {:induction false} ScanCongruent(rows: map<Id, Task>, lo: Id, hi: Id, p: Task -> bool, q: Task -> bool)
    requires forall k | k in rows :: rows[k].id == Some(k)
    requires forall k | lo <= k < hi && k in rows :: p(rows[k]) == q(rows[k])
    ensures Scan(rows, lo, hi, p) == Scan(rows, lo, hi, q)
    decreases hi - lo
  {
    if lo < hi {
      ScanCongruent(rows, lo + 1, hi, p, q);
    }
  }

  /**
   * Search ignores the case of the keyword: searching for the keyword or for its
   * lower-cased form returns the same list.
   */
  lemma SearchIgnoresKeywordCase(db: Store, keyword: string)
    requires db.Valid()
    ensures SearchTasks(db, ToLower(keyword)) == SearchTasks(db, keyword)
  {
    LowerIdempotent(keyword);
    ScanCongruent(db.rows, 1, db.nextId,
      (t: Task) => !t.isDeleted && (LikeKeyword(t.title, ToLower(keyword)) || LikeKeyword(t.description, ToLower(keyword))),
      (t: Task) => !t.isDeleted && (LikeKeyword(t.title, keyword) || LikeKeyword(t.description, keyword)));
  }

  /**
   * The root list, the status lists and the category lists partition the live tasks:
   * every live root task is in the list of its own status and its own category, and in no
   * other status list.
   */
  lemma LiveRootInItsLists(db: Store, t: Task)
    requires db.Valid()
    requires t in FindRootsNewestFirst(db)
    ensures t in FindByStatus(db, t.status) && t in FindByCategory(db, t.category)
    ensures t in FindLiveNewestFirst(db)
    ensures forall s: Status :: s != t.status ==> t !in FindByStatus(db, s)
    ensures t !in FindDeletedRecentFirst(db)
  {
  }
}
