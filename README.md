# Task manager: a verified model

This project models the core of a small to-do application. The backend is a Spring/JPA
service over one `tasks` table. The React frontend filters and counts the tasks it gets
back from that service.

- **The entity** (`task.dfy`, module `TaskModel`). A `Task` row has three enumerations
  (priority, category, status) and the declared defaults MEDIUM, PERSONAL and PENDING. The
  title is checked by `@NotBlank` and `@Size(max = 200)`, with blankness defined by Java's
  `trim()`. Two lifecycle callbacks stamp `createdAt` and `updatedAt`.
- **The repository** (`task_repository.dfy`, module `TaskRepository`). The table is a map
  from id to row, plus the next value of the id sequence (which starts at 1 and steps
  by 1). Each derived query is a function over that map: soft-delete filtering,
  status/category/parent filters, the root listing, the deleted listing, keyword search
  with SQL `LIKE`/`LOWER` and NULL semantics, and the inclusive date range. `save` is
  split into `Persist` (a new entity) and `Merge` (a stored entity). `Merge` models the
  non-updatable `created_at` column and the fact that `@PreUpdate` runs only when some
  column changed.
- **The service** (`task_service.dfy`, module `TaskService`). Create, update, soft-delete
  and restore are specified as functions of the old store (`Updated`, `Deleted`,
  `Restored`, and `Persist` for create). The class `TaskService` holds the store and
  performs each operation step by step: fetch, set fields, save. Each method's
  postcondition ties the new store and its result to those functions.
- **The controller** (`task_controller.dfy`, module `TaskController`). Each handler does
  three things:
  - validates what the framework validates: the title of the request body, and the enum
    path segments via `valueOf(toUpperCase())`;
  - calls the service;
  - maps the answer to 200/201/204/400/404.

  The controller keeps the invariant that every stored title is valid.
- **The frontend**. `client_task.dfy` holds the task as the browser sees it: every field
  may be missing, and enums arrive as strings.
  - `task_list.dfy` models the list filter and the empty-state choice.
  - `task_item.dfy` models the status toggle and the badge class names.
  - `app.dfy` models the status counters and the page state that the filter and form
    handlers update.

Time is a natural-number clock reading `now`, passed to every operation that stamps a
row. Operations require that no stored `updatedAt` lies after `now`.

## Model

| member | source | states |
|---|---|---|
| TaskModel.EnumsAreExactly | task-manager/backend/src/main/java/com/taskmanager/model/Task.java:68-79 | each enumeration has exactly its declared constants, and distinct constants have distinct names |
| TaskModel.ConstructionDefaults | task-manager/backend/src/main/java/com/taskmanager/model/Task.java:30-87 | a new task has priority MEDIUM, category PERSONAL, status PENDING, is not deleted, and has no id, parent or timestamps; the two-argument constructor sets only title and description |
| TaskModel.TrimEmptyIffBlank | task-manager/backend/src/main/java/com/taskmanager/model/Task.java:18 | `trim()` leaves nothing exactly when every character is at or below U+0020 |
| TaskModel.ValidTitleIff | task-manager/backend/src/main/java/com/taskmanager/model/Task.java:18-21 | a title is accepted iff it is present, at most 200 characters long, and holds a character above U+0020 |
| TaskModel.TitleBoundaries | task-manager/backend/src/main/java/com/taskmanager/model/Task.java:18-19 | 200 characters are accepted; 201 characters, the empty string, spaces only and null are rejected |
| TaskModel.CallbacksKeepStamped | task-manager/backend/src/main/java/com/taskmanager/model/Task.java:57-66 | `onCreate` sets both timestamps to the clock reading `now` of the save; `onUpdate` sets `updatedAt` to `now`, keeps `createdAt`, keeps `createdAt <= updatedAt` on a clock that does not go back, and touches no other field |
| TaskRepository.FindById | task-manager/backend/src/main/java/com/taskmanager/service/TaskService.java:23 | present iff the id is stored, and then it is the stored row, deleted or not |
| TaskRepository.FindLiveNewestFirst | task-manager/backend/src/main/java/com/taskmanager/repository/TaskRepository.java:15 | exactly the stored rows not soft-deleted, each once, newest `createdAt` first |
| TaskRepository.FindByStatus | task-manager/backend/src/main/java/com/taskmanager/repository/TaskRepository.java:17 | exactly the live rows with that status, each once |
| TaskRepository.FindByCategory | task-manager/backend/src/main/java/com/taskmanager/repository/TaskRepository.java:19 | exactly the live rows with that category, each once |
| TaskRepository.FindByParent | task-manager/backend/src/main/java/com/taskmanager/repository/TaskRepository.java:21 | exactly the live rows whose parent id is the given id, each once; whether that parent exists is not checked |
| TaskRepository.FindRootsNewestFirst | task-manager/backend/src/main/java/com/taskmanager/repository/TaskRepository.java:23 | exactly the live rows without a parent, each once, newest `createdAt` first |
| TaskRepository.FindDeletedRecentFirst | task-manager/backend/src/main/java/com/taskmanager/repository/TaskRepository.java:25 | exactly the soft-deleted rows, each once, most recent `updatedAt` first |
| TaskRepository.SearchTasks | task-manager/backend/src/main/java/com/taskmanager/repository/TaskRepository.java:27-30 | exactly the live rows whose present title or present description contains the keyword, ignoring case; each once |
| TaskRepository.FindByDateRange | task-manager/backend/src/main/java/com/taskmanager/repository/TaskRepository.java:32-33 | exactly the live rows with a due date between the two bounds inclusive; a null due date or a null bound matches nothing |
| TaskRepository.PersistSpec | task-manager/backend/src/main/java/com/taskmanager/service/TaskService.java:26-28 | create hands out an id no row has, adds exactly that one row (the body with that id and both timestamps set to `now`), and keeps the store valid |
| TaskRepository.MergeSpec | task-manager/backend/src/main/java/com/taskmanager/model/Task.java:49-66 | saving a stored entity changes only its own row: id and `createdAt` are kept, every other field is written, `updatedAt` becomes `now` exactly when some column changed, and an unchanged entity leaves the store as it was |
| TaskRepository.SearchIgnoresKeywordCase | task-manager/backend/src/main/java/com/taskmanager/repository/TaskRepository.java:27-29 | searching for a keyword and for its lower-cased form gives the same list |
| TaskRepository.LiveRootInItsLists | task-manager/backend/src/main/java/com/taskmanager/repository/TaskRepository.java:15-25 | a listed root task is in the list of its own status and category, in the live list, in no other status list, and not in the deleted list |
| TaskService.UpdateSpec | task-manager/backend/src/main/java/com/taskmanager/service/TaskService.java:30-43 | an unknown id gives null and no change; a known id gets the six copied fields from the body and keeps id, `createdAt`, parent and deleted flag; no other row changes |
| TaskService.DeleteSpec | task-manager/backend/src/main/java/com/taskmanager/service/TaskService.java:45-54 | answers true iff the id is stored; only that row changes: it becomes deleted, with `updatedAt` refreshed if it was live |
| TaskService.DeleteIdempotent | task-manager/backend/src/main/java/com/taskmanager/service/TaskService.java:45-54 | a second delete of the same id answers the same and changes nothing |
| TaskService.RestoreSpec | task-manager/backend/src/main/java/com/taskmanager/service/TaskService.java:56-64 | an unknown id gives null and no change; a known id returns its row live again, with `updatedAt` refreshed if it was deleted; no other row changes |
| TaskService.NoOperationShrinksIds | task-manager/backend/src/main/java/com/taskmanager/service/TaskService.java:26-64 | no operation erases a row: create adds exactly one id, the sequence's next value, which no row had before; update, delete and restore keep the set of ids |
| TaskService.DeleteHides | task-manager/backend/src/main/java/com/taskmanager/service/TaskService.java:45-54 | a deleted row is still found by id and is in the deleted list, and it leaves the root, live, status, category, subtask and search lists |
| TaskService.RestoreRevives | task-manager/backend/src/main/java/com/taskmanager/service/TaskService.java:56-64 | a restored row is live with `updatedAt = now`; it is back in its status and category lists (and in the root list if it has no parent) and out of the deleted list |
| TaskService.DeleteThenRestore | task-manager/backend/src/main/java/com/taskmanager/service/TaskService.java:45-64 | delete followed by restore gives back a listed root task, changed only in `updatedAt` and again in the root list |
| TaskService.FirstChild | task-manager/backend/src/main/java/com/taskmanager/service/TaskService.java:78-80 | saving a live task under a parent with no live subtasks (soft-deleted ones do not count) makes it that parent's only subtask |
| TaskService.OnlyChildDeleted | task-manager/backend/src/main/java/com/taskmanager/service/TaskService.java:78-80 | soft-deleting a parent's only subtask leaves the parent with no subtasks |
| TaskService.SubtaskScenario | task-manager/backend/src/main/java/com/taskmanager/service/TaskService.java:78-80 | after creating A and then B under A, the subtasks of A are exactly [B]; after B is deleted, they are []; this holds when no live task already names A's future id as its parent |
| TaskService.TaskService.GetAllTasks | task-manager/backend/src/main/java/com/taskmanager/service/TaskService.java:18-20 | returns the root listing |
| TaskService.TaskService.GetTaskById | task-manager/backend/src/main/java/com/taskmanager/service/TaskService.java:22-24 | present iff the id is stored, and then it is that row |
| TaskService.TaskService.CreateTask | task-manager/backend/src/main/java/com/taskmanager/service/TaskService.java:26-28 | the new store and the returned row are those of `Persist`; the store stays valid |
| TaskService.TaskService.UpdateTask | task-manager/backend/src/main/java/com/taskmanager/service/TaskService.java:30-43 | fetching the row, setting the six fields one by one and saving gives exactly `Updated` |
| TaskService.TaskService.DeleteTask | task-manager/backend/src/main/java/com/taskmanager/service/TaskService.java:45-54 | fetching, flagging and saving gives exactly `Deleted` |
| TaskService.TaskService.RestoreTask | task-manager/backend/src/main/java/com/taskmanager/service/TaskService.java:56-64 | fetching, clearing the flag and saving gives exactly `Restored` |
| TaskService.TaskService.GetTasksByStatus | task-manager/backend/src/main/java/com/taskmanager/service/TaskService.java:66-68 | exactly the live rows with that status, each once |
| TaskService.TaskService.GetTasksByCategory | task-manager/backend/src/main/java/com/taskmanager/service/TaskService.java:70-72 | exactly the live rows with that category, each once |
| TaskService.TaskService.SearchTasks | task-manager/backend/src/main/java/com/taskmanager/service/TaskService.java:74-76 | returns the repository search |
| TaskService.TaskService.GetSubTasks | task-manager/backend/src/main/java/com/taskmanager/service/TaskService.java:78-80 | returns the live children of the id |
| TaskService.TaskService.GetDeletedTasks | task-manager/backend/src/main/java/com/taskmanager/service/TaskService.java:82-84 | returns the deleted listing |
| TaskService.TaskService.GetTasksByDateRange | task-manager/backend/src/main/java/com/taskmanager/service/TaskService.java:86-88 | returns the date-range query |
| TaskController.ParseStatusIff | task-manager/backend/src/main/java/com/taskmanager/controller/TaskController.java:74 | a segment parses to a status iff its upper-cased form is that status's name; otherwise the parse fails |
| TaskController.ParseCategoryIff | task-manager/backend/src/main/java/com/taskmanager/controller/TaskController.java:85 | a segment parses to a category iff its upper-cased form is that category's name; otherwise the parse fails |
| TaskController.ParseIgnoresCase | task-manager/backend/src/main/java/com/taskmanager/controller/TaskController.java:74 | parsing ignores case: every constant is found from its name and from its lower-cased name |
| TaskController.ParseAcceptsExamples | task-manager/backend/src/main/java/com/taskmanager/controller/TaskController.java:71-91 | "pending", "In_Progress" and "work" parse to PENDING, IN_PROGRESS and WORK |
| TaskController.ParseRefusesExamples | task-manager/backend/src/main/java/com/taskmanager/controller/TaskController.java:71-91 | "bogus" and "IN PROGRESS" name no status and "bogus" names no category |
| TaskController.ValidatedWritesKeepTitlesValid | task-manager/backend/src/main/java/com/taskmanager/controller/TaskController.java:38-51 | create and update with a valid body keep every stored title valid |
| TaskController.SoftDeleteKeepsTitlesValid | task-manager/backend/src/main/java/com/taskmanager/controller/TaskController.java:53-69 | delete and restore keep every stored title valid |
| TaskController.TaskController.GetAllTasks | task-manager/backend/src/main/java/com/taskmanager/controller/TaskController.java:25-29 | 200 with the root listing |
| TaskController.TaskController.GetTaskById | task-manager/backend/src/main/java/com/taskmanager/controller/TaskController.java:31-36 | 200 with the row iff the id is stored, else 404 with no body |
| TaskController.TaskController.CreateTask | task-manager/backend/src/main/java/com/taskmanager/controller/TaskController.java:38-42 | an invalid title gives 400 and the store is unchanged; otherwise 201 with the row `Persist` creates |
| TaskController.TaskController.UpdateTask | task-manager/backend/src/main/java/com/taskmanager/controller/TaskController.java:44-51 | an invalid title gives 400 and no change, even for an unknown id; otherwise 404 iff the service answers null, else 200 with the updated row |
| TaskController.TaskController.DeleteTask | task-manager/backend/src/main/java/com/taskmanager/controller/TaskController.java:53-60 | 204 iff the service deleted the row, else 404; never a body |
| TaskController.TaskController.RestoreTask | task-manager/backend/src/main/java/com/taskmanager/controller/TaskController.java:62-69 | 200 with the restored row, or 404 when the service answers null |
| TaskController.TaskController.GetTasksByStatus | task-manager/backend/src/main/java/com/taskmanager/controller/TaskController.java:71-80 | 400 with no body when the segment names no status; otherwise 200 with exactly the live rows of that status |
| TaskController.TaskController.GetTasksByCategory | task-manager/backend/src/main/java/com/taskmanager/controller/TaskController.java:82-91 | 400 with no body when the segment names no category; otherwise 200 with exactly the live rows of that category |
| TaskController.TaskController.SearchTasks | task-manager/backend/src/main/java/com/taskmanager/controller/TaskController.java:93-97 | always 200 with the search result |
| TaskController.TaskController.GetSubTasks | task-manager/backend/src/main/java/com/taskmanager/controller/TaskController.java:99-103 | always 200 with the live children, also for an unknown id |
| TaskController.TaskController.GetDeletedTasks | task-manager/backend/src/main/java/com/taskmanager/controller/TaskController.java:105-109 | always 200 with the deleted listing |
| ClientTasks.LowerOr | out/production/Capital_ToDoListApp/src/components/TaskItem.js:33 | the optional-chained `toLowerCase` with a fallback gives the lower-cased value when it is present and non-empty, otherwise the fallback |
| Text.ContainsIffOccurs | task-manager/frontend/src/components/TaskList.js:52-53 | the substring test used by `includes` holds iff the term occurs at some offset of the text |
| TaskList.FilteredTasks | task-manager/frontend/src/components/TaskList.js:44-75 | a task is shown iff it is in the list and has no truthy parent id, its title or description contains the search term ignoring case (when a term is given), and its status, category and priority equal the non-empty filters |
| TaskList.FilterPreservesOrder | task-manager/frontend/src/components/TaskList.js:44 | the shown list is the passing tasks in their original order: position by position, the tasks at a strictly increasing run of indices, and that run holds exactly the passing indices |
| TaskList.MainTasks | task-manager/frontend/src/components/TaskList.js:46 | the tasks without a truthy parent id |
| TaskList.NoFiltersShowsMainTasks | task-manager/frontend/src/components/TaskList.js:44-75 | with all four filters empty, the shown list is exactly the main tasks, in order |
| TaskList.SearchIgnoresTermCase | task-manager/frontend/src/components/TaskList.js:49-57 | typing the search term lower-cased shows the same list |
| TaskList.ClearingFiltersWidens | task-manager/frontend/src/components/TaskList.js:44-75 | every task shown under some filters is also shown with no filters, and that list is no shorter |
| TaskList.Render | task-manager/frontend/src/components/TaskList.js:77-88 | "none created" iff there are no tasks; "no match" iff there are tasks but none passes; otherwise the cards of the filtered list |
| TaskList.OnlySubtasksShowNoneMatch | task-manager/frontend/src/components/TaskList.js:77-88 | a list holding only a subtask shows the "no match" message even with no filters |
| TaskItem.ToggledStatus | out/production/Capital_ToDoListApp/src/components/TaskItem.js:45 | PENDING iff the status was COMPLETED; COMPLETED for every other status, including a missing one |
| TaskItem.HandleStatusToggle | out/production/Capital_ToDoListApp/src/components/TaskItem.js:44-47 | the callback gets the task's own id and a copy of the task that differs only in its status, which is the toggled one |
| TaskItem.ToggleTwice | out/production/Capital_ToDoListApp/src/components/TaskItem.js:45 | toggling twice is the identity on PENDING and COMPLETED; any other status comes back PENDING |
| TaskItem.FirstIndex | out/production/Capital_ToDoListApp/src/components/TaskItem.js:37 | the position `replace` looks at is the first occurrence of the character, or the end of the string when there is none |
| TaskItem.ReplaceFirst | out/production/Capital_ToDoListApp/src/components/TaskItem.js:37 | `replace` with a character pattern changes only the first occurrence, and nothing else |
| TaskItem.ReplaceFirstAbsent | out/production/Capital_ToDoListApp/src/components/TaskItem.js:37 | a string without the character comes back unchanged |
| TaskItem.ReplaceFirstSplit | out/production/Capital_ToDoListApp/src/components/TaskItem.js:37 | in `a` + [c] + `b` with no `c` in `a`, only that `c` is replaced and `b` is kept as it is, even if it holds more `c`s |
| TaskItem.PriorityClass | out/production/Capital_ToDoListApp/src/components/TaskItem.js:32-34 | a non-empty priority gives "task-badge priority-" plus the lower-cased priority; a missing or empty one gives "task-badge priority-medium" |
| TaskItem.StatusClass | out/production/Capital_ToDoListApp/src/components/TaskItem.js:36-38 | a non-empty status gives "task-badge status-" plus the lower-cased status with its first `_` replaced by `-`; a missing or empty one gives "task-badge status-pending" |
| TaskItem.CategoryClass | out/production/Capital_ToDoListApp/src/components/TaskItem.js:40-42 | a non-empty category gives "task-badge category-" plus the lower-cased category; a missing or empty one gives "task-badge category-personal" |
| TaskItem.PriorityBadgeDefault | out/production/Capital_ToDoListApp/src/components/TaskItem.js:32-34 | a missing or empty priority gets the same badge as MEDIUM, the priority of a new backend task |
| TaskItem.CategoryBadgeDefault | out/production/Capital_ToDoListApp/src/components/TaskItem.js:40-42 | a missing or empty category gets the same badge as PERSONAL, the category of a new backend task |
| TaskItem.StatusBadgeDefault | out/production/Capital_ToDoListApp/src/components/TaskItem.js:36-38 | a missing or empty status gets the same badge as PENDING, the status of a new backend task |
| TaskItem.StatusClassPlain | out/production/Capital_ToDoListApp/src/components/TaskItem.js:36-38 | a non-empty status whose lower-cased form has no underscore gets "task-badge status-" plus that lower-cased form |
| TaskItem.StatusClassSplit | out/production/Capital_ToDoListApp/src/components/TaskItem.js:37 | when the lower-cased status is `a` + "_" + `b` with no underscore in `a`, the badge is "task-badge status-" + `a` + "-" + `b` |
| TaskItem.PendingClass | out/production/Capital_ToDoListApp/src/components/TaskItem.js:36-38 | a status that lower-cases to "pending" gets "task-badge status-pending" |
| TaskItem.InProgressClass | out/production/Capital_ToDoListApp/src/components/TaskItem.js:36-38 | IN_PROGRESS gets "task-badge status-in-progress" |
| TaskItem.TwoUnderscoreClass | out/production/Capital_ToDoListApp/src/components/TaskItem.js:37 | only the first underscore becomes a hyphen: "A_B_C" gives "status-a-b_c" |
| TaskItem.BadgesOfBackendNames | out/production/Capital_ToDoListApp/src/components/TaskItem.js:32-42 | each backend priority and category gets the badge named after its lower-cased constant |
| App.CountStatus | task-manager/frontend/src/App.js:160-162 | the count is the number of occurrences of that exact status in the list of the tasks' statuses; it is at most the length, zero iff no task has it, the full length iff every task has it |
| App.CountStatusAppend | task-manager/frontend/src/App.js:160-162 | counting over two lists put together is the sum of the two counts |
| App.GetTaskStats | task-manager/frontend/src/App.js:158-165 | `total` is the number of tasks, and `completed`, `pending` and `inProgress` are the counts of tasks whose status is exactly COMPLETED, PENDING and IN_PROGRESS, each at most `total` |
| App.StatsPartition | task-manager/frontend/src/App.js:159-162 | the three counters add up to at most `total`, and to exactly `total` when every status is one of the three names |
| App.AppState.constructor | task-manager/frontend/src/App.js:9-23 | no tasks (so all four counters are 0), form closed, nothing being edited, no parent, empty filters, no messages |
| App.AppState.ClearFilters | task-manager/frontend/src/App.js:151-156 | all four filters become empty and nothing else changes; the list then shows exactly the main tasks |
| App.AppState.HandleEditTask | task-manager/frontend/src/App.js:133-137 | the task is being edited, the form is open and there is no parent; nothing else changes |
| App.AppState.HandleAddSubtask | task-manager/frontend/src/App.js:139-143 | the parent is set, nothing is being edited and the form is open; nothing else changes |
| App.AppState.HandleCancelForm | task-manager/frontend/src/App.js:145-149 | the form is closed and both the edited task and the parent are cleared; nothing else changes |
| App.AppState.HandleCreateTask | task-manager/frontend/src/App.js:65-81 | the payload is the form data with the parent id from the state. On success: the subtask or task message, form closed, parent cleared. On failure: only the error message |

## Left out

- HTTP transport, JSON (de)serialization and Spring wiring are left out. A JSON `null` for
  an enum or for `isDeleted` is not modelled: in the model those fields always have a
  value.
- `save` of a body that carries a client-supplied id merges into an existing row in JPA.
  Here create always takes a fresh id from the sequence.
- The `subTasks` collection, its cascade and lazy loading are left out. Children exist
  only through the subtask query on `parentTaskId`.
- Bean validation that JPA runs again at flush time is not modelled. Only the `@Valid`
  check on request bodies is modelled. Messages and the remaining column constraints
  (`nullable`, `@Lob`) are left out.
- The order of rows among equal timestamps is not promised. The five unordered queries
  (status, category, parent, keyword search and due-date range) promise only their
  members. A database gives no order there either.
- Ids, dates and timestamps are unbounded integers: the 64-bit `Long` range of the id
  sequence is not modelled. Due dates are day numbers and timestamps are clock readings.
  Reading the wall clock (`new Date()`) is replaced by the `now` parameter.
- Case folding covers ASCII letters only, for Java `toUpperCase`/`toLowerCase`, SQL
  `LOWER` and JavaScript `toLowerCase`. Locale rules and non-ASCII case mappings are
  left out.
- String length counts Dafny characters, not UTF-16 code units.
- `%` and `_` inside a search keyword are `LIKE` wildcards in SQL. The model matches
  them literally, so it holds for keywords free of them.
- `TaskService.getTasksByDateRange` has no endpoint in the controller, so it is modelled
  only in the service and the repository.
- TaskService.TaskService.GetTasksByStatus and TaskService.TaskService.GetTasksByCategory
  promise their members and no duplicates, but no order.
- In the frontend, effects and requests are left out: `fetchTasks`, `fetchDeletedTasks`,
  the per-task subtask fetch in `TaskList.js` and the reload after create. The update,
  delete, restore and toggle handlers of `App.js` lie outside the modelled core. On
  success `handleUpdateTask` also clears the edited task and closes the form, and
  `handleDeleteTask` first asks `window.confirm`; all four issue a request, set a banner
  and reload the lists.
- The 3-second banner timer, `window.confirm`, JSX markup and the `showSubtasks` UI toggle
  are left out. So are `isOverdue` and `formatDate`, which read the wall clock and use
  date-fns.
- TaskModel.CallbacksKeepStamped: `onCreate` reads the clock twice, so the source only
  promises `createdAt <= updatedAt`; the model reads the clock once per save, so both
  timestamps of a new row are the same `now`.
- TaskRepository.PersistSpec: for the same reason its `createdAt == updatedAt == now` rests
  on one clock reading per save, where two readings may fall on either side of a tick.
- ClientTasks.ClientTask keeps only the fields the modelled frontend code reads. The
  backend's JSON also carries `isDeleted`, `createdAt`, `updatedAt` and `subTasks`, which
  the spread in the status toggle copies along unchanged.
- App.AppState.HandleCreateTask: the outcome of the create request is a parameter
  (`accepted`).
- JavaScript values are modelled as options of strings and integers. A field of another
  type, and `NaN` as an id, are not modelled.
- `FilterBar.js` (only input wiring) and the static `App.tsx` are not part of this model.

## When `updatedAt` changes

Every write goes through JPA, and Hibernate runs `@PreUpdate` only for an entity whose
columns actually changed. So the model leaves the row untouched when a save changes nothing:
deleting an already deleted task, restoring a live one, or an update with identical
values. A refresh sets `updatedAt` to `now`, which is at least every stored timestamp.
It strictly increases only when the clock has advanced.
