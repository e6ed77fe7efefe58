/**
 * `App`: the page's state (the loaded tasks, the form and filter state, the banner
 * messages), the status counters shown above the list, and the handlers that open,
 * close and submit the task form or reset the filters.
 */
module App {
  import opened Options
  import opened ClientTasks
  import opened TaskList

  /** The statuses of the tasks, position by position. */
  function Statuses(tasks: seq<ClientTask>): seq<Option<string>>
  {
    seq(|tasks|, i requires 0 <= i < |tasks| => tasks[i].status)
  }

  /** The number of tasks whose status is exactly `name` (`tasks.filter(t => t.status === name).length`). */
  function CountStatus(tasks: seq<ClientTask>, name: string): (n: nat)
    ensures n == multiset(Statuses(tasks))[Some(name)]
    ensures n <= |tasks|
    ensures n == 0 <==> forall i | 0 <= i < |tasks| :: tasks[i].status != Some(name)
    ensures n == |tasks| <==> forall i | 0 <= i < |tasks| :: tasks[i].status == Some(name)
  {
    if tasks == [] then 0
    else
      var rest := CountStatus(tasks[1..], name);
      assert forall i | 1 <= i < |tasks| :: tasks[i] == tasks[1..][i - 1];
      assert Statuses(tasks) == [tasks[0].status] + Statuses(tasks[1..]);
      (if tasks[0].status == Some(name) then 1 else 0) + rest
  }

  /** Counting a concatenation counts each part. */
  lemma {:induction false} CountStatusAppend(a: seq<ClientTask>, b: seq<ClientTask>, name: string)
    ensures CountStatus(a + b, name) == CountStatus(a, name) + CountStatus(b, name)
  {
    if a != [] {
      assert (a + b)[0] == a[0] && (a + b)[1..] == a[1..] + b;
      CountStatusAppend(a[1..], b, name);
    } else {
      assert a + b == b;
    }
  }

  datatype TaskStats = TaskStats(total: nat, completed: nat, pending: nat, inProgress: nat)

  /** `getTaskStats`. */
  function GetTaskStats(tasks: seq<ClientTask>): (s: TaskStats)
    ensures s.total == |tasks|
    ensures s.completed == CountStatus(tasks, CompletedName)
    ensures s.pending == CountStatus(tasks, PendingName)
    ensures s.inProgress == CountStatus(tasks, InProgressName)
    ensures s.completed <= s.total && s.pending <= s.total && s.inProgress <= s.total
  {
    TaskStats(|tasks|, CountStatus(tasks, CompletedName), CountStatus(tasks, PendingName),
      CountStatus(tasks, InProgressName))
  }

  /** The status is one of the three names the backend sends. */
  predicate KnownStatus(t: ClientTask)
  {
    t.status == Some(PendingName) || t.status == Some(InProgressName) || t.status == Some(CompletedName)
  }

  /**
   * The three counters never add up to more than the total, and add up to exactly the
   * total when every task carries one of the three status names.
   */
  lemma {:induction false} StatsPartition(tasks: seq<ClientTask>)
    ensures var s := GetTaskStats(tasks);
      && s.completed + s.pending + s.inProgress <= s.total
      && ((forall t | t in tasks :: KnownStatus(t)) ==> s.completed + s.pending + s.inProgress == s.total)
  {
    if tasks != [] {
      assert tasks[0] in tasks;
      forall t | t in tasks[1..] ensures t in tasks { }
      StatsPartition(tasks[1..]);
    }
  }

  /** The state variables of the `App` component that the form and filter handlers touch. */
  class AppState {
    var tasks: seq<ClientTask>
    var showForm: bool
    var editingTask: Option<ClientTask>
    var parentTaskId: Option<int>
    var searchTerm: string
    var statusFilter: string
    var categoryFilter: string
    var priorityFilter: string
    var success: Option<string>
    var error: Option<string>

    /** The `useState` initial values. */
    constructor ()
      ensures tasks == [] && !showForm && editingTask.None? && parentTaskId.None?
      ensures Filters() == NoFilters
      ensures success.None? && error.None?
      ensures Stats() == TaskStats(0, 0, 0, 0)
    {
      tasks := [];
      showForm := false;
      editingTask := None;
      parentTaskId := None;
      searchTerm := "";
      statusFilter := "";
      categoryFilter := "";
      priorityFilter := "";
      success := None;
      error := None;
    }

    /** The filter props handed to the task list. */
    function Filters(): Filters
      reads this
    {
      TaskList.Filters(searchTerm, statusFilter, categoryFilter, priorityFilter)
    }

    /** The counters shown above the list. */
    function Stats(): TaskStats
      reads this
    {
      GetTaskStats(tasks)
    }

    /** `clearFilters`: all four filters back to `""`, nothing else touched. */
    method ClearFilters()
      modifies this
      ensures Filters() == NoFilters
      ensures tasks == old(tasks) && showForm == old(showForm) && editingTask == old(editingTask)
      ensures parentTaskId == old(parentTaskId) && success == old(success) && error == old(error)
      ensures FilteredTasks(tasks, Filters()) == MainTasks(tasks)
    {
      NoFiltersShowsMainTasks(tasks);
      searchTerm := "";
      statusFilter := "";
      categoryFilter := "";
      priorityFilter := "";
    }

    /** `handleEditTask`: open the form on `task`, not as a subtask. */
    method HandleEditTask(task: ClientTask)
      modifies this
      ensures editingTask == Some(task) && showForm && parentTaskId.None?
      ensures tasks == old(tasks) && Filters() == old(Filters())
      ensures success == old(success) && error == old(error)
    {
      editingTask := Some(task);
      showForm := true;
      parentTaskId := None;
    }

    /** `handleAddSubtask`: open an empty form for a subtask of `parentId`. */
    method HandleAddSubtask(parentId: Option<int>)
      modifies this
      ensures parentTaskId == parentId && editingTask.None? && showForm
      ensures tasks == old(tasks) && Filters() == old(Filters())
      ensures success == old(success) && error == old(error)
    {
      parentTaskId := parentId;
      editingTask := None;
      showForm := true;
    }

    /** `handleCancelForm`: close the form and forget what it was opened for. */
    method HandleCancelForm()
      modifies this
      ensures !showForm && editingTask.None? && parentTaskId.None?
      ensures tasks == old(tasks) && Filters() == old(Filters())
      ensures success == old(success) && error == old(error)
    {
      showForm := false;
      editingTask := None;
      parentTaskId := None;
    }

    /**
     * `handleCreateTask`: the payload sent to the backend is the form data with
     * `parentTaskId` taken from the state. `accepted` is the outcome of the request; on
     * success the form closes and the parent id is cleared, on failure only the error
     * banner is set. Reloading the list afterwards is a request of its own.
     */
    method HandleCreateTask(taskData: ClientTask, accepted: bool) returns (payload: ClientTask)
      modifies this
      ensures payload == taskData.(parentTaskId := old(parentTaskId))
      ensures accepted ==>
        && success == Some(if TruthyId(old(parentTaskId)) then "Subtask created successfully!"
                           else "Task created successfully!")
        && !showForm && parentTaskId.None?
        && error == old(error) && editingTask == old(editingTask)
      ensures !accepted ==>
        && error == Some("Failed to create task. Please try again.")
        && showForm == old(showForm) && parentTaskId == old(parentTaskId)
        && success == old(success) && editingTask == old(editingTask)
      ensures tasks == old(tasks) && Filters() == old(Filters())
    {
      payload := taskData.(parentTaskId := parentTaskId);
      if accepted {
        success := Some(if TruthyId(parentTaskId) then "Subtask created successfully!" else "Task created successfully!");
        showForm := false;
        parentTaskId := None;
      } else {
        error := Some("Failed to create task. Please try again.");
      }
    }
  }
}
