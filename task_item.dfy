/**
 * `TaskItem`: the status toggle button and the CSS class names of a task's badges.
 */
module TaskItem {
  import opened Options
  import opened Text
  import opened ClientTasks
  import TaskModel

  /** The status the toggle asks for: COMPLETED goes back to PENDING, anything else to COMPLETED. */
  function ToggledStatus(status: Option<string>): (s: string)
    ensures s == PendingName <==> status == Some(CompletedName)
    ensures s == CompletedName <==> status != Some(CompletedName)
  {
    if status == Some(CompletedName) then PendingName else CompletedName
  }

  /** `handleStatusToggle`: the id and the task object handed to `onToggleStatus`. */
  function HandleStatusToggle(task: ClientTask): (call: (Option<int>, ClientTask))
    ensures call.0 == task.id
    ensures call.1.(status := task.status) == task
    ensures call.1.status == Some(ToggledStatus(task.status))
  {
    (task.id, task.(status := Some(ToggledStatus(task.status))))
  }

  /**
   * Toggling twice gives back a PENDING or COMPLETED task unchanged, but an IN_PROGRESS task
   * (or one without a status) comes back PENDING.
   */
  lemma ToggleTwice(task: ClientTask)
    ensures var twice := HandleStatusToggle(HandleStatusToggle(task).1).1;
      && (task.status == Some(PendingName) || task.status == Some(CompletedName) ==> twice == task)
      && (task.status != Some(PendingName) && task.status != Some(CompletedName) ==>
            twice == task.(status := Some(PendingName)) && twice != task)
  {
  }

  /** The index of the first `c` in `s`, or `|s|` when there is none. */
  function FirstIndex(s: string, c: char): (k: nat)
    ensures k <= |s|
    ensures k < |s| ==> s[k] == c
    ensures forall j | 0 <= j < k :: s[j] != c
  {
    if s == [] || s[0] == c then 0 else 1 + FirstIndex(s[1..], c)
  }

  /** `String.replace` with a one-character pattern: only the first occurrence is replaced. */
  function ReplaceFirst(s: string, from: char, to: char): (r: string)
    ensures var k := FirstIndex(s, from);
      r == if k == |s| then s else s[..k] + [to] + s[k + 1..]
  {
    if s == [] then []
    else if s[0] == from then [to] + s[1..]
    else
      var t := s[1..];
      var rest := ReplaceFirst(t, from, to);
      var k := FirstIndex(t, from);
      assert s == [s[0]] + t;
      if k < |t| then
        SpliceCons(s[0], t, k, to);
        [s[0]] + rest
      else
        [s[0]] + rest
  }

  /** Replacing at position `k` of `t` and then prepending `c` is replacing at position `k + 1`. */
  lemma SpliceCons(c: char, t: string, k: nat, to: char)
    requires k < |t|
    ensures [c] + (t[..k] + [to] + t[k + 1..]) == ([c] + t)[..k + 1] + [to] + ([c] + t)[k + 2..]
  {
    assert ([c] + t)[..k + 1] == [c] + t[..k];
    assert ([c] + t)[k + 2..] == t[k + 1..];
  }

  /** Without the character to replace, nothing changes. */
  lemma ReplaceFirstAbsent(s: string, from: char, to: char)
    requires from !in s
    ensures ReplaceFirst(s, from, to) == s
  {
  }

  /** Only the first occurrence is replaced: whatever follows it is kept as it is. */
  lemma {:induction false} ReplaceFirstSplit(a: string, b: string, from: char, to: char)
    requires from !in a
    ensures ReplaceFirst(a + [from] + b, from, to) == a + [to] + b
  {
    var s := a + [from] + b;
    var k := FirstIndex(s, from);
    assert s[|a|] == from;
    assert k == |a|;
    assert s[..k] == a && s[k + 1..] == b;
  }

  /** `getPriorityClass`. */
  function PriorityClass(priority: Option<string>): (c: string)
    ensures TruthyString(priority) ==> c == "task-badge priority-" + ToLower(priority.value)
    ensures !TruthyString(priority) ==> c == "task-badge priority-medium"
  {
    "task-badge priority-" + LowerOr(priority, "medium")
  }

  /** `getStatusClass`: lower-cased, its first `_` turned into `-`. */
  function StatusClass(status: Option<string>): (c: string)
    ensures TruthyString(status) ==> c == "task-badge status-" + ReplaceFirst(ToLower(status.value), '_', '-')
    ensures !TruthyString(status) ==> c == "task-badge status-pending"
  {
    if status.Some? && ReplaceFirst(ToLower(status.value), '_', '-') != "" then
      "task-badge status-" + ReplaceFirst(ToLower(status.value), '_', '-')
    else "task-badge status-pending"
  }

  /** `getCategoryClass`. */
  function CategoryClass(category: Option<string>): (c: string)
    ensures TruthyString(category) ==> c == "task-badge category-" + ToLower(category.value)
    ensures !TruthyString(category) ==> c == "task-badge category-personal"
  {
    "task-badge category-" + LowerOr(category, "personal")
  }

  /** A missing or empty priority gets the badge of MEDIUM, the priority of a new backend task. */
  lemma PriorityBadgeDefault()
    ensures PriorityClass(None) == PriorityClass(Some("")) == PriorityClass(Some(TaskModel.NewTask().priority.Name()))
  {
    assert ToLower("MEDIUM") == "medium";
  }

  /** A missing or empty category gets the badge of PERSONAL, the category of a new backend task. */
  lemma CategoryBadgeDefault()
    ensures CategoryClass(None) == CategoryClass(Some("")) == CategoryClass(Some(TaskModel.NewTask().category.Name()))
  {
    assert ToLower("PERSONAL") == "personal";
  }

  /** The status badge of a name whose lower-cased form has its first underscore between `a` and `b`. */
  lemma StatusClassSplit(name: string, a: string, b: string)
    requires ToLower(name) == a + ['_'] + b && '_' !in a
    ensures StatusClass(Some(name)) == "task-badge status-" + a + ['-'] + b
  {
    var low := ToLower(name);
    assert |low| == |name| > 0;
    ReplaceFirstSplit(a, b, '_', '-');
    assert ReplaceFirst(low, '_', '-') == a + ['-'] + b;
    assert "task-badge status-" + (a + ['-'] + b) == "task-badge status-" + a + ['-'] + b;
  }

  /** The status badge of a name whose lower-cased form has no underscore. */
  lemma StatusClassPlain(name: string)
    requires name != "" && '_' !in ToLower(name)
    ensures StatusClass(Some(name)) == "task-badge status-" + ToLower(name)
  {
    ReplaceFirstAbsent(ToLower(name), '_', '-');
  }

  /** The badge of a name that lower-cases to `pending`. */
  lemma PendingClass(name: string)
    requires ToLower(name) == "pending"
    ensures StatusClass(Some(name)) == "task-badge status-pending"
  {
    assert "pending" != "" && '_' !in "pending";
    StatusClassPlain(name);
  }

  /** A missing or empty status gets the badge of PENDING, the status of a new backend task. */
  lemma StatusBadgeDefault()
    ensures StatusClass(None) == StatusClass(Some("")) == StatusClass(Some(TaskModel.NewTask().status.Name()))
  {
    var name := TaskModel.Status.Pending.Name();
    assert TaskModel.NewTask().status == TaskModel.Status.Pending;
    assert ToLower(name) == "pending";
    PendingClass(name);
  }

  /** IN_PROGRESS, the one backend status with an underscore, gets a hyphen in its badge. */
  lemma InProgressClass()
    ensures StatusClass(Some(TaskModel.Status.InProgress.Name())) == "task-badge status-in-progress"
  {
    var name := TaskModel.Status.InProgress.Name();
    assert "task-badge status-" + "in" + ['-'] + "progress" == "task-badge status-in-progress";
    assert ToLower(name) == "in" + ['_'] + "progress";
    StatusClassSplit(name, "in", "progress");
  }

  /** Only the first underscore becomes a hyphen: a name with two keeps its second. */
  lemma TwoUnderscoreClass()
    ensures StatusClass(Some("A_B_C")) == "task-badge status-a-b_c"
  {
    assert "task-badge status-" + "a" + ['-'] + "b_c" == "task-badge status-a-b_c";
    assert ToLower("A_B_C") == "a" + ['_'] + "b_c";
    StatusClassSplit("A_B_C", "a", "b_c");
  }

  /** Every backend priority and category gets the badge named after its lower-cased constant. */
  lemma BadgesOfBackendNames(p: TaskModel.Priority, c: TaskModel.Category)
    ensures PriorityClass(Some(p.Name())) == "task-badge priority-" + ToLower(p.Name())
    ensures CategoryClass(Some(c.Name())) == "task-badge category-" + ToLower(c.Name())
  {
  }
}
