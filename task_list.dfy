/**
 * `TaskList`: the client-side filter that chooses which tasks the main list shows, and
 * the choice between the list and one of its two empty-state messages.
 */
module TaskList {
  import opened Options
  import opened Text
  import opened ClientTasks

  /** The four filter props, each a string where `""` means "no filter". */
  datatype Filters = Filters(searchTerm: string, statusFilter: string, categoryFilter: string, priorityFilter: string)

  const NoFilters: Filters := Filters("", "", "", "")

  /** The callback passed to `tasks.filter`, with its early returns in source order. */
  predicate KeepTask(task: ClientTask, f: Filters)
  {
    if TruthyId(task.parentTaskId) then false
    else if f.searchTerm != "" &&
      !IncludesLower(task.title, ToLower(f.searchTerm)) &&
      !IncludesLower(task.description, ToLower(f.searchTerm)) then false
    else if f.statusFilter != "" && task.status != Some(f.statusFilter) then false
    else if f.categoryFilter != "" && task.category != Some(f.categoryFilter) then false
    else if f.priorityFilter != "" && task.priority != Some(f.priorityFilter) then false
    else true
  }

  /** An empty filter admits everything; a non-empty one admits exactly the equal value. */
  predicate FieldMatches(filter: string, field: Option<string>)
  {
    filter == "" || field == Some(filter)
  }

  /** A non-empty search term must occur, ignoring case, in the title or the description. */
  predicate SearchMatches(term: string, task: ClientTask)
  {
    term == "" || IncludesLower(task.title, ToLower(term)) || IncludesLower(task.description, ToLower(term))
  }

  /** What the list promises of a shown task: a main task that passes every filter. */
  predicate Shown(task: ClientTask, f: Filters)
  {
    && !TruthyId(task.parentTaskId)
    && SearchMatches(f.searchTerm, task)
    && FieldMatches(f.statusFilter, task.status)
    && FieldMatches(f.categoryFilter, task.category)
    && FieldMatches(f.priorityFilter, task.priority)
  }

  /** `filteredTasks`: `tasks.filter(KeepTask)`. */
  function FilteredTasks(tasks: seq<ClientTask>, f: Filters): (r: seq<ClientTask>)
    ensures |r| <= |tasks|
    ensures forall t :: t in r <==> t in tasks && Shown(t, f)
  {
    if tasks == [] then []
    else (if KeepTask(tasks[0], f) then [tasks[0]] else []) + FilteredTasks(tasks[1..], f)
  }

  /** The positions `i..` of `tasks` whose task the filter keeps, in increasing order. */
  function KeptFrom(tasks: seq<ClientTask>, f: Filters, i: nat): seq<nat>
    requires i <= |tasks|
    decreases |tasks| - i
  {
    if i == |tasks| then []
    else (if KeepTask(tasks[i], f) then [i] else []) + KeptFrom(tasks, f, i + 1)
  }

  /** The positions of `tasks` whose task the filter keeps. */
  function KeptIndices(tasks: seq<ClientTask>, f: Filters): seq<nat>
  {
    KeptFrom(tasks, f, 0)
  }

  lemma {:induction false} KeptFromSpec(tasks: seq<ClientTask>, f: Filters, i: nat)
    requires i <= |tasks|
    decreases |tasks| - i
    ensures var idx := KeptFrom(tasks, f, i);
      var r := FilteredTasks(tasks[i..], f);
      && |idx| == |r|
      && (forall j | 0 <= j < |idx| :: i <= idx[j] < |tasks| && r[j] == tasks[idx[j]])
      && (forall j, k | 0 <= j < k < |idx| :: idx[j] < idx[k])
      && (forall m | i <= m < |tasks| :: m in idx <==> KeepTask(tasks[m], f))
  {
    if i < |tasks| {
      KeptFromSpec(tasks, f, i + 1);
      assert tasks[i..][1..] == tasks[i + 1..];
      assert tasks[i..][0] == tasks[i];
    }
  }

  /**
   * The shown list is the kept tasks in their original order: it lists, position by
   * position, the tasks at a strictly increasing run of indices of `tasks`, and that run
   * holds exactly the indices whose task passes the filter.
   */
  lemma FilterPreservesOrder(tasks: seq<ClientTask>, f: Filters)
    ensures var idx := KeptIndices(tasks, f);
      var r := FilteredTasks(tasks, f);
      && |idx| == |r|
      && (forall j | 0 <= j < |idx| :: idx[j] < |tasks| && r[j] == tasks[idx[j]])
      && (forall j, k | 0 <= j < k < |idx| :: idx[j] < idx[k])
      && (forall m | 0 <= m < |tasks| :: m in idx <==> Shown(tasks[m], f))
  {
    KeptFromSpec(tasks, f, 0);
    assert tasks[0..] == tasks;
  }

  /** The main tasks of a list, in order: those without a (truthy) parent id. */
  function MainTasks(tasks: seq<ClientTask>): (r: seq<ClientTask>)
    ensures forall t :: t in r <==> t in tasks && !TruthyId(t.parentTaskId)
  {
    if tasks == [] then []
    else (if TruthyId(tasks[0].parentTaskId) then [] else [tasks[0]]) + MainTasks(tasks[1..])
  }

  /** With all four filters empty the list shows exactly the main tasks, in order. */
  lemma {:induction false} NoFiltersShowsMainTasks(tasks: seq<ClientTask>)
    ensures FilteredTasks(tasks, NoFilters) == MainTasks(tasks)
  {
    if tasks != [] {
      NoFiltersShowsMainTasks(tasks[1..]);
    }
  }

  /** Two filter settings that admit the same tasks show the same list. */
  lemma {:induction false} FilterCongruent(tasks: seq<ClientTask>, f: Filters, g: Filters)
    requires forall t | t in tasks :: KeepTask(t, f) == KeepTask(t, g)
    ensures FilteredTasks(tasks, f) == FilteredTasks(tasks, g)
  {
    if tasks != [] {
      assert tasks[0] in tasks;
      forall t | t in tasks[1..] ensures KeepTask(t, f) == KeepTask(t, g) {
        assert t in tasks;
      }
      FilterCongruent(tasks[1..], f, g);
    }
  }

  /** The search ignores the case of the term: typing it lower-cased shows the same list. */
  lemma SearchIgnoresTermCase(tasks: seq<ClientTask>, f: Filters)
    ensures FilteredTasks(tasks, f.(searchTerm := ToLower(f.searchTerm))) == FilteredTasks(tasks, f)
  {
    LowerIdempotent(f.searchTerm);
    FilterCongruent(tasks, f.(searchTerm := ToLower(f.searchTerm)), f);
  }

  /** Clearing the filters never hides a task that was shown. */
  lemma {:induction false} ClearingFiltersWidens(tasks: seq<ClientTask>, f: Filters)
    ensures forall t | t in FilteredTasks(tasks, f) :: t in FilteredTasks(tasks, NoFilters)
    ensures |FilteredTasks(tasks, f)| <= |FilteredTasks(tasks, NoFilters)|
  {
    if tasks != [] {
      ClearingFiltersWidens(tasks[1..], f);
    }
  }

  /** What the component renders: the task cards, or one of the two empty-state messages. */
  datatype ListView = TaskCards(shown: seq<ClientTask>) | NoneCreated | NoneMatch
  {
    function Message(): string
    {
      match this
      case TaskCards(_) => ""
      case NoneCreated => "You haven't created any tasks yet. Click 'Create New Task' to get started!"
      case NoneMatch => "No tasks match your current filters. Try adjusting your search criteria."
    }
  }

  function Render(tasks: seq<ClientTask>, f: Filters): (v: ListView)
    ensures v.NoneCreated? <==> tasks == []
    ensures v.NoneMatch? <==> tasks != [] && (forall t | t in tasks :: !Shown(t, f))
    ensures v.TaskCards? ==> v.shown == FilteredTasks(tasks, f) && |v.shown| > 0
  {
    var shown := FilteredTasks(tasks, f);
    if |shown| == 0 then (if |tasks| == 0 then NoneCreated else NoneMatch)
    else assert shown[0] in shown; TaskCards(shown)
  }

  /**
   * The "no match" message is not only about filters: a list made only of subtasks shows it
   * with every filter empty.
   */
  lemma OnlySubtasksShowNoneMatch(sub: ClientTask)
    requires TruthyId(sub.parentTaskId)
    ensures Render([sub], NoFilters) == NoneMatch
    ensures Render([sub], NoFilters).Message() == "No tasks match your current filters. Try adjusting your search criteria."
  {
    assert FilteredTasks([sub], NoFilters) == [];
  }
}
