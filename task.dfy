/**
 * The `Task` entity of the backend: its three enumerations, its fields with their
 * defaults, the bean-validation constraints on its title, and the two JPA lifecycle
 * callbacks that stamp its timestamps.
 *
 * The entity is a value here; the store (module TaskRepository) holds one per id and the
 * service (module TaskService) replaces a stored value where the source mutates the object
 * through its setters.
 */
module TaskModel {
  import opened Options

  /** A `Long` identifier. */
  type Id = int
  /** A calendar date (`TemporalType.DATE`), as a day number. */
  type Date = nat
  /** A point in time (`TemporalType.TIMESTAMP`), as a reading of a monotone clock. */
  type Timestamp = nat

  datatype Priority = Low | Medium | High | Urgent
  {
    /** The constant's name, as `Enum.name()` and the JSON form spell it. */
    function Name(): string
    {
      match this
      case Low => "LOW"
      case Medium => "MEDIUM"
      case High => "HIGH"
      case Urgent => "URGENT"
    }
  }

  datatype Category = Work | Personal | Urgent | Shopping | Health | Education
  {
    function Name(): string
    {
      match this
      case Work => "WORK"
      case Personal => "PERSONAL"
      case Urgent => "URGENT"
      case Shopping => "SHOPPING"
      case Health => "HEALTH"
      case Education => "EDUCATION"
    }
  }

  datatype Status = Pending | InProgress | Completed
  {
    function Name(): string
    {
      match this
      case Pending => "PENDING"
      case InProgress => "IN_PROGRESS"
      case Completed => "COMPLETED"
    }
  }

  /** The constants in declaration order, as `values()` returns them. */
  const PriorityValues: seq<Priority> := [Low, Medium, High, Priority.Urgent]
  const CategoryValues: seq<Category> := [Work, Personal, Category.Urgent, Shopping, Health, Education]
  const StatusValues: seq<Status> := [Pending, InProgress, Completed]

  /** The enumerations hold exactly the listed constants, and their names tell them apart. */
  lemma EnumsAreExactly()
    ensures forall p: Priority :: p in PriorityValues
    ensures forall c: Category :: c in CategoryValues
    ensures forall s: Status :: s in StatusValues
    ensures forall p: Priority, q: Priority :: p.Name() == q.Name() ==> p == q
    ensures forall c: Category, d: Category :: c.Name() == d.Name() ==> c == d
    ensures forall s: Status, t: Status :: s.Name() == t.Name() ==> s == t
  {
    forall p: Priority ensures p in PriorityValues {
      match p
      case Low => assert PriorityValues[0] == p;
      case Medium => assert PriorityValues[1] == p;
      case High => assert PriorityValues[2] == p;
      case Urgent => assert PriorityValues[3] == p;
    }
    forall c: Category ensures c in CategoryValues {
      match c
      case Work => assert CategoryValues[0] == c;
      case Personal => assert CategoryValues[1] == c;
      case Urgent => assert CategoryValues[2] == c;
      case Shopping => assert CategoryValues[3] == c;
      case Health => assert CategoryValues[4] == c;
      case Education => assert CategoryValues[5] == c;
    }
    forall s: Status ensures s in StatusValues {
      match s
      case Pending => assert StatusValues[0] == s;
      case InProgress => assert StatusValues[1] == s;
      case Completed => assert StatusValues[2] == s;
    }
  }

  /**
   * One row of the `tasks` table. Fields the Java class holds as nullable references are
   * options; the `subTasks` collection is not a column of its own (it maps the same
   * `parent_task_id` column) and is derived by the subtask query instead.
   */
  datatype Task = Task(
    id: Option<Id>,
    title: Option<string>,
    description: Option<string>,
    dueDate: Option<Date>,
    priority: Priority,
    category: Category,
    status: Status,
    parentTaskId: Option<Id>,
    isDeleted: bool,
    createdAt: Option<Timestamp>,
    updatedAt: Option<Timestamp>)

  /** `new Task()`: every field at its declared initial value. */
  function NewTask(): Task
  {
    Task(None, None, None, None, Medium, Personal, Pending, None, false, None, None)
  }

  /** `new Task(title, description)`. */
  function NewTaskWith(title: Option<string>, description: Option<string>): Task
  {
    NewTask().(title := title, description := description)
  }

  /** A freshly constructed task carries the declared defaults and no identity or timestamps yet. */
  lemma ConstructionDefaults(title: Option<string>, description: Option<string>)
    ensures NewTask().priority == Medium && NewTask().category == Personal
    ensures NewTask().status == Pending && !NewTask().isDeleted
    ensures NewTask().id.None? && NewTask().parentTaskId.None?
    ensures NewTask().createdAt.None? && NewTask().updatedAt.None?
    ensures NewTaskWith(title, description).title == title
    ensures NewTaskWith(title, description).description == description
    ensures NewTaskWith(title, description).(title := None, description := None) == NewTask()
  {
  }

  // ---------------------------------------------------------------------------------
  // Title constraints: @NotBlank and @Size(max = 200)
  // ---------------------------------------------------------------------------------

  const MaxTitleLength: nat := 200

  /** Java `String.trim()`: drops leading and trailing characters at or below U+0020. */
  function Trim(s: string): string
  {
    TrimEnd(TrimStart(s))
  }

  function TrimStart(s: string): string
  {
    if |s| > 0 && s[0] <= ' ' then TrimStart(s[1..]) else s
  }

  function TrimEnd(s: string): string
  {
    if |s| > 0 && s[|s| - 1] <= ' ' then TrimEnd(s[..|s| - 1]) else s
  }

  /** `@NotBlank`: present, and something is left after trimming. */
  predicate NotBlank(s: Option<string>)
  {
    s.Some? && |Trim(s.value)| > 0
  }

  /** `@Size(max = 200)`: a null string passes. */
  predicate SizeAtMost200(s: Option<string>)
  {
    s.None? || |s.value| <= MaxTitleLength
  }

  /** The constraints bean validation checks on a request body before a handler runs. */
  predicate ValidTitle(title: Option<string>)
  {
    NotBlank(title) && SizeAtMost200(title)
  }

  lemma {:induction false} TrimStartEmpty(s: string)
    ensures |TrimStart(s)| == 0 <==> forall i :: 0 <= i < |s| ==> s[i] <= ' '
  {
    if |s| > 0 && s[0] <= ' ' {
      TrimStartEmpty(s[1..]);
      assert forall i :: 1 <= i < |s| ==> s[i] == s[1..][i - 1];
    }
  }

  lemma {:induction false} TrimEndKeepsVisibleHead(s: string)
    requires |s| > 0 && s[0] > ' '
    ensures |TrimEnd(s)| > 0
  {
    if s[|s| - 1] <= ' ' {
      TrimEndKeepsVisibleHead(s[..|s| - 1]);
    }
  }

  /** Trimming leaves nothing exactly when every character is at or below U+0020. */
  lemma TrimEmptyIffBlank(s: string)
    ensures |Trim(s)| == 0 <==> forall i :: 0 <= i < |s| ==> s[i] <= ' '
  {
    TrimStartEmpty(s);
    var t := TrimStart(s);
    if |t| > 0 {
      TrimStartVisibleHead(s);
      TrimEndKeepsVisibleHead(t);
    }
  }

  lemma {:induction false} TrimStartVisibleHead(s: string)
    requires |TrimStart(s)| > 0
    ensures TrimStart(s)[0] > ' '
  {
    if |s| > 0 && s[0] <= ' ' {
      TrimStartVisibleHead(s[1..]);
    }
  }

  /**
   * A title is accepted iff it is present, holds a character above U+0020 and is at most
   * 200 characters long (so exactly 200 is accepted).
   */
  lemma ValidTitleIff(title: Option<string>)
    ensures ValidTitle(title) <==>
      title.Some? && |title.value| <= MaxTitleLength &&
      exists i :: 0 <= i < |title.value| && title.value[i] > ' '
  {
    if title.Some? {
      TrimEmptyIffBlank(title.value);
    }
  }

  /** The boundary cases of the title constraints. */
  lemma TitleBoundaries()
    ensures ValidTitle(Some(seq(200, _ => 'a')))
    ensures !ValidTitle(Some(seq(201, _ => 'a')))
    ensures !ValidTitle(Some(""))
    ensures !ValidTitle(Some("   "))
    ensures !ValidTitle(None)
  {
    ValidTitleIff(Some(seq(200, _ => 'a')));
    assert seq(200, _ => 'a')[0] > ' ';
    ValidTitleIff(Some("   "));
  }

  // ---------------------------------------------------------------------------------
  // Lifecycle callbacks
  // ---------------------------------------------------------------------------------

  /** `@PrePersist onCreate`: both timestamps are set to the current time. */
  function OnCreate(t: Task, now: Timestamp): Task
  {
    t.(createdAt := Some(now), updatedAt := Some(now))
  }

  /** `@PreUpdate onUpdate`: only `updatedAt` is refreshed. */
  function OnUpdate(t: Task, now: Timestamp): Task
  {
    t.(updatedAt := Some(now))
  }

  /** Both timestamps are present and `createdAt <= updatedAt`. */
  predicate Stamped(t: Task)
  {
    t.createdAt.Some? && t.updatedAt.Some? && t.createdAt.value <= t.updatedAt.value
  }

  /**
   * A persisted task starts with both timestamps at the clock reading `now`; a refresh sets
   * `updatedAt` to `now`, and on a clock that has not gone back it keeps `createdAt` and keeps
   * `createdAt <= updatedAt`. Neither touches any other field.
   */
  lemma CallbacksKeepStamped(t: Task, now: Timestamp)
    ensures Stamped(OnCreate(t, now)) && OnCreate(t, now).createdAt == OnCreate(t, now).updatedAt == Some(now)
    ensures OnUpdate(t, now).updatedAt == Some(now)
    ensures Stamped(t) && t.updatedAt.value <= now ==>
      Stamped(OnUpdate(t, now)) && OnUpdate(t, now).createdAt == t.createdAt
    ensures OnUpdate(t, now).(updatedAt := t.updatedAt) == t
    ensures OnCreate(t, now).(createdAt := t.createdAt, updatedAt := t.updatedAt) == t
  {
  }
}
