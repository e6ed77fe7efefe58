/**
 * `TaskController`: the REST endpoints under `/tasks`. Each handler validates what the
 * framework validates (the `@Valid` request body, the enum path segments), calls the
 * service, and maps its answer to a status code and a body.
 */
module TaskController {
  import opened Options
  import opened TaskModel
  import opened Text
  import opened TaskRepository
  import TaskService

  datatype HttpStatus = Ok | Created | NoContent | BadRequest | NotFound
  {
    /** The numeric status code: 2xx exactly for the three success answers, 4xx for the two refusals. */
    function Code(): (c: int)
      ensures 200 <= c < 300 <==> this == Ok || this == Created || this == NoContent
      ensures 400 <= c < 500 <==> this == BadRequest || this == NotFound
    {
      match this
      case Ok => 200
      case Created => 201
      case NoContent => 204
      case BadRequest => 400
      case NotFound => 404
    }
  }

  /** A `ResponseEntity`: a status and an optional body. */
  datatype Response<T> = Response(status: HttpStatus, body: Option<T>)

  /** `Task.Status.valueOf(segment.toUpperCase())`; `None` stands for the `IllegalArgumentException`. */
  function ParseStatus(segment: string): Option<Status>
  {
    var name := ToUpper(segment);
    if name == Pending.Name() then Some(Pending)
    else if name == InProgress.Name() then Some(InProgress)
    else if name == Completed.Name() then Some(Completed)
    else None
  }

  /** `Task.Category.valueOf(segment.toUpperCase())`. */
  function ParseCategory(segment: string): Option<Category>
  {
    var name := ToUpper(segment);
    if name == Work.Name() then Some(Work)
    else if name == Personal.Name() then Some(Personal)
    else if name == Category.Urgent.Name() then Some(Category.Urgent)
    else if name == Shopping.Name() then Some(Shopping)
    else if name == Health.Name() then Some(Health)
    else if name == Education.Name() then Some(Education)
    else None
  }

  /** A path segment names a status iff its upper-cased form is exactly that status's name. */
  lemma ParseStatusIff(segment: string, status: Status)
    ensures ParseStatus(segment) == Some(status) <==> ToUpper(segment) == status.Name()
    ensures ParseStatus(segment).None? <==> forall s: Status :: ToUpper(segment) != s.Name()
  {
    EnumsAreExactly();
  }

  /** A path segment names a category iff its upper-cased form is exactly that category's name. */
  lemma ParseCategoryIff(segment: string, category: Category)
    ensures ParseCategory(segment) == Some(category) <==> ToUpper(segment) == category.Name()
    ensures ParseCategory(segment).None? <==> forall c: Category :: ToUpper(segment) != c.Name()
  {
    EnumsAreExactly();
  }

  /** A name made of upper-case letters and underscores is its own upper-cased form. */
  lemma UpperOfName(name: string)
    requires forall i | 0 <= i < |name| :: 'A' <= name[i] <= 'Z' || name[i] == '_'
    ensures ToUpper(name) == name
  {
  }

  /**
   * Matching ignores case: a segment is parsed as its upper-cased form is, and every
   * constant is found both from its name and from its lower-cased name.
   */
  lemma ParseIgnoresCase(segment: string, status: Status, category: Category)
    ensures ParseStatus(segment) == ParseStatus(ToUpper(segment))
    ensures ParseCategory(segment) == ParseCategory(ToUpper(segment))
    ensures ParseStatus(status.Name()) == Some(status)
    ensures ParseStatus(ToLower(status.Name())) == Some(status)
    ensures ParseCategory(category.Name()) == Some(category)
    ensures ParseCategory(ToLower(category.Name())) == Some(category)
  {
    UpperIdempotent(segment);
    UpperOfName(status.Name());
    UpperOfName(category.Name());
    UpperOfLower(status.Name());
    UpperOfLower(category.Name());
  }

  /** Segments are accepted in any case. */
  lemma ParseAcceptsExamples()
    ensures ParseStatus("pending") == Some(Pending) && ParseStatus("In_Progress") == Some(InProgress)
    ensures ParseCategory("work") == Some(Work)
  {
    assert ToUpper("pending") == Pending.Name();
    assert ToUpper("In_Progress") == InProgress.Name();
    assert ToUpper("work") == Work.Name();
  }

  /** Anything that is not a constant's name, such as a space for the underscore, is refused. */
  lemma ParseRefusesExamples()
    ensures ParseStatus("bogus").None? && ParseStatus("IN PROGRESS").None?
    ensures ParseCategory("bogus").None?
  {
    assert ToUpper("bogus") == "BOGUS";
    assert ToUpper("IN PROGRESS") == "IN PROGRESS";
  }

  /** Every stored title satisfies the constraints the request bodies are validated against. */
  ghost predicate TitlesValid(db: Store)
  {
    forall k | k in db.rows :: ValidTitle(db.rows[k].title)
  }

  /**
   * Since create and update only reach the service with a valid body, and delete and
   * restore do not touch titles, every stored title stays valid.
   */
  lemma ValidatedWritesKeepTitlesValid(db: Store, id: Id, body: Task, now: Timestamp)
    requires db.Valid() && db.NotAfter(now) && TitlesValid(db)
    ensures ValidTitle(body.title) ==> TitlesValid(Persist(db, body, now).0)
    ensures ValidTitle(body.title) ==> TitlesValid(TaskService.Updated(db, id, body, now).0)
  {
    PersistSpec(db, body, now);
    TaskService.UpdateSpec(db, id, body, now);
  }

  lemma SoftDeleteKeepsTitlesValid(db: Store, id: Id, now: Timestamp)
    requires db.Valid() && db.NotAfter(now) && TitlesValid(db)
    ensures TitlesValid(TaskService.Deleted(db, id, now).0)
    ensures TitlesValid(TaskService.Restored(db, id, now).0)
  {
    TaskService.DeleteSpec(db, id, now);
    TaskService.RestoreSpec(db, id, now);
  }

  /** The controller and the service it calls. */
  class TaskController {
    const service: TaskService.TaskService

    ghost predicate Valid()
      reads this, service
    {
      service.Valid() && TitlesValid(service.db)
    }

    constructor (service: TaskService.TaskService)
      requires service.Valid() && TitlesValid(service.db)
      ensures this.service == service && Valid()
    {
      this.service := service;
    }

    /** `GET /tasks`: 200 with the live root tasks, newest first. */
    method GetAllTasks() returns (response: Response<seq<Task>>)
      requires Valid()
      ensures response == Response(Ok, Some(FindRootsNewestFirst(service.db)))
    {
      var tasks := service.GetAllTasks();
      response := Response(Ok, Some(tasks));
    }

    /** `GET /tasks/{id}`: 200 with the task when the id is stored, 404 otherwise. */
    method GetTaskById(id: Id) returns (response: Response<Task>)
      requires Valid()
      ensures response.status == Ok <==> id in service.db.rows
      ensures response.status == NotFound <==> id !in service.db.rows
      ensures response.status.Code() == if id in service.db.rows then 200 else 404
      ensures response.body == FindById(service.db, id)
    {
      var task := service.GetTaskById(id);
      if task.Some? {
        response := Response(Ok, task);
      } else {
        response := Response(NotFound, None);
      }
    }

    /**
     * `POST /tasks`: a body whose title fails validation answers 400 before the service is
     * reached; otherwise 201 with the row created under a fresh id.
     */
    method CreateTask(body: Task, now: Timestamp) returns (response: Response<Task>)
      requires Valid() && service.db.NotAfter(now)
      modifies service
      ensures Valid() && service.db.NotAfter(now)
      ensures !ValidTitle(body.title) ==>
        response == Response(BadRequest, None) && service.db == old(service.db)
      ensures ValidTitle(body.title) ==>
        response.status == Created && response.body.Some? &&
        (service.db, response.body.value) == Persist(old(service.db), body, now)
    {
      if !ValidTitle(body.title) {
        response := Response(BadRequest, None);
        return;
      }
      ValidatedWritesKeepTitlesValid(service.db, 0, body, now);
      var created := service.CreateTask(body, now);
      response := Response(Created, Some(created));
    }

    /**
     * `PUT /tasks/{id}`: the body is validated first (400, nothing changes); then 404 iff
     * the service answers null, else 200 with the updated row.
     */
    method UpdateTask(id: Id, body: Task, now: Timestamp) returns (response: Response<Task>)
      requires Valid() && service.db.NotAfter(now)
      modifies service
      ensures Valid() && service.db.NotAfter(now)
      ensures !ValidTitle(body.title) ==>
        response == Response(BadRequest, None) && service.db == old(service.db)
      ensures ValidTitle(body.title) ==>
        var (db', updated) := TaskService.Updated(old(service.db), id, body, now);
        && service.db == db'
        && response.body == updated
        && (response.status == NotFound <==> updated.None?)
        && (response.status == Ok <==> updated.Some?)
    {
      if !ValidTitle(body.title) {
        response := Response(BadRequest, None);
        return;
      }
      ValidatedWritesKeepTitlesValid(service.db, id, body, now);
      var updated := service.UpdateTask(id, body, now);
      if updated.Some? {
        response := Response(Ok, updated);
      } else {
        response := Response(NotFound, None);
      }
    }

    /** `DELETE /tasks/{id}`: 204 iff the service answers true, else 404; never a body. */
    method DeleteTask(id: Id, now: Timestamp) returns (response: Response<()>)
      requires Valid() && service.db.NotAfter(now)
      modifies service
      ensures Valid() && service.db.NotAfter(now)
      ensures (service.db, response.status == NoContent) == TaskService.Deleted(old(service.db), id, now)
      ensures response.status == NoContent || response.status == NotFound
      ensures response.status.Code() == 204 || response.status.Code() == 404
      ensures response.body.None?
    {
      SoftDeleteKeepsTitlesValid(service.db, id, now);
      var deleted := service.DeleteTask(id, now);
      if deleted {
        response := Response(NoContent, None);
      } else {
        response := Response(NotFound, None);
      }
    }

    /** `PUT /tasks/{id}/restore`: 200 with the restored row, or 404 when the service answers null. */
    method RestoreTask(id: Id, now: Timestamp) returns (response: Response<Task>)
      requires Valid() && service.db.NotAfter(now)
      modifies service
      ensures Valid() && service.db.NotAfter(now)
      ensures var (db', restored) := TaskService.Restored(old(service.db), id, now);
        && service.db == db'
        && response.body == restored
        && (response.status == Ok <==> restored.Some?)
        && (response.status == NotFound <==> restored.None?)
    {
      SoftDeleteKeepsTitlesValid(service.db, id, now);
      var restored := service.RestoreTask(id, now);
      if restored.Some? {
        response := Response(Ok, restored);
      } else {
        response := Response(NotFound, None);
      }
    }

    /** `GET /tasks/status/{status}`: 400 for a segment that names no status, else 200 with the list. */
    method GetTasksByStatus(segment: string) returns (response: Response<seq<Task>>)
      requires Valid()
      ensures ParseStatus(segment).None? ==> response == Response(BadRequest, None)
      ensures ParseStatus(segment).Some? ==>
        response.status == Ok && response.body.Some? && NoDuplicates(response.body.value) &&
        forall t :: t in response.body.value <==>
          t in service.db.rows.Values && !t.isDeleted && t.status == ParseStatus(segment).value
    {
      var status := ParseStatus(segment);
      if status.None? {
        response := Response(BadRequest, None);
      } else {
        var tasks := service.GetTasksByStatus(status.value);
        response := Response(Ok, Some(tasks));
      }
    }

    /** `GET /tasks/category/{category}`: 400 for a segment that names no category, else 200 with the list. */
    method GetTasksByCategory(segment: string) returns (response: Response<seq<Task>>)
      requires Valid()
      ensures ParseCategory(segment).None? ==> response == Response(BadRequest, None)
      ensures ParseCategory(segment).Some? ==>
        response.status == Ok && response.body.Some? && NoDuplicates(response.body.value) &&
        forall t :: t in response.body.value <==>
          t in service.db.rows.Values && !t.isDeleted && t.category == ParseCategory(segment).value
    {
      var category := ParseCategory(segment);
      if category.None? {
        response := Response(BadRequest, None);
      } else {
        var tasks := service.GetTasksByCategory(category.value);
        response := Response(Ok, Some(tasks));
      }
    }

    /** `GET /tasks/search?keyword=`: always 200. */
    method SearchTasks(keyword: string) returns (response: Response<seq<Task>>)
      requires Valid()
      ensures response == Response(Ok, Some(TaskRepository.SearchTasks(service.db, keyword)))
    {
      var tasks := service.SearchTasks(keyword);
      response := Response(Ok, Some(tasks));
    }

    /** `GET /tasks/{id}/subtasks`: always 200, also for an id no row has. */
    method GetSubTasks(id: Id) returns (response: Response<seq<Task>>)
      requires Valid()
      ensures response == Response(Ok, Some(FindByParent(service.db, id)))
    {
      var tasks := service.GetSubTasks(id);
      response := Response(Ok, Some(tasks));
    }

    /** `GET /tasks/deleted`: always 200. */
    method GetDeletedTasks() returns (response: Response<seq<Task>>)
      requires Valid()
      ensures response == Response(Ok, Some(FindDeletedRecentFirst(service.db)))
    {
      var tasks := service.GetDeletedTasks();
      response := Response(Ok, Some(tasks));
    }
  }
}
