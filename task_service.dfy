/**
 * TaskServiceImpl over the tables of a Database: lookups that throw
 * NOT_FOUND, creation with the default status, partial update, delete and
 * the conversion of a task into its response.
 */
module TaskService {
  import opened Wrappers
  import opened Entities
  import opened Store

  /**
   * convertToTaskResponse: the task's own fields, plus the id and name of
   * its project, both null when the task has none.
   */
  function ToTaskResponse(t: Task, projects: map<int, Project>): (r: TaskResponse)
    requires t.project.Some? ==> t.project.value in projects
    ensures r.id == t.id && r.title == t.title && r.description == t.description
    ensures r.status == t.status && r.priority == t.priority
    ensures r.dueDate == t.dueDate && r.createdAt == t.createdAt
    ensures r.projectId.None? <==> t.project.None?
    ensures r.projectName.None? <==> t.project.None?
    ensures t.project.Some? ==>
      r.projectId == Some(projects[t.project.value].id) && r.projectName == Some(projects[t.project.value].name)
  {
    TaskResponse(
      t.id, t.title, t.description, t.status, t.priority, t.dueDate, t.createdAt,
      if t.project.Some? then Some(projects[t.project.value].id) else None,
      if t.project.Some? then Some(projects[t.project.value].name) else None)
  }

  /** The conversion drops only the assignee and the creator: it loses nothing else. */
  lemma ToTaskResponseInjective(t1: Task, t2: Task, projects: map<int, Project>)
    requires t1.project.Some? ==> t1.project.value in projects
    requires t2.project.Some? ==> t2.project.value in projects
    requires forall k :: k in projects ==> projects[k].id == k
    requires t1.assignee == t2.assignee && t1.creator == t2.creator
    requires ToTaskResponse(t1, projects) == ToTaskResponse(t2, projects)
    ensures t1 == t2
  {
    var r1, r2 := ToTaskResponse(t1, projects), ToTaskResponse(t2, projects);
    if t1.project.Some? {
      assert projects[t1.project.value].id == t1.project.value;
      assert projects[t2.project.value].id == t2.project.value;
    }
  }

  /** The responses for a set of tasks, keyed by task id (the list order is not modelled). */
  function Responses(tasks: map<int, Task>, projects: map<int, Project>): (r: map<int, TaskResponse>)
    requires LinksResolve(tasks, projects)
    ensures r.Keys == tasks.Keys
    ensures forall k :: k in r ==> r[k] == ToTaskResponse(tasks[k], projects)
  {
    map k | k in tasks :: ToTaskResponse(tasks[k], projects)
  }

  /** getAllTasks: one response per stored task. */
  function GetAllTasks(tasks: map<int, Task>, projects: map<int, Project>): (r: map<int, TaskResponse>)
    requires LinksResolve(tasks, projects)
    ensures r.Keys == tasks.Keys
    ensures forall k :: k in r ==> r[k] == ToTaskResponse(tasks[k], projects)
  {
    Responses(tasks, projects)
  }

  /** getTaskById: the task's response, or NOT_FOUND when no task has that id. */
  function GetTaskById(tasks: map<int, Task>, projects: map<int, Project>, id: int)
    : (r: Result<TaskResponse, ServiceError>)
    requires LinksResolve(tasks, projects)
    ensures r.Err? <==> id !in tasks
    ensures r.Err? ==> r.error == NotFound(TaskKind, id)
    ensures r.Ok? ==> r.value == ToTaskResponse(tasks[id], projects)
  {
    if id in tasks then Ok(ToTaskResponse(tasks[id], projects)) else Err(NotFound(TaskKind, id))
  }

  /** getTasksByStatus: exactly the tasks with that status. */
  function GetTasksByStatus(tasks: map<int, Task>, projects: map<int, Project>, status: TaskStatus)
    : (r: map<int, TaskResponse>)
    requires LinksResolve(tasks, projects)
    ensures forall k :: k in r <==> k in tasks && tasks[k].status == status
    ensures forall k :: k in r ==> r[k] == ToTaskResponse(tasks[k], projects)
    ensures forall k :: k in r ==> r[k].status == status && r[k].id == tasks[k].id
  {
    Responses(FindByStatus(tasks, status), projects)
  }

  /**
   * getTasksByProject: exactly the tasks linked to the project. An unknown
   * project is not an error: it has no tasks.
   */
  function GetTasksByProject(tasks: map<int, Task>, projects: map<int, Project>, projectId: int)
    : (r: map<int, TaskResponse>)
    requires LinksResolve(tasks, projects)
    ensures r.Keys == TaskIdsOfProject(tasks, projectId)
    ensures forall k :: k in r ==> r[k] == ToTaskResponse(tasks[k], projects)
    ensures forall k :: k in r ==> r[k].projectId == Some(projects[projectId].id)
    ensures projectId !in projects ==> r == map[]
  {
    NoTasksOfUnknownProject(tasks, projects, projectId);
    Responses(FindByProjectId(tasks, projectId), projects)
  }

  /** The project a request's projectId links to: only a non-null id of a stored project. */
  function ResolveProject(projectId: Option<int>, projects: map<int, Project>): (r: Option<int>)
    ensures r.Some? <==> projectId.Some? && projectId.value in projects
    ensures r.Some? ==> r == projectId
  {
    if projectId.Some? && projectId.value in projects then projectId else None
  }

  /**
   * The task updateTask saves: each of title, description, status, priority
   * and dueDate is taken from the request exactly when the request supplies
   * it, the project is replaced only by a stored one, and nothing else moves.
   */
  function ApplyTaskUpdate(t: Task, request: TaskUpdateRequest, projects: map<int, Project>): (r: Task)
  {
    t.(
      title := request.title.GetOr(t.title),
      description := if request.description.Some? then request.description else t.description,
      status := request.status.GetOr(t.status),
      priority := if request.priority.Some? then request.priority else t.priority,
      dueDate := if request.dueDate.Some? then request.dueDate else t.dueDate,
      project := if ResolveProject(request.projectId, projects).Some? then request.projectId else t.project)
  }

  /**
   * Each updatable field is the request's value when the request supplies
   * one and the stored value when it is null; the project changes only to a
   * stored one; identity, creation time, assignee and creator stay.
   */
  lemma ApplyTaskUpdateFields(t: Task, request: TaskUpdateRequest, projects: map<int, Project>)
    ensures var r := ApplyTaskUpdate(t, request, projects);
      && r.id == t.id && r.createdAt == t.createdAt
      && r.assignee == t.assignee && r.creator == t.creator
      && (request.title.None? ==> r.title == t.title)
      && (request.title.Some? ==> r.title == request.title.value)
      && (request.description.None? ==> r.description == t.description)
      && (request.description.Some? ==> r.description == request.description)
      && (request.status.None? ==> r.status == t.status)
      && (request.status.Some? ==> r.status == request.status.value)
      && (request.priority.None? ==> r.priority == t.priority)
      && (request.priority.Some? ==> r.priority == request.priority)
      && (request.dueDate.None? ==> r.dueDate == t.dueDate)
      && (request.dueDate.Some? ==> r.dueDate == request.dueDate)
      && (request.projectId.Some? && request.projectId.value in projects ==> r.project == request.projectId)
      && (request.projectId.None? ==> r.project == t.project)
      && (request.projectId.Some? && request.projectId.value !in projects ==> r.project == t.project)
  {
  }

  /** An update whose fields are all null saves the task as it was. */
  lemma EmptyUpdateIsIdentity(t: Task, projects: map<int, Project>)
    ensures ApplyTaskUpdate(t, TaskUpdateRequest(None, None, None, None, None, None), projects) == t
  {
  }

  /** Sending the same update twice leaves the task as sending it once. */
  lemma ApplyTaskUpdateIdempotent(t: Task, request: TaskUpdateRequest, projects: map<int, Project>)
    ensures ApplyTaskUpdate(ApplyTaskUpdate(t, request, projects), request, projects) ==
      ApplyTaskUpdate(t, request, projects)
  {
  }

  /**
   * The task createTask saves under identity `id`: the request's fields,
   * status TODO, created at `now`, the project only when it is stored, and
   * no assignee or creator.
   */
  function NewTask(id: int, request: TaskCreateRequest, now: int, projects: map<int, Project>): Task
  {
    Task(id, request.title, request.description, Todo, request.priority,
         request.dueDate, now, ResolveProject(request.projectId, projects), None, None)
  }

  /**
   * createTask: stores a new task holding the request's fields, status TODO,
   * created at `now`, linked to the requested project only if it exists; the
   * project table is not touched and exactly one task is added.
   */
  method CreateTask(db: Database, request: TaskCreateRequest, now: int) returns (response: TaskResponse)
    requires db.Valid()
    modifies db
    ensures db.Valid()
    ensures var id := old(db.nextTaskId);
      && id !in old(db.tasks)
      && db.tasks.Keys == old(db.tasks).Keys + {id}
      && (forall k :: k in old(db.tasks) ==> db.tasks[k] == old(db.tasks)[k])
      && db.tasks[id] == NewTask(id, request, now, old(db.projects))
      && response == ToTaskResponse(db.tasks[id], db.projects)
    ensures |db.tasks| == |old(db.tasks)| + 1
    ensures db.nextTaskId == old(db.nextTaskId) + 1
    ensures db.projects == old(db.projects) && db.nextProjectId == old(db.nextProjectId)
  {
    var task := Task(0, "", None, Todo, Some(Medium), None, now, None, None, None);
    task := task.(title := request.title);
    task := task.(description := request.description);
    task := task.(priority := request.priority);
    task := task.(dueDate := request.dueDate);
    task := task.(createdAt := now);
    task := task.(status := Todo);
    if request.projectId != None {
      if request.projectId.value in db.projects {
        task := task.(project := request.projectId);
      }
    }
    var savedTask := db.SaveNewTask(task);
    response := ToTaskResponse(savedTask, db.projects);
  }

  /**
   * updateTask: NOT_FOUND and no save when the id is unknown; otherwise the
   * stored task becomes ApplyTaskUpdate of it and every other row stays.
   */
  method UpdateTask(db: Database, id: int, request: TaskUpdateRequest)
    returns (response: Result<TaskResponse, ServiceError>)
    requires db.Valid()
    modifies db
    ensures db.Valid()
    ensures id !in old(db.tasks) ==>
      response == Err(NotFound(TaskKind, id)) && db.tasks == old(db.tasks)
    ensures id in old(db.tasks) ==>
      && db.tasks == old(db.tasks)[id := ApplyTaskUpdate(old(db.tasks)[id], request, old(db.projects))]
      && response == Ok(ToTaskResponse(db.tasks[id], db.projects))
    ensures db.projects == old(db.projects)
    ensures db.nextTaskId == old(db.nextTaskId) && db.nextProjectId == old(db.nextProjectId)
  {
    if id !in db.tasks {
      return Err(NotFound(TaskKind, id));
    }
    var existingTask := db.tasks[id];
    ghost var patched := ApplyTaskUpdate(existingTask, request, db.projects);
    if request.title != None {
      existingTask := existingTask.(title := request.title.value);
    }
    if request.description != None {
      existingTask := existingTask.(description := request.description);
    }
    if request.status != None {
      existingTask := existingTask.(status := request.status.value);
    }
    assert existingTask.(priority := patched.priority, dueDate := patched.dueDate, project := patched.project)
      == patched;
    if request.priority != None {
      existingTask := existingTask.(priority := request.priority);
    }
    if request.dueDate != None {
      existingTask := existingTask.(dueDate := request.dueDate);
    }
    if request.projectId != None {
      if request.projectId.value in db.projects {
        existingTask := existingTask.(project := request.projectId);
      }
    }
    assert existingTask == patched;
    db.SaveTask(existingTask);
    response := Ok(ToTaskResponse(existingTask, db.projects));
  }

  /** deleteTask: NOT_FOUND and nothing deleted when the id is unknown; otherwise only that task goes. */
  method DeleteTask(db: Database, id: int) returns (outcome: Result<(), ServiceError>)
    requires db.Valid()
    modifies db
    ensures db.Valid()
    ensures id !in old(db.tasks) ==> outcome == Err(NotFound(TaskKind, id)) && db.tasks == old(db.tasks)
    ensures id in old(db.tasks) ==> outcome == Ok(()) && db.tasks == old(db.tasks) - {id}
    ensures |db.tasks| == |old(db.tasks)| - (if id in old(db.tasks) then 1 else 0)
    ensures db.projects == old(db.projects)
    ensures db.nextTaskId == old(db.nextTaskId) && db.nextProjectId == old(db.nextProjectId)
  {
    if id !in db.tasks {
      return Err(NotFound(TaskKind, id));
    }
    db.DeleteTasks({id});
    outcome := Ok(());
  }

  /**
   * The task CreateTask stores is then found by its id, with the request's
   * title, description, priority and due date and status TODO, and it is
   * listed among the TODO tasks; the foreign key still holds.
   */
  lemma CreatedTaskIsFound(tasks: map<int, Task>, projects: map<int, Project>,
                           request: TaskCreateRequest, id: int, now: int)
    requires LinksResolve(tasks, projects)
    ensures var stored := tasks[id := NewTask(id, request, now, projects)];
      && LinksResolve(stored, projects)
      && GetTaskById(stored, projects, id).Ok?
      && var found := GetTaskById(stored, projects, id).value;
      && found.id == id && found.title == request.title && found.description == request.description
      && found.priority == request.priority && found.dueDate == request.dueDate
      && found.status == Todo && found.createdAt == now
      && id in GetTasksByStatus(stored, projects, Todo)
  {
  }

  /** Linking a new task to a stored project raises that project's count by exactly one. */
  lemma CreateRaisesProjectCount(tasks: map<int, Task>, id: int, t: Task, projectId: int)
    requires id !in tasks && t.project == Some(projectId)
    ensures CountByProjectId(tasks[id := t], projectId).value == CountByProjectId(tasks, projectId).value + 1
    ensures forall q :: q != projectId ==>
      CountByProjectId(tasks[id := t], q) == CountByProjectId(tasks, q)
  {
    CountAfterInsert(tasks, id, t, projectId);
    forall q | q != projectId
      ensures CountByProjectId(tasks[id := t], q) == CountByProjectId(tasks, q)
    {
      CountAfterInsert(tasks, id, t, q);
    }
  }
}
