/**
 * The persisted entities (Task, Project) and the request and response
 * records the services exchange with the HTTP layer. Timestamps
 * (LocalDateTime) are integers; a nullable field is an Option.
 */
module Entities {
  import opened Wrappers

  datatype TaskStatus = Todo | InProgress | Review | Done

  datatype TaskPriority = Low | Medium | High | Urgent

  /** A stored project; `id` is its primary key. */
  datatype Project = Project(id: int, name: string, description: Option<string>, createdAt: int)

  /**
   * A stored task. `project`, `assignee` and `creator` are the keys of the
   * rows the task's many-to-one associations point at (null when unset).
   */
  datatype Task = Task(
    id: int,
    title: string,
    description: Option<string>,
    status: TaskStatus,
    priority: Option<TaskPriority>,
    dueDate: Option<int>,
    createdAt: int,
    project: Option<int>,
    assignee: Option<int>,
    creator: Option<int>)

  /** TaskCreateRequest; bean validation has already ensured a non-null title. */
  datatype TaskCreateRequest = TaskCreateRequest(
    title: string,
    description: Option<string>,
    priority: Option<TaskPriority>,
    dueDate: Option<int>,
    projectId: Option<int>)

  /** TaskUpdateRequest: every field may be null, meaning "leave as it is". */
  datatype TaskUpdateRequest = TaskUpdateRequest(
    title: Option<string>,
    description: Option<string>,
    status: Option<TaskStatus>,
    priority: Option<TaskPriority>,
    dueDate: Option<int>,
    projectId: Option<int>)

  datatype TaskResponse = TaskResponse(
    id: int,
    title: string,
    description: Option<string>,
    status: TaskStatus,
    priority: Option<TaskPriority>,
    dueDate: Option<int>,
    createdAt: int,
    projectId: Option<int>,
    projectName: Option<string>)

  /** ProjectCreateRequest; bean validation has already ensured a non-null name. */
  datatype ProjectCreateRequest = ProjectCreateRequest(name: string, description: Option<string>)

  datatype ProjectUpdateRequest = ProjectUpdateRequest(name: Option<string>, description: Option<string>)

  /** ProjectResponse with the task count the service computes for it. */
  datatype ProjectResponse = ProjectResponse(
    id: int,
    name: string,
    description: Option<string>,
    createdAt: int,
    taskCount: int)

  datatype EntityKind = TaskKind | ProjectKind

  /** The ResponseStatusException a service throws: always HttpStatus.NOT_FOUND. */
  datatype ServiceError = NotFound(kind: EntityKind, id: int)
}
