/**
 * ProjectServiceImpl over the tables of a Database: lookups that throw
 * NOT_FOUND, creation, partial update, the cascading delete and the task
 * count carried by every project response.
 */
module ProjectService {
  import opened Wrappers
  import opened Entities
  import opened Store

  /**
   * convertToProjectResponse: the project's fields and the number of tasks
   * linked to it, a null count read as 0.
   */
  function ToProjectResponse(tasks: map<int, Task>, p: Project): (r: ProjectResponse)
    ensures r.id == p.id && r.name == p.name && r.description == p.description && r.createdAt == p.createdAt
    ensures r.taskCount == |TaskIdsOfProject(tasks, p.id)|
  {
    var taskCount := CountByProjectId(tasks, p.id);
    ProjectResponse(p.id, p.name, p.description, p.createdAt, taskCount.GetOr(0))
  }

  /** getAllProjects: one response per stored project, keyed by its id. */
  function GetAllProjects(tasks: map<int, Task>, projects: map<int, Project>): (r: map<int, ProjectResponse>)
    ensures r.Keys == projects.Keys
    ensures forall k :: k in r ==> r[k] == ToProjectResponse(tasks, projects[k])
  {
    map k | k in projects :: ToProjectResponse(tasks, projects[k])
  }

  /** getProjectById: the project's response, or NOT_FOUND when no project has that id. */
  function GetProjectById(tasks: map<int, Task>, projects: map<int, Project>, id: int)
    : (r: Result<ProjectResponse, ServiceError>)
    ensures r.Err? <==> id !in projects
    ensures r.Err? ==> r.error == NotFound(ProjectKind, id)
    ensures r.Ok? ==> r.value == ToProjectResponse(tasks, projects[id])
  {
    if id in projects then Ok(ToProjectResponse(tasks, projects[id])) else Err(NotFound(ProjectKind, id))
  }

  /** The project updateProject saves: name and description replaced only where the request supplies them. */
  function ApplyProjectUpdate(p: Project, request: ProjectUpdateRequest): (r: Project)
  {
    p.(name := request.name.GetOr(p.name),
       description := if request.description.Some? then request.description else p.description)
  }

  /** An update overwrites a field iff the request supplies it; id and creation time stay. */
  lemma ApplyProjectUpdateFields(p: Project, request: ProjectUpdateRequest)
    ensures var r := ApplyProjectUpdate(p, request);
      && r.id == p.id && r.createdAt == p.createdAt
      && (request.name.Some? ==> r.name == request.name.value)
      && (request.name.None? ==> r.name == p.name)
      && (request.description.Some? ==> r.description == request.description)
      && (request.description.None? ==> r.description == p.description)
  {
  }

  /** The tasks a cascading delete of `projectId` leaves behind. */
  function WithoutProjectTasks(tasks: map<int, Task>, projectId: int): (r: map<int, Task>)
    ensures r == tasks - TaskIdsOfProject(tasks, projectId)
    ensures forall k :: k in r <==> k in tasks && tasks[k].project != Some(projectId)
  {
    tasks - FindByProjectId(tasks, projectId).Keys
  }

  /**
   * After the cascade no task points at the deleted project, every other
   * project keeps its count, and links to the remaining projects still resolve.
   */
  lemma CascadeEffect(tasks: map<int, Task>, projects: map<int, Project>, projectId: int)
    requires LinksResolve(tasks, projects)
    ensures TaskIdsOfProject(WithoutProjectTasks(tasks, projectId), projectId) == {}
    ensures forall q :: q != projectId ==>
      |TaskIdsOfProject(WithoutProjectTasks(tasks, projectId), q)| == |TaskIdsOfProject(tasks, q)|
    ensures LinksResolve(WithoutProjectTasks(tasks, projectId), projects - {projectId})
  {
    var ids := TaskIdsOfProject(tasks, projectId);
    forall q | q != projectId
      ensures |TaskIdsOfProject(WithoutProjectTasks(tasks, projectId), q)| == |TaskIdsOfProject(tasks, q)|
    {
      CountAfterRemoval(tasks, ids, q);
      assert TaskIdsOfProject(tasks, q) * ids == {};
    }
  }

  /** createProject: adds one project holding the request's name and description, created at `now`. */
  method CreateProject(db: Database, request: ProjectCreateRequest, now: int) returns (response: ProjectResponse)
    requires db.Valid()
    modifies db
    ensures db.Valid()
    ensures var id := old(db.nextProjectId);
      && id !in old(db.projects)
      && db.projects == old(db.projects)[id := Project(id, request.name, request.description, now)]
      && response == ToProjectResponse(db.tasks, db.projects[id])
    ensures response.taskCount == 0
    ensures |db.projects| == |old(db.projects)| + 1
    ensures db.nextProjectId == old(db.nextProjectId) + 1
    ensures db.tasks == old(db.tasks) && db.nextTaskId == old(db.nextTaskId)
  {
    var project := Project(0, "", None, now);
    project := project.(name := request.name);
    project := project.(description := request.description);
    project := project.(createdAt := now);
    NoTasksOfUnknownProject(db.tasks, db.projects, db.nextProjectId);
    var savedProject := db.SaveNewProject(project);
    response := ToProjectResponse(db.tasks, savedProject);
  }

  /** updateProject: NOT_FOUND and no change when the id is unknown; otherwise the project is patched. */
  method UpdateProject(db: Database, id: int, request: ProjectUpdateRequest)
    returns (response: Result<ProjectResponse, ServiceError>)
    requires db.Valid()
    modifies db
    ensures db.Valid()
    ensures id !in old(db.projects) ==>
      response == Err(NotFound(ProjectKind, id)) && db.projects == old(db.projects)
    ensures id in old(db.projects) ==>
      && db.projects == old(db.projects)[id := ApplyProjectUpdate(old(db.projects)[id], request)]
      && response == Ok(ToProjectResponse(db.tasks, db.projects[id]))
    ensures db.tasks == old(db.tasks)
    ensures db.nextTaskId == old(db.nextTaskId) && db.nextProjectId == old(db.nextProjectId)
  {
    if id !in db.projects {
      return Err(NotFound(ProjectKind, id));
    }
    var existingProject := db.projects[id];
    if request.name != None {
      existingProject := existingProject.(name := request.name.value);
    }
    if request.description != None {
      existingProject := existingProject.(description := request.description);
    }
    db.SaveProject(existingProject);
    response := Ok(ToProjectResponse(db.tasks, existingProject));
  }

  /**
   * deleteProject: NOT_FOUND and both tables unchanged when the id is
   * unknown; otherwise the project's tasks, then the project, are deleted.
   */
  method DeleteProject(db: Database, id: int) returns (outcome: Result<(), ServiceError>)
    requires db.Valid()
    modifies db
    ensures db.Valid()
    ensures id !in old(db.projects) ==>
      outcome == Err(NotFound(ProjectKind, id)) && db.tasks == old(db.tasks) && db.projects == old(db.projects)
    ensures id in old(db.projects) ==>
      && outcome == Ok(())
      && db.tasks == WithoutProjectTasks(old(db.tasks), id)
      && db.projects == old(db.projects) - {id}
    ensures db.nextTaskId == old(db.nextTaskId) && db.nextProjectId == old(db.nextProjectId)
  {
    if id !in db.projects {
      return Err(NotFound(ProjectKind, id));
    }
    var projectTasks := FindByProjectId(db.tasks, id);
    if |projectTasks| != 0 {
      db.DeleteTasks(projectTasks.Keys);
    }
    assert db.tasks == WithoutProjectTasks(old(db.tasks), id);
    CascadeEffect(old(db.tasks), db.projects, id);
    db.DeleteProject(id);
    outcome := Ok(());
  }
}
