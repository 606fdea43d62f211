/**
 * The task and project tables behind TaskRepository and ProjectRepository,
 * with the queries the services use and the save and delete operations.
 */
module Store {
  import opened Wrappers
  import opened Entities

  /** Every task that points at a project points at a stored one (the foreign key). */
  ghost predicate LinksResolve(tasks: map<int, Task>, projects: map<int, Project>)
  {
    forall k :: k in tasks && tasks[k].project.Some? ==> tasks[k].project.value in projects
  }

  /** The keys of the tasks that belong to project `projectId`. */
  function TaskIdsOfProject(tasks: map<int, Task>, projectId: int): (r: set<int>)
    ensures r <= tasks.Keys
    ensures forall k :: k in tasks ==> (k in r <==> tasks[k].project == Some(projectId))
  {
    set k | k in tasks && tasks[k].project == Some(projectId)
  }

  /** While links resolve, a project that is not stored has no tasks. */
  lemma NoTasksOfUnknownProject(tasks: map<int, Task>, projects: map<int, Project>, projectId: int)
    requires LinksResolve(tasks, projects)
    ensures projectId !in projects ==> TaskIdsOfProject(tasks, projectId) == {}
  {
    if projectId !in projects {
      var ids := TaskIdsOfProject(tasks, projectId);
      forall k | k in tasks ensures k !in ids {
        if tasks[k].project.Some? { assert tasks[k].project.value in projects; }
      }
      assert ids == {};
    }
  }

  /** findByProjectId: the tasks linked to `projectId`. */
  function FindByProjectId(tasks: map<int, Task>, projectId: int): (r: map<int, Task>)
    ensures r.Keys == TaskIdsOfProject(tasks, projectId)
    ensures forall k :: k in r ==> r[k] == tasks[k]
  {
    map k | k in TaskIdsOfProject(tasks, projectId) :: tasks[k]
  }

  /** findByStatus: the tasks with the given status. */
  function FindByStatus(tasks: map<int, Task>, status: TaskStatus): (r: map<int, Task>)
    ensures forall k :: k in r <==> k in tasks && tasks[k].status == status
    ensures forall k :: k in r ==> r[k] == tasks[k]
  {
    map k | k in tasks && tasks[k].status == status :: tasks[k]
  }

  /**
   * countByProjectId: how many tasks are linked to `projectId` (declared as a
   * nullable Integer, never null here). It is at most the number of stored
   * tasks, and zero exactly when no task points at the project.
   */
  function CountByProjectId(tasks: map<int, Task>, projectId: int): (r: Option<int>)
    ensures r.Some? && 0 <= r.value <= |tasks|
    ensures r.value == 0 <==> forall k :: k in tasks ==> tasks[k].project != Some(projectId)
  {
    var ids := TaskIdsOfProject(tasks, projectId);
    SubsetCardinality(ids, tasks.Keys);
    assert |tasks.Keys| == |tasks|;
    assert (forall k :: k in tasks ==> tasks[k].project != Some(projectId)) ==> ids == {};
    Some(|ids|)
  }

  /** A subset is no larger than its superset: `b` is `a` joined with what `a` lacks. */
  lemma SubsetCardinality(a: set<int>, b: set<int>)
    requires a <= b
    ensures |a| <= |b|
  {
    assert b == a + (b - a);
    assert a * (b - a) == {};
  }

  /** Adding a task changes only its own project's count, and that one by exactly one. */
  lemma CountAfterInsert(tasks: map<int, Task>, id: int, t: Task, projectId: int)
    requires id !in tasks
    ensures |TaskIdsOfProject(tasks[id := t], projectId)| ==
      |TaskIdsOfProject(tasks, projectId)| + (if t.project == Some(projectId) then 1 else 0)
  {
    var before := TaskIdsOfProject(tasks, projectId);
    var after := TaskIdsOfProject(tasks[id := t], projectId);
    if t.project == Some(projectId) {
      assert after == before + {id};
    } else {
      assert after == before;
    }
  }

  /** Removing a set of tasks lowers each project's count by the removed tasks it owned. */
  lemma CountAfterRemoval(tasks: map<int, Task>, ids: set<int>, projectId: int)
    ensures |TaskIdsOfProject(tasks - ids, projectId)| ==
      |TaskIdsOfProject(tasks, projectId)| - |TaskIdsOfProject(tasks, projectId) * ids|
  {
    var before := TaskIdsOfProject(tasks, projectId);
    var after := TaskIdsOfProject(tasks - ids, projectId);
    assert after == before - ids;
    assert before == after + (before * ids);
    assert after !! (before * ids);
  }

  /**
   * The tables. Keys are the generated identities; `nextTaskId` and
   * `nextProjectId` are the identities the next inserts receive.
   */
  class Database {
    var tasks: map<int, Task>
    var projects: map<int, Project>
    var nextTaskId: int
    var nextProjectId: int

    /** Each row carries its own key, keys are below the next identity, and links resolve. */
    ghost predicate Valid()
      reads this
    {
      && 1 <= nextTaskId && 1 <= nextProjectId
      && (forall k :: k in tasks ==> tasks[k].id == k && 1 <= k < nextTaskId)
      && (forall k :: k in projects ==> projects[k].id == k && 1 <= k < nextProjectId)
      && LinksResolve(tasks, projects)
    }

    constructor ()
      ensures Valid() && tasks == map[] && projects == map[]
    {
      tasks, projects := map[], map[];
      nextTaskId, nextProjectId := 1, 1;
    }

    /** save of a new task: it receives the next identity and nothing else changes. */
    method SaveNewTask(t: Task) returns (saved: Task)
      requires Valid()
      requires t.project.Some? ==> t.project.value in projects
      modifies this`tasks, this`nextTaskId
      ensures Valid()
      ensures saved == t.(id := old(nextTaskId)) && saved.id !in old(tasks)
      ensures tasks == old(tasks)[saved.id := saved]
      ensures nextTaskId == old(nextTaskId) + 1
    {
      saved := t.(id := nextTaskId);
      tasks := tasks[saved.id := saved];
      nextTaskId := nextTaskId + 1;
    }

    /** save of a stored task: its row is replaced. */
    method SaveTask(t: Task)
      requires Valid()
      requires t.id in tasks
      requires t.project.Some? ==> t.project.value in projects
      modifies this`tasks
      ensures Valid()
      ensures tasks == old(tasks)[t.id := t]
    {
      tasks := tasks[t.id := t];
    }

    /** deleteById / deleteAll: the given tasks are gone, the rest untouched. */
    method DeleteTasks(ids: set<int>)
      requires Valid()
      modifies this`tasks
      ensures Valid()
      ensures tasks == old(tasks) - ids
    {
      tasks := tasks - ids;
    }

    /** save of a new project: it receives the next identity. */
    method SaveNewProject(p: Project) returns (saved: Project)
      requires Valid()
      modifies this`projects, this`nextProjectId
      ensures Valid()
      ensures saved == p.(id := old(nextProjectId)) && saved.id !in old(projects)
      ensures projects == old(projects)[saved.id := saved]
      ensures nextProjectId == old(nextProjectId) + 1
    {
      saved := p.(id := nextProjectId);
      projects := projects[saved.id := saved];
      nextProjectId := nextProjectId + 1;
    }

    /** save of a stored project: its row is replaced. */
    method SaveProject(p: Project)
      requires Valid()
      requires p.id in projects
      modifies this`projects
      ensures Valid()
      ensures projects == old(projects)[p.id := p]
    {
      projects := projects[p.id := p];
    }

    /** delete of a project that no task points at any more. */
    method DeleteProject(id: int)
      requires Valid()
      requires TaskIdsOfProject(tasks, id) == {}
      modifies this`projects
      ensures Valid()
      ensures projects == old(projects) - {id}
    {
      projects := projects - {id};
    }
  }
}
