# Task manager backend: admission filter and task/project services

A Dafny model of two parts of a Spring task/project backend.

- **The per-client rate-limiting filter** (`RateLimitingFilter`). It decides which request paths are limited. It derives a client key from `X-Forwarded-For` or the remote address. It keeps a registry from client key to an entry (a limiter handle and the time it was last used). It creates an entry on a client's first limited request and stamps it on every one. It allows the request exactly when the limiter grants a permit, and otherwise answers 429 with a fixed body and `Retry-After: 60`. An hourly reaper drops entries idle for longer than the expiration window.
- **The task and project services** (`TaskServiceImpl`, `ProjectServiceImpl`) over two in-memory tables that stand in for the JPA repositories. They cover NOT_FOUND on unknown ids, the TODO status of new tasks, partial updates, conditional project linking, the cascading project delete and the task count in project responses.

Modules, one per source component:

| module | file | models |
|---|---|---|
| `Wrappers` | wrappers.dfy | Option (Java null) and Result (a return value or a thrown exception) |
| `JavaStrings` | java_strings.dfy | `String.contains`, element 0 of `split(",")`, `String.trim` |
| `RateLimiting` | rate_limiting.dfy | classifier, client key, registry entries, decision, reaper, the filter class |
| `Entities` | entities.dfy | Task, Project, the request and response records, the NOT_FOUND error |
| `Store` | store.dfy | the task and project tables (class `Database`), the derived queries, save and delete |
| `TaskService` | task_service.dfy | `TaskServiceImpl` |
| `ProjectService` | project_service.dfy | `ProjectServiceImpl` |

Modelling choices:

- Time (`Instant.now()`, `LocalDateTime.now()`) is an integer parameter `now`, in milliseconds for the filter. The reaper's threshold is `now - expirationMinutes * 60000`.
- The limiter object's permit accounting is an oracle. `DoFilter` receives `tryAcquire: LimiterId -> bool`. A limiter is represented by its identity, a number drawn from a counter at creation. This makes two facts statable: an existing limiter is reused, and no two clients share one (`RateLimitingFilter.Valid`).
- The registry is a `map<string, RateLimiterEntry>` field of the filter class. An entry is a value; `updateLastAccessed` replaces the entry's map value by one with the new timestamp.
- `removeIf` is one bulk update of the map, `RemoveExpired`.
- A comma-only `X-Forwarded-For` header (for example `",,"`) makes `split(",")` return an empty array, so `[0]` throws. This is modelled as `Decision.Unhandled`: the exception escapes the filter and the registry is unchanged. An empty header gives `[""]` and the key `""`.
- A task refers to its project by id. `Database.Valid` includes the foreign key: every task's project is stored.
- A list a service returns is a map from entity id to response. The order of the list is not modelled; the repositories do not fix one.
- Generated identities come from counters `nextTaskId` and `nextProjectId`.

Facts about the code that shape the model:

- `burstSize` is the warm-up period of Guava's `RateLimiter.create(rate, warmup, unit)`, not a burst capacity. The code promises no burst count, and none is modelled.
- The classifier is hard-coded substring matching on three path segments, not a configurable prefix list.
- `ProjectResponse` (src/main/java/com/ross/ese/taskmanager/dto/ProjectResponse.java:12-16) declares four fields, but `convertToProjectResponse` passes five. The model's `ProjectResponse` has the fifth, `taskCount`, as the service computes it.

## Model

| member | source | states |
|---|---|---|
| `JavaStrings.ContainsIffOccurs` | src/main/java/com/ross/ese/taskmanager/security/RateLimitingFilter.java:103-105 | the left-to-right scan used for `contains` succeeds iff the substring occurs at some index |
| `JavaStrings.ContainsInfix` | src/main/java/com/ross/ese/taskmanager/security/RateLimitingFilter.java:103-105 | a segment is found after any prefix and before any suffix: matching is substring, not prefix |
| `JavaStrings.ContainsTransitive` | src/main/java/com/ross/ese/taskmanager/security/RateLimitingFilter.java:103 | a string containing `/api/auth/verify` contains every substring of it |
| `JavaStrings.ContainsChars` | src/main/java/com/ross/ese/taskmanager/security/RateLimitingFilter.java:103-105 | a string that contains `sub` contains every character of `sub` |
| `JavaStrings.SkipLeading` | src/main/java/com/ross/ese/taskmanager/security/RateLimitingFilter.java:116 | the forward scan of `trim` stops at the first index from `st` on holding a kept character, or at the end, having passed only blanks |
| `JavaStrings.SkipTrailing` | src/main/java/com/ross/ese/taskmanager/security/RateLimitingFilter.java:116 | the backward scan of `trim` stops just after the last kept character before `len`, never below `st`, having passed only blanks |
| `JavaStrings.Trim` | src/main/java/com/ross/ese/taskmanager/security/RateLimitingFilter.java:116 | `trim` yields the slice `s[i..j]` with everything before `i` and from `j` on blank and no blank at either end of the slice; an input without blanks is left as it is |
| `JavaStrings.SkipLeadingStopsAt` | src/main/java/com/ross/ese/taskmanager/security/RateLimitingFilter.java:116 | any index with only blanks before it from `st` and a kept character (or the end) at it is where the forward scan stops |
| `JavaStrings.SkipTrailingStopsAt` | src/main/java/com/ross/ese/taskmanager/security/RateLimitingFilter.java:116 | any index with only blanks from it to `len` and a kept character (or `st`) just before it is where the backward scan stops |
| `JavaStrings.TrimOfPadded` | src/main/java/com/ross/ese/taskmanager/security/RateLimitingFilter.java:116 | `trim(p + a + q)` is `a` for blank padding `p`, `q` and an `a` with no blank at either end |
| `JavaStrings.FirstField` | src/main/java/com/ross/ese/taskmanager/security/RateLimitingFilter.java:116 | element 0 of `split(",")` is the comma-free prefix ending at the first comma or at the end |
| `JavaStrings.FirstFieldOfJoin` | src/main/java/com/ross/ese/taskmanager/security/RateLimitingFilter.java:116 | for `w + "," + rest` with a comma-free `w`, the first field is `w` whatever `rest` is |
| `RateLimiting.LimitedIffOccurs` | src/main/java/com/ross/ese/taskmanager/security/RateLimitingFilter.java:102-106 | a path is limited iff `/api/auth/` occurs and `/api/auth/verify` does not, or `/api/users/` occurs, or `/api/admin/` occurs |
| `RateLimiting.PrivilegedSegmentAnywhereIsLimited` | src/main/java/com/ross/ese/taskmanager/security/RateLimitingFilter.java:104-105 | any path holding `/api/users/` or `/api/admin/`, after any prefix, is limited |
| `RateLimiting.AuthSegmentAnywhereIsLimited` | src/main/java/com/ross/ese/taskmanager/security/RateLimitingFilter.java:103 | any path holding `/api/auth/` and not `/api/auth/verify` is limited |
| `RateLimiting.VerifyIsExempt` | src/main/java/com/ross/ese/taskmanager/security/RateLimitingFilter.java:103-105 | a path holding `/api/auth/verify` always holds `/api/auth/`, and is limited only through a users or admin segment |
| `RateLimiting.ShortPathsPass` | src/main/java/com/ross/ese/taskmanager/security/RateLimitingFilter.java:102-106 | a path shorter than `/api/auth/` is never limited |
| `RateLimiting.SignInIsLimited` | src/main/java/com/ross/ese/taskmanager/security/RateLimitingFilter.java:103 | `/api/auth/signin` is limited |
| `RateLimiting.VerifyEndpointPasses` | src/main/java/com/ross/ese/taskmanager/security/RateLimitingFilter.java:103 | `/api/auth/verify` is not limited |
| `RateLimiting.TaskEndpointPasses` | src/main/java/com/ross/ese/taskmanager/security/RateLimitingFilter.java:102-106 | `/api/tasks/1` is not limited |
| `RateLimiting.ClientKey` | src/main/java/com/ross/ese/taskmanager/security/RateLimitingFilter.java:111-117 | no header gives the remote address; with a header it fails iff split yields no element, and otherwise the key is `trim(h[..n])` for the index `n` of the first comma (or the end), so it has no comma and no blank at either end |
| `RateLimiting.ForwardedKeyIsFirstField` | src/main/java/com/ross/ese/taskmanager/security/RateLimitingFilter.java:116 | the key from `first + "," + rest` is `trim(first)`, except that an all-comma header fails |
| `RateLimiting.PaddedHeaderIsKey` | src/main/java/com/ross/ese/taskmanager/security/RateLimitingFilter.java:112-116 | a header holding one comma-free address with blanks around it, such as `" 1.2.3.4 "`, yields that address |
| `RateLimiting.Decide` | src/main/java/com/ross/ese/taskmanager/security/RateLimitingFilter.java:79-88 | allow (and run the chain) iff a permit was acquired; otherwise status 429, the fixed body and `Retry-After` `60`, and the chain does not run |
| `RateLimiting.LookupOrCreate` | src/main/java/com/ross/ese/taskmanager/security/RateLimitingFilter.java:74-75 | afterwards the key is present, every existing entry (with its limiter) is kept, and a new entry gets the new limiter and time `now` |
| `RateLimiting.Touch` | src/main/java/com/ross/ese/taskmanager/security/RateLimitingFilter.java:77 | only the client's timestamp becomes `now`; its limiter and all other entries stay |
| `RateLimiting.AdmitEffect` | src/main/java/com/ross/ese/taskmanager/security/RateLimitingFilter.java:74-77 | after a limited request the client has an entry stamped `now` holding its old limiter or the new one; other clients are untouched |
| `RateLimiting.AdmitKeepsTimestampsMonotone` | src/main/java/com/ross/ese/taskmanager/security/RateLimitingFilter.java:33-42 | with a non-decreasing clock no entry's `lastAccessed` moves backwards |
| `RateLimiting.ExpiredKeys` | src/main/java/com/ross/ese/taskmanager/security/RateLimitingFilter.java:128-129 | the keys removed are exactly those whose `lastAccessed` is strictly before the threshold |
| `RateLimiting.RemoveExpired` | src/main/java/com/ross/ese/taskmanager/security/RateLimitingFilter.java:128-129 | the survivors are the non-expired keys with their entries unchanged; an entry exactly at the threshold survives |
| `RateLimiting.RemovedCount` | src/main/java/com/ross/ese/taskmanager/security/RateLimitingFilter.java:126-131 | `beforeSize - afterSize` equals the number of expired entries and is never negative |
| `RateLimiting.RemoveExpiredIdempotent` | src/main/java/com/ross/ese/taskmanager/security/RateLimitingFilter.java:128-129 | a second cleanup with the same threshold removes nothing |
| `RateLimiting.SurvivesIffRecent` | src/main/java/com/ross/ese/taskmanager/security/RateLimitingFilter.java:125-129 | a client last seen at time `t` survives the reaper iff `t` is not before the threshold |
| `RateLimiting.RateLimitingFilter.constructor` | src/main/java/com/ross/ese/taskmanager/security/RateLimitingFilter.java:45-57 | the registry starts empty, with the configured switch and window |
| `RateLimiting.RateLimitingFilter.DoFilter` | src/main/java/com/ross/ese/taskmanager/security/RateLimitingFilter.java:60-89 | disabled or unlimited path: Pass with the registry unchanged; unusable header: the exception escapes with the registry unchanged; otherwise computeIfAbsent, stamp, and Allow/Deny by the limiter's answer |
| `RateLimiting.RateLimitingFilter.CleanupOldLimiters` | src/main/java/com/ross/ese/taskmanager/security/RateLimitingFilter.java:122-136 | the registry becomes the non-expired entries at `now - expirationMinutes`; the removed count is the number of expired entries |
| `Store.NoTasksOfUnknownProject` | src/main/java/com/ross/ese/taskmanager/repository/TaskRepository.java:29 | while the foreign key holds, a project that is not stored has no tasks |
| `Store.TaskIdsOfProject` | src/main/java/com/ross/ese/taskmanager/repository/TaskRepository.java:29 | exactly the keys of the tasks whose project is the given one |
| `Store.FindByProjectId` | src/main/java/com/ross/ese/taskmanager/repository/TaskRepository.java:29 | exactly the tasks linked to the project, unchanged |
| `Store.FindByStatus` | src/main/java/com/ross/ese/taskmanager/repository/TaskRepository.java:37 | exactly the tasks with the status, unchanged |
| `Store.CountByProjectId` | src/main/java/com/ross/ese/taskmanager/repository/TaskRepository.java:45 | the count is never null, lies between 0 and the number of stored tasks, and is 0 exactly when no task points at the project |
| `Store.CountAfterInsert` | src/main/java/com/ross/ese/taskmanager/service/impl/TaskServiceImpl.java:83 | saving a new task raises only its own project's count, by one |
| `Store.CountAfterRemoval` | src/main/java/com/ross/ese/taskmanager/service/impl/ProjectServiceImpl.java:105-108 | deleting a set of tasks lowers each project's count by the deleted tasks it owned |
| `Store.Database.constructor` | src/main/java/com/ross/ese/taskmanager/service/impl/TaskServiceImpl.java:35-36 | both tables start empty |
| `Store.Database.SaveNewTask` | src/main/java/com/ross/ese/taskmanager/service/impl/TaskServiceImpl.java:83 | a new task gets the next identity; nothing else changes |
| `Store.Database.SaveTask` | src/main/java/com/ross/ese/taskmanager/service/impl/TaskServiceImpl.java:125 | the stored task's row is replaced |
| `Store.Database.DeleteTasks` | src/main/java/com/ross/ese/taskmanager/service/impl/TaskServiceImpl.java:153 | the given tasks are removed and the rest stay |
| `Store.Database.SaveNewProject` | src/main/java/com/ross/ese/taskmanager/service/impl/ProjectServiceImpl.java:62 | a new project gets the next identity |
| `Store.Database.SaveProject` | src/main/java/com/ross/ese/taskmanager/service/impl/ProjectServiceImpl.java:85 | the stored project's row is replaced |
| `Store.Database.DeleteProject` | src/main/java/com/ross/ese/taskmanager/service/impl/ProjectServiceImpl.java:111 | a project no task points at is removed |
| `TaskService.ToTaskResponse` | src/main/java/com/ross/ese/taskmanager/service/impl/TaskServiceImpl.java:176-187 | the response copies the task's fields; `projectId` and `projectName` are null iff the task has no project, else that project's id and name |
| `TaskService.ToTaskResponseInjective` | src/main/java/com/ross/ese/taskmanager/service/impl/TaskServiceImpl.java:176-187 | two tasks with the same response, assignee and creator are equal: the conversion drops nothing else |
| `TaskService.Responses` | src/main/java/com/ross/ese/taskmanager/service/impl/TaskServiceImpl.java:43-45 | one response per task, under the same key |
| `TaskService.GetAllTasks` | src/main/java/com/ross/ese/taskmanager/service/impl/TaskServiceImpl.java:41-46 | one response per stored task, and each is that task's converted response |
| `TaskService.GetTaskById` | src/main/java/com/ross/ese/taskmanager/service/impl/TaskServiceImpl.java:50-56 | NOT_FOUND iff no task has the id; otherwise that task's response |
| `TaskService.GetTasksByStatus` | src/main/java/com/ross/ese/taskmanager/service/impl/TaskServiceImpl.java:168-173 | exactly the tasks with that status, each as its converted response |
| `TaskService.GetTasksByProject` | src/main/java/com/ross/ese/taskmanager/service/impl/TaskServiceImpl.java:159-164 | exactly the project's tasks, each as its converted response; an unknown project gives an empty result, not an error |
| `TaskService.ResolveProject` | src/main/java/com/ross/ese/taskmanager/service/impl/TaskServiceImpl.java:76-81 | a project is linked iff the id is non-null and stored, and then it is that id |
| `TaskService.ApplyTaskUpdateFields` | src/main/java/com/ross/ese/taskmanager/service/impl/TaskServiceImpl.java:103-123 | each of title, description, status, priority and dueDate is the request's value when supplied and the stored value when null; a stored `projectId` replaces the project, a null or unknown one leaves it; id, creation time, assignee and creator stay |
| `TaskService.EmptyUpdateIsIdentity` | src/main/java/com/ross/ese/taskmanager/service/impl/TaskServiceImpl.java:103-123 | an all-null update leaves the task as it was |
| `TaskService.ApplyTaskUpdateIdempotent` | src/main/java/com/ross/ese/taskmanager/service/impl/TaskServiceImpl.java:103-123 | applying an update twice equals applying it once |
| `TaskService.CreateTask` | src/main/java/com/ross/ese/taskmanager/service/impl/TaskServiceImpl.java:65-86 | one new task under the next identity with the request's fields, status TODO, time `now`, and the project only if it is stored; the task counter advances by one; other rows and the project table unchanged |
| `TaskService.UpdateTask` | src/main/java/com/ross/ese/taskmanager/service/impl/TaskServiceImpl.java:96-128 | unknown id: NOT_FOUND and no change; otherwise the task becomes its patched version and nothing else changes |
| `TaskService.DeleteTask` | src/main/java/com/ross/ese/taskmanager/service/impl/TaskServiceImpl.java:136-155 | unknown id: NOT_FOUND and nothing deleted; otherwise exactly that task is removed |
| `TaskService.CreatedTaskIsFound` | src/main/java/com/ross/ese/taskmanager/service/impl/TaskServiceImpl.java:65-86 | the task `CreateTask` stores is found by its id with the request's title, description, priority and due date, status TODO and time `now`, and is listed under TODO |
| `TaskService.CreateRaisesProjectCount` | src/main/java/com/ross/ese/taskmanager/service/impl/TaskServiceImpl.java:76-83 | linking a new task to a project raises that project's count by one and no other project's |
| `ProjectService.ToProjectResponse` | src/main/java/com/ross/ese/taskmanager/service/impl/ProjectServiceImpl.java:115-123 | the response copies the project's fields, and its `taskCount` is the number of tasks linked to it |
| `ProjectService.GetAllProjects` | src/main/java/com/ross/ese/taskmanager/service/impl/ProjectServiceImpl.java:36-41 | one response per stored project |
| `ProjectService.GetProjectById` | src/main/java/com/ross/ese/taskmanager/service/impl/ProjectServiceImpl.java:45-51 | NOT_FOUND iff no project has the id; otherwise that project's response |
| `ProjectService.ApplyProjectUpdateFields` | src/main/java/com/ross/ese/taskmanager/service/impl/ProjectServiceImpl.java:78-83 | name and description change iff the request supplies them; id and creation time stay |
| `ProjectService.WithoutProjectTasks` | src/main/java/com/ross/ese/taskmanager/service/impl/ProjectServiceImpl.java:105-108 | exactly the tasks not linked to the deleted project remain |
| `ProjectService.CascadeEffect` | src/main/java/com/ross/ese/taskmanager/service/impl/ProjectServiceImpl.java:105-111 | after the cascade no task points at the project, other projects keep their counts, and the foreign key still holds without it |
| `ProjectService.CreateProject` | src/main/java/com/ross/ese/taskmanager/service/impl/ProjectServiceImpl.java:55-64 | one new project under the next identity with the request's name and description; its task count is 0; the project counter advances by one; the task table is unchanged |
| `ProjectService.UpdateProject` | src/main/java/com/ross/ese/taskmanager/service/impl/ProjectServiceImpl.java:72-88 | unknown id: NOT_FOUND and no change; otherwise the project becomes its patched version |
| `ProjectService.DeleteProject` | src/main/java/com/ross/ese/taskmanager/service/impl/ProjectServiceImpl.java:98-113 | unknown id: NOT_FOUND and both tables unchanged; otherwise the project's tasks and then the project are removed, and everything else stays |

## Left out

- Guava's `RateLimiter` refill and permit accounting (library code); `tryAcquire` is an oracle parameter, and `requestsPerSecond` and `burstSize` are not modelled.
- Concurrency: the atomicity of `ConcurrentHashMap.computeIfAbsent` and the race between the reaper and a request; calls are sequential.
- The `@Scheduled` hourly trigger of `scheduledCleanup`; `CleanupOldLimiters` is the routine it runs.
- Logging, the servlet request, response and writer, and the `FilterChain` call; they are folded into `Decision`.
- The in-place update of a `RateLimiterEntry` object becomes a new map value. Entries are private to the filter and never shared, so this aliasing is not observable.
- `RateLimiting.RateLimitingFilter.DoFilter`: the entry constructor and `updateLastAccessed` read the clock twice; the model reads it once, so both stamps are `now`.
- Spring caching (`@Cacheable`, `@CacheEvict`, the explicit `cacheManager` evictions in `deleteTask`), `@Transactional`, and JPA query derivation; the repositories are maps.
- That a null `projectId` in `createTask` does not query the project table: the model has no notion of a query.
- Bean validation (`@NotBlank`, `@Size`); request titles and names arrive non-null.
- The authentication, JWT and Supabase code, configuration classes, controllers and the older `backend/` tree.
- The test cases `testDeleteTask_Success`, `testDeleteTask_NotFound` and `testGetTasksByProject_ProjectNotFound`, which stub calls the implementation does not make.
- The text of NOT_FOUND messages; the error carries the entity kind and the id.
