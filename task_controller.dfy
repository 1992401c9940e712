/**
 * The task handlers: create one task, merge fields into one task, delete a list of tasks.
 * Each runs its existence and permission checks in a fixed order, answers with the first
 * that fails, and writes the task table only when all have passed.
 */
module TaskController {
  import opened Store
  import opened Access
  import opened Inngest

  /** The body of POST /api/tasks; an absent field is None. */
  datatype NewTask = NewTask(
    projectId: Option<Id>,
    title: Option<string>,
    description: Option<string>,
    status: Option<string>,
    priority: Option<string>,
    taskType: Option<string>,
    assigneeId: Option<Id>,
    dueDate: Option<Day>)

  /** The row createTask inserts: `assigneeId || null`, and a null due date when none is given. */
  function TaskRow(projectId: Id, req: NewTask): (t: Task)
    ensures t.projectId == projectId
    ensures t.assigneeId.Some? <==> Truthy(req.assigneeId)
    ensures t.assigneeId.Some? ==> t.assigneeId == req.assigneeId
    ensures t.dueDate == req.dueDate
  {
    Task(projectId, req.title, req.description, req.status, req.taskType, req.priority,
         if Truthy(req.assigneeId) then req.assigneeId else None,
         req.dueDate)
  }

  /** Every check of createTask passes: the project exists, the caller leads it, and a truthy
      assignee is one of its members. */
  predicate Admitted(projects: map<Id, Project>, members: seq<ProjectMember>, caller: Id, req: NewTask) {
    req.projectId.Some? && req.projectId.value in projects &&
    IsProjectLead(projects[req.projectId.value], caller) &&
    (Truthy(req.assigneeId) ==> IsProjectMember(members, req.projectId.value, req.assigneeId.value))
  }

  /** createTask. `newId` is the id the database generates for the row; if it were taken the
      insert would throw. After the insert the task is read back and one app/task.assigned
      event is sent with the new id and the request's origin; `afterInsertFails` says whether
      either of those two calls throws. Then the answer is 500, the task row stays, and no
      event has been sent. */
  method CreateTask(db: Database, inngest: EventClient, caller: Id, req: NewTask, origin: Option<string>,
                    newId: Id, afterInsertFails: bool)
    returns (status: int)
    modifies db`tasks, inngest
    // A lookup by an undefined id throws.
    ensures req.projectId.None? ==> status == InternalError
    ensures status == NotFound <==> req.projectId.Some? && req.projectId.value !in old(db.projects)
    ensures status == Forbidden <==>
      req.projectId.Some? && req.projectId.value in old(db.projects) &&
      !IsProjectLead(old(db.projects)[req.projectId.value], caller)
    ensures status == BadRequest <==>
      req.projectId.Some? && req.projectId.value in old(db.projects) &&
      IsProjectLead(old(db.projects)[req.projectId.value], caller) &&
      Truthy(req.assigneeId) && !IsProjectMember(old(db.projectMembers), req.projectId.value, req.assigneeId.value)
    ensures status == Ok <==>
      Admitted(old(db.projects), old(db.projectMembers), caller, req) && newId !in old(db.tasks) && !afterInsertFails
    ensures status in {Ok, BadRequest, Forbidden, NotFound, InternalError}
    // The row is written whenever the insert itself succeeds, even when the answer is 500.
    ensures Admitted(old(db.projects), old(db.projectMembers), caller, req) && newId !in old(db.tasks) ==>
      db.tasks == old(db.tasks)[newId := TaskRow(req.projectId.value, req)]
    ensures !(Admitted(old(db.projects), old(db.projectMembers), caller, req) && newId !in old(db.tasks)) ==>
      db.tasks == old(db.tasks)
    ensures status == Ok ==> inngest.sent == old(inngest.sent) + [TaskAssigned(newId, origin)]
    ensures status != Ok ==> inngest.sent == old(inngest.sent)
    // The stored assignee, if any, is a member of the task's project.
    ensures status == Ok && db.tasks[newId].assigneeId.Some? ==>
      IsProjectMember(db.projectMembers, db.tasks[newId].projectId, db.tasks[newId].assigneeId.value)
  {
    if req.projectId.None? {
      return InternalError;
    }
    var projectId := req.projectId.value;
    if projectId !in db.projects {
      return NotFound;
    }
    var project := db.projects[projectId];
    if !IsProjectLead(project, caller) {
      return Forbidden;
    }
    if Truthy(req.assigneeId) && !IsProjectMember(db.projectMembers, projectId, req.assigneeId.value) {
      return BadRequest;
    }
    if newId in db.tasks {
      return InternalError;
    }
    db.tasks := db.tasks[newId := TaskRow(projectId, req)];
    if afterInsertFails {
      return InternalError;
    }
    inngest.Send(TaskAssigned(newId, origin));
    return Ok;
  }

  /** The body of PUT /api/tasks/:id, passed whole as the update's data: a field present in
      the body (Some) is written, an absent one is left alone. The assignee and the due date
      may be set to null. */
  datatype TaskPatch = TaskPatch(
    projectId: Option<Id>,
    title: Option<Option<string>>,
    description: Option<Option<string>>,
    status: Option<Option<string>>,
    priority: Option<Option<string>>,
    taskType: Option<Option<string>>,
    assigneeId: Option<Option<Id>>,
    dueDate: Option<Option<Day>>)

  const EmptyPatch := TaskPatch(None, None, None, None, None, None, None, None)

  function Overwrite<T>(current: T, given: Option<T>): T {
    if given.Some? then given.value else current
  }

  /** The task after `prisma.task.update({ data: body })`. */
  function Merge(t: Task, p: TaskPatch): Task {
    Task(Overwrite(t.projectId, p.projectId),
         Overwrite(t.title, p.title),
         Overwrite(t.description, p.description),
         Overwrite(t.status, p.status),
         Overwrite(t.taskType, p.taskType),
         Overwrite(t.priority, p.priority),
         Overwrite(t.assigneeId, p.assigneeId),
         Overwrite(t.dueDate, p.dueDate))
  }

  /** A field absent from the body keeps its value; a present one takes the body's. */
  lemma MergeWritesExactlyThePresentFields(t: Task, p: TaskPatch)
    ensures p.projectId.None? ==> Merge(t, p).projectId == t.projectId
    ensures p.projectId.Some? ==> Merge(t, p).projectId == p.projectId.value
    ensures p.title.None? ==> Merge(t, p).title == t.title
    ensures p.title.Some? ==> Merge(t, p).title == p.title.value
    ensures p.description.None? ==> Merge(t, p).description == t.description
    ensures p.description.Some? ==> Merge(t, p).description == p.description.value
    ensures p.status.None? ==> Merge(t, p).status == t.status
    ensures p.status.Some? ==> Merge(t, p).status == p.status.value
    ensures p.priority.None? ==> Merge(t, p).priority == t.priority
    ensures p.priority.Some? ==> Merge(t, p).priority == p.priority.value
    ensures p.taskType.None? ==> Merge(t, p).taskType == t.taskType
    ensures p.taskType.Some? ==> Merge(t, p).taskType == p.taskType.value
    ensures p.assigneeId.None? ==> Merge(t, p).assigneeId == t.assigneeId
    ensures p.assigneeId.Some? ==> Merge(t, p).assigneeId == p.assigneeId.value
    ensures p.dueDate.None? ==> Merge(t, p).dueDate == t.dueDate
    ensures p.dueDate.Some? ==> Merge(t, p).dueDate == p.dueDate.value
    ensures Merge(t, EmptyPatch) == t
    ensures Merge(Merge(t, p), p) == Merge(t, p)
  {
  }

  /** updateTask. The task is looked up before anything else, so a missing task answers 404
      whoever asks. The assignee in the body is not checked against the project's members. */
  method UpdateTask(db: Database, caller: Id, taskId: Id, body: TaskPatch) returns (status: int)
    modifies db`tasks
    ensures status == NotFound <==>
      taskId !in old(db.tasks) || old(db.tasks)[taskId].projectId !in old(db.projects)
    ensures status == Forbidden <==>
      taskId in old(db.tasks) && old(db.tasks)[taskId].projectId in old(db.projects) &&
      !IsProjectLead(old(db.projects)[old(db.tasks)[taskId].projectId], caller)
    ensures status == Ok <==>
      taskId in old(db.tasks) && old(db.tasks)[taskId].projectId in old(db.projects) &&
      IsProjectLead(old(db.projects)[old(db.tasks)[taskId].projectId], caller)
    ensures status in {Ok, Forbidden, NotFound}
    ensures status != Ok ==> db.tasks == old(db.tasks)
    ensures status == Ok ==> db.tasks == old(db.tasks)[taskId := Merge(old(db.tasks)[taskId], body)]
  {
    if taskId !in db.tasks {
      return NotFound;
    }
    var task := db.tasks[taskId];
    if task.projectId !in db.projects {
      return NotFound;
    }
    var project := db.projects[task.projectId];
    if !IsProjectLead(project, caller) {
      return Forbidden;
    }
    db.tasks := db.tasks[taskId := Merge(task, body)];
    return Ok;
  }

  /** Whether `where: { id: { in: taskIds } }` selects the id. Prisma reads an absent list as
      no filter, so every task is selected. */
  predicate Selects(taskIds: Option<seq<Id>>, id: Id) {
    taskIds.None? || id in taskIds.value
  }

  /** `tasks[0]` of `findMany({ where: { id: { in: taskIds } } })`: the first id, in the order
      `rowOrder` in which the database yields the task table, that names a selected task. */
  function FirstFound(rowOrder: seq<Id>, taskIds: Option<seq<Id>>, tasks: map<Id, Task>): (r: Option<Id>)
    ensures r.None? <==> forall i :: 0 <= i < |rowOrder| ==> rowOrder[i] !in tasks || !Selects(taskIds, rowOrder[i])
    ensures r.Some? ==> r.value in tasks && Selects(taskIds, r.value)
    ensures r.Some? ==> exists k :: 0 <= k < |rowOrder| && rowOrder[k] == r.value &&
                                   forall i :: 0 <= i < k ==> rowOrder[i] !in tasks || !Selects(taskIds, rowOrder[i])
  {
    if rowOrder == [] then None
    else if rowOrder[0] in tasks && Selects(taskIds, rowOrder[0]) then Some(rowOrder[0])
    else
      var r := FirstFound(rowOrder[1..], taskIds, tasks);
      assert r.Some? ==> exists k :: 0 <= k < |rowOrder| && rowOrder[k] == r.value &&
                                    forall i :: 0 <= i < k ==> rowOrder[i] !in tasks || !Selects(taskIds, rowOrder[i]) by {
        if r.Some? {
          var k :| 0 <= k < |rowOrder[1..]| && rowOrder[1..][k] == r.value &&
                   forall i :: 0 <= i < k ==> rowOrder[1..][i] !in tasks || !Selects(taskIds, rowOrder[1..][i]);
          assert rowOrder[k + 1] == r.value;
          forall i | 0 <= i < k + 1 ensures rowOrder[i] !in tasks || !Selects(taskIds, rowOrder[i]) {
            if i > 0 { assert rowOrder[i] == rowOrder[1..][i - 1]; }
          }
        }
      }
      r
  }

  /** When `rowOrder` lists every task, nothing is found exactly when no task is selected. */
  lemma NothingFoundIffNoneSelected(rowOrder: seq<Id>, taskIds: Option<seq<Id>>, tasks: map<Id, Task>)
    requires forall id :: id in tasks ==> id in rowOrder
    ensures FirstFound(rowOrder, taskIds, tasks).None? <==> forall id :: id in tasks ==> !Selects(taskIds, id)
  {
  }

  /** The task table after `deleteMany({ where: { id: { in: taskIds } } })`. */
  function WithoutTasks(tasks: map<Id, Task>, taskIds: Option<seq<Id>>): (r: map<Id, Task>)
    ensures taskIds.None? ==> r == map[]
    ensures taskIds.Some? ==> r.Keys == tasks.Keys - set i | 0 <= i < |taskIds.value| :: taskIds.value[i]
    ensures forall id :: id in r ==> r[id] == tasks[id]
  {
    map id | id in tasks && !Selects(taskIds, id) :: tasks[id]
  }

  /** deleteTask. `rowOrder` is the order in which the database yields the task table, so it
      lists every task. 404 only when no task is selected. Permission is checked against the
      project of the first selected row alone; once it passes, every selected task is deleted,
      whichever project it belongs to. */
  method DeleteTask(db: Database, caller: Id, taskIds: Option<seq<Id>>, rowOrder: seq<Id>) returns (status: int)
    requires forall id :: id in db.tasks ==> id in rowOrder
    modifies db`tasks
    ensures (forall id :: id in old(db.tasks) ==> !Selects(taskIds, id)) ==> status == NotFound
    ensures status == Forbidden <==>
      var first := FirstFound(rowOrder, taskIds, old(db.tasks));
      first.Some? && old(db.tasks)[first.value].projectId in old(db.projects) &&
      !IsProjectLead(old(db.projects)[old(db.tasks)[first.value].projectId], caller)
    ensures status == Ok <==>
      var first := FirstFound(rowOrder, taskIds, old(db.tasks));
      first.Some? && old(db.tasks)[first.value].projectId in old(db.projects) &&
      IsProjectLead(old(db.projects)[old(db.tasks)[first.value].projectId], caller)
    ensures status in {Ok, Forbidden, NotFound}
    ensures status != Ok ==> db.tasks == old(db.tasks)
    ensures status == Ok ==> db.tasks == WithoutTasks(old(db.tasks), taskIds)
  {
    NothingFoundIffNoneSelected(rowOrder, taskIds, db.tasks);
    var first := FirstFound(rowOrder, taskIds, db.tasks);
    if first.None? {
      return NotFound;
    }
    var projectId := db.tasks[first.value].projectId;
    if projectId !in db.projects {
      return NotFound;
    }
    if !IsProjectLead(db.projects[projectId], caller) {
      return Forbidden;
    }
    db.tasks := WithoutTasks(db.tasks, taskIds);
    return Ok;
  }

  /** The project checked is that of the row the database yields first, not of the first id
      listed; and once the lead of that project passes, a listed task of another project is
      deleted too. */
  lemma DeleteCrossesProjects(tasks: map<Id, Task>, a: Id, b: Id)
    requires a != b && a in tasks && b in tasks
    requires tasks[a].projectId != tasks[b].projectId
    ensures FirstFound([a, b], Some([b, a]), tasks) == Some(a)
    ensures a !in WithoutTasks(tasks, Some([b, a])) && b !in WithoutTasks(tasks, Some([b, a]))
  {
  }

  /** A body without `taskIds` selects every task: unless the table is empty, the first row is
      found, and a caller who leads its project empties the whole task table. */
  lemma DeleteWithoutListSelectsAll(tasks: map<Id, Task>, rowOrder: seq<Id>)
    requires forall id :: id in tasks ==> id in rowOrder
    requires tasks != map[]
    ensures FirstFound(rowOrder, None, tasks).Some?
    ensures WithoutTasks(tasks, None) == map[]
  {
  }
}
