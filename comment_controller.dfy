/**
 * The comment handlers: add a comment to a task (members of the task's project only), and
 * list the comments of a task.
 */
module CommentController {
  import opened Store
  import opened Access

  /** addComment. The task is looked up but never checked: for a missing task, reading its
      `projectId` throws and the answer is 500, not 404. `newId` is the id the database
      generates for the comment. */
  method AddComment(db: Database, caller: Id, taskId: Id, content: string, newId: Id) returns (status: int)
    modifies db`comments
    ensures taskId !in old(db.tasks) ==> status == InternalError
    ensures status == NotFound <==> taskId in old(db.tasks) && old(db.tasks)[taskId].projectId !in old(db.projects)
    ensures status == Forbidden <==>
      taskId in old(db.tasks) && old(db.tasks)[taskId].projectId in old(db.projects) &&
      !IsProjectMember(old(db.projectMembers), old(db.tasks)[taskId].projectId, caller)
    ensures status == Ok <==>
      taskId in old(db.tasks) && old(db.tasks)[taskId].projectId in old(db.projects) &&
      IsProjectMember(old(db.projectMembers), old(db.tasks)[taskId].projectId, caller) &&
      newId !in old(db.comments)
    ensures status in {Ok, Forbidden, NotFound, InternalError}
    ensures status != Ok ==> db.comments == old(db.comments)
    ensures status == Ok ==> db.comments == old(db.comments)[newId := Comment(taskId, caller, content)]
    // The author of a stored comment is a member of the task's project.
    ensures status == Ok ==>
      IsProjectMember(db.projectMembers, db.tasks[db.comments[newId].taskId].projectId, db.comments[newId].userId)
    // getComments for the task then lists exactly the comments it listed before and the new one.
    ensures status == Ok ==>
      GetComments(db, taskId) == old(GetComments(db, taskId))[newId := Comment(taskId, caller, content)]
    ensures status != Ok ==> GetComments(db, taskId) == old(GetComments(db, taskId))
  {
    if taskId !in db.tasks {
      return InternalError;
    }
    var task := db.tasks[taskId];
    if task.projectId !in db.projects {
      return NotFound;
    }
    if !IsProjectMember(db.projectMembers, task.projectId, caller) {
      return Forbidden;
    }
    if newId in db.comments {
      return InternalError;
    }
    db.comments := db.comments[newId := Comment(taskId, caller, content)];
    return Ok;
  }

  /** getComments: the comments whose task is `taskId`. Any caller may ask. */
  function GetComments(db: Database, taskId: Id): (r: map<Id, Comment>)
    reads db
    ensures forall id :: id in r <==> id in db.comments && db.comments[id].taskId == taskId
    ensures forall id :: id in r ==> r[id] == db.comments[id]
  {
    map id | id in db.comments && db.comments[id].taskId == taskId :: db.comments[id]
  }
}
