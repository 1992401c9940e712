/**
 * The background functions registered with the event platform: seven handlers that
 * mirror identity-provider events into the store, and the task-assignment workflow
 * that mails the assignee and, once the due day has come, reminds them.
 *
 * A handler whose database call throws ends in `Failed` (the platform records the
 * run as failed); the model leaves the platform's retries out.
 */
module Inngest {
  import opened Store
  import opened Access
  import opened WorkspaceController

  /** An event the application sends to the platform. */
  datatype Event = TaskAssigned(taskId: Id, origin: Option<string>)

  /** The client that delivers events to the platform: what it has been given, in order. */
  class EventClient {
    var sent: seq<Event>

    constructor ()
      ensures sent == []
    {
      sent := [];
    }

    method Send(e: Event)
      modifies this
      ensures sent == old(sent) + [e]
    {
      sent := sent + [e];
    }
  }

  datatype MailKind = Assigned | Reminder

  /** A mail as far as the model observes it: recipient, which of the two mails, and its link target. */
  datatype Mail = Mail(to: string, kind: MailKind, link: string)

  /** The mail transport: every mail handed to it, in order. */
  class Mailer {
    var outbox: seq<Mail>

    constructor ()
      ensures outbox == []
    {
      outbox := [];
    }

    method Send(m: Mail)
      modifies this
      ensures outbox == old(outbox) + [m]
    {
      outbox := outbox + [m];
    }
  }

  datatype RunResult = Completed | Failed

  // ---------------------------------------------------------------------------------
  // User synchronisation
  // ---------------------------------------------------------------------------------

  /** The part of a user event that the handlers read. A missing first or last name
      arrives as null. */
  datatype UserData = UserData(
    id: Id,
    emailAddresses: seq<string>,
    firstName: Option<string>,
    lastName: Option<string>,
    imageUrl: string)

  /** How string concatenation renders a possibly-null operand. */
  function JsText(s: Option<string>): string {
    if s.Some? then s.value else "null"
  }

  /** `first_name + ' ' + last_name`. */
  function FullName(data: UserData): (r: string)
    ensures |r| == |JsText(data.firstName)| + 1 + |JsText(data.lastName)|
    ensures r[..|JsText(data.firstName)|] == JsText(data.firstName)
    ensures r[|JsText(data.firstName)|] == ' '
    ensures r[|JsText(data.firstName)| + 1..] == JsText(data.lastName)
  {
    JsText(data.firstName) + " " + JsText(data.lastName)
  }

  /** clerk/user.created: insert the user. The first address is the e-mail; with no address the
      required column is missing, and a taken id or e-mail violates a unique column. */
  method SyncUserCreation(db: Database, data: UserData) returns (r: RunResult)
    modifies db`users
    ensures r == Completed <==>
      data.emailAddresses != [] &&
      FindUser(old(db.users), data.id).None? &&
      FindUserByEmail(old(db.users), data.emailAddresses[0]).None?
    ensures r == Completed ==>
      db.users == old(db.users) + [User(data.id, data.emailAddresses[0], FullName(data), data.imageUrl)]
    ensures r == Failed ==> db.users == old(db.users)
    ensures UniqueUsers(old(db.users)) ==> UniqueUsers(db.users)
  {
    if data.emailAddresses == [] {
      return Failed;
    }
    var email := data.emailAddresses[0];
    if FindUser(db.users, data.id).Some? || FindUserByEmail(db.users, email).Some? {
      return Failed;
    }
    ghost var before := db.users;
    var u := User(data.id, email, FullName(data), data.imageUrl);
    db.users := db.users + [u];
    assert forall i :: 0 <= i < |before| ==> before[i] in before;
    return Completed;
  }

  /** The user table without the rows whose id is `id`, in the same order. */
  function WithoutUser(users: seq<User>, id: Id): (r: seq<User>)
    ensures forall u :: u in r <==> u in users && u.id != id
    ensures |r| <= |users|
  {
    if users == [] then []
    else
      assert forall u :: u in users ==> u == users[0] || u in users[1..];
      var rest := WithoutUser(users[1..], id);
      if users[0].id == id then rest else [users[0]] + rest
  }

  lemma {:induction false} WithoutUserKeepsUnique(users: seq<User>, id: Id)
    requires UniqueUsers(users)
    ensures UniqueUsers(WithoutUser(users, id))
  {
    if users != [] {
      var tail := users[1..];
      assert UniqueUsers(tail) by {
        forall i, j | 0 <= i < j < |tail|
          ensures tail[i].id != tail[j].id && tail[i].email != tail[j].email
        {
          assert tail[i] == users[i + 1] && tail[j] == users[j + 1];
        }
      }
      WithoutUserKeepsUnique(tail, id);
      var rest := WithoutUser(tail, id);
      if users[0].id != id {
        var r := [users[0]] + rest;
        forall i, j | 0 <= i < j < |r|
          ensures r[i].id != r[j].id && r[i].email != r[j].email
        {
          if i == 0 {
            assert r[j] in tail;
            var k :| 0 <= k < |tail| && tail[k] == r[j];
            assert users[k + 1] == r[j];
          } else {
            assert r[i] == rest[i - 1] && r[j] == rest[j - 1];
          }
        }
      }
    }
  }

  /** clerk/user.deleted: delete the user; deleting a missing row throws. */
  method SyncUserDeletion(db: Database, id: Id) returns (r: RunResult)
    modifies db`users
    ensures r == Completed <==> FindUser(old(db.users), id).Some?
    ensures r == Completed ==> db.users == WithoutUser(old(db.users), id)
    ensures r == Failed ==> db.users == old(db.users)
    ensures UniqueUsers(old(db.users)) ==> UniqueUsers(db.users)
  {
    if FindUser(db.users, id).None? {
      return Failed;
    }
    ghost var before := db.users;
    db.users := WithoutUser(db.users, id);
    if UniqueUsers(before) {
      WithoutUserKeepsUnique(before, id);
    }
    return Completed;
  }

  /** The user table with every row whose id is `id` rewritten; `email` None keeps the old address. */
  function WithUserUpdated(users: seq<User>, id: Id, email: Option<string>, name: string, image: string): (r: seq<User>)
    ensures |r| == |users|
    ensures forall i :: 0 <= i < |users| && users[i].id != id ==> r[i] == users[i]
    ensures forall i :: 0 <= i < |users| && users[i].id == id ==>
      r[i] == User(id, email.GetOr(users[i].email), name, image)
  {
    seq(|users|, i requires 0 <= i < |users| =>
      if users[i].id == id then User(id, email.GetOr(users[i].email), name, image) else users[i])
  }

  /** clerk/user.updated: overwrite e-mail, name and image of the user. An event without an
      address leaves the e-mail as it is (the field is undefined in the update). */
  method SyncUserUpdation(db: Database, data: UserData) returns (r: RunResult)
    modifies db`users
    ensures r == Completed <==>
      FindUser(old(db.users), data.id).Some? &&
      (data.emailAddresses != [] ==>
        forall u :: u in old(db.users) && u.email == data.emailAddresses[0] ==> u.id == data.id)
    ensures r == Completed ==>
      db.users == WithUserUpdated(old(db.users), data.id,
        if data.emailAddresses != [] then Some(data.emailAddresses[0]) else None,
        FullName(data), data.imageUrl)
    ensures r == Failed ==> db.users == old(db.users)
    ensures UniqueUsers(old(db.users)) ==> UniqueUsers(db.users)
  {
    if FindUser(db.users, data.id).None? {
      return Failed;
    }
    var email: Option<string> := None;
    if data.emailAddresses != [] {
      email := Some(data.emailAddresses[0]);
      if exists u :: u in db.users && u.email == email.value && u.id != data.id {
        return Failed;
      }
    }
    ghost var before := db.users;
    db.users := WithUserUpdated(db.users, data.id, email, FullName(data), data.imageUrl);
    if UniqueUsers(before) {
      forall i, j | 0 <= i < j < |db.users|
        ensures db.users[i].id != db.users[j].id && db.users[i].email != db.users[j].email
      {
        assert before[i] in before && before[j] in before;
      }
    }
    return Completed;
  }

  // ---------------------------------------------------------------------------------
  // Workspace synchronisation
  // ---------------------------------------------------------------------------------

  datatype OrganizationData = OrganizationData(id: Id, name: string, slug: string, createdBy: Id, imageUrl: string)

  /** clerk/organization.created: insert the workspace, then its creator as ADMIN member.
      A taken id makes the first insert throw; `memberInsertFails` says whether the database
      refuses the second insert (say, the creator's user row is not mirrored yet). The handler
      catches and logs either error, so the run completes with what was written so far. */
  method SyncWorkspaceCreation(db: Database, data: OrganizationData, memberInsertFails: bool)
    modifies db`workspaces, db`workspaceMembers
    ensures data.id in old(db.workspaces) ==>
      db.workspaces == old(db.workspaces) && db.workspaceMembers == old(db.workspaceMembers)
    ensures data.id !in old(db.workspaces) ==>
      db.workspaces == old(db.workspaces)[data.id := Workspace(data.name, data.slug, data.createdBy, data.imageUrl)]
    ensures data.id !in old(db.workspaces) && !memberInsertFails ==>
      db.workspaceMembers == old(db.workspaceMembers) + [WorkspaceMember(data.createdBy, data.id, Admin, None)]
    ensures data.id !in old(db.workspaces) && memberInsertFails ==> db.workspaceMembers == old(db.workspaceMembers)
    // Once both inserts succeed, the creator administers the workspace and sees it in getWorkspaces.
    ensures data.id !in old(db.workspaces) && !memberInsertFails ==>
      IsWorkspaceAdmin(db.workspaceMembers, data.id, data.createdBy) &&
      data.id in GetWorkspaces(db, data.createdBy)
  {
    if data.id in db.workspaces {
      return;
    }
    db.workspaces := db.workspaces[data.id := Workspace(data.name, data.slug, data.createdBy, data.imageUrl)];
    if memberInsertFails {
      return;
    }
    var admin := WorkspaceMember(data.createdBy, data.id, Admin, None);
    db.workspaceMembers := db.workspaceMembers + [admin];
    assert admin in db.workspaceMembers;
  }

  /** Delivering organization.created twice leaves the store as the first delivery does. */
  method SyncWorkspaceCreationRedelivered(db: Database, data: OrganizationData, firstFails: bool, secondFails: bool)
    modifies db`workspaces, db`workspaceMembers
    ensures data.id in old(db.workspaces) ==>
      db.workspaces == old(db.workspaces) && db.workspaceMembers == old(db.workspaceMembers)
    ensures data.id !in old(db.workspaces) ==>
      db.workspaces == old(db.workspaces)[data.id := Workspace(data.name, data.slug, data.createdBy, data.imageUrl)] &&
      db.workspaceMembers == old(db.workspaceMembers) +
        if firstFails then [] else [WorkspaceMember(data.createdBy, data.id, Admin, None)]
  {
    SyncWorkspaceCreation(db, data, firstFails);
    SyncWorkspaceCreation(db, data, secondFails);
  }

  /** clerk/organization.updated: overwrite name, slug and image; updating a missing row throws. */
  method SyncWorkspaceUpdation(db: Database, data: OrganizationData) returns (r: RunResult)
    modifies db`workspaces
    ensures r == Completed <==> data.id in old(db.workspaces)
    ensures r == Completed ==>
      db.workspaces == old(db.workspaces)[data.id :=
        old(db.workspaces)[data.id].(name := data.name, slug := data.slug, imageUrl := data.imageUrl)]
    ensures r == Failed ==> db.workspaces == old(db.workspaces)
  {
    if data.id !in db.workspaces {
      return Failed;
    }
    var w := db.workspaces[data.id];
    db.workspaces := db.workspaces[data.id := w.(name := data.name, slug := data.slug, imageUrl := data.imageUrl)];
    return Completed;
  }

  /** clerk/organization.deleted: delete the workspace; deleting a missing row throws. */
  method SyncWorkspaceDeletion(db: Database, id: Id) returns (r: RunResult)
    modifies db`workspaces
    ensures r == Completed <==> id in old(db.workspaces)
    ensures db.workspaces == old(db.workspaces) - {id}
  {
    if id !in db.workspaces {
      return Failed;
    }
    db.workspaces := db.workspaces - {id};
    return Completed;
  }

  /** `toUpperCase` on one character; the model covers the ASCII letters. */
  function UpperChar(c: char): char {
    if 'a' <= c <= 'z' then (c as int - 32) as char else c
  }

  function ToUpper(s: string): (r: string)
    ensures |r| == |s|
    ensures forall i :: 0 <= i < |s| ==> r[i] == UpperChar(s[i])
  {
    if s == [] then [] else [UpperChar(s[0])] + ToUpper(s[1..])
  }

  datatype InvitationData = InvitationData(userId: Id, organizationId: Id, roleName: string)

  /** clerk/organizationInvitation.accepted: insert a member row whose role is the role name
      upper-cased. A name that is neither ADMIN nor MEMBER once upper-cased is refused by the
      role column's enumeration. */
  method SyncWorkspaceMemberCreation(db: Database, data: InvitationData) returns (r: RunResult)
    modifies db`workspaceMembers
    ensures r == Completed <==> ToUpper(data.roleName) in {"ADMIN", "MEMBER"}
    ensures r == Completed ==>
      db.workspaceMembers == old(db.workspaceMembers) +
        [WorkspaceMember(data.userId, data.organizationId,
                         if ToUpper(data.roleName) == "ADMIN" then Admin else Member, None)]
    ensures r == Failed ==> db.workspaceMembers == old(db.workspaceMembers)
  {
    var role := ParseRole(ToUpper(data.roleName));
    if role.None? {
      return Failed;
    }
    db.workspaceMembers := db.workspaceMembers + [WorkspaceMember(data.userId, data.organizationId, role.value, None)];
    return Completed;
  }

  // ---------------------------------------------------------------------------------
  // app/task.assigned
  // ---------------------------------------------------------------------------------

  /** `task?.assignee?.email`: present when the task exists, has an assignee, and that user exists. */
  function AssigneeEmail(tasks: map<Id, Task>, users: seq<User>, taskId: Id): (r: Option<string>)
    ensures r.Some? ==> taskId in tasks && tasks[taskId].assigneeId.Some?
    // The address is the assignee's own.
    ensures r.Some? ==> exists u :: u in users && u.id == tasks[taskId].assigneeId.value && u.email == r.value
    ensures r.Some? <==>
      taskId in tasks && tasks[taskId].assigneeId.Some? &&
      exists u :: u in users && u.id == tasks[taskId].assigneeId.value
  {
    if taskId in tasks && tasks[taskId].assigneeId.Some? then EmailOf(users, tasks[taskId].assigneeId.value)
    else None
  }

  /** `new Date(task.due_date)` by day: a null due date is the epoch, day 0. */
  function DueDay(t: Task): (d: Day)
    ensures t.dueDate.Some? ==> d == t.dueDate.value
    ensures t.dueDate.None? ==> d == 0
  {
    t.dueDate.GetOr(0)
  }

  /** The link target of both mails: the event's origin, else the configured client URL, else "". */
  function AppOrigin(origin: Option<string>, clientUrl: Option<string>): (r: string)
    ensures Truthy(origin) ==> r == origin.value
    ensures !Truthy(origin) && Truthy(clientUrl) ==> r == clientUrl.value
    ensures !Truthy(origin) && !Truthy(clientUrl) ==> r == ""
  {
    OrElse(origin, OrElse(clientUrl, ""))
  }

  /** The workflow suspends exactly when it has mailed the assignee and the due day is not today. */
  predicate Sleeps(before: Tables, taskId: Id, today: Day) {
    Truthy(AssigneeEmail(before.tasks, before.users, taskId)) && DueDay(before.tasks[taskId]) != today
  }

  /** The store the workflow sees when it reloads the task. */
  function AtResume(before: Tables, resumed: Tables, taskId: Id, today: Day): Tables {
    if Sleeps(before, taskId, today) then resumed else before
  }

  /** What the reload step finds. */
  datatype Reload = TaskGone | TaskCompleted | AssigneeMissing | Remind(to: string)

  function ReloadTask(s: Tables, taskId: Id): (r: Reload)
    ensures r == TaskGone <==> taskId !in s.tasks
    ensures r == TaskCompleted <==> taskId in s.tasks && s.tasks[taskId].status == Some("completed")
    ensures r.Remind? <==>
      taskId in s.tasks && s.tasks[taskId].status != Some("completed") &&
      AssigneeEmail(s.tasks, s.users, taskId).Some?
    ensures r.Remind? ==> r.to == AssigneeEmail(s.tasks, s.users, taskId).value
  {
    if taskId !in s.tasks then TaskGone
    else if s.tasks[taskId].status == Some("completed") then TaskCompleted
    else
      var email := AssigneeEmail(s.tasks, s.users, taskId);
      if email.Some? then Remind(email.value) else AssigneeMissing
  }

  /** Every mail the workflow sends for one event, given the store when it starts and the
      store as other requests have left it when it wakes up. */
  function AssignmentMails(before: Tables, resumed: Tables, ev: Event, today: Day, clientUrl: Option<string>): (r: seq<Mail>)
    ensures |r| <= 2
    ensures r == [] <==> !Truthy(AssigneeEmail(before.tasks, before.users, ev.taskId))
    ensures r != [] ==> r[0] == Mail(AssigneeEmail(before.tasks, before.users, ev.taskId).value, Assigned, AppOrigin(ev.origin, clientUrl))
    ensures |r| == 2 <==> r != [] && ReloadTask(AtResume(before, resumed, ev.taskId, today), ev.taskId).Remind?
    ensures |r| == 2 ==> r[1] == Mail(ReloadTask(AtResume(before, resumed, ev.taskId, today), ev.taskId).to, Reminder, r[0].link)
  {
    var email := AssigneeEmail(before.tasks, before.users, ev.taskId);
    if !Truthy(email) then []
    else
      var link := AppOrigin(ev.origin, clientUrl);
      var reload := ReloadTask(AtResume(before, resumed, ev.taskId, today), ev.taskId);
      [Mail(email.value, Assigned, link)] + if reload.Remind? then [Mail(reload.to, Reminder, link)] else []
  }

  /** `step.sleepUntil`: the run is suspended, and other requests change the store
      until it resumes in the state `resumed`. */
  method SleepUntil(db: Database, until: Day, resumed: Tables)
    modifies db
    ensures db.State() == resumed
  {
    db.users, db.workspaces, db.workspaceMembers := resumed.users, resumed.workspaces, resumed.workspaceMembers;
    db.projects, db.projectMembers := resumed.projects, resumed.projectMembers;
    db.tasks, db.comments := resumed.tasks, resumed.comments;
  }

  /** app/task.assigned: mail the assignee, sleep until the due day unless it is today,
      reload the task and remind the assignee unless the task is completed. */
  method SendTaskAssignmentEmail(db: Database, mailer: Mailer, ev: Event, today: Day, clientUrl: Option<string>, resumed: Tables)
    returns (r: RunResult)
    modifies db, mailer
    ensures mailer.outbox == old(mailer.outbox) + AssignmentMails(old(db.State()), resumed, ev, today, clientUrl)
    ensures db.State() == AtResume(old(db.State()), resumed, ev.taskId, today)
    ensures r == Failed <==>
      Truthy(AssigneeEmail(old(db.tasks), old(db.users), ev.taskId)) &&
      ReloadTask(AtResume(old(db.State()), resumed, ev.taskId, today), ev.taskId) == AssigneeMissing
  {
    var email := AssigneeEmail(db.tasks, db.users, ev.taskId);
    if !Truthy(email) {
      return Completed;
    }
    var task := db.tasks[ev.taskId];
    var appOrigin := AppOrigin(ev.origin, clientUrl);
    mailer.Send(Mail(email.value, Assigned, appOrigin));

    if DueDay(task) != today {
      SleepUntil(db, DueDay(task), resumed);
    }

    if ev.taskId !in db.tasks {
      return Completed;
    }
    var latest := db.tasks[ev.taskId];
    if latest.status != Some("completed") {
      var to := AssigneeEmail(db.tasks, db.users, ev.taskId);
      if to.None? {
        // `latestTask.assignee` is null, so reading its e-mail throws and the step fails.
        return Failed;
      }
      mailer.Send(Mail(to.value, Reminder, appOrigin));
    }
    return Completed;
  }
}
