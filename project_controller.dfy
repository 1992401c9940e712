/**
 * The project handlers: create a project (workspace admins only), update it (workspace
 * admin or team lead), and add one member to it (team lead only).
 */
module ProjectController {
  import opened Store
  import opened Access

  /** The body of POST /api/projects; `teamMembers` lists e-mail addresses (absent: empty),
      `teamLead` is the lead's e-mail address. */
  datatype NewProject = NewProject(
    workspaceId: Option<Id>,
    name: Option<string>,
    description: Option<string>,
    status: Option<string>,
    startDate: Option<Day>,
    endDate: Option<Day>,
    teamMembers: seq<string>,
    teamLead: Option<string>,
    progress: Option<int>,
    priority: Option<string>)

  /** The user id a `team_lead` e-mail resolves to: none when no address is given or no user has it. */
  function LeadId(users: seq<User>, teamLead: Option<string>): (r: Option<Id>)
    ensures r.Some? ==> Truthy(teamLead) && exists u :: u in users && u.email == teamLead.value && u.id == r.value
    ensures r.None? <==> !Truthy(teamLead) || forall u :: u in users ==> u.email != teamLead.value
  {
    if !Truthy(teamLead) then None
    else
      var u := FindUserByEmail(users, teamLead.value);
      if u.Some? then Some(u.value.id) else None
  }

  /** The ids createProject collects: the workspace members, in table order, whose user's
      e-mail is listed. */
  function Selected(members: seq<WorkspaceMember>, users: seq<User>, emails: seq<string>): (r: seq<Id>)
    ensures |r| <= |members|
    ensures forall id :: id in r <==>
      exists m :: m in members && m.userId == id && EmailOf(users, id).Some? && EmailOf(users, id).value in emails
  {
    if members == [] then []
    else
      var n := |members| - 1;
      assert forall m :: m in members <==> m in members[..n] || m == members[n] by {
        assert members == members[..n] + [members[n]];
      }
      var rest := Selected(members[..n], users, emails);
      var e := EmailOf(users, members[n].userId);
      if e.Some? && e.value in emails then rest + [members[n].userId] else rest
  }

  /** With no e-mail listed the loop collects nothing, so skipping it changes nothing. */
  lemma {:induction false} NothingListedNothingSelected(members: seq<WorkspaceMember>, users: seq<User>, emails: seq<string>)
    requires |emails| == 0
    ensures Selected(members, users, emails) == []
  {
    if members != [] {
      NothingListedNothingSelected(members[..|members| - 1], users, emails);
    }
  }

  /** The `forEach` of createProject that fills `membersToAdd`. */
  method MembersToAdd(members: seq<WorkspaceMember>, users: seq<User>, teamMembers: seq<string>) returns (ids: seq<Id>)
    ensures ids == Selected(members, users, teamMembers)
  {
    ids := [];
    for i := 0 to |members|
      invariant ids == Selected(members[..i], users, teamMembers)
    {
      assert members[..i + 1][..i] == members[..i];
      var e := EmailOf(users, members[i].userId);
      if e.Some? && e.value in teamMembers {
        ids := ids + [members[i].userId];
      }
    }
    assert members[..|members|] == members;
  }

  /** The rows `createMany` inserts for the collected ids. */
  function MemberRows(ids: seq<Id>, projectId: Id): (r: seq<ProjectMember>)
    ensures |r| == |ids|
    ensures forall i :: 0 <= i < |ids| ==> r[i] == ProjectMember(ids[i], projectId)
  {
    seq(|ids|, i requires 0 <= i < |ids| => ProjectMember(ids[i], projectId))
  }

  /** The row `project.create` inserts: the lead is the id it resolved (null when none), and
      the descriptive columns and both dates are as given, so an absent date is null. */
  function ProjectRow(workspaceId: Id, req: NewProject, lead: Option<Id>): (r: Project)
    ensures r.workspaceId == workspaceId && r.teamLead == lead
    ensures r.name == req.name && r.description == req.description && r.status == req.status
    ensures r.priority == req.priority && r.progress == req.progress
    ensures r.startDate == req.startDate && r.endDate == req.endDate
  {
    Project(workspaceId, req.name, req.description, req.status, req.priority, req.progress,
            lead, req.startDate, req.endDate)
  }

  /** createProject. `newId` is the id the database generates for the project. */
  method CreateProject(db: Database, caller: Id, req: NewProject, newId: Id) returns (status: int)
    modifies db`projects, db`projectMembers
    // A lookup by an undefined id throws.
    ensures req.workspaceId.None? ==> status == InternalError
    ensures status == NotFound <==> req.workspaceId.Some? && req.workspaceId.value !in old(db.workspaces)
    ensures status == Forbidden <==>
      req.workspaceId.Some? && req.workspaceId.value in old(db.workspaces) &&
      !IsWorkspaceAdmin(old(db.workspaceMembers), req.workspaceId.value, caller)
    ensures status == Ok <==>
      req.workspaceId.Some? && req.workspaceId.value in old(db.workspaces) &&
      IsWorkspaceAdmin(old(db.workspaceMembers), req.workspaceId.value, caller) &&
      newId !in old(db.projects)
    ensures status in {Ok, Forbidden, NotFound, InternalError}
    ensures status != Ok ==> db.projects == old(db.projects) && db.projectMembers == old(db.projectMembers)
    ensures status == Ok ==>
      db.projects == old(db.projects)[newId := ProjectRow(req.workspaceId.value, req, LeadId(old(db.users), req.teamLead))]
    ensures status == Ok ==>
      db.projectMembers == old(db.projectMembers) +
        MemberRows(Selected(MembersOf(old(db.workspaceMembers), req.workspaceId.value), old(db.users), req.teamMembers), newId)
  {
    if req.workspaceId.None? {
      return InternalError;
    }
    var workspaceId := req.workspaceId.value;
    if workspaceId !in db.workspaces {
      return NotFound;
    }
    if !IsWorkspaceAdmin(db.workspaceMembers, workspaceId, caller) {
      return Forbidden;
    }
    var lead := LeadId(db.users, req.teamLead);
    if newId in db.projects {
      return InternalError;
    }
    db.projects := db.projects[newId := ProjectRow(workspaceId, req, lead)];

    if |req.teamMembers| > 0 {
      var membersToAdd := MembersToAdd(MembersOf(db.workspaceMembers, workspaceId), db.users, req.teamMembers);
      if |membersToAdd| > 0 {
        db.projectMembers := db.projectMembers + MemberRows(membersToAdd, newId);
      }
    } else {
      NothingListedNothingSelected(MembersOf(db.workspaceMembers, workspaceId), db.users, req.teamMembers);
    }
    return Ok;
  }

  /** The rows createProject adds are exactly the listed workspace members: each names the new
      project and a member of the workspace whose e-mail is listed, and each such member has one. */
  lemma {:induction false} AddedRowsAreTheListedMembers(
    workspaceMembers: seq<WorkspaceMember>, users: seq<User>, emails: seq<string>, workspaceId: Id, projectId: Id)
    ensures var rows := MemberRows(Selected(MembersOf(workspaceMembers, workspaceId), users, emails), projectId);
      (forall i :: 0 <= i < |rows| ==>
        rows[i].projectId == projectId && IsWorkspaceMember(workspaceMembers, workspaceId, rows[i].userId) &&
        EmailOf(users, rows[i].userId).Some? && EmailOf(users, rows[i].userId).value in emails) &&
      (forall m :: m in workspaceMembers && m.workspaceId == workspaceId &&
                   EmailOf(users, m.userId).Some? && EmailOf(users, m.userId).value in emails ==>
        ProjectMember(m.userId, projectId) in rows)
  {
    var members := MembersOf(workspaceMembers, workspaceId);
    var selected := Selected(members, users, emails);
    var rows := MemberRows(selected, projectId);
    forall i | 0 <= i < |rows|
      ensures rows[i].projectId == projectId && IsWorkspaceMember(workspaceMembers, workspaceId, rows[i].userId)
      ensures EmailOf(users, rows[i].userId).Some? && EmailOf(users, rows[i].userId).value in emails
    {
      assert selected[i] in selected;
    }
    forall m | m in workspaceMembers && m.workspaceId == workspaceId &&
               EmailOf(users, m.userId).Some? && EmailOf(users, m.userId).value in emails
      ensures ProjectMember(m.userId, projectId) in rows
    {
      assert m in members;
      assert m.userId in selected;
      var k :| 0 <= k < |selected| && selected[k] == m.userId;
      assert rows[k] == ProjectMember(m.userId, projectId);
    }
  }

  /** The body of PUT /api/projects/:projectId. */
  datatype ProjectUpdate = ProjectUpdate(
    workspaceId: Option<Id>,
    name: Option<string>,
    description: Option<string>,
    status: Option<string>,
    startDate: Option<Day>,
    endDate: Option<Day>,
    teamLead: Option<string>,
    progress: Option<int>,
    priority: Option<string>)

  /** A column the update's data leaves undefined keeps its value. */
  function Given<T>(current: Option<T>, given: Option<T>): Option<T> {
    if given.Some? then given else current
  }

  /** The project row after updateProject, `lead` being the lead id it settled on. The dates
      are written as given, so an absent date becomes null. */
  function UpdatedRow(p: Project, req: ProjectUpdate, lead: Option<Id>): (r: Project)
    // `workspaceId || existingProject.workspaceId`
    ensures Truthy(req.workspaceId) ==> r.workspaceId == req.workspaceId.value
    ensures !Truthy(req.workspaceId) ==> r.workspaceId == p.workspaceId
    // An undefined column is left alone; a given one is written.
    ensures req.name.None? ==> r.name == p.name
    ensures req.name.Some? ==> r.name == req.name
    ensures req.description.None? ==> r.description == p.description
    ensures req.description.Some? ==> r.description == req.description
    ensures req.status.None? ==> r.status == p.status
    ensures req.status.Some? ==> r.status == req.status
    ensures req.priority.None? ==> r.priority == p.priority
    ensures req.priority.Some? ==> r.priority == req.priority
    ensures req.progress.None? ==> r.progress == p.progress
    ensures req.progress.Some? ==> r.progress == req.progress
    ensures r.teamLead == lead
    // The dates are always written, so an absent one becomes null.
    ensures r.startDate == req.startDate && r.endDate == req.endDate
  {
    Project(OrElse(req.workspaceId, p.workspaceId),
            Given(p.name, req.name), Given(p.description, req.description), Given(p.status, req.status),
            Given(p.priority, req.priority), Given(p.progress, req.progress),
            lead, req.startDate, req.endDate)
  }

  /** updateProject. */
  method UpdateProject(db: Database, caller: Id, projectId: Id, req: ProjectUpdate) returns (status: int)
    modifies db`projects
    ensures status == NotFound <==>
      projectId !in old(db.projects) || old(db.projects)[projectId].workspaceId !in old(db.workspaces)
    ensures status == Forbidden <==>
      projectId in old(db.projects) && old(db.projects)[projectId].workspaceId in old(db.workspaces) &&
      !IsWorkspaceAdmin(old(db.workspaceMembers), old(db.projects)[projectId].workspaceId, caller) &&
      !IsProjectLead(old(db.projects)[projectId], caller)
    ensures status == Ok <==>
      projectId in old(db.projects) && old(db.projects)[projectId].workspaceId in old(db.workspaces) &&
      (IsWorkspaceAdmin(old(db.workspaceMembers), old(db.projects)[projectId].workspaceId, caller) ||
       IsProjectLead(old(db.projects)[projectId], caller))
    ensures status in {Ok, Forbidden, NotFound}
    ensures status != Ok ==> db.projects == old(db.projects)
    ensures status == Ok ==>
      var p := old(db.projects)[projectId];
      var lead := LeadId(old(db.users), req.teamLead);
      db.projects == old(db.projects)[projectId := UpdatedRow(p, req, if lead.Some? then lead else p.teamLead)]
    // The lead changes only to a user found by the given e-mail.
    ensures status == Ok ==>
      var before := old(db.projects)[projectId];
      var after := db.projects[projectId];
      after.teamLead == before.teamLead ||
      (Truthy(req.teamLead) && exists u :: u in db.users && u.email == req.teamLead.value && after.teamLead == Some(u.id))
  {
    if projectId !in db.projects {
      return NotFound;
    }
    var existing := db.projects[projectId];
    if existing.workspaceId !in db.workspaces {
      return NotFound;
    }
    if !IsWorkspaceAdmin(db.workspaceMembers, existing.workspaceId, caller) {
      if !IsProjectLead(existing, caller) {
        return Forbidden;
      }
    }

    var teamLeadId := existing.teamLead;
    if Truthy(req.teamLead) {
      var teamLeadUser := FindUserByEmail(db.users, req.teamLead.value);
      if teamLeadUser.Some? {
        teamLeadId := Some(teamLeadUser.value.id);
      }
    }

    db.projects := db.projects[projectId := UpdatedRow(existing, req, teamLeadId)];
    return Ok;
  }

  /** `project.members.find(member => member.user.email === email)`. */
  predicate HasMemberWithEmail(members: seq<ProjectMember>, users: seq<User>, projectId: Id, email: Option<string>) {
    email.Some? && exists pm :: pm in members && pm.projectId == projectId && EmailOf(users, pm.userId) == email
  }

  /** addMember of the project routes. The new member is not required to belong to the
      project's workspace. */
  method AddMember(db: Database, caller: Id, projectId: Id, email: Option<string>) returns (status: int)
    modifies db`projectMembers
    ensures projectId !in old(db.projects) ==> status == NotFound
    ensures status == Forbidden <==> projectId in old(db.projects) && !IsProjectLead(old(db.projects)[projectId], caller)
    ensures status == BadRequest <==>
      projectId in old(db.projects) && IsProjectLead(old(db.projects)[projectId], caller) &&
      HasMemberWithEmail(old(db.projectMembers), old(db.users), projectId, email)
    // A lookup by an undefined e-mail throws.
    ensures status == InternalError <==>
      projectId in old(db.projects) && IsProjectLead(old(db.projects)[projectId], caller) && email.None?
    ensures status == Ok <==>
      projectId in old(db.projects) && IsProjectLead(old(db.projects)[projectId], caller) &&
      !HasMemberWithEmail(old(db.projectMembers), old(db.users), projectId, email) &&
      email.Some? && FindUserByEmail(old(db.users), email.value).Some?
    ensures status in {Ok, BadRequest, Forbidden, NotFound, InternalError}
    ensures status != Ok ==> db.projectMembers == old(db.projectMembers)
    ensures status == Ok ==>
      db.projectMembers == old(db.projectMembers) + [ProjectMember(FindUserByEmail(old(db.users), email.value).value.id, projectId)]
  {
    if projectId !in db.projects {
      return NotFound;
    }
    var project := db.projects[projectId];
    if !IsProjectLead(project, caller) {
      return Forbidden;
    }
    if HasMemberWithEmail(db.projectMembers, db.users, projectId, email) {
      return BadRequest;
    }
    if email.None? {
      return InternalError;
    }
    var user := FindUserByEmail(db.users, email.value);
    if user.None? {
      return NotFound;
    }
    db.projectMembers := db.projectMembers + [ProjectMember(user.value.id, projectId)];
    return Ok;
  }
}
