/**
 * The membership and permission tests that the controllers repeat inline.
 * The source evaluates them over rows it has just loaded with their relations
 * (`workspace.members`, `project.members`); here they read the membership tables
 * directly, which selects the same rows.
 */
module Access {
  import opened Store

  /** Some member row of the workspace names the user with role ADMIN. */
  predicate IsWorkspaceAdmin(members: seq<WorkspaceMember>, workspaceId: Id, userId: Id) {
    exists m :: m in members && m.workspaceId == workspaceId && m.userId == userId && m.role == Admin
  }

  /** Some member row of the workspace names the user, whatever the role. */
  predicate IsWorkspaceMember(members: seq<WorkspaceMember>, workspaceId: Id, userId: Id) {
    exists m :: m in members && m.workspaceId == workspaceId && m.userId == userId
  }

  /** The project's `team_lead` column holds the user's id (a null lead matches nobody). */
  predicate IsProjectLead(project: Project, userId: Id) {
    project.teamLead == Some(userId)
  }

  /** Some member row of the project names the user. */
  predicate IsProjectMember(members: seq<ProjectMember>, projectId: Id, userId: Id) {
    ProjectMember(userId, projectId) in members
  }

  /** The member rows of one workspace, in table order (`workspace.members`). */
  function MembersOf(members: seq<WorkspaceMember>, workspaceId: Id): (r: seq<WorkspaceMember>)
    ensures forall m :: m in r <==> m in members && m.workspaceId == workspaceId
    ensures |r| <= |members|
  {
    if members == [] then []
    else
      assert forall m :: m in members ==> m == members[0] || m in members[1..];
      var rest := MembersOf(members[1..], workspaceId);
      if members[0].workspaceId == workspaceId then [members[0]] + rest else rest
  }
}
