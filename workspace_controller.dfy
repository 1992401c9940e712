/**
 * The workspace handlers: list the caller's workspaces, and add a member to a workspace.
 *
 * addMember passes `include` to the workspace lookup, and no `include` is declared in its
 * module: every request that gets past the role check throws a ReferenceError there and is
 * answered 500. `AddMemberAsWritten` models that; `AddMember` models the checks the handler
 * goes on to make, which are evidently what was meant.
 */
module WorkspaceController {
  import opened Store
  import opened Access

  /** getWorkspaces: the workspaces that have a member row for the caller. */
  function GetWorkspaces(db: Database, caller: Id): (r: map<Id, Workspace>)
    reads db
    ensures forall id :: id in r <==> id in db.workspaces && IsWorkspaceMember(db.workspaceMembers, id, caller)
    ensures forall id :: id in r ==> r[id] == db.workspaces[id]
  {
    map id | id in db.workspaces && IsWorkspaceMember(db.workspaceMembers, id, caller) :: db.workspaces[id]
  }

  /** The body of POST /api/workspaces/add-member. */
  datatype NewMember = NewMember(email: Option<string>, role: Option<string>, workspaceId: Option<Id>, message: Option<string>)

  /** The user is found by e-mail, `workspaceId` and `role` are given, and the role is ADMIN or MEMBER. */
  predicate Validated(users: seq<User>, req: NewMember) {
    req.email.Some? && FindUserByEmail(users, req.email.value).Some? &&
    Truthy(req.workspaceId) && Truthy(req.role) && ParseRole(req.role.value).Some?
  }

  /** addMember as written: the checks up to the role run, and then the lookup throws. No
      request is ever answered 200 and nothing is ever inserted. */
  method AddMemberAsWritten(db: Database, caller: Id, req: NewMember) returns (status: int)
    // A lookup by an undefined e-mail throws.
    ensures req.email.None? ==> status == InternalError
    ensures status == NotFound <==> req.email.Some? && FindUserByEmail(db.users, req.email.value).None?
    ensures status == BadRequest <==>
      req.email.Some? && FindUserByEmail(db.users, req.email.value).Some? && !Validated(db.users, req)
    ensures status == InternalError <==> req.email.None? || Validated(db.users, req)
    ensures status != Ok
  {
    if req.email.None? {
      return InternalError;
    }
    var user := FindUserByEmail(db.users, req.email.value);
    if user.None? {
      return NotFound;
    }
    if !Truthy(req.workspaceId) || !Truthy(req.role) {
      return BadRequest;
    }
    if ParseRole(req.role.value).None? {
      return BadRequest;
    }
    // `findUnique({ where: { id: workspaceId }, include })`: `include` is not declared.
    return InternalError;
  }

  /** addMember with the workspace lookup loading the members, as the rest of the handler
      expects: then missing workspace 404, caller not ADMIN 403, user already a member 400,
      and only then one member row is inserted. */
  method AddMember(db: Database, caller: Id, req: NewMember) returns (status: int)
    modifies db`workspaceMembers
    ensures req.email.None? ==> status == InternalError
    ensures req.email.Some? && FindUserByEmail(old(db.users), req.email.value).None? ==> status == NotFound
    ensures req.email.Some? && FindUserByEmail(old(db.users), req.email.value).Some? && !Validated(old(db.users), req) ==>
      status == BadRequest
    ensures Validated(old(db.users), req) && req.workspaceId.value !in old(db.workspaces) ==> status == NotFound
    ensures Validated(old(db.users), req) && req.workspaceId.value in old(db.workspaces) ==>
      (status == Forbidden <==> !IsWorkspaceAdmin(old(db.workspaceMembers), req.workspaceId.value, caller))
    ensures (Validated(old(db.users), req) && req.workspaceId.value in old(db.workspaces) &&
             IsWorkspaceAdmin(old(db.workspaceMembers), req.workspaceId.value, caller) &&
             IsWorkspaceMember(old(db.workspaceMembers), req.workspaceId.value,
                               FindUserByEmail(old(db.users), req.email.value).value.id)) ==>
      status == BadRequest
    ensures status == Ok <==>
      Validated(old(db.users), req) && req.workspaceId.value in old(db.workspaces) &&
      IsWorkspaceAdmin(old(db.workspaceMembers), req.workspaceId.value, caller) &&
      !IsWorkspaceMember(old(db.workspaceMembers), req.workspaceId.value, FindUserByEmail(old(db.users), req.email.value).value.id)
    ensures status in {Ok, BadRequest, Forbidden, NotFound, InternalError}
    ensures status != Ok ==> db.workspaceMembers == old(db.workspaceMembers)
    ensures status == Ok ==>
      db.workspaceMembers == old(db.workspaceMembers) +
        [WorkspaceMember(FindUserByEmail(old(db.users), req.email.value).value.id, req.workspaceId.value,
                         ParseRole(req.role.value).value, req.message)]
  {
    if req.email.None? {
      return InternalError;
    }
    var user := FindUserByEmail(db.users, req.email.value);
    if user.None? {
      return NotFound;
    }
    if !Truthy(req.workspaceId) || !Truthy(req.role) {
      return BadRequest;
    }
    var role := ParseRole(req.role.value);
    if role.None? {
      return BadRequest;
    }
    var workspaceId := req.workspaceId.value;
    if workspaceId !in db.workspaces {
      return NotFound;
    }
    if !IsWorkspaceAdmin(db.workspaceMembers, workspaceId, caller) {
      return Forbidden;
    }
    if IsWorkspaceMember(db.workspaceMembers, workspaceId, user.value.id) {
      return BadRequest;
    }
    db.workspaceMembers := db.workspaceMembers + [WorkspaceMember(user.value.id, workspaceId, role.value, req.message)];
    return Ok;
  }
}
