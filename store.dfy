/**
 * The relational store that every handler reads and writes through the Prisma client.
 * Each table is a field of one `Database` object; the handlers are methods elsewhere
 * that take this object and reassign the fields they write.
 *
 * Tables looked up only by primary key are maps from id to row. `users` is also looked
 * up by its unique `email` column, so it is a sequence searched front to back. The two
 * membership tables have no id of their own and are sequences of rows.
 */
module Store {

  /** Every key is a string: user and workspace ids come from the identity provider,
      the others from the database's default id generator. */
  type Id = string

  /** A calendar day, counted from 1 January 1970. The source compares dates by day. */
  type Day = int

  datatype Option<T> = None | Some(value: T) {
    function GetOr(default: T): T {
      if Some? then value else default
    }
  }

  // HTTP status codes the handlers answer with.
  const Ok: int := 200
  const BadRequest: int := 400
  const Forbidden: int := 403
  const NotFound: int := 404
  const InternalError: int := 500

  /** JavaScript truthiness of an optional string: an absent field and "" are both false. */
  predicate Truthy(s: Option<string>) {
    s.Some? && s.value != ""
  }

  /** The value `a || b` takes in JavaScript when both are optional strings and `b` is the fallback. */
  function OrElse(a: Option<string>, b: string): string {
    if Truthy(a) then a.value else b
  }

  datatype Role = Admin | Member

  /** The role column is the enumeration {ADMIN, MEMBER}; any other text is refused. */
  function ParseRole(s: string): (r: Option<Role>)
    ensures r == Some(Admin) <==> s == "ADMIN"
    ensures r == Some(Member) <==> s == "MEMBER"
  {
    if s == "ADMIN" then Some(Admin)
    else if s == "MEMBER" then Some(Member)
    else None
  }

  datatype User = User(id: Id, email: string, name: string, image: string)

  datatype Workspace = Workspace(name: string, slug: string, ownerId: Id, imageUrl: string)

  datatype WorkspaceMember = WorkspaceMember(userId: Id, workspaceId: Id, role: Role, message: Option<string>)

  /** A project row. The descriptive columns are stored as given (None: the column's default). */
  datatype Project = Project(
    workspaceId: Id,
    name: Option<string>,
    description: Option<string>,
    status: Option<string>,
    priority: Option<string>,
    progress: Option<int>,
    teamLead: Option<Id>,
    startDate: Option<Day>,
    endDate: Option<Day>)

  datatype ProjectMember = ProjectMember(userId: Id, projectId: Id)

  datatype Task = Task(
    projectId: Id,
    title: Option<string>,
    description: Option<string>,
    status: Option<string>,
    taskType: Option<string>,
    priority: Option<string>,
    assigneeId: Option<Id>,
    dueDate: Option<Day>)

  datatype Comment = Comment(taskId: Id, userId: Id, content: string)

  /** The contents of every table at one moment. */
  datatype Tables = Tables(
    users: seq<User>,
    workspaces: map<Id, Workspace>,
    workspaceMembers: seq<WorkspaceMember>,
    projects: map<Id, Project>,
    projectMembers: seq<ProjectMember>,
    tasks: map<Id, Task>,
    comments: map<Id, Comment>)

  /** The database behind the Prisma client. */
  class Database {
    var users: seq<User>
    var workspaces: map<Id, Workspace>
    var workspaceMembers: seq<WorkspaceMember>
    var projects: map<Id, Project>
    var projectMembers: seq<ProjectMember>
    var tasks: map<Id, Task>
    var comments: map<Id, Comment>

    constructor ()
      ensures State() == Tables([], map[], [], map[], [], map[], map[])
    {
      users, workspaces, workspaceMembers := [], map[], [];
      projects, projectMembers := map[], [];
      tasks, comments := map[], map[];
    }

    function State(): Tables
      reads this
    {
      Tables(users, workspaces, workspaceMembers, projects, projectMembers, tasks, comments)
    }
  }

  /** The `id` and `email` columns of the user table are unique. */
  ghost predicate UniqueUsers(users: seq<User>) {
    forall i, j :: 0 <= i < j < |users| ==> users[i].id != users[j].id && users[i].email != users[j].email
  }

  /** `findUnique({ where: { id } })` on the user table. */
  function FindUser(users: seq<User>, id: Id): (r: Option<User>)
    ensures r.Some? ==> r.value in users && r.value.id == id
    ensures r.None? <==> forall u :: u in users ==> u.id != id
  {
    if users == [] then None
    else if users[0].id == id then Some(users[0])
    else
      assert forall u :: u in users ==> u == users[0] || u in users[1..];
      FindUser(users[1..], id)
  }

  /** `findUnique({ where: { email } })` on the user table. */
  function FindUserByEmail(users: seq<User>, email: string): (r: Option<User>)
    ensures r.Some? ==> r.value in users && r.value.email == email
    ensures r.None? <==> forall u :: u in users ==> u.email != email
  {
    if users == [] then None
    else if users[0].email == email then Some(users[0])
    else
      assert forall u :: u in users ==> u == users[0] || u in users[1..];
      FindUserByEmail(users[1..], email)
  }

  /** Under the unique-email column, the lookup by email finds exactly the user that has it. */
  lemma FindUserByEmailIsTheOwner(users: seq<User>, u: User)
    requires UniqueUsers(users)
    requires u in users
    ensures FindUserByEmail(users, u.email) == Some(u)
  {
  }

  /** The e-mail address of the user with this id, as `member.user.email` reads it. */
  function EmailOf(users: seq<User>, id: Id): (r: Option<string>)
    ensures r.Some? <==> exists u :: u in users && u.id == id
    ensures r.Some? ==> exists u :: u in users && u.id == id && u.email == r.value
  {
    var u := FindUser(users, id);
    if u.Some? then Some(u.value.email) else None
  }
}
