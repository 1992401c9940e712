# Project-management server: request logic over an in-memory store

This project models the server side of a project-management web application. Organisations own
workspaces, workspaces own projects, projects own tasks, and tasks carry comments. The model covers
two parts:

- The REST handlers of the four controllers (tasks, projects, workspaces, comments). Each handler
  runs a fixed chain of existence (404), permission (403) and validation (400) checks. It answers
  with the first check that fails, and writes nothing until every check has passed. An error
  thrown inside a handler is answered 500, and the model treats that as one more status code.
  The writes are not in one transaction: a call that throws after an insert has succeeded leaves
  that row in place (createTask, createProject, organization.created).
- The background functions of the event platform. These are the identity-sync handlers, which copy
  user, organisation and invitation events into the store, and the `app/task.assigned` workflow.
  The workflow mails the assignee, sleeps until the due day, reloads the task and reminds the
  assignee unless the task is completed.

The store is the class `Store.Database`. It has one field per table. Tables that are only looked
up by id are maps. `users` is a sequence because it is also searched by its unique e-mail column.
The two membership tables are sequences of rows. Each handler is a method that takes the database
object, the caller's id and the request fields, and returns the status code. Its `modifies` clause
names the tables it may write. Its contract states which check fires for which input, that a
rejected request leaves the tables unchanged, and what the tables hold after a success. The three
authorization tests that the controllers repeat inline are the predicates `Access.IsWorkspaceAdmin`,
`Access.IsProjectLead` and `Access.IsProjectMember`.

The model follows the code as written, including these oddities:

- deleteTask authorises against the project of the first task the database yields only, and then
  deletes every listed task, whichever project it belongs to (`TaskController.DeleteCrossesProjects`).
  A body without `taskIds` is no filter at all, so such a request selects, and may delete, every
  task (`TaskController.DeleteWithoutListSelectsAll`).
- addComment never checks that the task exists. For a missing task, reading `task.projectId` throws,
  so the answer is 500, not 404.
- updateProject writes the start and end dates as given, so a date absent from the request becomes
  null.
- The project addMember does not check workspace membership. updateTask does not check that a new
  assignee belongs to the project.
- Re-delivering `clerk/organization.created` creates no second workspace. The second insert hits the
  primary key, and the handler swallows that error (`Inngest.SyncWorkspaceCreationRedelivered`).

Inputs from outside the program are parameters:

- `caller` is the authenticated user id.
- `rowOrder` is the order in which the database yields the task table to `findMany`.
- `afterInsertFails` (createTask) and `memberInsertFails` (organization.created) say whether a
  database or platform call after the first insert throws.
- `newId` is the id the database generates for an inserted row. If that id were already taken, the
  insert would fail and the handler would answer 500.
- `today` is the current day.
- `clientUrl` is the configured client URL.
- `resumed` is the state of the store when the workflow wakes up. Other requests may have changed
  the store while the workflow slept.

Dates are day numbers. A mail is recorded as (recipient, kind, link).

JavaScript truthiness is modelled explicitly. In `x || y` and `if (x)`, an absent field and `""`
are both false (`Store.Truthy`, `Store.OrElse`). A Prisma lookup whose unique key is undefined
throws.

## Model

| member | source | states |
|---|---|---|
| `Store.ParseRole` | server/controllers/workspaceController.js:51-53 | a role is accepted exactly when it is "ADMIN" or "MEMBER", and it maps to that role |
| `Store.FindUser` | server/inngest/index.js:34-38 | the lookup by id returns a user with that id from the table, and returns nothing exactly when no user has it |
| `Store.FindUserByEmail` | server/controllers/projectController.js:36-41 | the lookup by e-mail returns a user with that e-mail, and returns nothing exactly when no user has it |
| `Store.FindUserByEmailIsTheOwner` | server/controllers/projectController.js:36-41 | the e-mail column is unique, so the lookup by e-mail returns exactly the user who owns that address |
| `Store.EmailOf` | server/controllers/projectController.js:61 | `member.user.email` exists exactly when a user with the member's id exists, and it is that user's e-mail |
| `Access.MembersOf` | server/controllers/projectController.js:22-25 | `workspace.members` is exactly the member rows of that workspace |
| `TaskController.TaskRow` | server/controllers/taskController.js:30-41 | the created task stores the assignee only when `assigneeId` is truthy, and otherwise null; the due date is null when absent |
| `TaskController.Admitted` | server/controllers/taskController.js:17-25 | the project exists, the caller is its team lead, and a truthy assignee is one of its members |
| `TaskController.CreateTask` | server/controllers/taskController.js:12-51 | checks run in order: missing project 404, caller not team lead 403, truthy assignee not a project member 400; a rejection writes no task and sends no event; once the insert succeeds the row stays, and the answer is 500 with no event when the read-back or the send throws; otherwise exactly one `app/task.assigned` event with the new id and the origin; a stored assignee is a project member |
| `TaskController.Merge` | server/controllers/taskController.js:95-98 | the task after `update({ data: req.body })`: each column takes the body's value when the body has the field, and keeps its own otherwise |
| `TaskController.MergeWritesExactlyThePresentFields` | server/controllers/taskController.js:95-98 | for each of the eight fields, the update writes it when present in the body and keeps it when absent; an empty body changes nothing; applying the same body twice equals applying it once |
| `TaskController.UpdateTask` | server/controllers/taskController.js:72-98 | a missing task is 404 before any permission check; a caller who is not the team lead gets 403 and the task is unchanged; a success replaces only that task, with the body merged in |
| `TaskController.Selects` | server/controllers/taskController.js:125 | `id: { in: taskIds }` selects the listed ids, and every id when `taskIds` is absent |
| `TaskController.FirstFound` | server/controllers/taskController.js:124-134 | `tasks[0]`: a selected existing task, the first such in the database's row order; there is none exactly when the row order holds no selected task |
| `TaskController.NothingFoundIffNoneSelected` | server/controllers/taskController.js:124-130 | when the row order lists the whole table, `findMany` finds nothing exactly when no task is selected |
| `TaskController.WithoutTasks` | server/controllers/taskController.js:144-146 | the bulk delete removes exactly the listed ids, or every task when `taskIds` is absent, and keeps every other task unchanged |
| `TaskController.DeleteTask` | server/controllers/taskController.js:122-146 | 404 when no task is selected; otherwise 403 exactly when the caller does not lead the project of the first selected row; a success removes every selected task and nothing else; a rejection changes nothing |
| `TaskController.DeleteCrossesProjects` | server/controllers/taskController.js:133-146 | the project checked is that of the row the database yields first, not of the first listed id; its lead then deletes a listed task of another project too |
| `TaskController.DeleteWithoutListSelectsAll` | server/controllers/taskController.js:123-146 | with `taskIds` absent and a non-empty table, a task is found, and a successful delete leaves the task table empty |
| `ProjectController.LeadId` | server/controllers/projectController.js:35-41 | `team_lead` resolves to the id of a user with that e-mail; it is null when no e-mail is given or no user matches |
| `ProjectController.Selected` | server/controllers/projectController.js:58-65 | the collected ids are exactly those of the workspace members whose user's e-mail is listed |
| `ProjectController.NothingListedNothingSelected` | server/controllers/projectController.js:58 | with no e-mail listed, nothing is collected, so skipping the loop for an empty list changes nothing |
| `ProjectController.MembersToAdd` | server/controllers/projectController.js:59-64 | the `forEach` loop collects exactly `Selected`, in workspace-member order |
| `ProjectController.MemberRows` | server/controllers/projectController.js:66-73 | `createMany` inserts one row per collected id, each pairing that id with the new project |
| `ProjectController.ProjectRow` | server/controllers/projectController.js:43-55 | the inserted project belongs to the workspace, has the resolved lead (null when none), and carries the descriptive columns and both dates as given, so an absent date is null |
| `ProjectController.CreateProject` | server/controllers/projectController.js:22-73 | missing workspace 404, then caller not ADMIN 403, and neither creates a project; a success inserts one project with the resolved lead and the given dates, then the member rows of `Selected` |
| `ProjectController.AddedRowsAreTheListedMembers` | server/controllers/projectController.js:58-73 | each inserted member row names the new project and a workspace member whose e-mail is listed; every listed workspace member gets a row; a listed e-mail of a non-member adds nothing |
| `ProjectController.UpdatedRow` | server/controllers/projectController.js:148-160 | `workspaceId` is the given one when truthy, else the current one; name, description, status, priority and progress keep their values when absent and take the body's when given; the lead is the one settled on; both dates are written as given, so an absent date becomes null |
| `ProjectController.UpdateProject` | server/controllers/projectController.js:113-160 | allowed for a workspace ADMIN or the team lead, otherwise 403 with the project unchanged; the lead is kept when no e-mail is given or none matches; `workspaceId` falls back to the current one; absent dates become null; absent columns keep their values |
| `ProjectController.HasMemberWithEmail` | server/controllers/projectController.js:194 | some member row of the project belongs to a user whose e-mail is the given one |
| `ProjectController.AddMember` | server/controllers/projectController.js:180-208 | checks run in order: missing project 404, caller not team lead 403, e-mail already a member 400, unknown user 404; only then is exactly one project-member row inserted; workspace membership is not required |
| `WorkspaceController.GetWorkspaces` | server/controllers/workspaceController.js:8-13 | exactly the workspaces that have a member row for the caller, with their rows unchanged |
| `WorkspaceController.Validated` | server/controllers/workspaceController.js:42-53 | the user is found by e-mail, `workspaceId` and `role` are truthy, and the role is ADMIN or MEMBER |
| `WorkspaceController.AddMemberAsWritten` | server/controllers/workspaceController.js:42-56 | unknown user 404, then missing `workspaceId` or `role` 400, then a role other than ADMIN or MEMBER 400; every request that passes those checks gets 500; no request ever gets 200 |
| `WorkspaceController.AddMember` | server/controllers/workspaceController.js:42-79 | after the validation chain: missing workspace 404, caller not ADMIN 403, user already a member 400; a success inserts exactly one row with the given role and message; a rejection inserts nothing |
| `CommentController.AddComment` | server/controllers/commentController.js:10-32 | a missing task gives 500, not 404; a missing project gives 404; a caller with no member row in the task's project gets 403 and no comment is created; a success inserts exactly one comment with the task id, the content and the caller as author, and `GetComments` for the task then lists exactly the earlier comments and the new one |
| `CommentController.GetComments` | server/controllers/commentController.js:49-52 | exactly the comments whose task id equals the path parameter |
| `Access.IsWorkspaceAdmin` | server/controllers/projectController.js:29 | some member row of the workspace names the user with role ADMIN (also projectController.js:129 and workspaceController.js:62) |
| `Access.IsWorkspaceMember` | server/controllers/workspaceController.js:10-12 | some member row of the workspace names the user, whatever the role (also the existing-member test at workspaceController.js:67) |
| `Access.IsProjectLead` | server/controllers/taskController.js:19 | the project's `team_lead` is the user's id (also taskController.js:91,140 and projectController.js:130,187) |
| `Access.IsProjectMember` | server/controllers/commentController.js:22 | some member row of the project names the user (also taskController.js:23) |
| `Inngest.EventClient.Send` | server/controllers/taskController.js:47-51 | the event is appended to the events sent so far |
| `Inngest.FullName` | server/inngest/index.js:19 | the name is the first name, one space, then the last name; a null part is rendered "null" |
| `Inngest.SyncUserCreation` | server/inngest/index.js:15-22 | inserts one user whose e-mail is the first address and whose name is `FullName`; with no address, or with a taken id or e-mail, the run fails and nothing is written; unique ids and e-mails are preserved |
| `Inngest.WithoutUser` | server/inngest/index.js:34-38 | the table without the rows of that id, and no other row removed |
| `Inngest.WithoutUserKeepsUnique` | server/inngest/index.js:34-38 | deleting a user keeps ids and e-mails unique |
| `Inngest.SyncUserDeletion` | server/inngest/index.js:34-38 | removes that user; a missing user makes the run fail with nothing removed |
| `Inngest.WithUserUpdated` | server/inngest/index.js:50-59 | rows of other users are unchanged; the user's row gets the new e-mail (kept when the event has none), name and image |
| `Inngest.SyncUserUpdation` | server/inngest/index.js:50-59 | overwrites the e-mail, name and image of that user; a missing user, or an e-mail owned by another user, makes the run fail with nothing written; unique ids and e-mails are preserved |
| `Inngest.SyncWorkspaceCreation` | server/inngest/index.js:69-90 | inserts the workspace and then one ADMIN member row for the creator, after which the creator administers it and `GetWorkspaces` lists it for them; if the id is taken nothing is written, and if the member insert is refused the workspace stays without an ADMIN row; either error is swallowed |
| `Inngest.SyncWorkspaceCreationRedelivered` | server/inngest/index.js:69-90 | delivering the same event twice leaves the store as the first delivery does |
| `Inngest.SyncWorkspaceUpdation` | server/inngest/index.js:101-110 | overwrites name, slug and image and keeps the owner; a missing workspace makes the run fail |
| `Inngest.SyncWorkspaceDeletion` | server/inngest/index.js:121-125 | removes exactly that workspace; a missing workspace makes the run fail |
| `Inngest.ToUpper` | server/inngest/index.js:141 | the result has the same length and upper-cases every character |
| `Inngest.SyncWorkspaceMemberCreation` | server/inngest/index.js:137-143 | inserts one member row whose role is the role name upper-cased; a name that is neither ADMIN nor MEMBER once upper-cased fails with nothing inserted |
| `Inngest.AssigneeEmail` | server/inngest/index.js:154-159 | the assignee's e-mail exists exactly when the task exists, has an assignee, and that user exists; it is then that user's own address, so both mails go to the assignee |
| `Inngest.DueDay` | server/inngest/index.js:184 | the due day is the task's due date, and day 0 (the epoch) when it has none |
| `Inngest.AppOrigin` | server/inngest/index.js:161 | the link target is the event's origin when truthy, else the configured client URL when truthy, else "" |
| `Inngest.Sleeps` | server/inngest/index.js:184-186 | the workflow suspends exactly when it has mailed the assignee and the due day is not today |
| `Inngest.Mailer.Send` | server/inngest/index.js:163-182 | the mail is appended to the mails handed to the transport so far (also index.js:196) |
| `Inngest.ReloadTask` | server/inngest/index.js:189-195 | after the reload: the task is gone, or it is completed, or a reminder goes to its current assignee's e-mail, or it has no assignee |
| `Inngest.AssignmentMails` | server/inngest/index.js:154-225 | no mail when the task or a truthy assignee e-mail is missing; otherwise first exactly one "assigned" mail to the assignee with the link, then exactly one reminder if the reloaded task exists, is not completed and has an assignee; at most two mails |
| `Inngest.SleepUntil` | server/inngest/index.js:184-186 | while suspended, the store becomes what other requests left |
| `Inngest.SendTaskAssignmentEmail` | server/inngest/index.js:152-225 | the mails sent are exactly `AssignmentMails`; the workflow sleeps only when it has mailed and the due day differs from today; it reloads from the store as it stands when it wakes; the run fails exactly when the reloaded task is not completed and has lost its assignee |

## Left out

- The client (`client/src/pages/Layout.jsx`, `client/src/configs/api.js`) and the Express route wiring (`server/routes/workspaceRoutes.js`) are not part of this model. They are UI code and wiring, with no server logic.
- Response bodies, messages, Prisma `include` trees and response shaping are left out. Each handler answers with its status code only, and a query answers with the rows it selects.
- Authentication is left out. The caller id is a parameter, and the difference between `req.auth` and `req.auth()` is ignored.
- Mail HTML, `toLocaleDateString` and time zones are left out. A date is a day number, and a null due date is day 0, as `new Date(null)` is the epoch.
- The event platform's durability, retries and step memoisation are left out. The model does not capture that code outside `step.run` runs again when a sleeping run resumes. It sleeps at most once and mails in the order the source states.
- Concurrency between requests is left out. The only change while the workflow sleeps is the `resumed` state.
- The database schema is not available, so the model has no foreign keys, cascades, defaults, column enumerations other than the role, or uniqueness of membership pairs. A membership row whose user row is gone matches no e-mail and counts by its `userId`. Under the schema's foreign keys that case cannot arise, and in the source it would throw.
- `DeleteTask`: requires that `rowOrder` lists every task, because it stands for the order in which the database yields the whole table.
- `Inngest.Mailer.Send`: the mail transport never fails. A `sendEmail` that throws at index.js:163 would fail the run before it sleeps, and one at index.js:196 would fail the reminder step. The model does not capture either failure.
- Body fields of updateTask that are not task columns are not modelled, and neither is the `id` column. Prisma rejects unknown fields with an error.
- Request fields set to JSON `null` are modelled only in the updateTask body. Elsewhere a field is either present or absent.
- `teamLeadUser?.id || null` would turn an empty-string user id into null. User ids are never empty, so the model keeps the id.
- `ToUpper`: covers the ASCII letters only. JavaScript's `toUpperCase` also maps other Unicode letters, and role names are ASCII.
- In createProject, the member insert could fail after the project insert has succeeded, because the two are not in one transaction. The model does not capture that failure.

## Findings

| source | as written | input that shows it | evidently intended | confidence | as-written member | corrected member |
|---|---|---|---|---|---|---|
| server/controllers/workspaceController.js:56 | `findUnique({ where: { id: workspaceId }, include })` names `include`, which is declared nowhere in the module, so a ReferenceError is thrown and answered 500 | an existing user's e-mail, any non-empty `workspaceId`, role "MEMBER" | load the workspace with its members, then 404 for a missing workspace, 403 for a non-admin caller, 400 for an existing member, then insert the row (lines 57-79) | high; not executed | `WorkspaceController.AddMemberAsWritten` | `WorkspaceController.AddMember` |

The code departs from the invariants its data model implies in these places, and the model follows the code:

- Re-delivering organization.created creates no second workspace, because the duplicate primary key makes the insert fail.
- addComment answers 500 rather than 404 for a missing task.
- Neither the project addMember nor updateTask enforces the membership invariants.
