# task-tracker: a verified model of the task and user core

task-tracker is a small FastAPI/SQLAlchemy service. Users register with a
role (Owner, Admin, Project Manager or Developer) and sign in with a JWT.
Managers create, edit and remove tasks. A task has a title, an optional
description, a status, a priority, an optional deadline, a responsible person
and a set of performers. Admins, project managers and developers may change a
task's status, and an effective change mails the responsible person. At
start-up the lookup tables (roles, priorities, statuses) are seeded from the
configuration.

This project models that core in Dafny as pure functions over an immutable
store value:

- `Store` is the relational schema. It has one table per ORM model, each a
  map from primary key to row plus a counter from which new rows take
  fresh ids (see `TaskCrud.GenerateTask` under "Left out"). The
  task/user association table is a set of pairs. The integrity constraints
  are unique names, unique logins and emails, keys and foreign keys. The
  referential actions on delete are modelled too.
- `Results` is the outcome of a request. `Ok` carries the new store; a
  failure carries the HTTP error's detail text. `Invalid` is 422, `NotFound`
  is a missing task (also reported as 422 by the source), `Forbidden` is 403,
  `Conflict` is a database integrity error, and `NoOp` is the 200-with-detail
  "already in status" answer. A failed request commits nothing.
- `Text`, `Config`, `RolePermissions`, `UserDirectory`, `Auth`,
  `TaskValidators`, `Dates`, `TaskSchemas`, `TaskCrud`, `TaskListing`,
  `TaskRoutes` and `Seeding` follow the source modules of the same purpose.
- `Dates` contains a small backtracking matcher. It follows the regular
  expressions Python's `strptime` builds for `%d %m %Y %H %M`, with the
  blank in a format matching a run of Python's `\s` characters and digits
  restricted to ASCII (see `Dates.Strptime` under "Left out"). It also
  rejects unconverted
  trailing characters and impossible calendar dates. On top of it the
  four-format fallback of `parse_like_datetime` is proved to round-trip
  every rendered date.
- Time is a minute stamp passed in as `now` (see `TaskListing.GetAllTasks`
  under "Left out" for what that loses). The bcrypt hash of a password
  is a parameter. Mail sending becomes a returned `Notification` record.

Three behaviours of the code worth noting:

- The task list route has no authentication dependency, so any caller gets
  the list.
- A status-name lookup that finds nothing is handled differently on insert
  and on update. On insert, the ORM omits the `None` and the column default
  (status 1) applies. On UPDATE, NULL is written into a non-null column and
  the database refuses it (`Conflict`).
- The status shown after a change is the name as typed, not the stored
  spelling.

## Model

| member | source | states |
|---|---|---|
| Auth.IssuePayload | app/core/routes/auth.py:48-52 | the token claims are exactly `sub`, `username` and `role`; `sub` and `username` are the login and `role` is the role's position |
| Auth.GetCurrentAuthUser | app/core/routes/auth.py:17-24 | a payload resolves to a user exactly when it has a `sub` claim and some stored user's login equals it, and then to that stored user with its role loaded |
| Auth.PayloadRoundTrip | app/core/routes/auth.py:22-52 | a token issued to a stored user resolves back to that same user with the same role |
| Auth.RoleChecker | app/core/routes/auth.py:27-41 | the user passes, unchanged, exactly when its position is in the allowed set; otherwise 403 with the access-denied text |
| Auth.AccessDeniedListsRoles | app/core/routes/auth.py:35-39 | the 403 detail names every allowed role |
| Auth.RoleCheckerIsCaseSensitive | app/core/routes/auth.py:34 | the position comparison is exact: "admin" is refused where "Admin" is allowed |
| RolePermissions.GetRolePermission | app/core/crud/role_permission.py:12-29 | a role is found exactly when some stored position equals the name ignoring case, and it is one of those rows; otherwise 422 with the role list |
| RolePermissions.ResolvedRoleIsStored | app/core/crud/role_permission.py:17-29 | the returned role is the stored row under its own id, and it matches the request up to case |
| RolePermissions.GetRolePermissionIgnoresCase | app/core/crud/role_permission.py:17-20 | two spellings that lower-case alike give the same answer |
| RolePermissions.SeededRolesResolve | app/core/crud/role_permission.py:17-20 | once seeded, every configured role resolves in any letter case |
| RolePermissions.RoleErrorListsRoles | app/core/crud/role_permission.py:21-26 | the error names every configured role |
| UserDirectory.ValidateCreatingUserAsWritten | app/core/crud/user.py:17-28 | the form checks only minimum lengths; a request that passes them ends in a server error (`None`) exactly when the `UserCreate` schema refuses it (login over 50 characters, an email `EmailStr` rejects, a normalised address outside 3..50); an accepted request stores the normalised address |
| UserDirectory.ValidateCreatingUser | app/core/schemas/user.py:12-19 | a registration is accepted exactly when the login has 3 to 50 characters, the email at least 3 and `EmailStr` accepts it with a normalised address of 3 to 50 characters, and the password at least 8; the accepted request carries the normalised address and the other fields as sent |
| UserDirectory.ValidationAgrees | app/core/crud/user.py:17-28 | wherever the written validation answers, it answers as the corrected one |
| UserDirectory.OverlongLoginCrashes | app/core/crud/user.py:18-28 | a 51-character login crashes the written validation and is a 422 in the corrected one |
| UserDirectory.NonAddressCrashes | app/core/crud/user.py:18-28 | a four-character email that `EmailStr` refuses passes the form, crashes the written validation and is reported as not an email address by the corrected one |
| UserDirectory.GetUserByLogin | app/core/crud/user.py:67-74 | a user is found exactly when some stored login equals the given one (case-sensitive), with its role loaded |
| UserDirectory.GetUserByLoginFinds | app/core/crud/user.py:69-74 | logins are unique, so looking up a stored user's login returns that user |
| UserDirectory.MissingEmails | app/core/crud/user.py:85-87 | the missing emails are exactly the requested ones no user has, each once |
| UserDirectory.FoundExactly | app/core/crud/user.py:80-84 | the query returns stored users with a requested email, and every such user |
| UserDirectory.GetUsersByEmails | app/core/crud/user.py:78-97 | fails with 422 exactly when some requested email has no user; otherwise returns each matching user once, covering every requested email |
| UserDirectory.MissingEmailsMessage | app/core/crud/user.py:88-95 | the error names every missing email and says "Users ... emails" exactly when more than one distinct email is missing |
| UserDirectory.OneEmailOneUser | app/core/crud/user.py:80-84 | with unique emails, a single known email yields exactly the one user stored with it |
| UserDirectory.CreateUserKeepsRolesAssigned | app/core/crud/user.py:37-43 | registration stores the resolved role's id, so a store where every user holds a role keeps that property |
| UserDirectory.CreateUser | app/core/crud/user.py:32-63 | an unknown role is 422; a taken login or email is 409 and inserts nothing; otherwise the user is stored under the next id with the resolved role and the hash, and nothing else changes |
| UserDirectory.CreatedUserFound | app/core/crud/user.py:44-52 | a registered user can be looked up by login, and registering the same request again is a 409 |
| Store.DeleteUser | app/core/models/task.py:29-74 | deleting a user is refused while a task names it as creator; otherwise its association rows go, the tasks it was responsible for get no responsible person, nothing else changes and the store stays consistent |
| Text.ReprRoundTrip | app/core/models/user.py:36-37 | the text `repr` writes between its quotes reads back as the original string, so the user text in a refusal names the login and email unambiguously |
| Text.BodyHidesQuote | app/core/models/user.py:36-37 | inside a `repr`, the quote character only appears escaped, so the quoted text ends at the closing quote |
| Text.ReprPlain | app/core/models/user.py:36-37 | a string without quotes, backslashes or escaped characters is written between single quotes as it is |
| Text.ReprSwitchesQuotes | app/core/models/user.py:36-37 | `O'Brien` is written between double quotes, unescaped |
| Store.DeleteRole | app/core/models/user.py:23-25 | deleting a role clears the role of exactly the users who held it and changes nothing else |
| TaskValidators.PriorityLevelsInvert | app/core/schemas/validators/task_models.py:6-8 | the label-to-level table is the inverse of the configured level-to-label table, keyed by lower-cased label |
| TaskValidators.CheckTaskPriority | app/core/schemas/validators/task_models.py:12-26 | a label is accepted in any case exactly when it is a configured label, and becomes that label's level (1..5); otherwise 422 |
| TaskValidators.PriorityErrorListsLabels | app/core/schemas/validators/task_models.py:20-24 | the priority error names all five labels |
| TaskValidators.CheckTaskStatus | app/core/schemas/validators/task_models.py:30-45 | a status is accepted in any case exactly when it is a configured status, and is returned as typed; otherwise 422 |
| TaskValidators.CheckTaskStatusIdempotent | app/core/schemas/validators/task_models.py:38-45 | re-checking an accepted status accepts it unchanged |
| TaskValidators.StatusErrorListsStatuses | app/core/schemas/validators/task_models.py:39-43 | the status error names all four statuses |
| Dates.MatchSound | app/utils/work_with_dates.py:20 | every field the matcher returns lies in its directive's range, every consumed character is one the pattern accepts, and every literal was seen |
| Dates.FieldsInRange | app/utils/work_with_dates.py:20 | a matched date-time has month 1..12, day 1..31, hour 0..23 and minute 0..59 |
| Dates.Strptime | app/utils/work_with_dates.py:20 | a successful parse is a date the calendar has |
| Dates.StrptimeShape | app/utils/work_with_dates.py:20 | a string one format parses contains `:` and only digits, `\s` whitespace, that format's separator and `:` |
| Dates.ParseFrom | app/utils/work_with_dates.py:18-23 | the loop yields a date exactly when some remaining format parses, and the date is the one from the first format that does |
| Dates.ParseLikeDatetime | app/utils/work_with_dates.py:8-30 | the result is the parse of the first of the four formats that accepts the string; when none does, 422 echoing the string |
| Dates.FirstFormatWins | app/utils/work_with_dates.py:18-23 | when format k parses and no earlier format does, format k's date is the result |
| Dates.StrptimeRendered | app/utils/work_with_dates.py:20 | `strptime` reads back the date-time that its own format rendered |
| Dates.EarlierFormatsFail | app/utils/work_with_dates.py:14-17 | a date rendered in one format is rejected by every format tried before it |
| Dates.RoundTrip | app/utils/work_with_dates.py:14-23 | every valid date-time rendered in any of the four formats parses back to itself |
| Dates.SameValueInAnyFormat | app/utils/work_with_dates.py:14-23 | the four formats denote the same moment for the same date |
| Dates.AcceptedShape | app/utils/work_with_dates.py:18-23 | every accepted string has a `:`, one kind of date separator, and only digits, `\s` whitespace, `.`, `-` and `:` |
| Dates.RejectedShapes | app/utils/work_with_dates.py:24-30 | a string with `/`, without `:`, or mixing `.` and `-` is rejected |
| Dates.ParseErrorMentions | app/utils/work_with_dates.py:24-30 | the parse error echoes the input and names all four patterns |
| Dates.DocumentedExamples | app/utils/work_with_dates.py:9-13 | the four documented layouts each parse to 31 December 2030, 23:59 |
| Dates.SlashRejected | app/utils/work_with_dates.py:24-30 | a slash-separated date is rejected |
| TaskSchemas.Compact | app/core/schemas/task.py:41-45 | the performer list keeps exactly the non-null, non-empty entries |
| TaskSchemas.CompactKeepsCompact | app/core/schemas/task.py:44 | filtering an already clean list returns it unchanged, order included |
| TaskSchemas.ValidateTaskCreate | app/core/schemas/task.py:37-59 | a body is accepted exactly when status, priority and deadline validate, the title has at most 250 characters, a responsible email is given and the deadline is in the future; the accepted input carries those values |
| TaskSchemas.ValidatedFields | app/core/schemas/task.py:46-59 | status defaults to "TODO" and is kept as typed, priority defaults to 5 or is the label's level, and the deadline is absent or the parsed date |
| TaskSchemas.ValidationPrecedence | app/core/schemas/task.py:46-59 | the raising validators report first, in field order: status, then priority, then the deadline format |
| TaskSchemas.RaisingValidatorsWin | app/core/schemas/task.py:38-55 | a bad status or priority is reported instead of an over-long title, although the title is declared first |
| TaskSchemas.Defaults | app/core/schemas/task.py:39-59 | a body with only title and responsible person gets status "TODO", priority 5, no deadline and no performers |
| TaskSchemas.PastDeadlineRefused | app/core/schemas/task.py:56-59 | a deadline not later than now is refused as not in the future |
| TaskCrud.Offenders | app/core/crud/task.py:20-22 | the offenders are exactly the users whose role is not allowed |
| TaskCrud.CheckRolesOfAssignedUsers | app/core/crud/task.py:13-33 | the users pass unchanged exactly when every role is allowed; otherwise 403 naming the offenders |
| TaskCrud.RefusalNamesEveryone | app/core/crud/task.py:25-31 | the 403 detail names every offending user and every allowed role |
| TaskCrud.GetTaskStatusId | app/core/crud/task.py:37-42 | a status id is found exactly when some stored status name equals the given one ignoring case, and it is such a row |
| TaskCrud.GetTaskStatusIdIgnoresCase | app/core/crud/task.py:39-40 | two spellings that lower-case alike resolve to the same id |
| TaskCrud.GetTaskById | app/core/crud/task.py:46-71 | the task is found exactly when the id is stored; otherwise 422 "Task with ID ... not found" |
| TaskCrud.ResolveResponsible | app/core/crud/task.py:83-93 | an empty email keeps the current person; a given one resolves to the user with that email, who holds an assignee role |
| TaskCrud.ResolveResponsibleFails | app/core/crud/task.py:83-93 | the responsible email fails with 422 exactly when unknown, and with 403 exactly when its user holds another role |
| TaskCrud.ResolvePerformers | app/core/crud/task.py:95-100 | an empty list keeps the performers; a given one resolves to exactly the users with those emails, all holding an assignee role |
| TaskCrud.ResolvePerformersFails | app/core/crud/task.py:95-100 | performers fail with 422 exactly when an email is unknown, and with 403 exactly when all are known but one user holds another role |
| TaskCrud.ResolvedIffAssignees | app/core/crud/task.py:83-100 | both halves resolve exactly when every requested assignee exists and holds an assignee role |
| TaskCrud.UpdateTaskDetails | app/core/crud/task.py:75-104 | a missing task is NotFound exactly when the id is absent; on success the stored task is returned under its id and the store stays consistent |
| TaskCrud.UpdateTaskDetailsSucceeds | app/core/crud/task.py:82-102 | for a stored task the update succeeds exactly when every requested assignee exists and holds an assignee role |
| TaskCrud.UpdateTaskDetailsApplies | app/core/crud/task.py:83-102 | the responsible person changes only when an email is given, the performers only when a non-empty list is given, and nothing else changes |
| TaskCrud.DetailsPrecedence | app/core/crud/task.py:83-100 | an unknown or unassignable responsible person is reported before any performer error; a performer email error comes next |
| TaskCrud.NothingToAssign | app/core/crud/task.py:83-104 | with no responsible email and no performers the task is returned and the store is untouched |
| TaskCrud.NewStatusId | app/core/models/task.py:66-68 | when some stored status matches the name ignoring case, a new task gets such a status; when none does, it gets the column default 1 |
| TaskCrud.GenerateTask | app/core/crud/task.py:108-131 | a created task is stored under the next id and the store stays consistent |
| TaskCrud.GenerateTaskSucceeds | app/core/crud/task.py:108-131 | creation succeeds exactly when every requested assignee exists and holds an assignee role |
| TaskCrud.GenerateTaskCreates | app/core/crud/task.py:118-131 | the new task carries the body's fields, is created by the caller at `now`, takes a fresh id, and no other task or association row changes |
| TaskCrud.GenerateTaskAssigns | app/core/crud/task.py:118-131 | the new task's responsible person is the user with the given email, and its performers are exactly the users with the listed emails |
| TaskCrud.UpdateTask | app/core/crud/task.py:135-150 | a missing task is NotFound; a status no row matches is a NOT NULL conflict; on success the task is stored under its id and the store stays consistent |
| TaskCrud.UpdateTaskSucceeds | app/core/crud/task.py:135-150 | for a stored task and a known status the edit succeeds exactly when every requested assignee exists and holds an assignee role |
| TaskCrud.UpdateTaskReplaces | app/core/crud/task.py:139-150 | the edited task carries the body's fields and keeps its creator and creation time; no other task changes |
| TaskCrud.UpdateTaskAssigns | app/core/crud/task.py:139-150 | an edit without a responsible email keeps the person, and an edit without performers keeps them; given ones replace them |
| TaskCrud.UpdateTaskStatus | app/core/crud/task.py:154-165 | NotFound for a missing task; a no-op exactly when the name resolves to the current status; otherwise only the status id changes, to the matching row, and the name is shown as typed |
| TaskCrud.UpdateTaskStatusTwice | app/core/crud/task.py:158-165 | repeating an effective status change is a no-op |
| TaskCrud.DeleteTask | app/core/crud/task.py:169-175 | NotFound exactly when the id is absent; otherwise the task and its association rows go, it is returned with its performers, and nothing else changes |
| TaskCrud.DeletedTaskIsGone | app/core/crud/task.py:169-175 | after deletion the task is not found, and deleting it again is NotFound |
| TaskCrud.GenerateTaskKeepsStaffed | app/core/crud/task.py:118-131 | creation keeps every task with a responsible person |
| TaskCrud.UpdateTaskKeepsStaffed | app/core/crud/task.py:139-150 | a full edit keeps every task with a responsible person |
| TaskCrud.UpdateTaskStatusKeepsStaffed | app/core/crud/task.py:158-165 | a status change keeps every task with a responsible person, so the notification has an addressee |
| TaskCrud.DeleteTaskKeepsStaffed | app/core/crud/task.py:169-175 | deleting a task keeps every remaining task with a responsible person |
| TaskListing.InsertByCreation | app/core/crud/task.py:197 | inserting into a creation-ordered list keeps it ordered and adds exactly the one task |
| TaskListing.SortByCreation | app/core/crud/task.py:197 | the result is ordered by creation time and is a permutation of the input |
| TaskListing.GetAllTasks | app/core/crud/task.py:179-199 | the list is ordered by creation time and holds exactly the stored tasks |
| TaskListing.ListedOnce | app/core/crud/task.py:179-199 | every stored task is listed exactly once |
| TaskRoutes.CreateTaskRoute | app/core/routes/task.py:25-34 | a non-manager is refused before the body is validated; an invalid body is 422; a manager's valid body is handed to `generate_task` and succeeds exactly when every requested assignee exists with an assignee role; a created task is the caller's, created now, under a fresh id |
| TaskRoutes.EditTaskRoute | app/core/routes/task.py:37-46 | the role guard runs first, then the body is validated; a manager's valid body is handed to `update_task`, which is NotFound exactly when the task is absent and, for a stored task with a known status, succeeds exactly when every requested assignee exists with an assignee role |
| TaskRoutes.StatusNotice | app/core/routes/task.py:69 | the mail goes to the responsible person, comes from the caller, and names the task and the new status |
| TaskRoutes.ChangeTaskStatusRoute | app/core/routes/task.py:49-71 | an unknown status is 422 first, then a wrong role is 403, then a task id below 1 is 422; a request passing these is handed to `update_task_status`: NotFound exactly for an absent task, success exactly when the stored task's status resolves to a different row; one notification is scheduled exactly on success |
| TaskRoutes.StatusChangeNotifies | app/core/routes/task.py:60-69 | the one notification goes to the task's responsible person, from the caller, naming the task and the status as typed |
| TaskRoutes.EffectiveChangeNotifies | app/core/routes/task.py:60-71 | a permitted change of a stored task to a status resolving to a different row succeeds with that status id and schedules exactly the notice to the responsible person, from the caller |
| TaskRoutes.SameStatusIsQuiet | app/core/routes/task.py:63-67 | setting a task's current status answers "already in status" and schedules nothing |
| TaskRoutes.RemoveTaskRoute | app/core/routes/task.py:73-82 | non-managers are refused, a task id below 1 is 422; a manager's request is handed to `delete_task`, so it succeeds exactly for a stored task, is NotFound exactly for an absent one, and returns the removed task |
| TaskRoutes.ListTasksRoute | app/core/routes/task.py:85-89 | any caller gets every stored task, ordered by creation time |
| TaskRoutes.OwnerCannotChangeStatus | app/core/routes/task.py:53-55 | an owner asking to change a status is refused before the task is looked up |
| TaskRoutes.DeveloperCannotCreate | app/core/routes/task.py:28-30 | a developer asking to create a task is refused whatever the body |
| Seeding.MissingMembers | app/configuration/initial_db_data.py:17-24 | the rows to insert are exactly the configured ones whose name is not stored |
| Seeding.InsertMissing | app/configuration/initial_db_data.py:15-32 | stored rows are kept, and when nothing is missing the table is left alone and no commit happens |
| Seeding.CommitsWhenMissing | app/configuration/initial_db_data.py:25 | a step commits exactly when some configured name is not stored |
| Seeding.InsertCovers | app/configuration/initial_db_data.py:15-32 | after a step every configured name is stored |
| Seeding.InsertedExactly | app/configuration/initial_db_data.py:26-31 | the missing rows get fresh ids in configuration order, and nothing else is added |
| Seeding.InsertedFromConfig | app/configuration/initial_db_data.py:21-31 | every new row is a configured entry whose name was not stored |
| Seeding.InsertMissingIdempotent | app/configuration/initial_db_data.py:25 | running a step a second time changes nothing and does not commit |
| Seeding.InsertKeepsUniqueNames | app/core/models/task.py:41 | seeding keeps names unique |
| Seeding.SeedAll | app/configuration/initial_db_data.py:75-83 | seeding touches only the three lookup tables and reports one commit flag per step |
| Seeding.SeedAllSeeds | app/configuration/initial_db_data.py:75-83 | afterwards every configured role, priority and status is stored, and no existing row changed |
| Seeding.SeedAllIdempotent | app/configuration/initial_db_data.py:75-83 | seeding an already seeded store changes nothing and commits nothing |
| Seeding.SeedAllKeepsValid | app/configuration/initial_db_data.py:75-83 | seeding keeps the store consistent |
| Seeding.FreshRoles | app/configuration/initial_db_data.py:15-32 | on an empty role table the roles get ids 1..4 in configuration order, with their descriptions |
| Seeding.FreshStatuses | app/configuration/initial_db_data.py:57-71 | on an empty status table the statuses get ids 1..4 in configuration order, so "TODO" is 1 |
| Seeding.FreshSeedAligned | app/configuration/initial_db_data.py:36-71 | seeding empty tables makes priority id l hold level l and status 1 be "TODO", the ids the task code hard-wires |
| Seeding.FreshSeedValid | app/configuration/initial_db_data.py:75-83 | seeding an empty store gives a consistent, fully seeded store |

## Left out

- Password hashing, JWT signing and token decoding are left out. The hash is a
  parameter of `UserDirectory.CreateUser`. A payload is a plain claim map.
- Mail delivery is left out. `email_sender` and `BackgroundTasks` become the
  returned `TaskRoutes.Notification` record.
- Sessions, async I/O, commit and close mechanics, logging and concurrency
  are left out. A request either returns a new store or fails and keeps the
  old one.
- Loading settings from the environment and from files is left out. Only
  the constant tables (roles, priority labels, statuses) are modelled.
- The `deadline > CURRENT_TIMESTAMP` check constraint is left out. SQLite
  compares it in UTC text, while the schema compares a naive local time.
  The model only enforces the schema's "in the future" check, at the moment
  the body is validated.
- An unknown token subject is left out. `get_current_auth_user` returns
  `None`, and `RoleChecker` then fails on `None.role` with a server error.
  The route models require the caller to be a stored user with a role
  (`TaskRoutes.SignedIn`).
- The user routes' own handlers (registration endpoint wiring, listing
  users) are left out. They are not part of this core.
- JSON nulls and non-string values in task bodies are left out. Fields are
  typed; a `null` among the performers is `None` and is dropped.
- `TaskSchemas.ValidateTaskCreate` checks only that the responsible email is
  non-empty, and keeps the responsible email and the performers' emails as
  sent. Pydantic's `EmailStr` syntax rules and its normalisation (the domain
  is lower-cased) are not modelled for task bodies, because they live in a
  third-party library. A differently cased domain therefore looks up a
  different user in the model than in the service.
- `UserDirectory.ValidateCreatingUser` takes `EmailStr` as a parameter (the
  normalised address, or `None` for a non-address), so its syntax rules are
  not modelled. The 3..50 bounds are checked on the normalised address; an
  ASCII address keeps its length when normalised.
- `UserDirectory.ValidateCreatingUser` reports only the first failing check
  (form minimums, then login, then email). FastAPI and pydantic report every
  failing field of a stage together.
- `UserDirectory.ValidateCreatingUserAsWritten` collapses every schema
  failure into one server error (`None`) and does not model the error text
  pydantic raises.
- `TaskSchemas.ValidateTaskCreate` reports only the first collected
  constraint error. Pydantic reports all of them together, after any raising
  validator.
- Python set iteration order is left out. The allowed-roles and
  missing-emails texts list names in a fixed order, not hash order.
- `TaskCrud.UpdateTaskStatus` models only the stored status id. The source
  also renames the loaded status object in memory (never committed); the
  model shows the name as typed instead.
- `TaskCrud.GenerateTask` uses one `now` for both the creation time and the
  deadline check.
- `Text.Repr` escapes no character above U+00FF. Python also
  writes the non-printable ones (unassigned code points, other format and
  separator characters such as U+2028) as `\uNNNN` or `\UNNNNNNNN`. The
  quote choice, backslash escapes and `\xNN` escapes below U+0100 are
  modelled.
- `Dates.Strptime` accepts ASCII digits only. Python's `\d` on a `str`
  pattern matches every Unicode decimal digit, and `int()` converts them, so
  the service also parses dates written in, say, Arabic-Indic digits.
  `Dates.StrptimeShape` and `Dates.AcceptedShape` are stated over the
  ASCII-digit matcher.
- `TaskCrud.GenerateTask` gives the new task the table's counter as its id,
  and the counter never goes back. SQLite without `AUTOINCREMENT` reuses
  max+1 after the newest row is deleted, and PostgreSQL skips ids consumed by
  rolled-back inserts. Exact ids are therefore a property of the model's
  counter, not of either database.
- `UserDirectory.CreateUser` assigns ids from the same kind of counter, with
  the same caveat as `TaskCrud.GenerateTask`.
- `Seeding.InsertedExactly` states ids 1..n on a fresh table under the same
  counter; on a fresh database both SQLite and PostgreSQL agree with it.
- `TaskCrud.GenerateTask` requires `Aligned`: priority id l holds level l,
  and status 1 exists and is "TODO". The source stores the priority level
  directly as `priority_id` and relies on the status column default 1, so a
  store seeded differently is outside the model.
- `TaskCrud.UpdateTask` requires `Aligned`, for the same priority ids.
- `TaskRoutes.CreateTaskRoute` and `TaskRoutes.EditTaskRoute` require
  `Ready`, which includes `Aligned`; a store seeded by
  `Seeding.SeedAll` from empty tables meets it (`Seeding.FreshSeedAligned`).
  `Ready` also includes `RolesAssigned`, as below.
- `TaskCrud.UpdateTaskDetails` requires `RolesAssigned`: every stored user
  holds a stored role. The source reads `user.role.position` only for the
  users being assigned (app/core/crud/task.py:20-22). A store where some
  other user has no role is served normally, and assigning a role-less user
  fails with an `AttributeError`, a server error. The model gives no answer
  for such a store. No route reaches one: `create_user` always stores a
  resolved role (`UserDirectory.CreateUserKeepsRolesAssigned`), the task
  routes do not touch users or roles, and no route deletes a role (the
  SET NULL of `Store.DeleteRole` only happens outside the service).
- `TaskCrud.GenerateTask` and `TaskCrud.UpdateTask` require `RolesAssigned`
  too, for the same assignment step, with the same server error for a
  role-less assignee in the source. `TaskCrud.ResolveResponsible` and
  `TaskCrud.ResolvePerformers` require it as well.
- `TaskRoutes.ChangeTaskStatusRoute` requires `TaskCrud.Staffed`: every
  task has a responsible person. For a task whose `responsible_person` is
  NULL, the source first commits the new status
  (app/core/crud/task.py:160-162) and then fails in
  `notify_about_change_task_status` on `None.login`
  (app/utils/email_sender.py:23). The result is a server error with the
  change still committed, which the model does not represent. Such a task
  only arises when its responsible user is deleted (`Store.DeleteUser`, the
  SET NULL of app/core/models/task.py:55-57), and no route deletes users.
  The task routes never leave the invariant: `TaskCrud.GenerateTaskKeepsStaffed`,
  `TaskCrud.UpdateTaskKeepsStaffed`, `TaskCrud.UpdateTaskStatusKeepsStaffed`
  and `TaskCrud.DeleteTaskKeepsStaffed`.
- `Text.Lower` lower-cases ASCII letters only. SQLite's `lower()` is ASCII
  too, but Python's `str.lower` is Unicode, so non-ASCII labels are not
  modelled.
- The uniqueness of `importance_level` is not part of the store invariant.
  Names are unique, and seeding inserts each level once.
- `TaskRoutes.ListTasksRoute` takes no caller, because the route has no
  authentication dependency.
- `TaskListing.GetAllTasks` orders by the model's creation stamp, which is
  the minute `now`. The source stores `datetime.now` with sub-second
  precision (app/core/models/task.py:78), so two tasks created within one
  minute are listed in creation order there, while the model lists them in
  a fixed but arbitrary order. Among exactly equal timestamps the database's
  order is unspecified anyway.
- `TaskRoutes.ListTasksRoute` inherits the minute resolution of
  `TaskListing.GetAllTasks`.

## Findings

| source | as written | input that shows it | evidently intended | confidence | as-written member | corrected member |
|---|---|---|---|---|---|---|
| app/core/crud/user.py:17-28 | the registration form checks only minimum lengths; `UserCreate(...)` is built inside the dependency, so its failures (`max_length=50`, `EmailStr`) are not request-validation errors and escape as a 500 | login of 51 letters, email `user@example.com`, password `password`, role `Developer`; or login `alice`, email `abcd`, password `password1` | a 422 validation error for every bound and the address check the schema states | not executed | UserDirectory.ValidateCreatingUserAsWritten | UserDirectory.ValidateCreatingUser |

`UserDirectory.OverlongLoginCrashes` and `UserDirectory.NonAddressCrashes`
exhibit the inputs, and
`UserDirectory.ValidationAgrees` shows the two versions agree everywhere
else. The registration model (`UserDirectory.CreateUser`) takes the corrected
`UserCreate`, whose bounds it relies on.
