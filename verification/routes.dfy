/** The task routes: which roles may call each, in which order FastAPI runs
    the checks, and the notification a status change schedules. The caller
    (`actor`) is the user `get_current_auth_user` resolved from the token;
    the store a route returns is committed, a failure commits nothing. */
module TaskRoutes {
  import opened Results
  import opened Text
  import opened Store
  import Auth
  import TaskSchemas
  import TaskValidators
  import TaskCrud
  import TaskListing

  /** Roles that may create, edit and remove tasks. */
  const ManagerRoles: seq<string> := ["Owner", "Admin", "Project Manager"]
  /** Roles that may change a task's status; the owner may not. */
  const StatusRoles: seq<string> := ["Admin", "Project Manager", "Developer"]

  /** The form-field error for a `task_id` below 1 (`Form(ge=1)`). */
  const TaskIdTooSmall: string := "Input should be greater than or equal to 1"

  /** The caller is a stored user, loaded with its role. */
  ghost predicate SignedIn(db: Db, actor: Account) {
    actor.id in db.users.rows && actor == Load(db, db.users.rows[actor.id]) && actor.role.Some?
  }

  /** The store every route expects: consistent, every user holding a role,
      the hard-wired ids present. */
  ghost predicate Ready(db: Db) {
    Valid(db) && RolesAssigned(db) && Aligned(db)
  }

  // ---- POST /task/create ----

  /** `create_task`: the role guard (a dependency) runs before the body is
      validated, then the task is generated. */
  ghost function CreateTaskRoute(db: Db, actor: Account, form: TaskSchemas.TaskForm, now: int): (r: Result<(Db, Task)>)
    requires Ready(db) && SignedIn(db, actor)
    ensures actor.role.value.name !in ManagerRoles ==> r == Forbidden(Auth.AccessDenied(ManagerRoles))
    ensures actor.role.value.name in ManagerRoles && TaskSchemas.ValidateTaskCreate(form, now).Invalid? ==>
      r == TaskSchemas.ValidateTaskCreate(form, now).PropagateFailure()
    ensures actor.role.value.name in ManagerRoles && TaskSchemas.ValidateTaskCreate(form, now).Ok? ==>
      var input := TaskSchemas.ValidateTaskCreate(form, now).value;
      && r == TaskCrud.GenerateTask(db, input, actor, now)
      && (r.Ok? <==> TaskCrud.Assignees(db, input))
    ensures r.Ok? ==>
      && actor.role.value.name in ManagerRoles
      && TaskSchemas.ValidateTaskCreate(form, now).Ok?
      && r.value.1.createdById == actor.id && r.value.1.createdAt == now
      && Valid(r.value.0) && r.value.1.id !in db.tasks.rows
  {
    var user :- Auth.RoleChecker(ManagerRoles, actor);
    var input :- TaskSchemas.ValidateTaskCreate(form, now);
    TaskCrud.GenerateTaskSucceeds(db, input, user, now);
    var result := TaskCrud.GenerateTask(db, input, user, now);
    if result.Ok? then
      TaskCrud.GenerateTaskCreates(db, input, user, now);
      result
    else result
  }

  // ---- PUT /task/edit ----

  /** `edit_task`: the role guard, then the body (`TaskUpdate` is the create
      body plus the task id), then the full update. */
  ghost function EditTaskRoute(db: Db, actor: Account, id: int, form: TaskSchemas.TaskForm, now: int): (r: Result<(Db, Task)>)
    requires Ready(db) && SignedIn(db, actor)
    ensures actor.role.value.name !in ManagerRoles ==> r == Forbidden(Auth.AccessDenied(ManagerRoles))
    ensures actor.role.value.name in ManagerRoles && TaskSchemas.ValidateTaskCreate(form, now).Invalid? ==>
      r == TaskSchemas.ValidateTaskCreate(form, now).PropagateFailure()
    ensures actor.role.value.name in ManagerRoles && TaskSchemas.ValidateTaskCreate(form, now).Ok? ==>
      (r.NotFound? <==> id !in db.tasks.rows)
    ensures actor.role.value.name in ManagerRoles && TaskSchemas.ValidateTaskCreate(form, now).Ok? ==>
      var input := TaskSchemas.ValidateTaskCreate(form, now).value;
      && r == TaskCrud.UpdateTask(db, id, input)
      && (id in db.tasks.rows && TaskCrud.GetTaskStatusId(db, input.status).Some? ==>
            (r.Ok? <==> TaskCrud.Assignees(db, input)))
    ensures r.Ok? ==> Valid(r.value.0) && id in db.tasks.rows && r.value.1.id == id
  {
    var user :- Auth.RoleChecker(ManagerRoles, actor);
    var input :- TaskSchemas.ValidateTaskCreate(form, now);
    if id in db.tasks.rows && TaskCrud.GetTaskStatusId(db, input.status).Some? then
      TaskCrud.UpdateTaskSucceeds(db, id, input);
      TaskCrud.UpdateTask(db, id, input)
    else
      TaskCrud.UpdateTask(db, id, input)
  }

  // ---- PATCH /task/change_task_status ----

  /** The mail a status change schedules: to the responsible person, from the
      user who made the change. */
  datatype Notification = Notification(to: string, from: string, subject: string, body: string)

  function StatusNotice(title: string, status: string, responsible: User, actor: Account): (n: Notification)
    ensures n.to == responsible.email && n.from == actor.email
    ensures Occurs(title, n.subject) && Occurs(title, n.body)
    ensures Occurs(status, n.body) && Occurs(responsible.login, n.body)
  {
    var subject := "Task «" + title + "» status has been changed";
    var greeting := "<h1>Hello, " + responsible.login + "</h1>";
    var body := greeting + "<h3>For task «<i>" + title + "</i>» status was changed to «<i>" + status + "</i>»</h3>";
    OccursBetween(title, "Task «", "» status has been changed");
    assert subject == "Task «" + title + "» status has been changed";
    OccursBetween(responsible.login, "<h1>Hello, ", "</h1>");
    OccursInLeft(responsible.login, greeting, body[|greeting|..]);
    assert body == greeting + body[|greeting|..];
    var before := greeting + "<h3>For task «<i>";
    var after := "</i>» status was changed to «<i>" + status + "</i>»</h3>";
    OccursBetween(title, before, after);
    assert body == before + title + after;
    var prefix := before + title + "</i>» status was changed to «<i>";
    OccursBetween(status, prefix, "</i>»</h3>");
    assert body == prefix + status + "</i>»</h3>";
    Notification(responsible.email, actor.email, subject, body)
  }

  /** `change_task_status`. Dependencies run first, in declaration order:
      the status name is checked, then the caller's role; then the form's
      `task_id` must be at least 1. A no-op schedules nothing; an effective
      change schedules exactly one notification. */
  ghost function ChangeTaskStatusRoute(db: Db, actor: Account, taskId: int, statusName: string)
    : (out: (Result<(Db, Task, string)>, seq<Notification>))
    requires Valid(db) && TaskCrud.Staffed(db) && SignedIn(db, actor)
    ensures var (r, notes) := out;
      && (TaskValidators.CheckTaskStatus(statusName).Invalid? ==> r == Invalid(TaskValidators.StatusError))
      && (TaskValidators.CheckTaskStatus(statusName).Ok? && actor.role.value.name !in StatusRoles ==>
           r == Forbidden(Auth.AccessDenied(StatusRoles)))
      && (TaskValidators.CheckTaskStatus(statusName).Ok? && actor.role.value.name in StatusRoles && taskId < 1 ==>
           r == Invalid(TaskIdTooSmall))
      && (TaskValidators.CheckTaskStatus(statusName).Ok? && actor.role.value.name in StatusRoles && 1 <= taskId ==>
           r == TaskCrud.UpdateTaskStatus(db, taskId, statusName))
      && (r.NotFound? <==>
           TaskValidators.CheckTaskStatus(statusName).Ok? && actor.role.value.name in StatusRoles
           && 1 <= taskId && taskId !in db.tasks.rows)
      && (r.Ok? <==>
           && TaskValidators.CheckTaskStatus(statusName).Ok? && actor.role.value.name in StatusRoles
           && taskId in db.tasks.rows
           && TaskCrud.GetTaskStatusId(db, statusName).Some?
           && TaskCrud.GetTaskStatusId(db, statusName).value != db.tasks.rows[taskId].statusId)
      && (r.NoOp? ==> r.message == TaskCrud.AlreadyInStatus(statusName))
      && (|notes| == 1 <==> r.Ok?)
      && (|notes| == 0 <==> !r.Ok?)
  {
    var status := TaskValidators.CheckTaskStatus(statusName);
    if status.IsFailure() then (status.PropagateFailure(), [])
    else
      var checked := Auth.RoleChecker(StatusRoles, actor);
      if checked.IsFailure() then (checked.PropagateFailure(), [])
      else if taskId < 1 then (Invalid(TaskIdTooSmall), [])
      else
        var r := TaskCrud.UpdateTaskStatus(db, taskId, status.value);
        if r.Ok? then
          var (d, t, shown) := r.value;
          var responsible := db.users.rows[t.responsibleId.value];
          (r, [StatusNotice(t.title, shown, responsible, actor)])
        else (r, [])
  }

  /** The one notification of an effective change goes to the task's
      responsible person, from the caller, naming the task and the status as
      typed. */
  lemma StatusChangeNotifies(db: Db, actor: Account, taskId: int, statusName: string)
    requires Valid(db) && TaskCrud.Staffed(db) && SignedIn(db, actor)
    requires ChangeTaskStatusRoute(db, actor, taskId, statusName).0.Ok?
    ensures var (r, notes) := ChangeTaskStatusRoute(db, actor, taskId, statusName);
      && taskId in db.tasks.rows
      && db.tasks.rows[taskId].responsibleId.Some?
      && var responsible := db.users.rows[db.tasks.rows[taskId].responsibleId.value];
      && |notes| == 1
      && notes[0].to == responsible.email && notes[0].from == actor.email
      && Occurs(db.tasks.rows[taskId].title, notes[0].subject)
      && Occurs(statusName, notes[0].body)
      && r.value.2 == statusName
  {
  }

  /** A permitted change of a stored task to a status that resolves to a
      different row succeeds and schedules exactly the notice to the task's
      responsible person. */
  lemma EffectiveChangeNotifies(db: Db, actor: Account, taskId: int, statusName: string, s: int)
    requires Valid(db) && TaskCrud.Staffed(db) && SignedIn(db, actor)
    requires actor.role.value.name in StatusRoles && TaskValidators.CheckTaskStatus(statusName).Ok?
    requires taskId in db.tasks.rows
    requires TaskCrud.GetTaskStatusId(db, statusName) == Some(s) && s != db.tasks.rows[taskId].statusId
    ensures var (r, notes) := ChangeTaskStatusRoute(db, actor, taskId, statusName);
      var t := db.tasks.rows[taskId];
      && r.Ok? && r.value.1 == t.(statusId := s)
      && notes == [StatusNotice(t.title, statusName, db.users.rows[t.responsibleId.value], actor)]
  {
  }

  /** An accepted status name that already is the task's status changes
      nothing and schedules nothing. */
  lemma SameStatusIsQuiet(db: Db, actor: Account, taskId: int, statusName: string)
    requires Valid(db) && TaskCrud.Staffed(db) && SignedIn(db, actor)
    requires actor.role.value.name in StatusRoles && TaskValidators.CheckTaskStatus(statusName).Ok?
    requires taskId in db.tasks.rows
    requires TaskCrud.GetTaskStatusId(db, statusName) == Some(db.tasks.rows[taskId].statusId)
    ensures ChangeTaskStatusRoute(db, actor, taskId, statusName) == (NoOp(TaskCrud.AlreadyInStatus(statusName)), [])
  {
  }

  // ---- DELETE /task/remove ----

  /** `remove_task`: the role guard, then `task_id` at least 1, then the
      deletion; the removed task is returned. */
  function RemoveTaskRoute(db: Db, actor: Account, taskId: int): (r: Result<(Db, Task, set<int>)>)
    requires Valid(db) && actor.role.Some?
    ensures actor.role.value.name !in ManagerRoles ==> r == Forbidden(Auth.AccessDenied(ManagerRoles))
    ensures actor.role.value.name in ManagerRoles && taskId < 1 ==> r == Invalid(TaskIdTooSmall)
    ensures r.NotFound? <==> actor.role.value.name in ManagerRoles && 1 <= taskId && taskId !in db.tasks.rows
    ensures actor.role.value.name in ManagerRoles && 1 <= taskId ==> r == TaskCrud.DeleteTask(db, taskId)
    ensures r.Ok? <==> actor.role.value.name in ManagerRoles && taskId in db.tasks.rows
    ensures r.Ok? ==> taskId in db.tasks.rows && r.value.1 == db.tasks.rows[taskId] && taskId !in r.value.0.tasks.rows
  {
    var user :- Auth.RoleChecker(ManagerRoles, actor);
    if taskId < 1 then Invalid(TaskIdTooSmall) else TaskCrud.DeleteTask(db, taskId)
  }

  // ---- GET /task/retrieve ----

  /** `get_tasks`: no role guard; any caller, even one without a role, gets
      every task ordered by creation time. */
  ghost function ListTasksRoute(db: Db): (r: seq<Task>)
    ensures TaskListing.SortedByCreation(r)
    ensures forall t :: t in r <==> exists k :: k in db.tasks.rows && db.tasks.rows[k] == t
  {
    TaskListing.GetAllTasks(db)
  }

  // ---- the role policy ----

  /** An owner who asks to change a status is refused before the task is
      even looked up. */
  lemma OwnerCannotChangeStatus(db: Db, actor: Account, taskId: int, statusName: string)
    requires Valid(db) && TaskCrud.Staffed(db) && SignedIn(db, actor)
    requires actor.role.value.name == "Owner" && TaskValidators.CheckTaskStatus(statusName).Ok?
    ensures ChangeTaskStatusRoute(db, actor, taskId, statusName) == (Forbidden(Auth.AccessDenied(StatusRoles)), [])
  {
  }

  /** A developer who asks to create a task is refused whatever the body. */
  lemma DeveloperCannotCreate(db: Db, actor: Account, form: TaskSchemas.TaskForm, now: int)
    requires Ready(db) && SignedIn(db, actor) && actor.role.value.name == "Developer"
    ensures CreateTaskRoute(db, actor, form, now) == Forbidden(Auth.AccessDenied(ManagerRoles))
  {
  }
}
