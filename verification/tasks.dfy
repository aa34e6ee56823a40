/** The task lifecycle: assignment checks, creation, full update, status
    change, deletion and listing. Each operation returns the new store on
    success; on any failure the session is closed without a commit, so the
    caller keeps the old store. */
module TaskCrud {
  import opened Results
  import opened Text
  import opened Store
  import UserDirectory
  import TaskSchemas

  /** The roles a responsible person or performer may hold. */
  const AssigneeRoles: seq<string> := ["Project Manager", "Developer"]

  // ---- check_roles_of_assigned_users ----

  /** Every account has its role loaded. */
  predicate HaveRoles(users: seq<Account>) {
    forall i :: 0 <= i < |users| ==> users[i].role.Some?
  }

  /** The users whose role is not allowed, in input order. */
  function Offenders(users: seq<Account>, allowed: seq<string>): (os: seq<Account>)
    requires HaveRoles(users)
    ensures HaveRoles(os)
    ensures forall u :: u in os <==> u in users && u.role.Some? && u.role.value.name !in allowed
  {
    if |users| == 0 then []
    else
      assert forall u :: u in users <==> u == users[0] || u in users[1..];
      (if users[0].role.value.name in allowed then [] else [users[0]]) + Offenders(users[1..], allowed)
  }

  function UserTexts(users: seq<Account>): (ts: seq<string>)
    requires HaveRoles(users)
    ensures |ts| == |users| && forall i :: 0 <= i < |users| ==> ts[i] == UserText(users[i])
  {
    seq(|users|, i requires 0 <= i < |users| && users[i].role.Some? => UserText(users[i]))
  }

  function AssignmentRefused(offenders: seq<Account>, allowed: seq<string>, position: string): string
    requires HaveRoles(offenders)
  {
    Join(", ", UserTexts(offenders)) + RefusalTail(allowed, position)
  }

  function RefusalTail(allowed: seq<string>, position: string): string {
    " cannot be assigned to a task as " + position + ". Only " + Guillemets(allowed)
    + " roles available for " + position + "."
  }

  lemma RefusalTailNamesRoles(allowed: seq<string>, position: string, j: int)
    requires 0 <= j < |allowed|
    ensures Occurs(allowed[j], RefusalTail(allowed, position))
  {
    var b := " cannot be assigned to a task as " + position + ". Only ";
    var c := " roles available for " + position + ".";
    assert RefusalTail(allowed, position) == b + (Guillemets(allowed) + c);
    GuillemetsMention(allowed, j);
    OccursInLeft(allowed[j], Guillemets(allowed), c);
    OccursInRight(allowed[j], b, Guillemets(allowed) + c);
  }

  /** `check_roles_of_assigned_users`: the users come back unchanged when
      every role is allowed; otherwise the request is forbidden. */
  function CheckRolesOfAssignedUsers(users: seq<Account>, allowed: seq<string>, position: string)
    : (r: Result<seq<Account>>)
    requires HaveRoles(users)
    ensures r.Ok? || r.Forbidden?
    ensures r.Ok? <==> forall i :: 0 <= i < |users| ==> users[i].role.value.name in allowed
    ensures r.Ok? ==> r.value == users
    ensures r.Forbidden? ==> r.message == AssignmentRefused(Offenders(users, allowed), allowed, position)
  {
    var os := Offenders(users, allowed);
    if |os| == 0 then
      assert forall i :: 0 <= i < |users| ==> users[i] !in os;
      Ok(users)
    else
      assert os[0] in os;
      Forbidden(AssignmentRefused(os, allowed, position))
  }

  /** The refusal names every offending user and every allowed role. */
  lemma RefusalNamesEveryone(users: seq<Account>, allowed: seq<string>, position: string)
    requires HaveRoles(users) && CheckRolesOfAssignedUsers(users, allowed, position).Forbidden?
    ensures forall i :: 0 <= i < |users| && users[i].role.value.name !in allowed ==>
      Occurs(UserText(users[i]), CheckRolesOfAssignedUsers(users, allowed, position).message)
    ensures forall j :: 0 <= j < |allowed| ==>
      Occurs(allowed[j], CheckRolesOfAssignedUsers(users, allowed, position).message)
  {
    var os := Offenders(users, allowed);
    var ts := UserTexts(os);
    var tail := RefusalTail(allowed, position);
    var msg := AssignmentRefused(os, allowed, position);
    assert msg == Join(", ", ts) + tail;
    forall i | 0 <= i < |users| && users[i].role.value.name !in allowed
      ensures Occurs(UserText(users[i]), msg)
    {
      assert users[i] in os;
      var k :| 0 <= k < |os| && os[k] == users[i];
      JoinMentions(", ", ts, k);
      OccursInLeft(UserText(users[i]), Join(", ", ts), tail);
    }
    forall j | 0 <= j < |allowed|
      ensures Occurs(allowed[j], msg)
    {
      RefusalTailNamesRoles(allowed, position, j);
      OccursInRight(allowed[j], Join(", ", ts), tail);
    }
  }

  /** Accounts read from a store where every user holds a role have their
      role loaded, and their ids are stored user ids. */
  lemma LoadedAccounts(db: Db, us: seq<Account>)
    requires Valid(db) && RolesAssigned(db)
    requires forall i :: 0 <= i < |us| ==> exists k :: k in db.users.rows && us[i] == Load(db, db.users.rows[k])
    ensures HaveRoles(us)
    ensures forall i :: 0 <= i < |us| ==> us[i].id in db.users.rows && us[i] == Load(db, db.users.rows[us[i].id])
  {
    forall i | 0 <= i < |us|
      ensures us[i].role.Some? && us[i].id in db.users.rows && us[i] == Load(db, db.users.rows[us[i].id])
    {
      assert exists k :: k in db.users.rows && us[i] == Load(db, db.users.rows[k]);
      var k :| k in db.users.rows && us[i] == Load(db, db.users.rows[k]);
      assert db.users.rows[k].id == k;
    }
  }

  // ---- lookups ----

  /** `get_task_status_id`: the id of the status whose name matches ignoring
      case, if any. */
  ghost function GetTaskStatusId(db: Db, name: string): (r: Option<int>)
    ensures r.Some? <==> exists k :: k in db.statuses.rows && Lower(db.statuses.rows[k].name) == Lower(name)
    ensures r.Some? ==> r.value in db.statuses.rows && Lower(db.statuses.rows[r.value].name) == Lower(name)
  {
    StatusKeyed(db.statuses.rows, Lower(name))
  }

  /** A status row whose lower-cased name is `key`. The choice depends only
      on the status rows and the key. */
  ghost function StatusKeyed(rows: map<int, TaskStatus>, key: string): (r: Option<int>)
    ensures r.Some? <==> exists k :: k in rows && Lower(rows[k].name) == key
    ensures r.Some? ==> r.value in rows && Lower(rows[r.value].name) == key
  {
    if exists k :: k in rows && Lower(rows[k].name) == key then
      var k :| k in rows && Lower(rows[k].name) == key;
      Some(k)
    else
      None
  }

  /** The status lookup ignores letter case. */
  lemma GetTaskStatusIdIgnoresCase(db: Db, a: string, b: string)
    requires Lower(a) == Lower(b)
    ensures GetTaskStatusId(db, a) == GetTaskStatusId(db, b)
  {
  }

  function TaskNotFound(id: int): string {
    "Task with ID = «" + IntToString(id) + "» not found"
  }

  /** `get_task_by_id`. */
  function GetTaskById(db: Db, id: int): (r: Result<Task>)
    ensures r.Ok? || r.NotFound?
    ensures r.Ok? <==> id in db.tasks.rows
    ensures r.Ok? ==> r.value == db.tasks.rows[id]
    ensures r.NotFound? ==> r.message == TaskNotFound(id)
  {
    if id in db.tasks.rows then Ok(db.tasks.rows[id]) else NotFound(TaskNotFound(id))
  }

  // ---- elementary writes, each keeping the store consistent ----

  /** The references a task row must satisfy to be stored. */
  ghost predicate Storable(db: Db, t: Task) {
    && t.statusId in db.statuses.rows
    && (t.priorityId.Some? ==> t.priorityId.value in db.priorities.rows)
    && (t.responsibleId.Some? ==> t.responsibleId.value in db.users.rows)
    && t.createdById in db.users.rows
    && |t.title| <= 250
  }

  /** Stores `t` under its id: an insert when `t.id` is the next id, an
      update when it is an existing one. */
  function PutTask(db: Db, t: Task): (d: Db)
    requires Valid(db) && Storable(db, t)
    requires t.id in db.tasks.rows || t.id == db.tasks.next
    ensures Valid(d)
    ensures d.tasks.rows == db.tasks.rows[t.id := t]
    ensures d.tasks.next == if t.id in db.tasks.rows then db.tasks.next else db.tasks.next + 1
    ensures d == db.(tasks := d.tasks)
  {
    var next := if t.id in db.tasks.rows then db.tasks.next else db.tasks.next + 1;
    db.(tasks := Table(db.tasks.rows[t.id := t], next))
  }

  /** Replaces the performers of task `id` with the users `uids`. */
  function SetPerformers(db: Db, id: int, uids: set<int>): (d: Db)
    requires Valid(db) && id in db.tasks.rows
    requires forall u :: u in uids ==> u in db.users.rows
    ensures Valid(d)
    ensures PerformersOf(d, id) == uids
    ensures forall e: (int, int) :: e.0 != id ==> (e in d.performers <==> e in db.performers)
    ensures d == db.(performers := d.performers)
  {
    var d := db.(performers := (set e | e in db.performers && e.0 != id) + (set u | u in uids :: (id, u)));
    assert forall u :: u in uids ==> (id, u) in d.performers;
    d
  }

  /** Removes task `id` and its association rows. */
  function RemoveTask(db: Db, id: int): (d: Db)
    requires Valid(db) && id in db.tasks.rows
    ensures Valid(d)
    ensures d.tasks.rows == db.tasks.rows - {id} && d.tasks.next == db.tasks.next
    ensures d.performers == set e | e in db.performers && e.0 != id
    ensures d == db.(tasks := d.tasks, performers := d.performers)
  {
    db.(tasks := db.tasks.(rows := db.tasks.rows - {id}), performers := set e | e in db.performers && e.0 != id)
  }

  // ---- resolving assignees ----

  /** User row `k` has email `e`. */
  ghost predicate HasEmail(db: Db, k: int, e: string) {
    k in db.users.rows && db.users.rows[k].email == e
  }

  /** User row `k` may be assigned to a task: its role is an assignee role. */
  ghost predicate Assignable(db: Db, k: int) {
    k in db.users.rows && RoleOf(db, db.users.rows[k]).Some? && RoleOf(db, db.users.rows[k]).value.name in AssigneeRoles
  }

  /** The first half of `update_task_details`: a non-empty email names the new
      responsible person, who must exist and hold an assignee role; an empty
      one keeps the current person (`None`). */
  ghost function ResolveResponsible(db: Db, email: string): (r: Result<Option<int>>)
    requires Valid(db) && RolesAssigned(db)
    ensures r.Ok? || r.Invalid? || r.Forbidden?
    ensures email == "" ==> r == Ok(None)
    ensures r.Ok? && email != "" ==> r.value.Some? && HasEmail(db, r.value.value, email) && Assignable(db, r.value.value)
  {
    if email == "" then Ok(None)
    else
      var found := UserDirectory.GetUsersByEmails(db, [email]);
      if found.Invalid? then
        Invalid(found.message)
      else
        var us := found.value;
        ResponsibleRole(db, email, us);
        var k := us[0].id;
        var checked := CheckRolesOfAssignedUsers(us, AssigneeRoles, "responsible_person");
        if checked.Forbidden? then Forbidden(checked.message) else Ok(Some(k))
  }

  /** A responsible email is refused as unknown exactly when no user has it,
      naming it, and as forbidden exactly when its user holds another role. */
  lemma ResolveResponsibleFails(db: Db, email: string)
    requires Valid(db) && RolesAssigned(db) && email != ""
    ensures var r := ResolveResponsible(db, email);
      && (r.Invalid? <==> !UserDirectory.EmailKnown(db, email))
      && (r.Invalid? ==> r.message == UserDirectory.EmailsNotFound(UserDirectory.MissingEmails(db, [email])))
      && (r.Forbidden? <==> exists k :: HasEmail(db, k, email) && !Assignable(db, k))
  {
    var found := UserDirectory.GetUsersByEmails(db, [email]);
    assert email in [email];
    if found.Ok? {
      ResponsibleRole(db, email, found.value);
    }
  }

  /** The one user found for a single email is the row holding it; the role
      check passes exactly when that row is assignable. */
  lemma ResponsibleRole(db: Db, email: string, us: seq<Account>)
    requires Valid(db) && RolesAssigned(db) && UserDirectory.GetUsersByEmails(db, [email]) == Ok(us)
    ensures HaveRoles(us) && |us| == 1
    ensures HasEmail(db, us[0].id, email) && forall j :: HasEmail(db, j, email) ==> j == us[0].id
    ensures CheckRolesOfAssignedUsers(us, AssigneeRoles, "responsible_person").Ok? <==> Assignable(db, us[0].id)
  {
    UserDirectory.OneEmailOneUser(db, email);
    LoadedAccounts(db, us);
    assert us[0].role == RoleOf(db, db.users.rows[us[0].id]);
  }

  /** The second half: a non-empty list of emails names the new performers,
      all of whom must exist and hold an assignee role; an empty list keeps
      the current performers (`None`). */
  ghost function ResolvePerformers(db: Db, emails: seq<string>): (r: Result<Option<set<int>>>)
    requires Valid(db) && RolesAssigned(db)
    ensures r.Ok? || r.Invalid? || r.Forbidden?
    ensures |emails| == 0 ==> r == Ok(None)
    ensures r.Ok? && |emails| > 0 ==>
      && r.value == Some(UserDirectory.Matching(db, emails))
      && forall k :: k in UserDirectory.Matching(db, emails) ==> Assignable(db, k)
  {
    if |emails| == 0 then Ok(None)
    else
      var found := UserDirectory.GetUsersByEmails(db, emails);
      if found.Invalid? then
        Invalid(found.message)
      else
        var us := found.value;
        PerformerRoles(db, emails, us);
        var checked := CheckRolesOfAssignedUsers(us, AssigneeRoles, "performers");
        if checked.Forbidden? then Forbidden(checked.message) else Ok(Some(UserDirectory.Matching(db, emails)))
  }

  /** Performers are refused as unknown exactly when some email has no user,
      naming the missing ones, and as forbidden exactly when all are known
      but some matching user holds another role. */
  lemma ResolvePerformersFails(db: Db, emails: seq<string>)
    requires Valid(db) && RolesAssigned(db)
    ensures var r := ResolvePerformers(db, emails);
      && (r.Invalid? <==> exists e :: e in emails && !UserDirectory.EmailKnown(db, e))
      && (r.Invalid? ==> r.message == UserDirectory.EmailsNotFound(UserDirectory.MissingEmails(db, emails)))
      && (r.Forbidden? <==>
           && (forall e :: e in emails ==> UserDirectory.EmailKnown(db, e))
           && exists k :: k in UserDirectory.Matching(db, emails) && !Assignable(db, k))
  {
    var found := UserDirectory.GetUsersByEmails(db, emails);
    if found.Ok? {
      PerformerRoles(db, emails, found.value);
      if |emails| == 0 {
        assert UserDirectory.Matching(db, emails) == {};
      }
    }
  }

  /** The users found for `emails` are exactly the matching rows, so their
      roles pass the check exactly when every matching row is assignable. */
  lemma PerformerRoles(db: Db, emails: seq<string>, us: seq<Account>)
    requires Valid(db) && RolesAssigned(db) && UserDirectory.GetUsersByEmails(db, emails) == Ok(us)
    ensures HaveRoles(us)
    ensures CheckRolesOfAssignedUsers(us, AssigneeRoles, "performers").Ok?
      <==> forall k :: k in UserDirectory.Matching(db, emails) ==> Assignable(db, k)
  {
    LoadedAccounts(db, us);
    forall k | k in UserDirectory.Matching(db, emails)
      ensures exists i :: 0 <= i < |us| && us[i] == Load(db, db.users.rows[k])
    {
      assert Load(db, db.users.rows[k]) in us;
    }
    forall i | 0 <= i < |us|
      ensures us[i].id in UserDirectory.Matching(db, emails)
    {
      assert us[i].email in emails;
    }
  }

  // ---- update_task_details ----

  /** `d` is `db` with the assignment of task `id` updated as `input` asks:
      the responsible person is replaced only when an email is given, the
      performers only when a non-empty list is given, and nothing else
      changes. */
  ghost predicate DetailsApplied(db: Db, d: Db, id: int, input: TaskSchemas.TaskInput) {
    && id in db.tasks.rows && id in d.tasks.rows
    && d.tasks.rows == db.tasks.rows[id := d.tasks.rows[id]]
    && d.tasks.rows[id] == db.tasks.rows[id].(responsibleId := d.tasks.rows[id].responsibleId)
    && (input.responsiblePerson == "" ==> d.tasks.rows[id].responsibleId == db.tasks.rows[id].responsibleId)
    && (input.responsiblePerson != "" ==>
         exists k :: d.tasks.rows[id].responsibleId == Some(k) && HasEmail(db, k, input.responsiblePerson) && Assignable(db, k))
    && (|input.performers| == 0 ==> PerformersOf(d, id) == PerformersOf(db, id))
    && (|input.performers| > 0 ==> PerformersOf(d, id) == UserDirectory.Matching(db, input.performers))
    && (forall e: (int, int) :: e.0 != id ==> (e in d.performers <==> e in db.performers))
    && d == db.(tasks := Table(d.tasks.rows, db.tasks.next), performers := d.performers)
  }

  /** Every requested assignee exists and holds an assignee role. */
  ghost predicate Assignees(db: Db, input: TaskSchemas.TaskInput) {
    && (input.responsiblePerson != "" ==> exists k :: HasEmail(db, k, input.responsiblePerson) && Assignable(db, k))
    && (forall e :: e in input.performers ==> UserDirectory.EmailKnown(db, e))
    && (forall k :: k in UserDirectory.Matching(db, input.performers) ==> Assignable(db, k))
  }

  /** The responsible half resolves exactly when no email is given or its
      user holds an assignee role. */
  lemma ResponsibleResolves(db: Db, email: string)
    requires Valid(db) && RolesAssigned(db)
    ensures ResolveResponsible(db, email).Ok? <==> email == "" || exists k :: HasEmail(db, k, email) && Assignable(db, k)
  {
    if email != "" {
      ResolveResponsibleFails(db, email);
      if exists k :: HasEmail(db, k, email) && Assignable(db, k) {
        var k :| HasEmail(db, k, email) && Assignable(db, k);
        assert forall j :: HasEmail(db, j, email) ==> j == k;
      }
    }
  }

  /** The performers half resolves exactly when every email is known and
      every matching user holds an assignee role. */
  lemma PerformersResolve(db: Db, emails: seq<string>)
    requires Valid(db) && RolesAssigned(db)
    ensures ResolvePerformers(db, emails).Ok? <==>
      && (forall e :: e in emails ==> UserDirectory.EmailKnown(db, e))
      && (forall k :: k in UserDirectory.Matching(db, emails) ==> Assignable(db, k))
  {
    ResolvePerformersFails(db, emails);
  }

  /** Both halves resolve exactly when every requested assignee exists and
      holds an assignee role. */
  lemma ResolvedIffAssignees(db: Db, input: TaskSchemas.TaskInput)
    requires Valid(db) && RolesAssigned(db)
    ensures ResolveResponsible(db, input.responsiblePerson).Ok? && ResolvePerformers(db, input.performers).Ok?
      <==> Assignees(db, input)
  {
    ResponsibleResolves(db, input.responsiblePerson);
    PerformersResolve(db, input.performers);
  }

  /** Writes the resolved assignees of task `id`: `None` leaves that part as
      it is. */
  function WriteAssignees(db: Db, id: int, responsible: Option<int>, performers: Option<set<int>>): (d: Db)
    requires Valid(db) && id in db.tasks.rows
    requires responsible.Some? ==> responsible.value in db.users.rows
    requires performers.Some? ==> forall u :: u in performers.value ==> u in db.users.rows
    ensures Valid(d)
    ensures id in d.tasks.rows && d.tasks.rows == db.tasks.rows[id := d.tasks.rows[id]]
    ensures d.tasks.rows[id].responsibleId == if responsible.Some? then responsible else db.tasks.rows[id].responsibleId
    ensures d.tasks.rows[id] == db.tasks.rows[id].(responsibleId := d.tasks.rows[id].responsibleId)
    ensures PerformersOf(d, id) == if performers.Some? then performers.value else PerformersOf(db, id)
    ensures forall e: (int, int) :: e.0 != id ==> (e in d.performers <==> e in db.performers)
    ensures d == db.(tasks := Table(d.tasks.rows, db.tasks.next), performers := d.performers)
  {
    var t := db.tasks.rows[id];
    assert Storable(db, t);
    var d1 := if responsible.Some? then PutTask(db, t.(responsibleId := responsible)) else db;
    if performers.Some? then SetPerformers(d1, id, performers.value) else d1
  }

  /** `update_task_details`: load the task, resolve the responsible person
      and then the performers, and commit both, or nothing when any step
      fails. Returns the new store and the updated task. */
  ghost function UpdateTaskDetails(db: Db, id: int, input: TaskSchemas.TaskInput): (r: Result<(Db, Task)>)
    requires Valid(db) && RolesAssigned(db)
    ensures r.Ok? || r.NotFound? || r.Invalid? || r.Forbidden?
    ensures r.NotFound? <==> id !in db.tasks.rows
    ensures r.NotFound? ==> r.message == TaskNotFound(id)
    ensures r.Ok? ==> id in db.tasks.rows && Valid(r.value.0) && id in r.value.0.tasks.rows && r.value.1 == r.value.0.tasks.rows[id]
    ensures r.Ok? ==> r.value.1.id == id
  {
    if id !in db.tasks.rows then NotFound(TaskNotFound(id))
    else
      var responsible := ResolveResponsible(db, input.responsiblePerson);
      if responsible.IsFailure() then responsible.PropagateFailure()
      else
        var performers := ResolvePerformers(db, input.performers);
        if performers.IsFailure() then performers.PropagateFailure()
        else
          ResolvedAreUsers(db, input);
          var d := WriteAssignees(db, id, responsible.value, performers.value);
          Ok((d, d.tasks.rows[id]))
  }

  /** All or nothing: the update of an existing task succeeds exactly when
      every requested assignee exists and holds an assignee role. */
  lemma UpdateTaskDetailsSucceeds(db: Db, id: int, input: TaskSchemas.TaskInput)
    requires Valid(db) && RolesAssigned(db) && id in db.tasks.rows
    ensures UpdateTaskDetails(db, id, input).Ok? <==> Assignees(db, input)
  {
    ResolvedIffAssignees(db, input);
  }

  /** A successful update changes nothing but the responsible person of task
      `id` and the association rows of task `id`. */
  lemma UpdateTaskDetailsKeeps(db: Db, id: int, input: TaskSchemas.TaskInput)
    requires Valid(db) && RolesAssigned(db) && UpdateTaskDetails(db, id, input).Ok?
    ensures var (d, t) := UpdateTaskDetails(db, id, input).value;
      && id in db.tasks.rows
      && d.tasks.rows == db.tasks.rows[id := t]
      && t == db.tasks.rows[id].(responsibleId := t.responsibleId)
      && (forall e: (int, int) :: e.0 != id ==> (e in d.performers <==> e in db.performers))
      && d == db.(tasks := Table(d.tasks.rows, db.tasks.next), performers := d.performers)
  {
    var responsible := ResolveResponsible(db, input.responsiblePerson);
    var performers := ResolvePerformers(db, input.performers);
    assert responsible.Ok? && performers.Ok?;
    ResolvedAreUsers(db, input);
    assert UpdateTaskDetails(db, id, input).value.0 == WriteAssignees(db, id, responsible.value, performers.value);
  }

  /** A successful update applies exactly the assignment `input` asks for. */
  lemma UpdateTaskDetailsApplies(db: Db, id: int, input: TaskSchemas.TaskInput)
    requires Valid(db) && RolesAssigned(db) && UpdateTaskDetails(db, id, input).Ok?
    ensures DetailsApplied(db, UpdateTaskDetails(db, id, input).value.0, id, input)
  {
    var responsible := ResolveResponsible(db, input.responsiblePerson);
    var performers := ResolvePerformers(db, input.performers);
    assert responsible.Ok? && performers.Ok?;
    ResolvedAreUsers(db, input);
    assert UpdateTaskDetails(db, id, input).value.0 == WriteAssignees(db, id, responsible.value, performers.value);
    WrittenDetails(db, id, input);
  }

  /** What the two halves resolve are stored users. */
  lemma ResolvedAreUsers(db: Db, input: TaskSchemas.TaskInput)
    requires Valid(db) && RolesAssigned(db)
    ensures var responsible := ResolveResponsible(db, input.responsiblePerson);
      responsible.Ok? && responsible.value.Some? ==> responsible.value.value in db.users.rows
    ensures var performers := ResolvePerformers(db, input.performers);
      performers.Ok? && performers.value.Some? ==> forall u :: u in performers.value.value ==> u in db.users.rows
  {
  }

  /** Writing what the two halves resolved applies the details `input` asks for. */
  lemma WrittenDetails(db: Db, id: int, input: TaskSchemas.TaskInput)
    requires Valid(db) && RolesAssigned(db) && id in db.tasks.rows
    requires ResolveResponsible(db, input.responsiblePerson).Ok? && ResolvePerformers(db, input.performers).Ok?
    ensures var responsible := ResolveResponsible(db, input.responsiblePerson).value;
      var performers := ResolvePerformers(db, input.performers).value;
      && (responsible.Some? ==> responsible.value in db.users.rows)
      && (performers.Some? ==> forall u :: u in performers.value ==> u in db.users.rows)
      && DetailsApplied(db, WriteAssignees(db, id, responsible, performers), id, input)
  {
    var responsible := ResolveResponsible(db, input.responsiblePerson).value;
    var performers := ResolvePerformers(db, input.performers).value;
    if input.responsiblePerson != "" {
      assert HasEmail(db, responsible.value, input.responsiblePerson);
    }
  }

  /** Which assignment error wins: a missing task, then the responsible
      person's email, then its role, then the performers. */
  lemma DetailsPrecedence(db: Db, id: int, input: TaskSchemas.TaskInput)
    requires Valid(db) && RolesAssigned(db) && id in db.tasks.rows
    ensures input.responsiblePerson != "" && !UserDirectory.EmailKnown(db, input.responsiblePerson) ==>
      UpdateTaskDetails(db, id, input)
        == Invalid(UserDirectory.EmailsNotFound(UserDirectory.MissingEmails(db, [input.responsiblePerson])))
    ensures ResolveResponsible(db, input.responsiblePerson).Forbidden? ==>
      UpdateTaskDetails(db, id, input) == ResolveResponsible(db, input.responsiblePerson).PropagateFailure()
    ensures ResolveResponsible(db, input.responsiblePerson).Ok? && ResolvePerformers(db, input.performers).Invalid? ==>
      UpdateTaskDetails(db, id, input)
        == Invalid(UserDirectory.EmailsNotFound(UserDirectory.MissingEmails(db, input.performers)))
  {
    DetailsFailures(db, id, input);
    if input.responsiblePerson != "" {
      ResolveResponsibleFails(db, input.responsiblePerson);
    }
    ResolvePerformersFails(db, input.performers);
  }

  /** An existing task's update fails with the responsible person's error,
      or failing that with the performers'. */
  lemma DetailsFailures(db: Db, id: int, input: TaskSchemas.TaskInput)
    requires Valid(db) && RolesAssigned(db) && id in db.tasks.rows
    ensures var responsible := ResolveResponsible(db, input.responsiblePerson);
      && (responsible.Invalid? || responsible.Forbidden? ==>
            UpdateTaskDetails(db, id, input) == responsible.PropagateFailure())
      && (responsible.Ok? && ResolvePerformers(db, input.performers).Invalid? ==>
            UpdateTaskDetails(db, id, input) == ResolvePerformers(db, input.performers).PropagateFailure())
  {
  }

  /** Assignment is sparse: with no responsible email and no performers,
      the store is left as it was. */
  lemma NothingToAssign(db: Db, id: int, input: TaskSchemas.TaskInput)
    requires Valid(db) && RolesAssigned(db) && id in db.tasks.rows
    requires input.responsiblePerson == "" && |input.performers| == 0
    ensures UpdateTaskDetails(db, id, input) == Ok((db, db.tasks.rows[id]))
  {
  }

  /** Assignment depends only on the users and roles, not on the tasks. */
  lemma SameDirectory(db: Db, d: Db, input: TaskSchemas.TaskInput)
    requires d.users == db.users && d.roles == db.roles
    ensures Assignees(d, input) == Assignees(db, input)
    ensures UserDirectory.Matching(d, input.performers) == UserDirectory.Matching(db, input.performers)
    ensures forall k, e :: HasEmail(d, k, e) == HasEmail(db, k, e) && Assignable(d, k) == Assignable(db, k)
  {
    forall k
      ensures Assignable(d, k) == Assignable(db, k)
    {
      if k in db.users.rows {
        assert RoleOf(d, db.users.rows[k]) == RoleOf(db, db.users.rows[k]);
      }
    }
    forall e
      ensures UserDirectory.EmailKnown(d, e) == UserDirectory.EmailKnown(db, e)
    {
    }
    assert UserDirectory.Matching(d, input.performers) == UserDirectory.Matching(db, input.performers);
  }

  // ---- generate_task ----

  /** The status id a task body resolves to: the stored status matching the
      name ignoring case. When none matches, the ORM leaves the `None` out of
      the INSERT and the column default 1 applies. */
  ghost function NewStatusId(db: Db, name: string): (s: int)
    ensures (exists k :: k in db.statuses.rows && Lower(db.statuses.rows[k].name) == Lower(name)) ==>
      s in db.statuses.rows && Lower(db.statuses.rows[s].name) == Lower(name)
    ensures (forall k :: k in db.statuses.rows ==> Lower(db.statuses.rows[k].name) != Lower(name)) ==> s == 1
  {
    var found := GetTaskStatusId(db, name);
    if found.Some? then found.value else 1
  }

  /** Task row `t` carries the plain fields of `input`, with the status
      resolved against `db`. */
  ghost predicate CarriesInput(db: Db, t: Task, input: TaskSchemas.TaskInput, statusId: int) {
    && t.title == input.title
    && t.description == input.description
    && t.statusId == statusId
    && t.priorityId == Some(input.priority)
    && t.deadline == input.deadline
  }

  /** The row `generate_task` inserts before assigning anyone. */
  ghost function NewTask(db: Db, input: TaskSchemas.TaskInput, creator: Account, now: int): (t: Task)
    ensures t.id == db.tasks.next && t.createdById == creator.id && t.createdAt == now
    ensures t.responsibleId.None?
    ensures CarriesInput(db, t, input, NewStatusId(db, input.status))
  {
    Task(db.tasks.next, input.title, input.description, None, NewStatusId(db, input.status),
      Some(input.priority), creator.id, now, input.deadline)
  }

  /** `generate_task`: insert the task under the next id, created by the
      caller at time `now`, then assign it as `update_task_details` does.
      A failed assignment commits nothing, so the caller keeps `db`. */
  ghost function GenerateTask(db: Db, input: TaskSchemas.TaskInput, creator: Account, now: int): (r: Result<(Db, Task)>)
    requires Valid(db) && RolesAssigned(db) && Aligned(db) && creator.id in db.users.rows
    requires |input.title| <= 250 && 1 <= input.priority <= 5
    ensures r.Ok? || r.Invalid? || r.Forbidden?
    ensures r.Ok? ==>
      && Valid(r.value.0) && r.value.1.id == db.tasks.next
      && r.value.1.id in r.value.0.tasks.rows && r.value.0.tasks.rows[r.value.1.id] == r.value.1
  {
    var t := NewTask(db, input, creator, now);
    var d0 := PutTask(db, t);
    UpdateTaskDetails(d0, t.id, input)
  }

  /** Creation succeeds exactly when every requested assignee exists and
      holds an assignee role. */
  lemma GenerateTaskSucceeds(db: Db, input: TaskSchemas.TaskInput, creator: Account, now: int)
    requires Valid(db) && RolesAssigned(db) && Aligned(db) && creator.id in db.users.rows
    requires |input.title| <= 250 && 1 <= input.priority <= 5
    ensures GenerateTask(db, input, creator, now).Ok? <==> Assignees(db, input)
  {
    var t := NewTask(db, input, creator, now);
    var d0 := PutTask(db, t);
    UpdateTaskDetailsSucceeds(d0, t.id, input);
    SameDirectory(db, d0, input);
  }

  /** A created task is a new row under the next id, recorded as created by
      the caller at `now` and carrying the body's fields; every other row
      and association is as before. */
  lemma GenerateTaskCreates(db: Db, input: TaskSchemas.TaskInput, creator: Account, now: int)
    requires Valid(db) && RolesAssigned(db) && Aligned(db) && creator.id in db.users.rows
    requires |input.title| <= 250 && 1 <= input.priority <= 5
    requires GenerateTask(db, input, creator, now).Ok?
    ensures var r := GenerateTask(db, input, creator, now).value;
      && r.1.id == db.tasks.next && r.1.id !in db.tasks.rows
      && r.0.tasks.rows == db.tasks.rows[r.1.id := r.1] && r.0.tasks.next == db.tasks.next + 1
      && r.1.createdById == creator.id && r.1.createdAt == now
      && CarriesInput(db, r.1, input, NewStatusId(db, input.status))
      && (forall e: (int, int) :: e.0 != r.1.id ==> (e in r.0.performers <==> e in db.performers))
      && r.0 == db.(tasks := r.0.tasks, performers := r.0.performers)
  {
    var t0 := NewTask(db, input, creator, now);
    var d0 := PutTask(db, t0);
    assert GenerateTask(db, input, creator, now) == UpdateTaskDetails(d0, t0.id, input);
    WrittenThenAssigned(db, d0, t0, db.tasks.next + 1, input);
  }

  /** Assigning a row just written keeps its other fields and touches no
      other row. */
  lemma WrittenThenAssigned(db: Db, d0: Db, t0: Task, next: int, input: TaskSchemas.TaskInput)
    requires Valid(d0) && RolesAssigned(d0)
    requires d0 == db.(tasks := Table(db.tasks.rows[t0.id := t0], next))
    requires UpdateTaskDetails(d0, t0.id, input).Ok?
    ensures var r := UpdateTaskDetails(d0, t0.id, input).value;
      && r.0.tasks.rows == db.tasks.rows[t0.id := r.1] && r.0.tasks.next == next
      && r.1 == t0.(responsibleId := r.1.responsibleId)
      && (forall e: (int, int) :: e.0 != t0.id ==> (e in r.0.performers <==> e in db.performers))
      && r.0 == db.(tasks := r.0.tasks, performers := r.0.performers)
  {
    UpdateTaskDetailsKeeps(d0, t0.id, input);
    var r := UpdateTaskDetails(d0, t0.id, input).value;
    assert db.tasks.rows[t0.id := t0][t0.id := r.1] == db.tasks.rows[t0.id := r.1];
  }

  /** A created task's responsible person is the user with the given email
      (none when no email is given) and its performers are exactly the users
      with the listed emails. */
  lemma GenerateTaskAssigns(db: Db, input: TaskSchemas.TaskInput, creator: Account, now: int)
    requires Valid(db) && RolesAssigned(db) && Aligned(db) && creator.id in db.users.rows
    requires |input.title| <= 250 && 1 <= input.priority <= 5
    requires GenerateTask(db, input, creator, now).Ok?
    ensures var (d, t) := GenerateTask(db, input, creator, now).value;
      && (input.responsiblePerson == "" ==> t.responsibleId.None?)
      && (input.responsiblePerson != "" ==>
           exists k :: t.responsibleId == Some(k) && HasEmail(db, k, input.responsiblePerson) && Assignable(db, k))
      && PerformersOf(d, t.id) == UserDirectory.Matching(db, input.performers)
  {
    var t0 := NewTask(db, input, creator, now);
    var d0 := PutTask(db, t0);
    assert PerformersOf(d0, t0.id) == {} by {
      assert forall e :: e in db.performers ==> e.0 != t0.id;
    }
    UpdateTaskDetailsApplies(d0, t0.id, input);
    SameDirectory(db, d0, input);
    if |input.performers| == 0 {
      assert UserDirectory.Matching(db, input.performers) == {};
    }
  }

  // ---- update_task ----

  const StatusRequired: string := "NOT NULL constraint failed: task.status_id"

  /** `update_task`: overwrite the plain fields of task `id` with the body's
      (the status resolved by name), then assign it as `update_task_details`
      does, committing both or nothing. A missing task is reported by the
      lookup that follows the UPDATE; a status name no row matches would
      write NULL into a non-null column and is refused by the database. */
  ghost function UpdateTask(db: Db, id: int, input: TaskSchemas.TaskInput): (r: Result<(Db, Task)>)
    requires Valid(db) && RolesAssigned(db) && Aligned(db)
    requires |input.title| <= 250 && 1 <= input.priority <= 5
    ensures r.Ok? || r.NotFound? || r.Conflict? || r.Invalid? || r.Forbidden?
    ensures r.NotFound? <==> id !in db.tasks.rows
    ensures r.NotFound? ==> r.message == TaskNotFound(id)
    ensures r.Conflict? <==> id in db.tasks.rows && GetTaskStatusId(db, input.status).None?
    ensures r.Conflict? ==> r.message == StatusRequired
    ensures r.Ok? ==> Valid(r.value.0) && id in r.value.0.tasks.rows && r.value.1 == r.value.0.tasks.rows[id]
  {
    if id !in db.tasks.rows then NotFound(TaskNotFound(id))
    else
      var status := GetTaskStatusId(db, input.status);
      if status.None? then Conflict(StatusRequired)
      else
        var d0 := PutTask(db, Overwritten(db, id, input, status.value));
        UpdateTaskDetails(d0, id, input)
  }

  /** Task `id` with the plain fields of `input` written over it. */
  ghost function Overwritten(db: Db, id: int, input: TaskSchemas.TaskInput, statusId: int): (t: Task)
    requires Valid(db) && Aligned(db) && id in db.tasks.rows
    requires statusId in db.statuses.rows && |input.title| <= 250 && 1 <= input.priority <= 5
    ensures Storable(db, t) && t.id == id
    ensures CarriesInput(db, t, input, statusId)
    ensures t.createdById == db.tasks.rows[id].createdById && t.createdAt == db.tasks.rows[id].createdAt
    ensures t.responsibleId == db.tasks.rows[id].responsibleId
  {
    db.tasks.rows[id].(title := input.title, description := input.description, statusId := statusId,
      priorityId := Some(input.priority), deadline := input.deadline)
  }

  /** A full update of an existing task with a resolvable status succeeds
      exactly when every requested assignee exists and holds an assignee
      role. */
  lemma UpdateTaskSucceeds(db: Db, id: int, input: TaskSchemas.TaskInput)
    requires Valid(db) && RolesAssigned(db) && Aligned(db)
    requires |input.title| <= 250 && 1 <= input.priority <= 5
    requires id in db.tasks.rows && GetTaskStatusId(db, input.status).Some?
    ensures UpdateTask(db, id, input).Ok? <==> Assignees(db, input)
  {
    var d0 := PutTask(db, Overwritten(db, id, input, GetTaskStatusId(db, input.status).value));
    UpdateTaskDetailsSucceeds(d0, id, input);
    SameDirectory(db, d0, input);
  }

  /** An updated task carries the body's fields and keeps its creator and
      creation time; no other row changes. */
  lemma UpdateTaskReplaces(db: Db, id: int, input: TaskSchemas.TaskInput)
    requires Valid(db) && RolesAssigned(db) && Aligned(db)
    requires |input.title| <= 250 && 1 <= input.priority <= 5
    requires UpdateTask(db, id, input).Ok?
    ensures var r := UpdateTask(db, id, input).value;
      && id in db.tasks.rows && GetTaskStatusId(db, input.status).Some?
      && CarriesInput(db, r.1, input, GetTaskStatusId(db, input.status).value)
      && r.1.createdById == db.tasks.rows[id].createdById && r.1.createdAt == db.tasks.rows[id].createdAt
      && r.0.tasks.rows == db.tasks.rows[id := r.1] && r.0.tasks.next == db.tasks.next
      && (forall e: (int, int) :: e.0 != id ==> (e in r.0.performers <==> e in db.performers))
      && r.0 == db.(tasks := r.0.tasks, performers := r.0.performers)
  {
    var t0 := Overwritten(db, id, input, GetTaskStatusId(db, input.status).value);
    var d0 := PutTask(db, t0);
    assert UpdateTask(db, id, input) == UpdateTaskDetails(d0, id, input);
    WrittenThenAssigned(db, d0, t0, db.tasks.next, input);
  }

  /** The assignment of an updated task follows the sparse rules: the
      responsible person is replaced only when an email is given, the
      performers only when a non-empty list is given. */
  lemma UpdateTaskAssigns(db: Db, id: int, input: TaskSchemas.TaskInput)
    requires Valid(db) && RolesAssigned(db) && Aligned(db)
    requires |input.title| <= 250 && 1 <= input.priority <= 5
    requires UpdateTask(db, id, input).Ok?
    ensures var (d, t) := UpdateTask(db, id, input).value;
      && id in db.tasks.rows
      && (input.responsiblePerson == "" ==> t.responsibleId == db.tasks.rows[id].responsibleId)
      && (input.responsiblePerson != "" ==>
           exists k :: t.responsibleId == Some(k) && HasEmail(db, k, input.responsiblePerson) && Assignable(db, k))
      && (|input.performers| == 0 ==> PerformersOf(d, id) == PerformersOf(db, id))
      && (|input.performers| > 0 ==> PerformersOf(d, id) == UserDirectory.Matching(db, input.performers))
  {
    var d0 := PutTask(db, Overwritten(db, id, input, GetTaskStatusId(db, input.status).value));
    UpdateTaskDetailsApplies(d0, id, input);
    SameDirectory(db, d0, input);
  }

  // ---- update_task_status ----

  function AlreadyInStatus(name: string): string {
    "Task is already in «" + name + "» status"
  }

  /** `update_task_status`: a no-op when the name resolves to the task's
      current status id; otherwise the id is written (a name no row matches
      writes NULL and is refused by the database). The task is returned with
      its status shown under the name as typed. */
  ghost function UpdateTaskStatus(db: Db, id: int, name: string): (r: Result<(Db, Task, string)>)
    requires Valid(db)
    ensures r.Ok? || r.NoOp? || r.NotFound? || r.Conflict?
    ensures r.NotFound? <==> id !in db.tasks.rows
    ensures r.NotFound? ==> r.message == TaskNotFound(id)
    ensures r.NoOp? <==> id in db.tasks.rows && GetTaskStatusId(db, name) == Some(db.tasks.rows[id].statusId)
    ensures r.NoOp? ==> r.message == AlreadyInStatus(name)
    ensures r.Conflict? <==> id in db.tasks.rows && GetTaskStatusId(db, name).None?
    ensures r.Conflict? ==> r.message == StatusRequired
    ensures r.Ok? ==>
      var (d, t, shown) := r.value;
      && id in db.tasks.rows
      && Valid(d) && shown == name
      && t.statusId != db.tasks.rows[id].statusId
      && t == db.tasks.rows[id].(statusId := t.statusId)
      && t.statusId in db.statuses.rows && Lower(db.statuses.rows[t.statusId].name) == Lower(name)
      && d.tasks.rows == db.tasks.rows[id := t] && d == db.(tasks := Table(d.tasks.rows, db.tasks.next))
  {
    var task :- GetTaskById(db, id);
    var status := GetTaskStatusId(db, name);
    if status == Some(task.statusId) then NoOp(AlreadyInStatus(name))
    else if status.None? then Conflict(StatusRequired)
    else
      assert Storable(db, task);
      var t := task.(statusId := status.value);
      Ok((PutTask(db, t), t, name))
  }

  /** Changing to the same status twice: the second change is a no-op. */
  lemma UpdateTaskStatusTwice(db: Db, id: int, name: string)
    requires Valid(db) && UpdateTaskStatus(db, id, name).Ok?
    ensures UpdateTaskStatus(UpdateTaskStatus(db, id, name).value.0, id, name).NoOp?
  {
    var (d, t, shown) := UpdateTaskStatus(db, id, name).value;
    assert d.statuses == db.statuses;
  }

  // ---- delete_task ----

  /** `delete_task`: removes task `id` (its association rows go with it) and
      returns the task as it was, with its performers. */
  function DeleteTask(db: Db, id: int): (r: Result<(Db, Task, set<int>)>)
    requires Valid(db)
    ensures r.Ok? || r.NotFound?
    ensures r.NotFound? <==> id !in db.tasks.rows
    ensures r.NotFound? ==> r.message == TaskNotFound(id)
    ensures r.Ok? ==>
      var (d, t, performers) := r.value;
      && Valid(d)
      && t == db.tasks.rows[id] && performers == PerformersOf(db, id)
      && d.tasks.rows == db.tasks.rows - {id}
      && PerformersOf(d, id) == {}
      && (forall e: (int, int) :: e.0 != id ==> (e in d.performers <==> e in db.performers))
      && d == db.(tasks := Table(d.tasks.rows, db.tasks.next), performers := d.performers)
  {
    var t :- GetTaskById(db, id);
    Ok((RemoveTask(db, id), t, PerformersOf(db, id)))
  }

  /** A deleted task is gone: looking it up, or deleting it again, reports
      it missing. */
  lemma DeletedTaskIsGone(db: Db, id: int)
    requires Valid(db) && DeleteTask(db, id).Ok?
    ensures GetTaskById(DeleteTask(db, id).value.0, id) == NotFound(TaskNotFound(id))
    ensures DeleteTask(DeleteTask(db, id).value.0, id) == NotFound(TaskNotFound(id))
  {
  }

  // ---- every task has a responsible person ----

  /** Every task has a responsible person. Task bodies require one, creation
      and full update always assign it, and no route deletes users, so the
      status-change notification can always be addressed. */
  ghost predicate Staffed(db: Db) {
    forall k :: k in db.tasks.rows ==> db.tasks.rows[k].responsibleId.Some?
  }

  lemma GenerateTaskKeepsStaffed(db: Db, input: TaskSchemas.TaskInput, creator: Account, now: int)
    requires Valid(db) && RolesAssigned(db) && Aligned(db) && creator.id in db.users.rows
    requires |input.title| <= 250 && 1 <= input.priority <= 5 && input.responsiblePerson != ""
    requires Staffed(db) && GenerateTask(db, input, creator, now).Ok?
    ensures Staffed(GenerateTask(db, input, creator, now).value.0)
  {
    GenerateTaskCreates(db, input, creator, now);
    GenerateTaskAssigns(db, input, creator, now);
  }

  lemma UpdateTaskKeepsStaffed(db: Db, id: int, input: TaskSchemas.TaskInput)
    requires Valid(db) && RolesAssigned(db) && Aligned(db)
    requires |input.title| <= 250 && 1 <= input.priority <= 5
    requires Staffed(db) && UpdateTask(db, id, input).Ok?
    ensures Staffed(UpdateTask(db, id, input).value.0)
  {
    UpdateTaskReplaces(db, id, input);
    UpdateTaskAssigns(db, id, input);
  }

  lemma UpdateTaskStatusKeepsStaffed(db: Db, id: int, name: string)
    requires Valid(db) && Staffed(db) && UpdateTaskStatus(db, id, name).Ok?
    ensures Staffed(UpdateTaskStatus(db, id, name).value.0)
    ensures UpdateTaskStatus(db, id, name).value.1.responsibleId.Some?
  {
  }

  lemma DeleteTaskKeepsStaffed(db: Db, id: int)
    requires Valid(db) && Staffed(db) && DeleteTask(db, id).Ok?
    ensures Staffed(DeleteTask(db, id).value.0)
  {
  }
}
