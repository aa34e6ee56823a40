/** The relational store as an immutable value: one table per ORM model, each
    a map from primary key to row plus a counter above every id the table
    has used, from which new rows take their ids, and the task/user
    association table as a set of pairs. */
module Store {
  import opened Results
  import opened Text
  import Config

  type Bytes = seq<bv8>

  /** Rows of the three lookup tables: a unique `name` plus one payload.
      For `role_permission` the name is `position` and the payload the
      optional `description_of_access_to_actions`; for `task_priority` the
      payload is `importance_level`; `task_status` has none. */
  datatype Row<A> = Row(id: int, name: string, data: A)

  type Role = Row<Option<string>>
  type TaskPriority = Row<int>
  type TaskStatus = Row<()>

  /** A `user` row; `roleId` is the nullable `role_permission_id`. */
  datatype User = User(id: int, login: string, email: string, password: Bytes, roleId: Option<int>)

  /** A `task` row. Times are minute stamps (see `Dates.Stamp`). */
  datatype Task = Task(
    id: int,
    title: string,
    description: Option<string>,
    responsibleId: Option<int>,
    statusId: int,
    priorityId: Option<int>,
    createdById: int,
    createdAt: int,
    deadline: Option<int>)

  datatype Table<T> = Table(rows: map<int, T>, next: int)

  datatype Db = Db(
    roles: Table<Role>,
    users: Table<User>,
    priorities: Table<TaskPriority>,
    statuses: Table<TaskStatus>,
    tasks: Table<Task>,
    performers: set<(int, int)>)  // (task id, user id) rows of `task_user_association`

  /** A user as the application sees it after loading the `role` relationship
      (`UserSchema`). */
  datatype Account = Account(id: int, login: string, email: string, password: Bytes, role: Option<Role>)

  function EmptyTable<T>(): Table<T> {
    Table(map[], 1)
  }

  function EmptyDb(): Db {
    Db(EmptyTable(), EmptyTable(), EmptyTable(), EmptyTable(), EmptyTable(), {})
  }

  /** The role row a user points at, when the reference resolves. */
  function RoleOf(db: Db, u: User): Option<Role> {
    if u.roleId.Some? && u.roleId.value in db.roles.rows then Some(db.roles.rows[u.roleId.value]) else None
  }

  function Load(db: Db, u: User): (a: Account)
    ensures a.id == u.id && a.login == u.login && a.email == u.email
  {
    Account(u.id, u.login, u.email, u.password, RoleOf(db, u))
  }

  /** `str(user)`, as embedded in assignment-rejection messages. */
  function UserText(a: Account): string
    requires a.role.Some?
  {
    "User(id=" + IntToString(a.id) + ", login=" + Repr(a.login) + ", email=" + Repr(a.email)
    + ", role=" + Repr(a.role.value.name) + ")"
  }

  // ---- keys in some order ----

  /** The elements of a finite set in some order, each once. */
  ghost function Enumerate(s: set<int>): (xs: seq<int>)
    ensures forall x :: x in xs <==> x in s
    ensures Distinct(xs)
    ensures |xs| == |s|
    decreases s
  {
    if exists x :: x in s then
      var x :| x in s;
      var rest := Enumerate(s - {x});
      assert x !in rest;
      [x] + rest
    else
      assert s == {};
      []
  }

  /** The position of `x` in `xs`. */
  function IndexIn(xs: seq<int>, x: int): (i: int)
    requires x in xs
    ensures 0 <= i < |xs| && xs[i] == x
  {
    if xs[0] == x then 0 else 1 + IndexIn(xs[1..], x)
  }

  // ---- integrity constraints of the schema ----

  ghost predicate RowsKeyed<A>(t: Table<Row<A>>) {
    1 <= t.next && forall k :: k in t.rows ==> t.rows[k].id == k && 1 <= k < t.next
  }

  ghost predicate UniqueNames<A>(t: Table<Row<A>>) {
    forall i, j :: i in t.rows && j in t.rows && t.rows[i].name == t.rows[j].name ==> i == j
  }

  ghost predicate UsersKeyed(t: Table<User>) {
    1 <= t.next && forall k :: k in t.rows ==> t.rows[k].id == k && 1 <= k < t.next
  }

  ghost predicate TasksKeyed(t: Table<Task>) {
    1 <= t.next && forall k :: k in t.rows ==> t.rows[k].id == k && 1 <= k < t.next
  }

  /** `login` and `email` are each `unique=True`. */
  ghost predicate UniqueLogins(users: map<int, User>) {
    forall i, j :: i in users && j in users && users[i].login == users[j].login ==> i == j
  }

  ghost predicate UniqueEmails(users: map<int, User>) {
    forall i, j :: i in users && j in users && users[i].email == users[j].email ==> i == j
  }

  /** Registration bounds every stored login and email to 3..50 characters. */
  ghost predicate UserBounds(users: map<int, User>) {
    forall k :: k in users ==> 3 <= |users[k].login| <= 50 && 3 <= |users[k].email| <= 50
  }

  ghost predicate UserRefs(db: Db) {
    forall k :: k in db.users.rows && db.users.rows[k].roleId.Some? ==> db.users.rows[k].roleId.value in db.roles.rows
  }

  ghost predicate TaskRefs(db: Db) {
    forall k :: k in db.tasks.rows ==>
      var t := db.tasks.rows[k];
      && t.statusId in db.statuses.rows
      && (t.priorityId.Some? ==> t.priorityId.value in db.priorities.rows)
      && (t.responsibleId.Some? ==> t.responsibleId.value in db.users.rows)
      && t.createdById in db.users.rows
      && |t.title| <= 250
  }

  /** Every association row points at an existing task and user. */
  ghost predicate EdgeRefs(db: Db) {
    forall e :: e in db.performers ==> e.0 in db.tasks.rows && e.1 in db.users.rows
  }

  ghost predicate Valid(db: Db) {
    && RowsKeyed(db.roles) && RowsKeyed(db.priorities) && RowsKeyed(db.statuses)
    && UsersKeyed(db.users) && TasksKeyed(db.tasks)
    && UniqueNames(db.roles) && UniqueNames(db.priorities) && UniqueNames(db.statuses)
    && UniqueLogins(db.users.rows) && UniqueEmails(db.users.rows) && UserBounds(db.users.rows)
    && UserRefs(db) && TaskRefs(db) && EdgeRefs(db)
  }

  /** Every user holds a role. The column is nullable, but task assignment and
      the role guard dereference it unconditionally, so their callers need it. */
  ghost predicate RolesAssigned(db: Db) {
    forall k :: k in db.users.rows ==> db.users.rows[k].roleId.Some? && db.users.rows[k].roleId.value in db.roles.rows
  }

  /** Some row of `t` is named exactly `name`. */
  ghost predicate HasName<A>(t: Table<Row<A>>, name: string) {
    exists k :: k in t.rows && t.rows[k].name == name
  }

  /** Every configured role, priority label and status has a row. */
  ghost predicate Seeded(db: Db) {
    && (forall i :: 0 <= i < |Config.RoleNames| ==> HasName(db.roles, Config.RoleNames[i]))
    && (forall i :: 0 <= i < |Config.PriorityNames| ==> HasName(db.priorities, Config.PriorityNames[i]))
    && (forall i :: 0 <= i < |Config.Statuses| ==> HasName(db.statuses, Config.Statuses[i]))
  }

  /** The ids the task code hard-wires: a priority level is used directly as
      `priority_id`, and a new task's `status_id` defaults to 1 (TODO). */
  ghost predicate Aligned(db: Db) {
    && (forall l :: 1 <= l <= 5 ==> l in db.priorities.rows && db.priorities.rows[l].data == l)
    && 1 in db.statuses.rows && db.statuses.rows[1].name == Config.Statuses[0]
  }

  /** The performers of task `id`. */
  function PerformersOf(db: Db, id: int): set<int> {
    set e | e in db.performers && e.0 == id :: e.1
  }

  lemma EmptyDbValid()
    ensures Valid(EmptyDb()) && RolesAssigned(EmptyDb())
  {
  }

  // ---- referential actions declared on the foreign keys ----

  function ClearResponsible(t: Task, uid: int): Task {
    if t.responsibleId == Some(uid) then t.(responsibleId := None) else t
  }

  /** Deleting a user: association rows go with it (`ondelete="CASCADE"`),
      `responsible_person_id` is set to null (`ondelete="SET NULL"`), and the
      delete is refused while a task's non-null `created_by_id` points at it. */
  function DeleteUser(db: Db, uid: int): (r: Result<Db>)
    requires Valid(db) && uid in db.users.rows
    ensures r.Ok? || r.Conflict?
    ensures r.Conflict? <==> exists k :: k in db.tasks.rows && db.tasks.rows[k].createdById == uid
    ensures r.Ok? ==> Valid(r.value) && UserRemoved(db, r.value, uid)
  {
    if exists k :: k in db.tasks.rows && db.tasks.rows[k].createdById == uid then
      Conflict("FOREIGN KEY constraint failed: task.created_by_id references the user")
    else
      var d := WithoutUser(db, uid);
      WithoutUserValid(db, uid);
      Ok(d)
  }

  /** `d` is `db` without user `uid`: its row and association rows are gone,
      the tasks it was responsible for have no responsible person, and
      nothing else changed. */
  ghost predicate UserRemoved(db: Db, d: Db, uid: int) {
    && d.users.rows == db.users.rows - {uid}
    && d.users.next == db.users.next
    && d.performers == (set e | e in db.performers && e.1 != uid)
    && d.tasks.rows.Keys == db.tasks.rows.Keys
    && d.tasks.next == db.tasks.next
    && (forall k :: k in d.tasks.rows ==> d.tasks.rows[k].responsibleId != Some(uid))
    && (forall k :: k in d.tasks.rows && db.tasks.rows[k].responsibleId != Some(uid) ==> d.tasks.rows[k] == db.tasks.rows[k])
    && (forall k :: k in d.tasks.rows ==> d.tasks.rows[k] == db.tasks.rows[k].(responsibleId := d.tasks.rows[k].responsibleId))
    && d.roles == db.roles && d.statuses == db.statuses && d.priorities == db.priorities
  }

  function WithoutUser(db: Db, uid: int): (d: Db)
    ensures UserRemoved(db, d, uid)
  {
    var tasks := map k | k in db.tasks.rows :: ClearResponsible(db.tasks.rows[k], uid);
    db.(users := db.users.(rows := db.users.rows - {uid}),
        tasks := db.tasks.(rows := tasks),
        performers := set e | e in db.performers && e.1 != uid)
  }

  lemma WithoutUserValid(db: Db, uid: int)
    requires Valid(db)
    requires forall k :: k in db.tasks.rows ==> db.tasks.rows[k].createdById != uid
    ensures Valid(WithoutUser(db, uid))
  {
    var d := WithoutUser(db, uid);
    assert TasksKeyed(d.tasks);
    assert TaskRefs(d) by {
      forall k | k in d.tasks.rows
        ensures d.tasks.rows[k].createdById in d.users.rows
        ensures d.tasks.rows[k].responsibleId.Some? ==> d.tasks.rows[k].responsibleId.value in d.users.rows
      {
        assert d.tasks.rows[k] == ClearResponsible(db.tasks.rows[k], uid);
      }
    }
  }

  function ClearRole(u: User, rid: int): User {
    if u.roleId == Some(rid) then u.(roleId := None) else u
  }

  /** Deleting a role sets `role_permission_id` to null on its users. */
  function DeleteRole(db: Db, rid: int): (r: Db)
    requires Valid(db) && rid in db.roles.rows
    ensures Valid(r)
    ensures r.roles.rows == db.roles.rows - {rid}
    ensures r.users.rows.Keys == db.users.rows.Keys
    ensures forall k :: k in r.users.rows ==>
      r.users.rows[k].roleId == (if db.users.rows[k].roleId == Some(rid) then None else db.users.rows[k].roleId)
    ensures forall k :: k in r.users.rows ==> r.users.rows[k].(roleId := db.users.rows[k].roleId) == db.users.rows[k]
    ensures r.tasks == db.tasks && r.performers == db.performers
  {
    WithoutRoleValid(db, rid);
    WithoutRole(db, rid)
  }

  function WithoutRole(db: Db, rid: int): Db {
    var users := map k | k in db.users.rows :: ClearRole(db.users.rows[k], rid);
    db.(roles := db.roles.(rows := db.roles.rows - {rid}), users := db.users.(rows := users))
  }

  lemma WithoutRoleValid(db: Db, rid: int)
    requires Valid(db)
    ensures Valid(WithoutRole(db, rid))
  {
    var d := WithoutRole(db, rid);
    assert forall k :: k in d.users.rows ==> d.users.rows[k] == ClearRole(db.users.rows[k], rid);
    assert UsersKeyed(d.users);
    assert UniqueLogins(d.users.rows) && UniqueEmails(d.users.rows);
    assert UserRefs(d);
  }
}
