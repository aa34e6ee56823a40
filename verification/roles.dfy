/** `get_role_permission`: the role a registration names, found by a
    case-insensitive comparison of `position`. */
module RolePermissions {
  import opened Results
  import opened Text
  import opened Store
  import Config

  const RoleError: string := "Role permission must be one of: " + Guillemets(Config.RoleNames)

  /** Row `k` is a role whose position equals `name` up to letter case
      (`func.lower(position) == role_name.lower()`). */
  ghost predicate RoleNamed(db: Db, k: int, name: string) {
    k in db.roles.rows && Lower(db.roles.rows[k].name) == Lower(name)
  }

  /** The role whose position matches `name` ignoring case, or the error
      listing the configured roles. When two stored positions differ only in
      case the query may return either; the model picks one of them. */
  ghost function GetRolePermission(db: Db, name: string): (r: Result<Role>)
    ensures r.Ok? || r.Invalid?
    ensures r.Ok? <==> exists k :: RoleNamed(db, k, name)
    ensures r.Ok? ==> exists k :: RoleNamed(db, k, name) && db.roles.rows[k] == r.value
    ensures r.Invalid? ==> r.message == RoleError
  {
    var key := Lower(name);
    if exists k :: k in db.roles.rows && Lower(db.roles.rows[k].name) == key then
      var k :| k in db.roles.rows && Lower(db.roles.rows[k].name) == key;
      assert RoleNamed(db, k, name);
      Ok(db.roles.rows[k])
    else
      Invalid(RoleError)
  }

  /** In a consistent store the returned record carries the id of the row it
      was read from, and its position matches the request up to case. */
  lemma ResolvedRoleIsStored(db: Db, name: string)
    requires Valid(db) && GetRolePermission(db, name).Ok?
    ensures var role := GetRolePermission(db, name).value;
      role.id in db.roles.rows && db.roles.rows[role.id] == role && Lower(role.name) == Lower(name)
  {
  }

  /** The lookup ignores letter case: two spellings that lower-case alike
      give the same answer. */
  lemma GetRolePermissionIgnoresCase(db: Db, a: string, b: string)
    requires Lower(a) == Lower(b)
    ensures GetRolePermission(db, a) == GetRolePermission(db, b)
  {
  }

  /** Once the roles are seeded, every configured role resolves, whatever
      the case it is typed in. */
  lemma SeededRolesResolve(db: Db, name: string, i: int)
    requires Seeded(db) && 0 <= i < |Config.RoleNames|
    requires Lower(name) == Lower(Config.RoleNames[i])
    ensures GetRolePermission(db, name).Ok?
  {
    assert HasName(db.roles, Config.RoleNames[i]);
    var k :| k in db.roles.rows && db.roles.rows[k].name == Config.RoleNames[i];
    assert RoleNamed(db, k, name);
  }

  /** The error names every configured role. */
  lemma RoleErrorListsRoles()
    ensures forall i :: 0 <= i < |Config.RoleNames| ==> Occurs(Config.RoleNames[i], RoleError)
  {
    forall i | 0 <= i < |Config.RoleNames|
      ensures Occurs(Config.RoleNames[i], RoleError)
    {
      GuillemetsMention(Config.RoleNames, i);
      OccursInRight(Config.RoleNames[i], "Role permission must be one of: ", Guillemets(Config.RoleNames));
    }
  }
}
