/** Authentication and the role guard: the token payload issued at login,
    the user it resolves back to, and `RoleChecker`. Signing and verifying
    the token are outside the model; a payload is a plain claim map. */
module Auth {
  import opened Results
  import opened Text
  import opened Store
  import UserDirectory

  /** The claims `auth_user_issue_jwt` signs: `sub` and `username` are the
      login, `role` is the role's position. */
  function IssuePayload(a: Account): (p: map<string, string>)
    requires a.role.Some?
    ensures p.Keys == {"sub", "username", "role"}
    ensures p["sub"] == a.login && p["username"] == a.login && p["role"] == a.role.value.name
  {
    map["sub" := a.login, "username" := a.login, "role" := a.role.value.name]
  }

  /** `get_current_auth_user`: the user whose login is the `sub` claim. A
      payload without `sub` looks up a null login, which no user has. */
  ghost function GetCurrentAuthUser(db: Db, payload: map<string, string>): (r: Option<Account>)
    ensures r.Some? <==> "sub" in payload && exists k :: k in db.users.rows && db.users.rows[k].login == payload["sub"]
    ensures r.Some? ==>
      exists k :: k in db.users.rows && db.users.rows[k].login == payload["sub"] && r.value == Load(db, db.users.rows[k])
  {
    if "sub" in payload then UserDirectory.GetUserByLogin(db, payload["sub"]) else None
  }

  /** A token issued to a stored user resolves back to that same user. */
  lemma PayloadRoundTrip(db: Db, k: int)
    requires Valid(db) && RolesAssigned(db) && k in db.users.rows
    ensures Load(db, db.users.rows[k]).role.Some?
    ensures GetCurrentAuthUser(db, IssuePayload(Load(db, db.users.rows[k]))) == Some(Load(db, db.users.rows[k]))
  {
    UserDirectory.GetUserByLoginFinds(db, k);
  }

  function AccessDenied(allowed: seq<string>): string {
    "Access to this route is only possible for roles: " + Guillemets(allowed)
  }

  /** `RoleChecker(allowed)`: passes the user through unchanged when its
      role's position is one of `allowed`, compared exactly. */
  function RoleChecker(allowed: seq<string>, user: Account): (r: Result<Account>)
    requires user.role.Some?
    ensures r.Ok? || r.Forbidden?
    ensures r.Ok? <==> user.role.value.name in allowed
    ensures r.Ok? ==> r.value == user
    ensures r.Forbidden? ==> r.message == AccessDenied(allowed)
  {
    if user.role.value.name in allowed then Ok(user) else Forbidden(AccessDenied(allowed))
  }

  /** The refusal names every allowed role. */
  lemma AccessDeniedListsRoles(allowed: seq<string>, i: int)
    requires 0 <= i < |allowed|
    ensures Occurs(allowed[i], AccessDenied(allowed))
  {
    GuillemetsMention(allowed, i);
    OccursInRight(allowed[i], "Access to this route is only possible for roles: ", Guillemets(allowed));
  }

  /** Membership is case-sensitive: a position differing from an allowed
      role only in letter case is refused. */
  lemma RoleCheckerIsCaseSensitive(user: Account)
    requires user.role.Some? && user.role.value.name == "admin"
    ensures RoleChecker(["Admin"], user).Forbidden?
    ensures Lower(user.role.value.name) == Lower("Admin")
  {
  }
}
