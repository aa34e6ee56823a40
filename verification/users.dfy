/** The user directory: registration (`validate_creating_user`,
    `create_user`), lookup by login, and the all-or-nothing resolution of a
    list of emails to users. */
module UserDirectory {
  import opened Results
  import opened Text
  import opened Store
  import RolePermissions

  /** `UserCreate`: a registration request after validation. */
  datatype UserCreate = UserCreate(login: string, email: string, password: string, role: string)

  /** The bounds `UserCreate` guarantees: login and email 3..50 characters,
      password at least 8. */
  predicate WellFormed(u: UserCreate) {
    3 <= |u.login| <= 50 && 3 <= |u.email| <= 50 && |u.password| >= 8
  }

  function AtLeast(n: nat): string {
    "String should have at least " + NatToString(n) + " characters"
  }

  function AtMost(n: nat): string {
    "String should have at most " + NatToString(n) + " characters"
  }

  /** The form-level checks of `validate_creating_user`: only minimum
      lengths. The first failing field's message is reported. */
  function FormError(login: string, email: string, password: string): Option<string> {
    if |login| < 3 then Some(AtLeast(3))
    else if |email| < 3 then Some(AtLeast(3))
    else if |password| < 8 then Some(AtLeast(8))
    else None
  }

  /** What `EmailStr` makes of a string: the normalised address, or `None`
      when the string is not an email address. The syntax rules and the
      normalisation belong to the `email-validator` library, so the model
      takes them as a parameter. */
  type EmailCheck = string -> Option<string>

  const NotAnAddress: string := "value is not a valid email address"

  /** What the `UserCreate` model accepts once the form is through: a login
      of at most 50 characters and an email that `EmailStr` accepts and whose
      normalised address has 3..50 characters. */
  predicate SchemaAccepts(login: string, email: string, check: EmailCheck) {
    && |login| <= 50
    && check(email).Some?
    && 3 <= |check(email).value| <= 50
  }

  /** `validate_creating_user` as written: the form fields only carry minimum
      lengths, so a login over 50 characters or an email the schema refuses
      reaches the `UserCreate(...)` call inside the dependency, whose
      validation error is not a request-validation error and escapes as a
      server error (`None`). */
  function ValidateCreatingUserAsWritten(login: string, email: string, password: string, role: string,
                                         check: EmailCheck)
    : (r: Option<Result<UserCreate>>)
    ensures r.None? <==> FormError(login, email, password).None? && !SchemaAccepts(login, email, check)
    ensures r.Some? ==> r.value.Ok? || r.value.Invalid?
    ensures r.Some? && r.value.Ok? ==>
      && check(email).Some?
      && r.value.value == UserCreate(login, check(email).value, password, role)
      && WellFormed(r.value.value)
  {
    match FormError(login, email, password)
    case Some(m) => Some(Invalid(m))
    case None =>
      if !SchemaAccepts(login, email, check) then None
      else Some(Ok(UserCreate(login, check(email).value, password, role)))
  }

  /** Registration validation with every schema check reported as a
      validation error, which is what the schema's bounds evidently intend.
      The stored email is the normalised address. */
  function ValidateCreatingUser(login: string, email: string, password: string, role: string,
                                check: EmailCheck)
    : (r: Result<UserCreate>)
    ensures r.Ok? || r.Invalid?
    ensures r.Ok? <==>
      && 3 <= |login| <= 50 && 3 <= |email| && |password| >= 8
      && check(email).Some? && 3 <= |check(email).value| <= 50
    ensures r.Ok? ==> r.value == UserCreate(login, check(email).value, password, role) && WellFormed(r.value)
  {
    match FormError(login, email, password)
    case Some(m) => Invalid(m)
    case None =>
      if |login| > 50 then Invalid(AtMost(50))
      else if check(email).None? then Invalid(NotAnAddress)
      else if |check(email).value| < 3 then Invalid(AtLeast(3))
      else if |check(email).value| > 50 then Invalid(AtMost(50))
      else Ok(UserCreate(login, check(email).value, password, role))
  }

  /** Both versions agree wherever the written one answers at all. */
  lemma ValidationAgrees(login: string, email: string, password: string, role: string, check: EmailCheck)
    requires ValidateCreatingUserAsWritten(login, email, password, role, check).Some?
    ensures ValidateCreatingUserAsWritten(login, email, password, role, check).value
      == ValidateCreatingUser(login, email, password, role, check)
  {
  }

  /** A 51-character login passes the form and crashes the written version,
      while the corrected one rejects it as invalid, whatever `EmailStr`
      makes of the address. */
  lemma OverlongLoginCrashes(check: EmailCheck)
    ensures var login := seq(51, i => 'a');
      && ValidateCreatingUserAsWritten(login, "user@example.com", "password", "Developer", check).None?
      && ValidateCreatingUser(login, "user@example.com", "password", "Developer", check).Invalid?
  {
  }

  /** A string `EmailStr` refuses passes the form's three-character minimum
      and crashes the written version; the corrected one reports it. */
  lemma NonAddressCrashes(check: EmailCheck)
    requires check("abcd").None?
    ensures ValidateCreatingUserAsWritten("alice", "abcd", "password1", "Developer", check).None?
    ensures ValidateCreatingUser("alice", "abcd", "password1", "Developer", check) == Invalid(NotAnAddress)
  {
  }

  // ---- lookups ----

  /** `get_user_by_login`: the user whose login equals `login` exactly, with
      its role loaded. */
  ghost function GetUserByLogin(db: Db, login: string): (r: Option<Account>)
    ensures r.Some? <==> exists k :: k in db.users.rows && db.users.rows[k].login == login
    ensures r.Some? ==> exists k :: k in db.users.rows && db.users.rows[k].login == login && r.value == Load(db, db.users.rows[k])
  {
    if exists k :: k in db.users.rows && db.users.rows[k].login == login then
      var k :| k in db.users.rows && db.users.rows[k].login == login;
      Some(Load(db, db.users.rows[k]))
    else
      None
  }

  /** Logins are unique, so the lookup finds exactly the stored user. */
  lemma GetUserByLoginFinds(db: Db, k: int)
    requires Valid(db) && k in db.users.rows
    ensures GetUserByLogin(db, db.users.rows[k].login) == Some(Load(db, db.users.rows[k]))
  {
  }

  ghost predicate EmailKnown(db: Db, e: string) {
    exists k :: k in db.users.rows && db.users.rows[k].email == e
  }

  /** The requested emails no user has, in request order, repeated as often
      as requested. */
  ghost function Unknown(db: Db, emails: seq<string>): (r: seq<string>)
    ensures forall e :: e in r <==> e in emails && !EmailKnown(db, e)
  {
    if |emails| == 0 then []
    else
      assert forall e :: e in emails <==> e == emails[0] || e in emails[1..];
      (if EmailKnown(db, emails[0]) then [] else [emails[0]]) + Unknown(db, emails[1..])
  }

  /** `set(emails) - {user.email for user in users}`, listed once each in
      request order. */
  ghost function MissingEmails(db: Db, emails: seq<string>): (r: seq<string>)
    ensures Distinct(r)
    ensures forall e :: e in r <==> e in emails && !EmailKnown(db, e)
  {
    Dedup(Unknown(db, emails))
  }

  /** The not-found message: plural "s" on both nouns when more than one
      email is missing. */
  function EmailsNotFound(missing: seq<string>): string {
    var s := if |missing| > 1 then "s" else "";
    "User" + s + " with email" + s + " " + Guillemets(missing) + " not found"
  }

  /** The ids of the stored users with a requested email. */
  ghost function Matching(db: Db, emails: seq<string>): set<int> {
    set k | k in db.users.rows && db.users.rows[k].email in emails
  }

  /** The stored users with a requested email, each once, role loaded. */
  ghost function Found(db: Db, emails: seq<string>): (us: seq<Account>)
    ensures |us| == |Matching(db, emails)|
  {
    var ids := Enumerate(Matching(db, emails));
    seq(|ids|, i requires 0 <= i < |ids| => if ids[i] in db.users.rows then Load(db, db.users.rows[ids[i]]) else Load(db, User(0, "", "", [], None)))
  }

  /** Every user found is a stored user with a requested email, and every
      stored user with a requested email is found. */
  lemma FoundExactly(db: Db, emails: seq<string>)
    ensures forall i :: 0 <= i < |Found(db, emails)| ==>
      Found(db, emails)[i].email in emails && exists k :: k in db.users.rows && Found(db, emails)[i] == Load(db, db.users.rows[k])
    ensures forall k :: k in Matching(db, emails) ==> Load(db, db.users.rows[k]) in Found(db, emails)
  {
    var ids := Enumerate(Matching(db, emails));
    var us := Found(db, emails);
    forall i | 0 <= i < |us|
      ensures us[i].email in emails && exists k :: k in db.users.rows && us[i] == Load(db, db.users.rows[k])
    {
      var k := ids[i];
      assert k in Matching(db, emails);
      assert k in db.users.rows && db.users.rows[k].email in emails;
      assert us[i] == Load(db, db.users.rows[k]);
      assert us[i].email == db.users.rows[k].email;
    }
    forall k | k in Matching(db, emails)
      ensures Load(db, db.users.rows[k]) in us
    {
      var i := IndexIn(ids, k);
      assert us[i] == Load(db, db.users.rows[k]);
    }
  }

  /** When every email is known, each has a user among those found. */
  lemma FoundCovers(db: Db, emails: seq<string>)
    requires forall e :: e in emails ==> EmailKnown(db, e)
    ensures forall e :: e in emails ==> exists i :: 0 <= i < |Found(db, emails)| && Found(db, emails)[i].email == e
  {
    var us := Found(db, emails);
    FoundExactly(db, emails);
    forall e | e in emails
      ensures exists i :: 0 <= i < |us| && us[i].email == e
    {
      var k :| k in db.users.rows && db.users.rows[k].email == e;
      assert k in Matching(db, emails);
      var i :| 0 <= i < |us| && us[i] == Load(db, db.users.rows[k]);
    }
  }

  /** `get_users_by_emails`: every requested email must belong to a user;
      the result holds each matching user once, role loaded, in the
      unspecified order the query returns them. */
  ghost function GetUsersByEmails(db: Db, emails: seq<string>): (r: Result<seq<Account>>)
    ensures r.Ok? || r.Invalid?
    ensures r.Invalid? <==> exists e :: e in emails && !EmailKnown(db, e)
    ensures r.Invalid? ==> r.message == EmailsNotFound(MissingEmails(db, emails))
    ensures r.Ok? ==> forall e :: e in emails ==> exists i :: 0 <= i < |r.value| && r.value[i].email == e
    ensures r.Ok? ==> forall i :: 0 <= i < |r.value| ==>
      r.value[i].email in emails && exists k :: k in db.users.rows && r.value[i] == Load(db, db.users.rows[k])
    ensures r.Ok? ==> forall k :: k in db.users.rows && db.users.rows[k].email in emails ==>
      Load(db, db.users.rows[k]) in r.value
    ensures r.Ok? ==> |r.value| == |Matching(db, emails)|
  {
    var missing := MissingEmails(db, emails);
    if |missing| > 0 then
      assert missing[0] in missing;
      Invalid(EmailsNotFound(missing))
    else
      NoneMissing(db, emails);
      FoundExactly(db, emails);
      FoundCovers(db, emails);
      Ok(Found(db, emails))
  }

  lemma NoneMissing(db: Db, emails: seq<string>)
    requires |MissingEmails(db, emails)| == 0
    ensures forall e :: e in emails ==> EmailKnown(db, e)
  {
    forall e | e in emails
      ensures EmailKnown(db, e)
    {
      assert e !in MissingEmails(db, emails);
    }
  }

  /** The error names every missing email and pluralises exactly when more
      than one distinct email is missing. */
  lemma {:induction false} MissingEmailsMessage(db: Db, emails: seq<string>)
    requires GetUsersByEmails(db, emails).Invalid?
    ensures var missing := set e | e in emails && !EmailKnown(db, e);
      var msg := GetUsersByEmails(db, emails).message;
      && (forall e :: e in missing ==> Occurs(e, msg))
      && (|missing| > 1 <==> msg[..5] == "Users")
  {
    var ms := MissingEmails(db, emails);
    var missing := set e | e in emails && !EmailKnown(db, e);
    var msg := EmailsNotFound(ms);
    DistinctCard(ms);
    assert (set x | x in ms) == missing;
    var s := if |ms| > 1 then "s" else "";
    var head := "User" + s + " with email" + s + " ";
    assert msg == head + Guillemets(ms) + " not found";
    forall e | e in missing
      ensures Occurs(e, msg)
    {
      var k :| 0 <= k < |ms| && ms[k] == e;
      GuillemetsMention(ms, k);
      OccursInRight(e, head, Guillemets(ms));
      OccursInLeft(e, head + Guillemets(ms), " not found");
    }
    if |ms| > 1 {
      assert msg[..5] == "Users";
    } else {
      assert msg[..5] == "User ";
    }
  }

  /** A single known email resolves to exactly one user: the one stored
      with that email. */
  lemma OneEmailOneUser(db: Db, e: string)
    requires Valid(db) && GetUsersByEmails(db, [e]).Ok?
    ensures var us := GetUsersByEmails(db, [e]).value;
      |us| == 1 && us[0].email == e && us[0].id in db.users.rows && us[0] == Load(db, db.users.rows[us[0].id])
  {
    var us := GetUsersByEmails(db, [e]).value;
    assert e in [e];
    var i :| 0 <= i < |us| && us[i].email == e;
    var k :| k in db.users.rows && us[i] == Load(db, db.users.rows[k]);
    assert Matching(db, [e]) == {k} by {
      forall j | j in Matching(db, [e])
        ensures j == k
      {
        assert db.users.rows[j].email == e;
      }
    }
  }

  // ---- registration ----

  const DuplicateUser: string := "User with the same login or email already exists. Please, choose another one"

  ghost predicate LoginTaken(db: Db, login: string) {
    exists k :: k in db.users.rows && db.users.rows[k].login == login
  }

  ghost predicate EmailTaken(db: Db, email: string) {
    exists k :: k in db.users.rows && db.users.rows[k].email == email
  }

  /** `create_user`: resolve the role, then insert the user under the next id.
      The unique indexes on login and email turn a duplicate into a conflict
      and nothing is inserted. `hashed` is the bcrypt hash of the password,
      computed outside the model. */
  ghost function CreateUser(db: Db, req: UserCreate, hashed: Bytes): (r: Result<(Db, Account)>)
    requires Valid(db) && WellFormed(req)
    ensures r.Ok? || r.Invalid? || r.Conflict?
    ensures r.Invalid? <==> RolePermissions.GetRolePermission(db, req.role).Invalid?
    ensures r.Invalid? ==> r.message == RolePermissions.RoleError
    ensures r.Conflict? <==>
      RolePermissions.GetRolePermission(db, req.role).Ok? && (LoginTaken(db, req.login) || EmailTaken(db, req.email))
    ensures r.Conflict? ==> r.message == DuplicateUser
    ensures r.Ok? ==>
      var (d, a) := r.value;
      var id := db.users.next;
      && Valid(d)
      && id !in db.users.rows
      && a.role.Some?
      && d.users.rows == db.users.rows[id := User(id, req.login, req.email, hashed, Some(a.role.value.id))]
      && d.users.next == id + 1
      && a == Load(d, d.users.rows[id])
      && a.role.value.id in db.roles.rows && db.roles.rows[a.role.value.id] == a.role.value
      && Lower(a.role.value.name) == Lower(req.role)
      && d.roles == db.roles && d.priorities == db.priorities && d.statuses == db.statuses
      && d.tasks == db.tasks && d.performers == db.performers
  {
    var role :- RolePermissions.GetRolePermission(db, req.role);
    if LoginTaken(db, req.login) || EmailTaken(db, req.email) then
      Conflict(DuplicateUser)
    else
      RolePermissions.ResolvedRoleIsStored(db, req.role);
      var id := db.users.next;
      var u := User(id, req.login, req.email, hashed, Some(role.id));
      var d := db.(users := Table(db.users.rows[id := u], id + 1));
      assert Valid(d);
      Ok((d, Account(id, req.login, req.email, hashed, Some(role))))
  }

  /** Registration always stores a resolved role, so a store in which every
      user holds a role keeps that property. */
  lemma CreateUserKeepsRolesAssigned(db: Db, req: UserCreate, hashed: Bytes)
    requires Valid(db) && WellFormed(req) && RolesAssigned(db)
    ensures CreateUser(db, req, hashed).Ok? ==> RolesAssigned(CreateUser(db, req, hashed).value.0)
  {
  }

  /** A registered user can sign in by login, and registering the same
      request again is refused as a duplicate. */
  lemma CreatedUserFound(db: Db, req: UserCreate, hashed: Bytes)
    requires Valid(db) && WellFormed(req) && CreateUser(db, req, hashed).Ok?
    ensures var (d, a) := CreateUser(db, req, hashed).value;
      && GetUserByLogin(d, req.login) == Some(a)
      && CreateUser(d, req, hashed) == Conflict(DuplicateUser)
  {
    var (d, a) := CreateUser(db, req, hashed).value;
    GetUserByLoginFinds(d, a.id);
    assert d.users.rows[a.id].login == req.login;
    var k :| RolePermissions.RoleNamed(db, k, req.role);
    assert RolePermissions.RoleNamed(d, k, req.role);
  }
}
