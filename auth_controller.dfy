/**
 * The account handlers (Backend/controllers/authController.js): registration,
 * login, the caller's profile and its update. Password hashing and checking
 * (bcrypt) and token signing (jsonwebtoken) are the parameters `hash`,
 * `compare` and `sign`.
 */
module AuthController {
  import opened Basics
  import opened Sorting
  import opened Store
  import opened UserModel

  /** The claims a token carries: `{ userId, email, role }`. */
  datatype TokenPayload = TokenPayload(userId: int, email: string, role: string)

  /** The `user` object of the register and login replies. */
  datatype Account = Account(id: int, email: string, name: string, role: string)

  datatype Session = Session(user: Account, token: string)

  const InvalidCredentials: string := "Invalid email or password"

  function SessionOf(id: int, email: string, name: string, role: string, sign: TokenPayload -> string): Session {
    Session(Account(id, email, name, role), sign(TokenPayload(id, email, role)))
  }

  // ---------------------------------------------------------------------------
  // register

  /** The registration request body. */
  datatype RegisterBody = RegisterBody(email: Option<string>, password: Option<string>, name: Option<string>, role: Option<string>)

  /**
   * register: 400 when the email is already registered; otherwise User.create
   * with the role defaulting to "user", and 201 with the new account and a
   * token for it. Any failure of the creation (a missing password, a missing
   * email or name, a role outside the CHECK) is 500.
   */
  method Register(db: Database, b: RegisterBody, hash: string -> string, sign: TokenPayload -> string, now: Stamp)
    returns (r: Reply<Session>)
    requires db.Valid()
    modifies db
    ensures db.Valid()
    ensures b.email.Some? && b.email.value in Emails(old(db.users)) ==>
      r == Failure(400, "User with this email already exists") && db.users == old(db.users)
    ensures !(b.email.Some? && b.email.value in Emails(old(db.users))) ==>
      var ins := InsertUser(old(db.users), old(db.nextUserId), b.email, hash(OptionOr(b.password, "")), b.name,
                            RoleOrDefault(b.role), now);
      && (b.password.None? || ins.Err? ==>
            r == Failure(500, "Internal server error during registration") && db.users == old(db.users))
      && (b.password.Some? && ins.Ok? ==> (
            var row := ins.value.1;
            && db.users == ins.value.0
            && r == Success(201, "User registered successfully", SessionOf(row.id, row.email, row.name, row.role, sign))))
    ensures r.code == 201 ==> db.nextUserId == old(db.nextUserId) + 1
    ensures r.code != 201 ==> db.nextUserId == old(db.nextUserId)
    ensures db.events == old(db.events) && db.rsvps == old(db.rsvps)
    ensures db.nextEventId == old(db.nextEventId) && db.nextRsvpId == old(db.nextRsvpId)
  {
    var existing := if b.email.Some? then FindByEmail(db.users, b.email.value) else None;
    if existing.Some? {
      return Failure(400, "User with this email already exists");
    }
    var created := Create(db, NewUser(b.email, b.password, b.name, Some(RoleOrDefault(b.role))), hash, now);
    if created.Err? {
      return Failure(500, "Internal server error during registration");
    }
    var u := created.value;
    r := Success(201, "User registered successfully", SessionOf(u.id, u.email, u.name, u.role, sign));
  }

  /** A registration that passes the duplicate check cannot fail on UNIQUE(email). */
  lemma RegisterNeverHitsUniqueEmail(users: seq<UserRow>, nextId: int, b: RegisterBody, hashed: string, now: Stamp)
    requires !(b.email.Some? && b.email.value in Emails(users))
    ensures var ins := InsertUser(users, nextId, b.email, hashed, b.name, RoleOrDefault(b.role), now);
      ins.Err? ==> ins.error != UniqueViolation
  {
  }

  /** With every field given and an allowed role, registration creates the account. */
  lemma RegisterAccepted(users: seq<UserRow>, nextId: int, b: RegisterBody, hashed: string, now: Stamp)
    requires b.email.Some? && b.name.Some? && b.email.value !in Emails(users)
    requires b.role.None? || ValidRole(b.role.value)
    ensures var ins := InsertUser(users, nextId, b.email, hashed, b.name, RoleOrDefault(b.role), now);
      && ins.Ok?
      && ins.value.1.email == b.email.value && ins.value.1.password == hashed
      && ins.value.1.role == (if b.role.Some? then b.role.value else RoleUser)
  {
  }

  // ---------------------------------------------------------------------------
  // login

  /**
   * login: the same 401 reply for an unknown email and for a wrong password;
   * otherwise 200 with the account and a token. bcrypt rejects a missing
   * password with an exception, which is the 500.
   */
  function Login(users: seq<UserRow>, email: Option<string>, password: Option<string>,
                 compare: (string, string) -> bool, sign: TokenPayload -> string)
    : (r: Reply<Session>)
    ensures r.code == 200 <==>
      && email.Some? && email.value in Emails(users) && password.Some?
      && compare(password.value, FindByEmail(users, email.value).value.password)
    ensures r.code == 200 ==> var u := FindByEmail(users, email.value).value;
      r == Success(200, "Login successful", SessionOf(u.id, u.email, u.name, u.role, sign))
    ensures r.code != 200 ==> r == Failure(401, InvalidCredentials) || r == Failure(500, "Internal server error during login")
    ensures r.code == 500 <==> email.Some? && email.value in Emails(users) && password.None?
  {
    var user := if email.Some? then FindByEmail(users, email.value) else None;
    if user.None? then Failure(401, InvalidCredentials)
    else if password.None? then Failure(500, "Internal server error during login")
    else if !compare(password.value, user.value.password) then Failure(401, InvalidCredentials)
    else
      var u := user.value;
      Success(200, "Login successful", SessionOf(u.id, u.email, u.name, u.role, sign))
  }

  /**
   * The reply does not tell an unknown email from a wrong password for a known
   * one: both are the same 401.
   */
  lemma LoginDoesNotRevealAccounts(users: seq<UserRow>, unknown: string, known: string, password: string,
                                   compare: (string, string) -> bool, sign: TokenPayload -> string)
    requires unknown !in Emails(users)
    requires known in Emails(users) && !compare(password, FindByEmail(users, known).value.password)
    ensures Login(users, Some(unknown), Some(password), compare, sign)
         == Login(users, Some(known), Some(password), compare, sign)
         == Failure(401, InvalidCredentials)
  {
  }

  /**
   * A stored account logs in with the password whose hash it stores, when
   * `compare` accepts a password against its own hash; the token names that
   * account.
   */
  lemma LoginAcceptsStoredCredentials(users: seq<UserRow>, nextId: int, j: int, password: string,
                                      hash: string -> string, compare: (string, string) -> bool,
                                      sign: TokenPayload -> string)
    requires UsersValid(users, nextId)
    requires 0 <= j < |users| && users[j].password == hash(password)
    requires compare(password, hash(password))
    ensures var r := Login(users, Some(users[j].email), Some(password), compare, sign);
      && r.code == 200 && r.data.value.user.id == users[j].id
      && r.data.value.token == sign(TokenPayload(users[j].id, users[j].email, users[j].role))
  {
    FindByEmailUnique(users, nextId, users[j].email, j);
  }

  // ---------------------------------------------------------------------------
  // getProfile

  /** getProfile: the caller's public columns, or 404 "User not found". */
  function GetProfile(users: seq<UserRow>, userId: int): (r: Reply<PublicUser>)
    ensures r.code == 404 <==> userId !in UserIds(users)
    ensures r.code == 404 ==> r == Failure(404, "User not found")
    ensures r.code != 404 ==> && r.code == 200 && r.success && r.data.Some?
                              && r.data.value.id == userId && r.data.value == FindById(users, userId).value
  {
    match FindById(users, userId)
    case None => Failure(404, "User not found")
    case Some(u) => Success(200, "", u)
  }

  // ---------------------------------------------------------------------------
  // updateProfile

  /** `if (name) updates.name = name; if (email) updates.email = email;` */
  function ProfilePatch(name: Option<string>, email: Option<string>): (p: seq<UserAssignment>)
    ensures p == [] <==> !Truthy(name) && !Truthy(email)
    ensures DistinctColumns(p)
  {
    (if Truthy(name) then [SetName(name.value)] else []) + (if Truthy(email) then [SetEmail(email.value)] else [])
  }

  /** The row findByEmail returns for the email belongs to someone other than the caller. */
  predicate EmailTaken(users: seq<UserRow>, userId: int, email: Option<string>) {
    Truthy(email) && FindByEmail(users, email.value).Some? && FindByEmail(users, email.value).value.id != userId
  }

  /** With UNIQUE(email): the email is taken exactly when another user's row holds it. */
  lemma EmailTakenByAnotherUser(users: seq<UserRow>, nextId: int, userId: int, email: Option<string>)
    requires UsersValid(users, nextId)
    ensures EmailTaken(users, userId, email) <==>
      Truthy(email) && exists j :: 0 <= j < |users| && users[j].email == email.value && users[j].id != userId
  {
    if Truthy(email) {
      if j :| 0 <= j < |users| && users[j].email == email.value && users[j].id != userId {
        FindByEmailUnique(users, nextId, email.value, j);
      }
    }
  }

  /**
   * updateProfile: 400 when another user holds the new email, 400 when neither
   * a name nor an email is given; otherwise User.update with those fields, a
   * failure of which is 500.
   */
  method UpdateProfile(db: Database, userId: int, name: Option<string>, email: Option<string>, now: Stamp)
    returns (r: Reply<Option<PublicUser>>)
    requires db.Valid()
    modifies db
    ensures db.Valid()
    ensures EmailTaken(old(db.users), userId, email) ==>
      r == Failure(400, "Email is already taken") && db.users == old(db.users)
    ensures !EmailTaken(old(db.users), userId, email) && ProfilePatch(name, email) == [] ==>
      r == Failure(400, "No fields to update") && db.users == old(db.users)
    ensures !EmailTaken(old(db.users), userId, email) && ProfilePatch(name, email) != [] ==>
      var u := UpdateUser(old(db.users), userId, ProfilePatch(name, email), now);
      && (u.Err? ==> r == Failure(500, "Internal server error") && db.users == old(db.users))
      && (u.Ok? ==> (
            && db.users == u.value.table
            && r == Success(200, "Profile updated successfully",
                            if u.value.row.Some? then Some(Public(u.value.row.value)) else None)))
    ensures db.events == old(db.events) && db.rsvps == old(db.rsvps)
    ensures db.nextUserId == old(db.nextUserId) && db.nextEventId == old(db.nextEventId)
    ensures db.nextRsvpId == old(db.nextRsvpId)
  {
    if Truthy(email) {
      var existing := FindByEmail(db.users, email.value);
      if existing.Some? && existing.value.id != userId {
        return Failure(400, "Email is already taken");
      }
    }
    var updates: seq<UserAssignment> := [];
    if Truthy(name) {
      updates := updates + [SetName(name.value)];
    }
    if Truthy(email) {
      updates := updates + [SetEmail(email.value)];
    }
    assert updates == ProfilePatch(name, email);
    if |updates| == 0 {
      return Failure(400, "No fields to update");
    }
    var updated := Update(db, userId, updates, now);
    if updated.Err? {
      r := Failure(500, "Internal server error");
    } else {
      r := Success(200, "Profile updated successfully", updated.value);
    }
  }

  /** The caller's row with the given name and email written and the new updated_at. */
  function Profiled(u: UserRow, name: Option<string>, email: Option<string>, now: Stamp): UserRow {
    u.(name := if Truthy(name) then name.value else u.name,
       email := if Truthy(email) then email.value else u.email,
       updatedAt := now)
  }

  /** The profile patch writes the given name and email and leaves every other column alone. */
  lemma ProfilePatchApplied(u: UserRow, name: Option<string>, email: Option<string>, now: Stamp)
    ensures ApplyAll(u, ProfilePatch(name, email)).(updatedAt := now) == Profiled(u, name, email, now)
  {
    var p := ProfilePatch(name, email);
    if Truthy(name) && Truthy(email) {
      assert p[..1] == [SetName(name.value)] && p[..1][..0] == [];
      assert ApplyAll(u, p[..1]) == u.(name := name.value);
    } else if p != [] {
      assert p[..0] == [];
      assert ApplyAll(u, p) == ApplyOne(u, p[0]);
    }
  }

  /** The email the profile will hold is held by no other row. */
  lemma ProfileEmailFree(users: seq<UserRow>, nextId: int, userId: int, email: Option<string>, k: int)
    requires UsersValid(users, nextId)
    requires 0 <= k < |users| && users[k].id == userId
    requires !EmailTaken(users, userId, email)
    ensures !EmailTakenByOther(users, k, if Truthy(email) then email.value else users[k].email)
  {
    var held := if Truthy(email) then email.value else users[k].email;
    if Truthy(email) {
      EmailTakenByAnotherUser(users, nextId, userId, email);
    }
    forall j | 0 <= j < |users| && j != k
      ensures users[j].email != held
    {
      if j < k {
        assert DistinctUsers(users[j], users[k]);
      } else {
        assert DistinctUsers(users[k], users[j]);
      }
    }
  }

  /**
   * For a stored caller whose new email no one else holds, the profile update
   * succeeds: the caller's row, and no other, gets the given name and email,
   * keeping its id, password, role and created_at.
   */
  lemma ProfileUpdateAccepted(users: seq<UserRow>, nextId: int, userId: int,
                              name: Option<string>, email: Option<string>, now: Stamp)
    requires UsersValid(users, nextId)
    requires userId in UserIds(users)
    requires !EmailTaken(users, userId, email)
    requires Truthy(name) || Truthy(email)
    ensures var k := UserIndex(users, userId);
      var row := Profiled(users[k], name, email, now);
      UpdateUser(users, userId, ProfilePatch(name, email), now) == Ok(Deleted(users[k := row], Some(row)))
  {
    var k := UserIndex(users, userId);
    ProfilePatchApplied(users[k], name, email, now);
    ProfileEmailFree(users, nextId, userId, email, k);
  }
}
