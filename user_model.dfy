/**
 * The User model (Backend/models/User.js): lookups by email and id,
 * registration with a hashed password and a default role, the partial
 * update, the admin listing and deletion. Every query except findByEmail
 * selects `id, email, name, role, created_at`, never the password hash.
 */
module UserModel {
  import opened Basics
  import opened Sorting
  import opened Store
  import opened Placeholders

  /** The columns `id, email, name, role, created_at`. */
  datatype PublicUser = PublicUser(id: int, email: string, name: string, role: string, createdAt: Stamp)

  function Public(u: UserRow): PublicUser {
    PublicUser(u.id, u.email, u.name, u.role, u.createdAt)
  }

  // ---------------------------------------------------------------------------
  // Lookups

  /** The position of the row holding `email`, or -1. */
  function EmailIndex(users: seq<UserRow>, email: string): (k: int)
    ensures -1 <= k < |users|
    ensures k >= 0 ==> users[k].email == email
    ensures k < 0 <==> email !in Emails(users)
  {
    if users == [] then -1
    else if users[|users| - 1].email == email then |users| - 1
    else
      assert Emails(users) == Emails(users[..|users| - 1]) + {users[|users| - 1].email};
      EmailIndex(users[..|users| - 1], email)
  }

  /** User.findByEmail: the whole row, password hash included, or null. */
  function FindByEmail(users: seq<UserRow>, email: string): (r: Option<UserRow>)
    ensures r.None? <==> email !in Emails(users)
    ensures r.Some? ==> r.value in users && r.value.email == email
  {
    var k := EmailIndex(users, email);
    if k < 0 then None else Some(users[k])
  }

  /** With UNIQUE(email), the row findByEmail returns is the only one with that email. */
  lemma FindByEmailUnique(users: seq<UserRow>, nextId: int, email: string, j: int)
    requires UsersValid(users, nextId)
    requires 0 <= j < |users| && users[j].email == email
    ensures FindByEmail(users, email) == Some(users[j])
  {
    var k := EmailIndex(users, email);
    assert k >= 0 && users[k].email == email;
    assert forall a, b :: 0 <= a < b < |users| ==> DistinctUsers(users[a], users[b]);
  }

  /** User.findById: the public columns of the row with that id, or null. */
  function FindById(users: seq<UserRow>, id: int): (r: Option<PublicUser>)
    ensures r.None? <==> id !in UserIds(users)
    ensures r.Some? ==> r.value.id == id && exists k :: 0 <= k < |users| && r.value == Public(users[k])
  {
    var k := UserIndex(users, id);
    if k < 0 then None else Some(Public(users[k]))
  }

  // ---------------------------------------------------------------------------
  // create

  /** The request's registration fields; None is a field the body leaves out. */
  datatype NewUser = NewUser(email: Option<string>, password: Option<string>, name: Option<string>, role: Option<string>)

  /** Why User.create fails: bcrypt refuses a missing password, or the INSERT violates a constraint. */
  datatype CreateError = HashRefused | Rejected(error: DbError)

  /**
   * `INSERT INTO users (email, password, name, role)`: NOT NULL on email and
   * name, then CHECK on the role, then UNIQUE(email).
   */
  function InsertUser(users: seq<UserRow>, nextId: int, email: Option<string>, hashed: string,
                      name: Option<string>, role: string, now: Stamp)
    : (r: Result<(seq<UserRow>, UserRow), DbError>)
    ensures r.Err? <==> email.None? || name.None? || !ValidRole(role) || email.value in Emails(users)
    ensures r.Err? ==> (r.error ==
      if email.None? || name.None? then NotNullViolation
      else if !ValidRole(role) then CheckViolation else UniqueViolation)
    ensures r.Ok? ==> var row := r.value.1;
      && r.value.0 == users + [row]
      && row == UserRow(nextId, email.value, hashed, name.value, role, now, now)
  {
    if email.None? || name.None? then Err(NotNullViolation)
    else if !ValidRole(role) then Err(CheckViolation)
    else if email.value in Emails(users) then Err(UniqueViolation)
    else
      var row := UserRow(nextId, email.value, hashed, name.value, role, now, now);
      Ok((users + [row], row))
  }

  /** The role a registration stores: the one given, or "user" when it is left out. */
  function RoleOrDefault(role: Option<string>): (r: string)
    ensures role.None? ==> r == RoleUser
    ensures role.Some? ==> r == role.value
  {
    OptionOr(role, RoleUser)
  }

  /**
   * User.create: hashes the password with the `hash` oracle (bcrypt, cost 10),
   * stores the hash with the role defaulting to "user", and returns the
   * public columns.
   */
  method Create(db: Database, u: NewUser, hash: string -> string, now: Stamp)
    returns (r: Result<PublicUser, CreateError>)
    requires db.Valid()
    modifies db
    ensures db.Valid()
    ensures u.password.None? ==> r == Err(HashRefused) && db.users == old(db.users)
    ensures u.password.Some? ==>
      var ins := InsertUser(old(db.users), old(db.nextUserId), u.email, hash(u.password.value), u.name,
                            RoleOrDefault(u.role), now);
      && (ins.Err? ==> r == Err(Rejected(ins.error)) && db.users == old(db.users))
      && (ins.Ok? ==> r == Ok(Public(ins.value.1)) && db.users == ins.value.0)
    ensures r.Ok? ==> db.nextUserId == old(db.nextUserId) + 1
    ensures r.Err? ==> db.nextUserId == old(db.nextUserId)
    ensures db.events == old(db.events) && db.rsvps == old(db.rsvps)
    ensures db.nextEventId == old(db.nextEventId) && db.nextRsvpId == old(db.nextRsvpId)
  {
    if u.password.None? {
      return Err(HashRefused);
    }
    var hashed := hash(u.password.value);
    var ins := InsertUser(db.users, db.nextUserId, u.email, hashed, u.name, RoleOrDefault(u.role), now);
    if ins.Err? {
      return Err(Rejected(ins.error));
    }
    UsersValidAppend(db.users, db.nextUserId, ins.value.1);
    db.users := ins.value.0;
    db.nextUserId := db.nextUserId + 1;
    r := Ok(Public(ins.value.1));
  }

  // ---------------------------------------------------------------------------
  // update

  datatype UserColumn = Email | Name | Password | Role

  datatype UserAssignment = SetEmail(email: string) | SetName(name: string) | SetPassword(password: string) | SetRole(role: string)

  function ColumnOf(a: UserAssignment): UserColumn {
    match a
    case SetEmail(_) => Email
    case SetName(_) => Name
    case SetPassword(_) => Password
    case SetRole(_) => Role
  }

  function Get(u: UserRow, c: UserColumn): (a: UserAssignment)
    ensures ColumnOf(a) == c
  {
    match c
    case Email => SetEmail(u.email)
    case Name => SetName(u.name)
    case Password => SetPassword(u.password)
    case Role => SetRole(u.role)
  }

  function ApplyOne(u: UserRow, a: UserAssignment): UserRow {
    match a
    case SetEmail(v) => u.(email := v)
    case SetName(v) => u.(name := v)
    case SetPassword(v) => u.(password := v)
    case SetRole(v) => u.(role := v)
  }

  function ApplyAll(u: UserRow, updates: seq<UserAssignment>): UserRow
    decreases |updates|
  {
    if updates == [] then u
    else ApplyOne(ApplyAll(u, updates[..|updates| - 1]), updates[|updates| - 1])
  }

  function Assigned(updates: seq<UserAssignment>, c: UserColumn): (r: Option<UserAssignment>)
    ensures r.Some? ==> ColumnOf(r.value) == c && r.value in updates
    ensures r.None? <==> forall i :: 0 <= i < |updates| ==> ColumnOf(updates[i]) != c
    decreases |updates|
  {
    if updates == [] then None
    else if ColumnOf(updates[|updates| - 1]) == c then Some(updates[|updates| - 1])
    else Assigned(updates[..|updates| - 1], c)
  }

  /** A SET list changes exactly the columns it names; id and timestamps keep their values. */
  lemma {:induction false} ApplyAllColumns(u: UserRow, updates: seq<UserAssignment>, c: UserColumn)
    ensures Get(ApplyAll(u, updates), c) == (if Assigned(updates, c).Some? then Assigned(updates, c).value else Get(u, c))
    ensures var r := ApplyAll(u, updates);
      r.id == u.id && r.createdAt == u.createdAt && r.updatedAt == u.updatedAt
    decreases |updates|
  {
    if updates != [] {
      ApplyAllColumns(u, updates[..|updates| - 1], c);
    }
  }

  predicate DistinctColumns(updates: seq<UserAssignment>) {
    forall i, j :: 0 <= i < j < |updates| ==> ColumnOf(updates[i]) != ColumnOf(updates[j])
  }

  /** Some row other than the k-th holds `email`. */
  predicate EmailTakenByOther(users: seq<UserRow>, k: int, email: string) {
    exists j :: 0 <= j < |users| && j != k && users[j].email == email
  }

  /**
   * `UPDATE users SET <assignments>, updated_at = CURRENT_TIMESTAMP WHERE id =
   * $n RETURNING id, email, name, role, created_at`. An empty or repeated SET
   * list is a syntax error; an unknown id updates nothing; otherwise the role
   * CHECK, then UNIQUE(email), decide.
   */
  function UpdateUser(users: seq<UserRow>, id: int, updates: seq<UserAssignment>, now: Stamp)
    : (r: Result<Deleted<UserRow>, DbError>)
    ensures updates == [] || !DistinctColumns(updates) ==> r == Err(SyntaxError)
    ensures r.Ok? && id !in UserIds(users) ==> r.value == Deleted(users, None)
    ensures id in UserIds(users) && updates != [] && DistinctColumns(updates) ==>
      var k := UserIndex(users, id);
      var row := ApplyAll(users[k], updates).(updatedAt := now);
      && (r.Err? <==> !ValidRole(row.role) || EmailTakenByOther(users, k, row.email))
      && (r.Err? ==> r.error == (if !ValidRole(row.role) then CheckViolation else UniqueViolation))
      && (r.Ok? ==> r.value == Deleted(users[k := row], Some(row)))
  {
    if updates == [] || !DistinctColumns(updates) then Err(SyntaxError)
    else
      var k := UserIndex(users, id);
      if k < 0 then Ok(Deleted(users, None))
      else
        var row := ApplyAll(users[k], updates).(updatedAt := now);
        if !ValidRole(row.role) then Err(CheckViolation)
        else if EmailTakenByOther(users, k, row.email) then Err(UniqueViolation)
        else Ok(Deleted(users[k := row], Some(row)))
  }

  /** User.update: numbers the keys as $1..$n, the id at $(n + 1), and returns the public columns. */
  method Update(db: Database, id: int, updates: seq<UserAssignment>, now: Stamp)
    returns (r: Result<Option<PublicUser>, DbError>)
    requires db.Valid()
    modifies db
    ensures db.Valid()
    ensures var u := UpdateUser(old(db.users), id, updates, now);
      && (u.Err? ==> r == Err(u.error) && db.users == old(db.users))
      && (u.Ok? ==> (db.users == u.value.table &&
            r == Ok(if u.value.row.Some? then Some(Public(u.value.row.value)) else None)))
    ensures db.events == old(db.events) && db.rsvps == old(db.rsvps)
    ensures db.nextUserId == old(db.nextUserId) && db.nextEventId == old(db.nextEventId)
    ensures db.nextRsvpId == old(db.nextRsvpId)
  {
    var columns := seq(|updates|, i requires 0 <= i < |updates| => ColumnOf(updates[i]));
    var items, params, idParam := NumberSet(columns, updates, id);
    BindNumbered(columns, updates, id, items, params, idParam);
    var u := UpdateUser(db.users, id, updates, now);
    if u.Err? {
      return Err(u.error);
    }
    UpdateKeepsUsersValid(db.users, db.nextUserId, id, updates, now);
    db.users := u.value.table;
    r := Ok(if u.value.row.Some? then Some(Public(u.value.row.value)) else None);
  }

  /** A successful update keeps the users table valid and its set of ids. */
  lemma UpdateKeepsUsersValid(users: seq<UserRow>, nextId: int, id: int, updates: seq<UserAssignment>, now: Stamp)
    requires UsersValid(users, nextId)
    requires UpdateUser(users, id, updates, now).Ok?
    ensures UsersValid(UpdateUser(users, id, updates, now).value.table, nextId)
    ensures UserIds(UpdateUser(users, id, updates, now).value.table) == UserIds(users)
  {
    var k := UserIndex(users, id);
    if k >= 0 {
      var row := ApplyAll(users[k], updates).(updatedAt := now);
      ApplyAllColumns(users[k], updates, Email);
      assert !EmailTakenByOther(users, k, row.email);
      UsersValidUpdate(users, nextId, k, row);
    }
  }

  // ---------------------------------------------------------------------------
  // findAll

  /** `ORDER BY created_at DESC`. */
  predicate NewerUserFirst(a: PublicUser, b: PublicUser) {
    a.createdAt >= b.createdAt
  }

  /** The public columns of every user, in table order. */
  function PublicRows(users: seq<UserRow>): (p: seq<PublicUser>)
    ensures |p| == |users| && forall i :: 0 <= i < |users| ==> p[i] == Public(users[i])
  {
    seq(|users|, i requires 0 <= i < |users| => Public(users[i]))
  }

  /** The whole ordered result of `SELECT ... FROM users ORDER BY created_at DESC`: every user once, newest first. */
  function UsersListed(users: seq<UserRow>): (r: seq<PublicUser>)
    ensures SortedBy(r, NewerUserFirst)
    ensures multiset(r) == multiset(PublicRows(users))
    ensures |r| == |users|
  {
    Sort(PublicRows(users), NewerUserFirst)
  }

  /** User.findAll: the public columns of every user, newest first; limit 50 and offset 0 by default. */
  function FindAll(users: seq<UserRow>, limit: Option<int>, offset: Option<int>)
    : (r: Result<seq<PublicUser>, DbError>)
    ensures r.Err? <==> OptionOr(limit, 50) < 0 || OptionOr(offset, 0) < 0
    ensures r.Ok? ==> SortedBy(r.value, NewerUserFirst)
    ensures r.Ok? ==> |r.value| == (if OptionOr(offset, 0) >= |users| then 0
                                   else Min(OptionOr(limit, 50), |users| - OptionOr(offset, 0)))
    ensures r.Ok? ==> forall k :: 0 <= k < |r.value| ==> exists j :: 0 <= j < |users| && r.value[k] == Public(users[j])
    ensures r.Ok? ==> Window(r.value, UsersListed(users), OptionOr(limit, 50), OptionOr(offset, 0))
  {
    var all := UsersListed(users);
    var result := Paginate(all, OptionOr(limit, 50), OptionOr(offset, 0));
    if result.Ok? then
      WindowOfSorted(result.value, all, OptionOr(limit, 50), OptionOr(offset, 0), NewerUserFirst);
      forall k | 0 <= k < |result.value| ensures exists j :: 0 <= j < |users| && result.value[k] == Public(users[j]) {
        assert result.value[k] in multiset(PublicRows(users));
        var j :| 0 <= j < |users| && PublicRows(users)[j] == result.value[k];
      }
      result
    else result
  }

  // ---------------------------------------------------------------------------
  // delete

  predicate Referenced(events: seq<EventRow>, rsvps: seq<RsvpRow>, id: int) {
    || (exists k :: 0 <= k < |events| && events[k].createdBy == Some(id))
    || (exists k :: 0 <= k < |rsvps| && rsvps[k].userId == id)
  }

  /**
   * `DELETE FROM users WHERE id = $1 RETURNING id`: fails on the events and
   * rsvps foreign keys while the user is referenced.
   */
  function DeleteUser(users: seq<UserRow>, events: seq<EventRow>, rsvps: seq<RsvpRow>, id: int)
    : (r: Result<Deleted<UserRow>, DbError>)
    ensures r.Err? <==> id in UserIds(users) && Referenced(events, rsvps, id)
    ensures r.Err? ==> r.error == ForeignKeyViolation
    ensures r.Ok? ==> r.value.table == WithoutUser(users, id)
    ensures r.Ok? ==> (r.value.row.Some? <==> id in UserIds(users))
    ensures r.Ok? && r.value.row.Some? ==> r.value.row.value.id == id
  {
    var k := UserIndex(users, id);
    if k >= 0 && Referenced(events, rsvps, id) then Err(ForeignKeyViolation)
    else Ok(Deleted(WithoutUser(users, id), if k >= 0 then Some(users[k]) else None))
  }

  /** User.delete: the deleted id, or None when no user had it, or the foreign-key error. */
  method Delete(db: Database, id: int) returns (r: Result<Option<int>, DbError>)
    requires db.Valid()
    modifies db
    ensures db.Valid()
    ensures var d := DeleteUser(old(db.users), old(db.events), old(db.rsvps), id);
      && (d.Err? ==> r == Err(d.error) && db.users == old(db.users))
      && (d.Ok? ==> (db.users == d.value.table &&
            r == Ok(if d.value.row.Some? then Some(d.value.row.value.id) else None)))
    ensures db.events == old(db.events) && db.rsvps == old(db.rsvps)
    ensures db.nextUserId == old(db.nextUserId) && db.nextEventId == old(db.nextEventId)
    ensures db.nextRsvpId == old(db.nextRsvpId)
  {
    var d := DeleteUser(db.users, db.events, db.rsvps, id);
    if d.Err? {
      return Err(d.error);
    }
    assert forall k :: 0 <= k < |db.events| ==> db.events[k].createdBy != Some(id) by {
      if id in UserIds(db.users) {
        assert !Referenced(db.events, db.rsvps, id);
      }
    }
    assert forall k :: 0 <= k < |db.rsvps| ==> db.rsvps[k].userId != id by {
      if id in UserIds(db.users) {
        assert !Referenced(db.events, db.rsvps, id);
      }
    }
    UsersValidRemove(db.users, db.nextUserId, db.events, db.nextEventId, db.rsvps, db.nextRsvpId, id);
    db.users := d.value.table;
    r := Ok(if d.value.row.Some? then Some(d.value.row.value.id) else None);
  }
}
