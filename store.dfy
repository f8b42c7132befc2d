/**
 * The three tables of the database (users, events, rsvps) and the constraints
 * their DDL declares: SERIAL primary keys, UNIQUE(email), the role and status
 * CHECKs, UNIQUE(user_id, event_id) and the foreign keys. The database is the
 * one object whose state the backend changes; every other module reads its
 * tables as values or changes them through a `Database` reference.
 */
module Store {
  import opened Basics
  import opened Sorting

  datatype UserRow = UserRow(
    id: int, email: string, password: string, name: string, role: string,
    createdAt: Stamp, updatedAt: Stamp)

  datatype EventRow = EventRow(
    id: int, title: string, description: Option<string>, date: Day,
    startTime: Minute, endTime: Minute, location: string, createdBy: Option<int>,
    createdAt: Stamp, updatedAt: Stamp)

  datatype RsvpRow = RsvpRow(
    id: int, userId: int, eventId: int, status: Status,
    createdAt: Stamp, updatedAt: Stamp)

  // ---------------------------------------------------------------------------
  // Key sets

  function UserIds(users: seq<UserRow>): set<int> {
    set k | 0 <= k < |users| :: users[k].id
  }

  function EventIds(events: seq<EventRow>): set<int> {
    set k | 0 <= k < |events| :: events[k].id
  }

  function Emails(users: seq<UserRow>): set<string> {
    set k | 0 <= k < |users| :: users[k].email
  }

  // ---------------------------------------------------------------------------
  // Constraints

  predicate DistinctUsers(a: UserRow, b: UserRow) {
    a.id != b.id && a.email != b.email
  }

  predicate DistinctEvents(a: EventRow, b: EventRow) {
    a.id != b.id
  }

  predicate DistinctRsvpIds(a: RsvpRow, b: RsvpRow) {
    a.id != b.id
  }

  predicate DistinctPairs(a: RsvpRow, b: RsvpRow) {
    a.userId != b.userId || a.eventId != b.eventId
  }

  /** Primary key, UNIQUE(email), CHECK(role IN ('admin', 'user')). */
  ghost predicate UsersValid(users: seq<UserRow>, nextId: int) {
    && nextId >= 1
    && (forall k :: 0 <= k < |users| ==> 1 <= users[k].id < nextId && ValidRole(users[k].role))
    && Pairwise(users, DistinctUsers)
  }

  /** Primary key and `created_by REFERENCES users(id)`. */
  ghost predicate EventsValid(events: seq<EventRow>, nextId: int, users: seq<UserRow>) {
    && nextId >= 1
    && (forall k :: 0 <= k < |events| ==> 1 <= events[k].id < nextId)
    && Pairwise(events, DistinctEvents)
    && (forall k :: 0 <= k < |events| && events[k].createdBy.Some? ==>
          events[k].createdBy.value in UserIds(users))
  }

  /** Primary key, UNIQUE(user_id, event_id) and the two foreign keys. */
  ghost predicate RsvpsValid(rsvps: seq<RsvpRow>, nextId: int, users: seq<UserRow>, events: seq<EventRow>) {
    && nextId >= 1
    && (forall k :: 0 <= k < |rsvps| ==> 1 <= rsvps[k].id < nextId)
    && Pairwise(rsvps, DistinctRsvpIds)
    && PairsUnique(rsvps)
    && (forall k :: 0 <= k < |rsvps| ==> rsvps[k].userId in UserIds(users))
    && (forall k :: 0 <= k < |rsvps| ==> rsvps[k].eventId in EventIds(events))
  }

  /** UNIQUE(user_id, event_id): a user has at most one RSVP per event. */
  ghost predicate PairsUnique(rsvps: seq<RsvpRow>) {
    Pairwise(rsvps, DistinctPairs)
  }

  // ---------------------------------------------------------------------------
  // Primary-key and pair lookups

  function UserIndex(users: seq<UserRow>, id: int): (k: int)
    ensures -1 <= k < |users|
    ensures k >= 0 ==> users[k].id == id
    ensures k < 0 <==> id !in UserIds(users)
  {
    if users == [] then -1
    else if users[|users| - 1].id == id then |users| - 1
    else
      assert UserIds(users) == UserIds(users[..|users| - 1]) + {users[|users| - 1].id};
      UserIndex(users[..|users| - 1], id)
  }

  function EventIndex(events: seq<EventRow>, id: int): (k: int)
    ensures -1 <= k < |events|
    ensures k >= 0 ==> events[k].id == id
    ensures k < 0 <==> id !in EventIds(events)
  {
    if events == [] then -1
    else if events[|events| - 1].id == id then |events| - 1
    else
      assert EventIds(events) == EventIds(events[..|events| - 1]) + {events[|events| - 1].id};
      EventIndex(events[..|events| - 1], id)
  }

  predicate IsPair(r: RsvpRow, userId: int, eventId: int) {
    r.userId == userId && r.eventId == eventId
  }

  /** The position of the (user, event) row, or -1. */
  function PairIndex(rsvps: seq<RsvpRow>, userId: int, eventId: int): (k: int)
    ensures -1 <= k < |rsvps|
    ensures k >= 0 ==> IsPair(rsvps[k], userId, eventId)
    ensures k < 0 <==> forall j :: 0 <= j < |rsvps| ==> !IsPair(rsvps[j], userId, eventId)
  {
    if rsvps == [] then -1
    else if IsPair(rsvps[|rsvps| - 1], userId, eventId) then |rsvps| - 1
    else PairIndex(rsvps[..|rsvps| - 1], userId, eventId)
  }

  /** With unique keys, a row found by key is the only row with that key. */
  lemma UniquePair(rsvps: seq<RsvpRow>, userId: int, eventId: int, j: int)
    requires PairsUnique(rsvps)
    requires 0 <= j < |rsvps| && IsPair(rsvps[j], userId, eventId)
    ensures PairIndex(rsvps, userId, eventId) == j
  {
    var k := PairIndex(rsvps, userId, eventId);
    assert k >= 0 && IsPair(rsvps[k], userId, eventId);
    assert forall a, b :: 0 <= a < b < |rsvps| ==> DistinctPairs(rsvps[a], rsvps[b]);
  }

  predicate NotPair(r: RsvpRow, userId: int, eventId: int) {
    !IsPair(r, userId, eventId)
  }

  /** The rows of every other (user, event) pair. */
  function OtherPairs(rsvps: seq<RsvpRow>, userId: int, eventId: int): seq<RsvpRow> {
    Filter(rsvps, (r: RsvpRow) => NotPair(r, userId, eventId))
  }

  /** Overwriting a row with one of the same id and keys keeps the rsvps table valid. */
  lemma RsvpsValidUpdate(rsvps: seq<RsvpRow>, nextId: int, users: seq<UserRow>, events: seq<EventRow>,
                         k: int, row: RsvpRow)
    requires RsvpsValid(rsvps, nextId, users, events)
    requires 0 <= k < |rsvps|
    requires row.id == rsvps[k].id && row.userId == rsvps[k].userId && row.eventId == rsvps[k].eventId
    ensures RsvpsValid(rsvps[k := row], nextId, users, events)
  {
    var t := rsvps[k := row];
    forall a, b | 0 <= a < b < |t| ensures DistinctRsvpIds(t[a], t[b]) && DistinctPairs(t[a], t[b]) {
      assert DistinctRsvpIds(rsvps[a], rsvps[b]) && DistinctPairs(rsvps[a], rsvps[b]);
    }
    forall j | 0 <= j < |t|
      ensures 1 <= t[j].id < nextId && t[j].userId in UserIds(users) && t[j].eventId in EventIds(events)
    {
      assert t[j].id == rsvps[j].id && t[j].userId == rsvps[j].userId && t[j].eventId == rsvps[j].eventId;
    }
  }

  /** Appending a row with the next id, existing keys and a new pair keeps the rsvps table valid. */
  lemma RsvpsValidAppend(rsvps: seq<RsvpRow>, nextId: int, users: seq<UserRow>, events: seq<EventRow>, row: RsvpRow)
    requires RsvpsValid(rsvps, nextId, users, events)
    requires row.id == nextId && row.userId in UserIds(users) && row.eventId in EventIds(events)
    requires PairIndex(rsvps, row.userId, row.eventId) < 0
    ensures RsvpsValid(rsvps + [row], nextId + 1, users, events)
  {
    var t := rsvps + [row];
    PairwiseAppend(rsvps, row, DistinctRsvpIds);
    PairwiseAppend(rsvps, row, DistinctPairs);
    forall j | 0 <= j < |t|
      ensures 1 <= t[j].id < nextId + 1 && t[j].userId in UserIds(users) && t[j].eventId in EventIds(events)
    {
      if j < |rsvps| { assert t[j] == rsvps[j]; } else { assert t[j] == row; }
    }
  }

  /** The table after a `DELETE ... RETURNING *`, and the returned row if one matched. */
  datatype Deleted<R> = Deleted(table: seq<R>, row: Option<R>)

  /** `DELETE FROM events WHERE id = $1` applied to the table. */
  function WithoutEvent(events: seq<EventRow>, id: int): seq<EventRow> {
    Filter(events, (e: EventRow) => e.id != id)
  }

  /** `DELETE FROM users WHERE id = $1` applied to the table. */
  function WithoutUser(users: seq<UserRow>, id: int): seq<UserRow> {
    Filter(users, (u: UserRow) => u.id != id)
  }

  /** `DELETE FROM rsvps WHERE event_id = $1` applied to the table. */
  function WithoutEventRsvps(rsvps: seq<RsvpRow>, eventId: int): seq<RsvpRow> {
    Filter(rsvps, (r: RsvpRow) => r.eventId != eventId)
  }

  predicate References(r: RsvpRow, eventId: int) {
    r.eventId == eventId
  }

  /** Appending an event with the next id and an existing creator keeps the events table valid. */
  lemma EventsValidAppend(events: seq<EventRow>, nextId: int, users: seq<UserRow>, row: EventRow)
    requires EventsValid(events, nextId, users)
    requires row.id == nextId && (row.createdBy.Some? ==> row.createdBy.value in UserIds(users))
    ensures EventsValid(events + [row], nextId + 1, users)
    ensures EventIds(events + [row]) == EventIds(events) + {row.id}
  {
    var t := events + [row];
    PairwiseAppend(events, row, DistinctEvents);
    forall j | 0 <= j < |t|
      ensures 1 <= t[j].id < nextId + 1 && (t[j].createdBy.Some? ==> t[j].createdBy.value in UserIds(users))
    {
      if j < |events| { assert t[j] == events[j]; } else { assert t[j] == row; }
    }
    forall x | x in EventIds(t) ensures x in EventIds(events) + {row.id} {
      var j :| 0 <= j < |t| && t[j].id == x;
      if j < |events| { assert t[j] == events[j]; }
    }
    forall x | x in EventIds(events) + {row.id} ensures x in EventIds(t) {
      if x == row.id { assert t[|events|].id == x; }
      else { var j :| 0 <= j < |events| && events[j].id == x; assert t[j].id == x; }
    }
  }

  /** Overwriting an event with one of the same id and creator keeps the events table valid. */
  lemma EventsValidUpdate(events: seq<EventRow>, nextId: int, users: seq<UserRow>, k: int, row: EventRow)
    requires EventsValid(events, nextId, users)
    requires 0 <= k < |events| && row.id == events[k].id && row.createdBy == events[k].createdBy
    ensures EventsValid(events[k := row], nextId, users)
    ensures EventIds(events[k := row]) == EventIds(events)
  {
    var t := events[k := row];
    forall a, b | 0 <= a < b < |t| ensures DistinctEvents(t[a], t[b]) {
      assert DistinctEvents(events[a], events[b]);
    }
    forall j | 0 <= j < |t|
      ensures 1 <= t[j].id < nextId && (t[j].createdBy.Some? ==> t[j].createdBy.value in UserIds(users))
    {
      assert t[j].id == events[j].id && t[j].createdBy == events[j].createdBy;
    }
    forall x | x in EventIds(t) ensures x in EventIds(events) {
      var j :| 0 <= j < |t| && t[j].id == x;
      assert events[j].id == x;
    }
    forall x | x in EventIds(events) ensures x in EventIds(t) {
      var j :| 0 <= j < |events| && events[j].id == x;
      assert t[j].id == x;
    }
  }

  /** Removing an event keeps the ids of all the other events. */
  lemma WithoutEventIds(events: seq<EventRow>, id: int)
    ensures EventIds(WithoutEvent(events, id)) == EventIds(events) - {id}
  {
    var p := (e: EventRow) => e.id != id;
    var t := WithoutEvent(events, id);
    forall x | x in EventIds(t) ensures x in EventIds(events) - {id} {
      var j :| 0 <= j < |t| && t[j].id == x;
      assert t[j] in events;
    }
    forall x | x in EventIds(events) - {id} ensures x in EventIds(t) {
      var j :| 0 <= j < |events| && events[j].id == x;
      FilterMembers(events, p, events[j]);
      var i :| 0 <= i < |t| && t[i] == events[j];
    }
  }

  /**
   * Removing an event no RSVP references keeps both the events and the rsvps
   * table valid.
   */
  lemma EventsValidRemove(events: seq<EventRow>, nextId: int, users: seq<UserRow>,
                          rsvps: seq<RsvpRow>, nextRsvpId: int, id: int)
    requires EventsValid(events, nextId, users) && RsvpsValid(rsvps, nextRsvpId, users, events)
    requires forall k :: 0 <= k < |rsvps| ==> rsvps[k].eventId != id
    ensures EventsValid(WithoutEvent(events, id), nextId, users)
    ensures RsvpsValid(rsvps, nextRsvpId, users, WithoutEvent(events, id))
  {
    var t := WithoutEvent(events, id);
    FilterPairwise(events, (e: EventRow) => e.id != id, DistinctEvents);
    forall j | 0 <= j < |t|
      ensures 1 <= t[j].id < nextId && (t[j].createdBy.Some? ==> t[j].createdBy.value in UserIds(users))
    {
      assert t[j] in events;
    }
    WithoutEventIds(events, id);
  }

  /** Appending a user with the next id, a new email and a valid role keeps the users table valid. */
  lemma UsersValidAppend(users: seq<UserRow>, nextId: int, row: UserRow)
    requires UsersValid(users, nextId)
    requires row.id == nextId && row.email !in Emails(users) && ValidRole(row.role)
    ensures UsersValid(users + [row], nextId + 1)
    ensures UserIds(users + [row]) == UserIds(users) + {row.id}
  {
    var t := users + [row];
    forall k | 0 <= k < |users| ensures DistinctUsers(users[k], row) {
      assert users[k].email in Emails(users);
    }
    PairwiseAppend(users, row, DistinctUsers);
    forall j | 0 <= j < |t| ensures 1 <= t[j].id < nextId + 1 && ValidRole(t[j].role) {
      if j < |users| { assert t[j] == users[j]; } else { assert t[j] == row; }
    }
    forall x | x in UserIds(t) ensures x in UserIds(users) + {row.id} {
      var j :| 0 <= j < |t| && t[j].id == x;
      if j < |users| { assert t[j] == users[j]; }
    }
    forall x | x in UserIds(users) + {row.id} ensures x in UserIds(t) {
      if x == row.id { assert t[|users|].id == x; }
      else { var j :| 0 <= j < |users| && users[j].id == x; assert t[j].id == x; }
    }
  }

  /**
   * Overwriting a user with one of the same id, a valid role and an email no
   * other user holds keeps the users table valid and its id set.
   */
  lemma UsersValidUpdate(users: seq<UserRow>, nextId: int, k: int, row: UserRow)
    requires UsersValid(users, nextId)
    requires 0 <= k < |users| && row.id == users[k].id && ValidRole(row.role)
    requires forall j :: 0 <= j < |users| && j != k ==> users[j].email != row.email
    ensures UsersValid(users[k := row], nextId)
    ensures UserIds(users[k := row]) == UserIds(users)
  {
    var t := users[k := row];
    forall a, b | 0 <= a < b < |t| ensures DistinctUsers(t[a], t[b]) {
      assert DistinctUsers(users[a], users[b]);
    }
    forall j | 0 <= j < |t| ensures 1 <= t[j].id < nextId && ValidRole(t[j].role) {
      assert t[j].id == users[j].id;
    }
    forall x | x in UserIds(t) ensures x in UserIds(users) {
      var j :| 0 <= j < |t| && t[j].id == x;
      assert users[j].id == x;
    }
    forall x | x in UserIds(users) ensures x in UserIds(t) {
      var j :| 0 <= j < |users| && users[j].id == x;
      assert t[j].id == x;
    }
  }

  /** Removing a user keeps the ids of all the other users. */
  lemma WithoutUserIds(users: seq<UserRow>, id: int)
    ensures UserIds(WithoutUser(users, id)) == UserIds(users) - {id}
  {
    var p := (u: UserRow) => u.id != id;
    var t := WithoutUser(users, id);
    forall x | x in UserIds(t) ensures x in UserIds(users) - {id} {
      var j :| 0 <= j < |t| && t[j].id == x;
      assert t[j] in users;
    }
    forall x | x in UserIds(users) - {id} ensures x in UserIds(t) {
      var j :| 0 <= j < |users| && users[j].id == x;
      FilterMembers(users, p, users[j]);
      var i :| 0 <= i < |t| && t[i] == users[j];
    }
  }

  /**
   * Removing a user that no event and no RSVP references keeps all three
   * tables valid.
   */
  lemma UsersValidRemove(users: seq<UserRow>, nextId: int, events: seq<EventRow>, nextEventId: int,
                         rsvps: seq<RsvpRow>, nextRsvpId: int, id: int)
    requires UsersValid(users, nextId) && EventsValid(events, nextEventId, users)
    requires RsvpsValid(rsvps, nextRsvpId, users, events)
    requires forall k :: 0 <= k < |events| ==> events[k].createdBy != Some(id)
    requires forall k :: 0 <= k < |rsvps| ==> rsvps[k].userId != id
    ensures UsersValid(WithoutUser(users, id), nextId)
    ensures EventsValid(events, nextEventId, WithoutUser(users, id))
    ensures RsvpsValid(rsvps, nextRsvpId, WithoutUser(users, id), events)
  {
    var t := WithoutUser(users, id);
    FilterPairwise(users, (u: UserRow) => u.id != id, DistinctUsers);
    forall j | 0 <= j < |t| ensures 1 <= t[j].id < nextId && ValidRole(t[j].role) {
      assert t[j] in users;
    }
    WithoutUserIds(users, id);
  }

  /** Deleting any set of RSVPs keeps the rsvps table valid. */
  lemma RsvpsValidFilter(rsvps: seq<RsvpRow>, nextId: int, users: seq<UserRow>, events: seq<EventRow>,
                         p: RsvpRow -> bool)
    requires RsvpsValid(rsvps, nextId, users, events)
    ensures RsvpsValid(Filter(rsvps, p), nextId, users, events)
  {
    FilterPairwise(rsvps, p, DistinctRsvpIds);
    FilterPairwise(rsvps, p, DistinctPairs);
  }

  // ---------------------------------------------------------------------------
  // The database

  class Database {
    var users: seq<UserRow>
    var events: seq<EventRow>
    var rsvps: seq<RsvpRow>
    // The next values of the three SERIAL sequences.
    var nextUserId: int
    var nextEventId: int
    var nextRsvpId: int

    ghost predicate Valid()
      reads this
    {
      && UsersValid(users, nextUserId)
      && EventsValid(events, nextEventId, users)
      && RsvpsValid(rsvps, nextRsvpId, users, events)
    }

    constructor ()
      ensures Valid()
      ensures users == [] && events == [] && rsvps == []
    {
      users, events, rsvps := [], [], [];
      nextUserId, nextEventId, nextRsvpId := 1, 1, 1;
    }
  }
}
