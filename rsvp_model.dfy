/**
 * The RSVP model (Backend/models/RSVP.js): lookups, the per-user listing with
 * its derived past/upcoming flag, the upsert that keeps one row per
 * (user, event) pair, deletion by pair, the per-event listing and the per-user
 * statistics.
 */
module RsvpModel {
  import opened Basics
  import opened Sorting
  import opened Store
  import opened Tally

  // ---------------------------------------------------------------------------
  // findByUserAndEvent

  datatype RsvpWithEvent = RsvpWithEvent(
    rsvp: RsvpRow, title: string, date: Day, startTime: Minute, location: string)

  /** The (user, event) row joined with its event, or None (`rows[0] || null`). */
  function FindByUserAndEvent(rsvps: seq<RsvpRow>, events: seq<EventRow>, userId: int, eventId: int)
    : (r: Option<RsvpWithEvent>)
    ensures r.None? <==> PairIndex(rsvps, userId, eventId) < 0 || eventId !in EventIds(events)
    ensures r.Some? ==> r.value.rsvp in rsvps && IsPair(r.value.rsvp, userId, eventId)
    ensures r.Some? ==> exists j :: 0 <= j < |events| && events[j].id == eventId &&
                                    r.value.title == events[j].title && r.value.date == events[j].date &&
                                    r.value.startTime == events[j].startTime &&
                                    r.value.location == events[j].location
  {
    var k := PairIndex(rsvps, userId, eventId);
    var j := EventIndex(events, eventId);
    if k < 0 || j < 0 then None
    else
      var e := events[j];
      Some(RsvpWithEvent(rsvps[k], e.title, e.date, e.startTime, e.location))
  }

  // ---------------------------------------------------------------------------
  // The derived event_status column

  datatype Phase = Past | Upcoming

  /**
   * `CASE WHEN e.date < CURRENT_DATE THEN 'past' WHEN e.date = CURRENT_DATE AND
   * e.end_time < CURRENT_TIME THEN 'past' ELSE 'upcoming' END`: past exactly when
   * the event's end lies before now.
   */
  function EventPhase(date: Day, endTime: Minute, now: Stamp): (p: Phase)
    ensures p == Past <==> At(date, endTime) < now
  {
    AtOrder(date, endTime, DayOf(now), TimeOf(now));
    if date < DayOf(now) then Past
    else if date == DayOf(now) && endTime < TimeOf(now) then Past
    else Upcoming
  }

  // ---------------------------------------------------------------------------
  // The per-user listing: rsvps JOIN events JOIN users (the organiser).

  datatype RsvpListing = RsvpListing(
    rsvp: RsvpRow, title: string, description: Option<string>, date: Day,
    startTime: Minute, endTime: Minute, location: string, organizerName: string,
    eventStatus: Phase)

  /** Both inner joins keep the row: its event exists and that event's creator exists. */
  predicate Joinable(r: RsvpRow, events: seq<EventRow>, users: seq<UserRow>) {
    var j := EventIndex(events, r.eventId);
    j >= 0 && events[j].createdBy.Some? && events[j].createdBy.value in UserIds(users)
  }

  function ListingOf(r: RsvpRow, events: seq<EventRow>, users: seq<UserRow>, now: Stamp): (l: RsvpListing)
    requires Joinable(r, events, users)
  {
    var e := events[EventIndex(events, r.eventId)];
    var u := users[UserIndex(users, e.createdBy.value)];
    RsvpListing(r, e.title, e.description, e.date, e.startTime, e.endTime, e.location, u.name,
                EventPhase(e.date, e.endTime, now))
  }

  predicate OwnJoinable(r: RsvpRow, userId: int, events: seq<EventRow>, users: seq<UserRow>) {
    r.userId == userId && Joinable(r, events, users)
  }

  function OwnRows(rsvps: seq<RsvpRow>, userId: int, events: seq<EventRow>, users: seq<UserRow>): seq<RsvpRow> {
    Filter(rsvps, (r: RsvpRow) => OwnJoinable(r, userId, events, users))
  }

  /** A listing row of the user's: one of their RSVPs, flagged past exactly when its event has ended. */
  predicate OwnListing(l: RsvpListing, rsvps: seq<RsvpRow>, userId: int, now: Stamp) {
    && l.rsvp in rsvps && l.rsvp.userId == userId
    && (l.eventStatus == Past <==> At(l.date, l.endTime) < now)
  }

  /** The rows of `... WHERE r.user_id = $1` before ORDER BY. */
  function UserListings(rsvps: seq<RsvpRow>, events: seq<EventRow>, users: seq<UserRow>, userId: int, now: Stamp)
    : (ls: seq<RsvpListing>)
    ensures |ls| == |OwnRows(rsvps, userId, events, users)|
    ensures forall k :: 0 <= k < |ls| ==> ls[k].rsvp == OwnRows(rsvps, userId, events, users)[k]
    ensures forall l :: l in ls ==> OwnListing(l, rsvps, userId, now)
    ensures forall l :: l in ls ==> Joinable(l.rsvp, events, users) && l == ListingOf(l.rsvp, events, users, now)
    ensures forall x :: x in rsvps && OwnJoinable(x, userId, events, users) ==> ListingOf(x, events, users, now) in ls
  {
    var own := OwnRows(rsvps, userId, events, users);
    var ls := seq(|own|, i requires 0 <= i < |own| => ListingOf(own[i], events, users, now));
    forall x | x in rsvps && OwnJoinable(x, userId, events, users)
      ensures ListingOf(x, events, users, now) in ls
    {
      FilterMembers(rsvps, (r: RsvpRow) => OwnJoinable(r, userId, events, users), x);
      var j :| 0 <= j < |own| && own[j] == x;
      assert ls[j] == ListingOf(x, events, users, now);
    }
    ls
  }

  /** `ORDER BY e.date DESC, e.start_time DESC`. */
  predicate LaterFirst(a: RsvpListing, b: RsvpListing) {
    a.date > b.date || (a.date == b.date && a.startTime >= b.startTime)
  }

  lemma LaterFirstIsTotalPreorder()
    ensures TotalPreorder(LaterFirst)
  {
  }

  /** The listing in its ORDER BY order. */
  function SortedListings(ls: seq<RsvpListing>): (r: seq<RsvpListing>)
    ensures SortedBy(r, LaterFirst)
    ensures multiset(r) == multiset(ls)
    ensures |r| == |ls| && forall l :: l in r <==> l in ls
  {
    LaterFirstIsTotalPreorder();
    var r := Sort(ls, LaterFirst);
    assert forall l :: l in r <==> l in multiset(ls);
    r
  }

  predicate OnOrAfter(l: RsvpListing, today: Day) {
    l.date >= today
  }

  datatype ListOptions = ListOptions(page: Option<int>, limit: Option<int>, upcomingOnly: Option<bool>)

  /**
   * RSVP.findByUser as written: the CASE expression at line 43 reads
   * `e.end_time < CURRENT_TIME, 'HH24:MI'`, a comma PostgreSQL cannot parse,
   * so every call fails with a syntax error whatever its arguments.
   */
  function FindByUserAsWritten(rsvps: seq<RsvpRow>, events: seq<EventRow>, users: seq<UserRow>,
                               userId: int, options: ListOptions, now: Stamp)
    : (r: Result<seq<RsvpListing>, DbError>)
  {
    Err(SyntaxError)
  }

  lemma FindByUserAsWrittenAlwaysFails(rsvps: seq<RsvpRow>, events: seq<EventRow>, users: seq<UserRow>,
                                       userId: int, options: ListOptions, now: Stamp)
    ensures FindByUserAsWritten(rsvps, events, users, userId, options, now) == Err(SyntaxError)
  {
  }

  /** A row of the user's listing: their own RSVP with its event's columns and organiser, flagged by the CASE. */
  predicate ListingFor(l: RsvpListing, rsvps: seq<RsvpRow>, events: seq<EventRow>, users: seq<UserRow>,
                       userId: int, now: Stamp) {
    && OwnListing(l, rsvps, userId, now)
    && Joinable(l.rsvp, events, users) && l == ListingOf(l.rsvp, events, users, now)
  }

  /** An RSVP the per-user query lists: the user's own, surviving both joins, and upcoming when asked. */
  predicate Wanted(x: RsvpRow, events: seq<EventRow>, users: seq<UserRow>, userId: int, upcomingOnly: bool, now: Stamp) {
    OwnJoinable(x, userId, events, users) && (upcomingOnly ==> ListingOf(x, events, users, now).date >= DayOf(now))
  }

  /** The user's listings that the WHERE keeps: all of them, or only those dated today or later. */
  function SelectedListings(rsvps: seq<RsvpRow>, events: seq<EventRow>, users: seq<UserRow>,
                            userId: int, upcomingOnly: bool, now: Stamp): seq<RsvpListing> {
    var all := UserListings(rsvps, events, users, userId, now);
    if upcomingOnly then Filter(all, (l: RsvpListing) => OnOrAfter(l, DayOf(now))) else all
  }

  lemma SelectedSound(rsvps: seq<RsvpRow>, events: seq<EventRow>, users: seq<UserRow>,
                      userId: int, upcomingOnly: bool, now: Stamp, l: RsvpListing)
    requires l in SelectedListings(rsvps, events, users, userId, upcomingOnly, now)
    ensures ListingFor(l, rsvps, events, users, userId, now) && (upcomingOnly ==> l.date >= DayOf(now))
  {
    var all := UserListings(rsvps, events, users, userId, now);
    if upcomingOnly {
      FilterMembers(all, (l: RsvpListing) => OnOrAfter(l, DayOf(now)), l);
    }
    assert l in all;
  }

  lemma SelectedComplete(rsvps: seq<RsvpRow>, events: seq<EventRow>, users: seq<UserRow>,
                         userId: int, upcomingOnly: bool, now: Stamp, x: RsvpRow)
    requires x in rsvps && Wanted(x, events, users, userId, upcomingOnly, now)
    ensures ListingOf(x, events, users, now) in SelectedListings(rsvps, events, users, userId, upcomingOnly, now)
  {
    var all := UserListings(rsvps, events, users, userId, now);
    var l := ListingOf(x, events, users, now);
    assert l in all;
    if upcomingOnly {
      FilterMembers(all, (l: RsvpListing) => OnOrAfter(l, DayOf(now)), l);
    }
  }

  /**
   * The whole ordered result of the per-user query before LIMIT/OFFSET: a
   * permutation of the selected listings, latest first, each a listing of the
   * user's, and every wanted RSVP listed.
   */
  function UserListed(rsvps: seq<RsvpRow>, events: seq<EventRow>, users: seq<UserRow>,
                      userId: int, upcomingOnly: bool, now: Stamp): (r: seq<RsvpListing>)
    ensures SortedBy(r, LaterFirst)
    ensures multiset(r) == multiset(SelectedListings(rsvps, events, users, userId, upcomingOnly, now))
    ensures forall k :: 0 <= k < |r| ==>
      ListingFor(r[k], rsvps, events, users, userId, now) && (upcomingOnly ==> r[k].date >= DayOf(now))
    ensures forall x :: x in rsvps && Wanted(x, events, users, userId, upcomingOnly, now) ==>
      ListingOf(x, events, users, now) in r
  {
    var kept := SelectedListings(rsvps, events, users, userId, upcomingOnly, now);
    LaterFirstIsTotalPreorder();
    var r := Sort(kept, LaterFirst);
    forall k | 0 <= k < |r|
      ensures ListingFor(r[k], rsvps, events, users, userId, now) && (upcomingOnly ==> r[k].date >= DayOf(now))
    {
      assert r[k] in multiset(kept);
      SelectedSound(rsvps, events, users, userId, upcomingOnly, now, r[k]);
    }
    forall x | x in rsvps && Wanted(x, events, users, userId, upcomingOnly, now)
      ensures ListingOf(x, events, users, now) in r
    {
      SelectedComplete(rsvps, events, users, userId, upcomingOnly, now, x);
      assert ListingOf(x, events, users, now) in multiset(kept);
    }
    r
  }

  /**
   * RSVP.findByUser as intended, with the event_status expression of the RSVP
   * controller: defaults page 1, limit 10, upcomingOnly false; offset
   * (page - 1) * limit; `e.date >= CURRENT_DATE` only when upcomingOnly.
   */
  function FindByUser(rsvps: seq<RsvpRow>, events: seq<EventRow>, users: seq<UserRow>,
                      userId: int, options: ListOptions, now: Stamp)
    : (r: Result<seq<RsvpListing>, DbError>)
    ensures var limit := OptionOr(options.limit, 10);
            var offset := PageOffset(OptionOr(options.page, 1), limit);
            r.Err? <==> limit < 0 || offset < 0
    ensures r.Ok? ==> |r.value| <= OptionOr(options.limit, 10)
    ensures r.Ok? ==> SortedBy(r.value, LaterFirst)
    ensures r.Ok? ==> forall k :: 0 <= k < |r.value| ==>
      && ListingFor(r.value[k], rsvps, events, users, userId, now)
      && (OptionOr(options.upcomingOnly, false) ==> r.value[k].date >= DayOf(now))
    ensures r.Ok? ==>
      var limit := OptionOr(options.limit, 10);
      Window(r.value, UserListed(rsvps, events, users, userId, OptionOr(options.upcomingOnly, false), now),
             limit, PageOffset(OptionOr(options.page, 1), limit))
  {
    var limit := OptionOr(options.limit, 10);
    var offset := PageOffset(OptionOr(options.page, 1), limit);
    var all := UserListed(rsvps, events, users, userId, OptionOr(options.upcomingOnly, false), now);
    var page := Paginate(all, limit, offset);
    if page.Ok? then
      WindowOfSorted(page.value, all, limit, offset, LaterFirst);
      page
    else page
  }

  // ---------------------------------------------------------------------------
  // upsert

  datatype Upserted = Upserted(table: seq<RsvpRow>, nextId: int, row: RsvpRow, existed: bool)

  /**
   * RSVP.upsert: an UPDATE of status and updated_at when the pair has a row,
   * an INSERT otherwise. The CHECK on status and the foreign keys are the
   * database's; no event-existence or past-event check is made here.
   */
  function UpsertStatement(rsvps: seq<RsvpRow>, nextId: int, users: seq<UserRow>, events: seq<EventRow>,
                           userId: int, eventId: int, status: string, now: Stamp)
    : (r: Result<Upserted, DbError>)
    ensures ParseStatus(status).None? ==> r == Err(CheckViolation)
    ensures ParseStatus(status).Some? && PairIndex(rsvps, userId, eventId) >= 0 ==> r.Ok?
    ensures ParseStatus(status).Some? && PairIndex(rsvps, userId, eventId) < 0 ==>
      (r.Err? <==> userId !in UserIds(users) || eventId !in EventIds(events))
    ensures r.Err? ==> r.error == CheckViolation || r.error == ForeignKeyViolation
    ensures r.Ok? ==> (r.value.existed <==> PairIndex(rsvps, userId, eventId) >= 0)
    ensures r.Ok? ==> IsPair(r.value.row, userId, eventId) && StatusName(r.value.row.status) == status
    ensures r.Ok? ==> r.value.row.updatedAt == now
  {
    var k := PairIndex(rsvps, userId, eventId);
    match ParseStatus(status)
    case None => Err(CheckViolation)
    case Some(st) =>
      if k >= 0 then
        var row := rsvps[k].(status := st, updatedAt := now);
        Ok(Upserted(rsvps[k := row], nextId, row, true))
      else if userId !in UserIds(users) || eventId !in EventIds(events) then
        Err(ForeignKeyViolation)
      else
        var row := RsvpRow(nextId, userId, eventId, st, now, now);
        Ok(Upserted(rsvps + [row], nextId + 1, row, false))
  }

  /**
   * After a successful upsert the pair has exactly one row, it carries the
   * submitted status, and an existing row keeps its id and created_at.
   */
  lemma UpsertLeavesOneRow(rsvps: seq<RsvpRow>, nextId: int, users: seq<UserRow>, events: seq<EventRow>,
                           userId: int, eventId: int, status: string, now: Stamp)
    requires PairsUnique(rsvps)
    requires UpsertStatement(rsvps, nextId, users, events, userId, eventId, status, now).Ok?
    ensures var u := UpsertStatement(rsvps, nextId, users, events, userId, eventId, status, now).value;
      && PairsUnique(u.table)
      && PairIndex(u.table, userId, eventId) >= 0
      && u.table[PairIndex(u.table, userId, eventId)] == u.row
      && StatusName(u.row.status) == status
      && (forall j :: 0 <= j < |u.table| && IsPair(u.table[j], userId, eventId) ==> j == PairIndex(u.table, userId, eventId))
      && (u.existed ==> var old_ := rsvps[PairIndex(rsvps, userId, eventId)];
            u.row.id == old_.id && u.row.createdAt == old_.createdAt && |u.table| == |rsvps|)
      && (!u.existed ==> |u.table| == |rsvps| + 1)
  {
    var u := UpsertStatement(rsvps, nextId, users, events, userId, eventId, status, now).value;
    var k := PairIndex(rsvps, userId, eventId);
    var t := u.table;
    var at: int;
    if k >= 0 {
      assert t == rsvps[k := u.row];
      forall a, b | 0 <= a < b < |t| ensures DistinctPairs(t[a], t[b]) {
        assert DistinctPairs(rsvps[a], rsvps[b]);
      }
      at := k;
    } else {
      assert t == rsvps + [u.row];
      PairwiseAppend(rsvps, u.row, DistinctPairs);
      at := |rsvps|;
    }
    assert PairsUnique(t) && t[at] == u.row;
    UniquePair(t, userId, eventId, at);
    forall j | 0 <= j < |t| && IsPair(t[j], userId, eventId) ensures j == PairIndex(t, userId, eventId) {
      UniquePair(t, userId, eventId, j);
    }
  }

  /** Rows of every other (user, event) pair are left exactly as they were. */
  lemma UpsertLeavesOtherPairs(rsvps: seq<RsvpRow>, nextId: int, users: seq<UserRow>, events: seq<EventRow>,
                               userId: int, eventId: int, status: string, now: Stamp)
    requires UpsertStatement(rsvps, nextId, users, events, userId, eventId, status, now).Ok?
    ensures var u := UpsertStatement(rsvps, nextId, users, events, userId, eventId, status, now).value;
      OtherPairs(u.table, userId, eventId) == OtherPairs(rsvps, userId, eventId)
  {
    var u := UpsertStatement(rsvps, nextId, users, events, userId, eventId, status, now).value;
    var k := PairIndex(rsvps, userId, eventId);
    var p := (r: RsvpRow) => NotPair(r, userId, eventId);
    if k >= 0 {
      FilterUpdateDropped(rsvps, k, u.row, p);
    } else {
      FilterAppend(rsvps, [u.row], p);
      assert Filter([u.row], p) == [];
    }
  }

  /** The rsvps table keeps every constraint of its DDL across an upsert. */
  lemma UpsertKeepsTableValid(rsvps: seq<RsvpRow>, nextId: int, users: seq<UserRow>, events: seq<EventRow>,
                              userId: int, eventId: int, status: string, now: Stamp)
    requires RsvpsValid(rsvps, nextId, users, events)
    requires UpsertStatement(rsvps, nextId, users, events, userId, eventId, status, now).Ok?
    ensures var u := UpsertStatement(rsvps, nextId, users, events, userId, eventId, status, now).value;
      RsvpsValid(u.table, u.nextId, users, events)
  {
    var u := UpsertStatement(rsvps, nextId, users, events, userId, eventId, status, now).value;
    var k := PairIndex(rsvps, userId, eventId);
    if k >= 0 {
      RsvpsValidUpdate(rsvps, nextId, users, events, k, u.row);
    } else {
      RsvpsValidAppend(rsvps, nextId, users, events, u.row);
    }
  }

  /** N upserts for one pair, applied in order; None once one of them fails. */
  function Replay(rsvps: seq<RsvpRow>, nextId: int, users: seq<UserRow>, events: seq<EventRow>,
                  userId: int, eventId: int, statuses: seq<string>, now: Stamp)
    : Option<(seq<RsvpRow>, int)>
    decreases |statuses|
  {
    if statuses == [] then Some((rsvps, nextId))
    else
      match UpsertStatement(rsvps, nextId, users, events, userId, eventId, statuses[0], now)
      case Err(_) => None
      case Ok(u) => Replay(u.table, u.nextId, users, events, userId, eventId, statuses[1..], now)
  }

  /** After N successful upserts for a pair, exactly one row exists and it has the last status. */
  lemma {:induction false} LastStatusWins(rsvps: seq<RsvpRow>, nextId: int, users: seq<UserRow>, events: seq<EventRow>,
                                          userId: int, eventId: int, statuses: seq<string>, now: Stamp)
    requires PairsUnique(rsvps)
    requires statuses != []
    requires Replay(rsvps, nextId, users, events, userId, eventId, statuses, now).Some?
    decreases |statuses|
    ensures var t := Replay(rsvps, nextId, users, events, userId, eventId, statuses, now).value.0;
      && PairsUnique(t)
      && PairIndex(t, userId, eventId) >= 0
      && StatusName(t[PairIndex(t, userId, eventId)].status) == statuses[|statuses| - 1]
      && (forall j :: 0 <= j < |t| && IsPair(t[j], userId, eventId) ==> j == PairIndex(t, userId, eventId))
  {
    var u := UpsertStatement(rsvps, nextId, users, events, userId, eventId, statuses[0], now).value;
    UpsertLeavesOneRow(rsvps, nextId, users, events, userId, eventId, statuses[0], now);
    if |statuses| > 1 {
      LastStatusWins(u.table, u.nextId, users, events, userId, eventId, statuses[1..], now);
    }
  }

  // ---------------------------------------------------------------------------
  // delete

  /** `DELETE FROM rsvps WHERE user_id = $1 AND event_id = $2 RETURNING *`. */
  function DeleteStatement(rsvps: seq<RsvpRow>, userId: int, eventId: int): (r: Deleted<RsvpRow>)
    ensures r.row.None? <==> PairIndex(rsvps, userId, eventId) < 0
    ensures r.row.Some? ==> r.row.value in rsvps && IsPair(r.row.value, userId, eventId)
    ensures forall k :: 0 <= k < |r.table| ==> r.table[k] in rsvps && !IsPair(r.table[k], userId, eventId)
  {
    var k := PairIndex(rsvps, userId, eventId);
    Deleted(OtherPairs(rsvps, userId, eventId), if k >= 0 then Some(rsvps[k]) else None)
  }

  /** With UNIQUE(user_id, event_id), the delete removes at most the one row and keeps the others in order. */
  lemma {:induction false} DeleteRemovesAtMostOne(rsvps: seq<RsvpRow>, userId: int, eventId: int)
    requires PairsUnique(rsvps)
    ensures var k := PairIndex(rsvps, userId, eventId);
      DeleteStatement(rsvps, userId, eventId).table == (if k < 0 then rsvps else rsvps[..k] + rsvps[k + 1..])
  {
    var k := PairIndex(rsvps, userId, eventId);
    var p := (r: RsvpRow) => NotPair(r, userId, eventId);
    if k < 0 {
      FilterAll(rsvps, p);
    } else {
      forall j | 0 <= j < |rsvps| && j != k ensures p(rsvps[j]) {
        if j < k {
          assert DistinctPairs(rsvps[j], rsvps[k]);
        } else {
          assert DistinctPairs(rsvps[k], rsvps[j]);
        }
      }
      FilterDropsOne(rsvps, k, p);
    }
  }

  /** Deleting rows keeps every constraint of the rsvps table. */
  lemma DeleteKeepsTableValid(rsvps: seq<RsvpRow>, nextId: int, users: seq<UserRow>, events: seq<EventRow>,
                              userId: int, eventId: int)
    requires RsvpsValid(rsvps, nextId, users, events)
    ensures RsvpsValid(DeleteStatement(rsvps, userId, eventId).table, nextId, users, events)
  {
    var p := (r: RsvpRow) => NotPair(r, userId, eventId);
    FilterPairwise(rsvps, p, DistinctRsvpIds);
    FilterPairwise(rsvps, p, DistinctPairs);
  }

  /** RSVP.upsert: the written row, or the error of the statement; the table keeps its constraints. */
  method Upsert(db: Database, userId: int, eventId: int, status: string, now: Stamp)
    returns (r: Result<RsvpRow, DbError>)
    requires db.Valid()
    modifies db
    ensures db.Valid()
    ensures var u := UpsertStatement(old(db.rsvps), old(db.nextRsvpId), old(db.users), old(db.events),
                                     userId, eventId, status, now);
      && (u.Err? ==> r == Err(u.error) && db.rsvps == old(db.rsvps) && db.nextRsvpId == old(db.nextRsvpId))
      && (u.Ok? ==> r == Ok(u.value.row) && db.rsvps == u.value.table && db.nextRsvpId == u.value.nextId)
    ensures db.users == old(db.users) && db.events == old(db.events)
    ensures db.nextUserId == old(db.nextUserId) && db.nextEventId == old(db.nextEventId)
  {
    var u := UpsertStatement(db.rsvps, db.nextRsvpId, db.users, db.events, userId, eventId, status, now);
    if u.Err? {
      return Err(u.error);
    }
    UpsertKeepsTableValid(db.rsvps, db.nextRsvpId, db.users, db.events, userId, eventId, status, now);
    db.rsvps, db.nextRsvpId := u.value.table, u.value.nextId;
    r := Ok(u.value.row);
  }

  /** RSVP.delete: the deleted row, or None when the pair had none. */
  method Delete(db: Database, userId: int, eventId: int) returns (r: Option<RsvpRow>)
    requires db.Valid()
    modifies db
    ensures db.Valid()
    ensures var d := DeleteStatement(old(db.rsvps), userId, eventId);
      r == d.row && db.rsvps == d.table
    ensures db.users == old(db.users) && db.events == old(db.events)
    ensures db.nextUserId == old(db.nextUserId) && db.nextEventId == old(db.nextEventId)
    ensures db.nextRsvpId == old(db.nextRsvpId)
  {
    var d := DeleteStatement(db.rsvps, userId, eventId);
    DeleteKeepsTableValid(db.rsvps, db.nextRsvpId, db.users, db.events, userId, eventId);
    db.rsvps := d.table;
    r := d.row;
  }

  // ---------------------------------------------------------------------------
  // findByEvent

  datatype RsvpWithUser = RsvpWithUser(rsvp: RsvpRow, userName: string, userEmail: string)

  predicate OfEventWithUser(r: RsvpRow, eventId: int, users: seq<UserRow>) {
    r.eventId == eventId && r.userId in UserIds(users)
  }

  function WithUser(r: RsvpRow, users: seq<UserRow>): RsvpWithUser
    requires r.userId in UserIds(users)
  {
    var u := users[UserIndex(users, r.userId)];
    RsvpWithUser(r, u.name, u.email)
  }

  /** `ORDER BY r.created_at DESC`. */
  predicate NewerFirst(a: RsvpWithUser, b: RsvpWithUser) {
    a.rsvp.createdAt >= b.rsvp.createdAt
  }

  /** The event's RSVPs whose user exists, each joined with that user, in table order. */
  function Joined(rsvps: seq<RsvpRow>, users: seq<UserRow>, eventId: int): (j: seq<RsvpWithUser>)
    ensures |j| == |Filter(rsvps, (x: RsvpRow) => OfEventWithUser(x, eventId, users))|
  {
    var rows := Filter(rsvps, (x: RsvpRow) => OfEventWithUser(x, eventId, users));
    seq(|rows|, i requires 0 <= i < |rows| => WithUser(rows[i], users))
  }

  lemma JoinedSound(rsvps: seq<RsvpRow>, users: seq<UserRow>, eventId: int, w: RsvpWithUser)
    requires w in Joined(rsvps, users, eventId)
    ensures w.rsvp in rsvps && OfEventWithUser(w.rsvp, eventId, users) && w == WithUser(w.rsvp, users)
  {
    var rows := Filter(rsvps, (x: RsvpRow) => OfEventWithUser(x, eventId, users));
    var i :| 0 <= i < |rows| && Joined(rsvps, users, eventId)[i] == w;
    assert rows[i] in rows;
  }

  lemma JoinedComplete(rsvps: seq<RsvpRow>, users: seq<UserRow>, eventId: int, x: RsvpRow)
    requires x in rsvps && OfEventWithUser(x, eventId, users)
    ensures WithUser(x, users) in Joined(rsvps, users, eventId)
  {
    var rows := Filter(rsvps, (x: RsvpRow) => OfEventWithUser(x, eventId, users));
    FilterMembers(rsvps, (x: RsvpRow) => OfEventWithUser(x, eventId, users), x);
    var i :| 0 <= i < |rows| && rows[i] == x;
    assert Joined(rsvps, users, eventId)[i] == WithUser(x, users);
  }

  /**
   * The whole ordered result of the per-event query before LIMIT/OFFSET: each
   * RSVP of the event whose user exists exactly once, joined with that user's
   * name and email, newest first.
   */
  function EventListed(rsvps: seq<RsvpRow>, users: seq<UserRow>, eventId: int): (r: seq<RsvpWithUser>)
    ensures SortedBy(r, NewerFirst)
    ensures |r| == |Filter(rsvps, (x: RsvpRow) => OfEventWithUser(x, eventId, users))|
    ensures forall k :: 0 <= k < |r| ==>
      && r[k].rsvp in rsvps && OfEventWithUser(r[k].rsvp, eventId, users)
      && r[k] == WithUser(r[k].rsvp, users)
    ensures forall x :: x in rsvps && OfEventWithUser(x, eventId, users) ==> WithUser(x, users) in r
  {
    var joined := Joined(rsvps, users, eventId);
    var r := Sort(joined, NewerFirst);
    forall k | 0 <= k < |r|
      ensures r[k].rsvp in rsvps && OfEventWithUser(r[k].rsvp, eventId, users) && r[k] == WithUser(r[k].rsvp, users)
    {
      assert r[k] in multiset(joined);
      JoinedSound(rsvps, users, eventId, r[k]);
    }
    forall x | x in rsvps && OfEventWithUser(x, eventId, users) ensures WithUser(x, users) in r {
      JoinedComplete(rsvps, users, eventId, x);
      assert WithUser(x, users) in multiset(joined);
    }
    r
  }

  /**
   * RSVP.findByEvent: the event's RSVPs joined with their users, newest first,
   * page 1 and limit 50 by default.
   */
  function FindByEvent(rsvps: seq<RsvpRow>, users: seq<UserRow>, eventId: int, page: Option<int>, limit: Option<int>)
    : (r: Result<seq<RsvpWithUser>, DbError>)
    ensures var n := OptionOr(limit, 50);
            r.Err? <==> n < 0 || PageOffset(OptionOr(page, 1), n) < 0
    ensures r.Ok? ==> |r.value| <= OptionOr(limit, 50)
    ensures r.Ok? ==> SortedBy(r.value, NewerFirst)
    ensures r.Ok? ==> forall k :: 0 <= k < |r.value| ==>
      && r.value[k].rsvp in rsvps && OfEventWithUser(r.value[k].rsvp, eventId, users)
      && r.value[k] == WithUser(r.value[k].rsvp, users)
    ensures r.Ok? ==>
      var n := OptionOr(limit, 50);
      Window(r.value, EventListed(rsvps, users, eventId), n, PageOffset(OptionOr(page, 1), n))
  {
    var n := OptionOr(limit, 50);
    var all := EventListed(rsvps, users, eventId);
    var result := Paginate(all, n, PageOffset(OptionOr(page, 1), n));
    if result.Ok? then
      WindowOfSorted(result.value, all, n, PageOffset(OptionOr(page, 1), n), NewerFirst);
      result
    else result
  }

  // ---------------------------------------------------------------------------
  // getUserStats

  predicate UpcomingOfUser(r: RsvpRow, userId: int, events: seq<EventRow>, today: Day) {
    var j := EventIndex(events, r.eventId);
    r.userId == userId && j >= 0 && events[j].date >= today
  }

  /**
   * RSVP.getUserStats: per status, how many of the user's RSVPs are for events
   * dated today or later; statuses without such RSVPs are absent.
   */
  function GetUserStats(rsvps: seq<RsvpRow>, events: seq<EventRow>, userId: int, today: Day)
    : (r: seq<StatusCount>)
    ensures forall k :: 0 <= k < |r| ==> r[k].count > 0
    ensures var rows := Filter(rsvps, (x: RsvpRow) => UpcomingOfUser(x, userId, events, today));
      && (forall s: Status :: CountStatus(rows, s) > 0 <==> StatusCount(s, CountStatus(rows, s)) in r)
      && SumCounts(r) == |rows|
  {
    var rows := Filter(rsvps, (x: RsvpRow) => UpcomingOfUser(x, userId, events, today));
    GroupCountsCoverRows(rows);
    GroupCounts(rows)
  }
}
