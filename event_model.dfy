/**
 * The Event model (Backend/models/Event.js): the listing with its optional
 * per-status counts, lookup by id, insertion, the partial update, deletion,
 * the per-creator listing and the per-status summary of one event.
 */
module EventModel {
  import opened Basics
  import opened Sorting
  import opened Store
  import opened Tally
  import opened Placeholders

  // ---------------------------------------------------------------------------
  // Listing rows: `e.*, u.name AS created_by_name` plus, optionally, the counts.

  datatype EventListing = EventListing(event: EventRow, createdByName: Option<string>, counts: Option<Counts>)

  /** `LEFT JOIN users u ON e.created_by = u.id`: the creator's name, or NULL. */
  function CreatorName(e: EventRow, users: seq<UserRow>): (n: Option<string>)
    ensures n.Some? <==> e.createdBy.Some? && e.createdBy.value in UserIds(users)
    ensures n.Some? ==> exists k :: 0 <= k < |users| && users[k].id == e.createdBy.value && users[k].name == n.value
  {
    if e.createdBy.Some? && e.createdBy.value in UserIds(users) then
      var k := UserIndex(users, e.createdBy.value);
      Some(users[k].name)
    else None
  }

  function ListingOf(e: EventRow, users: seq<UserRow>, rsvps: seq<RsvpRow>, withCounts: bool): EventListing {
    EventListing(e, CreatorName(e, users), if withCounts then Some(EventCounts(rsvps, e.id)) else None)
  }

  /** A listing row is an event of the table with its creator's name and, when asked for, its counts. */
  predicate ListedFrom(l: EventListing, events: seq<EventRow>, users: seq<UserRow>, rsvps: seq<RsvpRow>, withCounts: bool) {
    && l.event in events
    && l == ListingOf(l.event, users, rsvps, withCounts)
  }

  /** `ORDER BY e.date, e.start_time`. */
  predicate EarlierFirst(a: EventListing, b: EventListing) {
    a.event.date < b.event.date || (a.event.date == b.event.date && a.event.startTime <= b.event.startTime)
  }

  lemma EarlierFirstIsTotalPreorder()
    ensures TotalPreorder(EarlierFirst)
  {
  }

  /** `WHERE e.date >= CURRENT_DATE` when `upcomingOnly`, no condition otherwise. */
  predicate Qualifies(e: EventRow, upcomingOnly: bool, today: Day) {
    upcomingOnly ==> e.date >= today
  }

  function QualifyingEvents(events: seq<EventRow>, upcomingOnly: bool, today: Day): seq<EventRow> {
    Filter(events, (e: EventRow) => Qualifies(e, upcomingOnly, today))
  }

  /**
   * The whole ordered result of the listing query before LIMIT/OFFSET: every
   * qualifying event exactly once, with its creator and counts, by date and
   * start time.
   */
  function Listed(events: seq<EventRow>, users: seq<UserRow>, rsvps: seq<RsvpRow>,
                  upcomingOnly: bool, withCounts: bool, today: Day): (r: seq<EventListing>)
    ensures SortedBy(r, EarlierFirst)
    ensures |r| == |QualifyingEvents(events, upcomingOnly, today)|
    ensures forall k :: 0 <= k < |r| ==>
      ListedFrom(r[k], events, users, rsvps, withCounts) && Qualifies(r[k].event, upcomingOnly, today)
    ensures forall e :: e in events && Qualifies(e, upcomingOnly, today) ==> ListingOf(e, users, rsvps, withCounts) in r
  {
    var kept := QualifyingEvents(events, upcomingOnly, today);
    var ls := seq(|kept|, i requires 0 <= i < |kept| => ListingOf(kept[i], users, rsvps, withCounts));
    EarlierFirstIsTotalPreorder();
    SortedMembers(ls, EarlierFirst);
    var r := Sort(ls, EarlierFirst);
    forall e | e in events && Qualifies(e, upcomingOnly, today)
      ensures ListingOf(e, users, rsvps, withCounts) in r
    {
      FilterMembers(events, (e: EventRow) => Qualifies(e, upcomingOnly, today), e);
      var i :| 0 <= i < |kept| && kept[i] == e;
      assert ls[i] in multiset(ls);
    }
    r
  }

  datatype FindAllOptions = FindAllOptions(
    page: Option<int>, limit: Option<int>, upcomingOnly: Option<bool>, includeRsvpCounts: Option<bool>)

  /**
   * Event.findAll: defaults page 1, limit 10, upcomingOnly true and
   * includeRSVPCounts false; offset (page - 1) * limit.
   */
  function FindAll(events: seq<EventRow>, users: seq<UserRow>, rsvps: seq<RsvpRow>,
                   options: FindAllOptions, today: Day): (r: Result<seq<EventListing>, DbError>)
    ensures var limit := OptionOr(options.limit, 10);
            r.Err? <==> limit < 0 || PageOffset(OptionOr(options.page, 1), limit) < 0
    ensures r.Ok? ==> |r.value| <= OptionOr(options.limit, 10)
    ensures r.Ok? ==> SortedBy(r.value, EarlierFirst)
    ensures r.Ok? ==> forall k :: 0 <= k < |r.value| ==>
      && ListedFrom(r.value[k], events, users, rsvps, OptionOr(options.includeRsvpCounts, false))
      && Qualifies(r.value[k].event, OptionOr(options.upcomingOnly, true), today)
    ensures r.Ok? ==>
      var limit := OptionOr(options.limit, 10);
      Window(r.value, Listed(events, users, rsvps, OptionOr(options.upcomingOnly, true),
                             OptionOr(options.includeRsvpCounts, false), today),
             limit, PageOffset(OptionOr(options.page, 1), limit))
  {
    var limit := OptionOr(options.limit, 10);
    var offset := PageOffset(OptionOr(options.page, 1), limit);
    var all := Listed(events, users, rsvps, OptionOr(options.upcomingOnly, true),
                      OptionOr(options.includeRsvpCounts, false), today);
    var page := Paginate(all, limit, offset);
    if page.Ok? then
      WindowOfSorted(page.value, all, limit, offset, EarlierFirst);
      page
    else page
  }

  /** Event.findById: the event with its creator's name (and counts), or null. */
  function FindById(events: seq<EventRow>, users: seq<UserRow>, rsvps: seq<RsvpRow>, id: int, withCounts: bool)
    : (r: Option<EventListing>)
    ensures r.None? <==> id !in EventIds(events)
    ensures r.Some? ==> r.value.event.id == id && ListedFrom(r.value, events, users, rsvps, withCounts)
  {
    var k := EventIndex(events, id);
    if k < 0 then None else Some(ListingOf(events[k], users, rsvps, withCounts))
  }

  // ---------------------------------------------------------------------------
  // create

  /** The columns an INSERT supplies; a missing body field is a NULL. */
  datatype EventData = EventData(
    title: Option<string>, description: Option<string>, date: Option<Day>,
    startTime: Option<Minute>, endTime: Option<Minute>, location: Option<string>, createdBy: Option<int>)

  predicate HasRequired(d: EventData) {
    d.title.Some? && d.date.Some? && d.startTime.Some? && d.endTime.Some? && d.location.Some?
  }

  /**
   * `INSERT INTO events (...) VALUES (...) RETURNING *`: NOT NULL on title,
   * date, start_time, end_time and location, then the created_by foreign key.
   */
  function InsertEvent(events: seq<EventRow>, nextId: int, users: seq<UserRow>, d: EventData, now: Stamp)
    : (r: Result<(seq<EventRow>, EventRow), DbError>)
    ensures r.Err? <==> !HasRequired(d) || (d.createdBy.Some? && d.createdBy.value !in UserIds(users))
    ensures r.Err? ==> r.error == (if HasRequired(d) then ForeignKeyViolation else NotNullViolation)
    ensures r.Ok? ==> var row := r.value.1;
      && r.value.0 == events + [row]
      && row.id == nextId && row.createdAt == now && row.updatedAt == now
      && Some(row.title) == d.title && row.description == d.description && Some(row.date) == d.date
      && Some(row.startTime) == d.startTime && Some(row.endTime) == d.endTime
      && Some(row.location) == d.location && row.createdBy == d.createdBy
  {
    if !HasRequired(d) then Err(NotNullViolation)
    else if d.createdBy.Some? && d.createdBy.value !in UserIds(users) then Err(ForeignKeyViolation)
    else
      var row := EventRow(nextId, d.title.value, d.description, d.date.value, d.startTime.value,
                          d.endTime.value, d.location.value, d.createdBy, now, now);
      Ok((events + [row], row))
  }

  /** Event.create: the inserted row, or the constraint the INSERT violates. */
  method Create(db: Database, d: EventData, now: Stamp) returns (r: Result<EventRow, DbError>)
    requires db.Valid()
    modifies db
    ensures db.Valid()
    ensures var ins := InsertEvent(old(db.events), old(db.nextEventId), old(db.users), d, now);
      && (ins.Err? ==> r == Err(ins.error) && db.events == old(db.events) && db.nextEventId == old(db.nextEventId))
      && (ins.Ok? ==> r == Ok(ins.value.1) && db.events == ins.value.0 && db.nextEventId == old(db.nextEventId) + 1)
    ensures db.users == old(db.users) && db.rsvps == old(db.rsvps)
    ensures db.nextUserId == old(db.nextUserId) && db.nextRsvpId == old(db.nextRsvpId)
  {
    var ins := InsertEvent(db.events, db.nextEventId, db.users, d, now);
    if ins.Err? {
      return Err(ins.error);
    }
    EventsValidAppend(db.events, db.nextEventId, db.users, ins.value.1);
    RsvpsKeepEvents(db.rsvps, db.nextRsvpId, db.users, db.events, ins.value.0);
    db.events := ins.value.0;
    db.nextEventId := db.nextEventId + 1;
    r := Ok(ins.value.1);
  }

  /** Growing the events table keeps every RSVP's event reference valid. */
  lemma RsvpsKeepEvents(rsvps: seq<RsvpRow>, nextId: int, users: seq<UserRow>,
                        events: seq<EventRow>, events': seq<EventRow>)
    requires RsvpsValid(rsvps, nextId, users, events)
    requires EventIds(events) <= EventIds(events')
    ensures RsvpsValid(rsvps, nextId, users, events')
  {
  }

  // ---------------------------------------------------------------------------
  // update

  datatype EventColumn = Title | Description | Date | StartTime | EndTime | Location

  /** One `column = value` pair of an update object. */
  datatype EventAssignment =
    | SetTitle(title: string)
    | SetDescription(description: Option<string>)
    | SetDate(date: Day)
    | SetStartTime(startTime: Minute)
    | SetEndTime(endTime: Minute)
    | SetLocation(location: string)

  function ColumnOf(a: EventAssignment): EventColumn {
    match a
    case SetTitle(_) => Title
    case SetDescription(_) => Description
    case SetDate(_) => Date
    case SetStartTime(_) => StartTime
    case SetEndTime(_) => EndTime
    case SetLocation(_) => Location
  }

  /** The value a row holds in column `c`, as the assignment that would set it. */
  function Get(e: EventRow, c: EventColumn): (a: EventAssignment)
    ensures ColumnOf(a) == c
  {
    match c
    case Title => SetTitle(e.title)
    case Description => SetDescription(e.description)
    case Date => SetDate(e.date)
    case StartTime => SetStartTime(e.startTime)
    case EndTime => SetEndTime(e.endTime)
    case Location => SetLocation(e.location)
  }

  function ApplyOne(e: EventRow, a: EventAssignment): EventRow {
    match a
    case SetTitle(v) => e.(title := v)
    case SetDescription(v) => e.(description := v)
    case SetDate(v) => e.(date := v)
    case SetStartTime(v) => e.(startTime := v)
    case SetEndTime(v) => e.(endTime := v)
    case SetLocation(v) => e.(location := v)
  }

  /** The assignments of a SET list, left to right. */
  function ApplyAll(e: EventRow, updates: seq<EventAssignment>): EventRow
    decreases |updates|
  {
    if updates == [] then e
    else ApplyOne(ApplyAll(e, updates[..|updates| - 1]), updates[|updates| - 1])
  }

  /** The last assignment to column `c`, if any. */
  function Assigned(updates: seq<EventAssignment>, c: EventColumn): (r: Option<EventAssignment>)
    ensures r.Some? ==> ColumnOf(r.value) == c && r.value in updates
    ensures r.None? <==> forall i :: 0 <= i < |updates| ==> ColumnOf(updates[i]) != c
    decreases |updates|
  {
    if updates == [] then None
    else if ColumnOf(updates[|updates| - 1]) == c then Some(updates[|updates| - 1])
    else Assigned(updates[..|updates| - 1], c)
  }

  /**
   * A SET list changes exactly the columns it names: each column ends with
   * its last assigned value, every other column and the id, creator and
   * timestamps keep theirs.
   */
  lemma {:induction false} ApplyAllColumns(e: EventRow, updates: seq<EventAssignment>, c: EventColumn)
    ensures Get(ApplyAll(e, updates), c) == (if Assigned(updates, c).Some? then Assigned(updates, c).value else Get(e, c))
    ensures var r := ApplyAll(e, updates);
      r.id == e.id && r.createdBy == e.createdBy && r.createdAt == e.createdAt && r.updatedAt == e.updatedAt
    decreases |updates|
  {
    if updates != [] {
      ApplyAllColumns(e, updates[..|updates| - 1], c);
    }
  }

  /** Applying two SET lists one after the other is applying their concatenation. */
  lemma {:induction false} ApplyAllAppend(e: EventRow, a: seq<EventAssignment>, b: seq<EventAssignment>)
    ensures ApplyAll(e, a + b) == ApplyAll(ApplyAll(e, a), b)
    decreases |b|
  {
    if b == [] {
      assert a + b == a;
    } else {
      assert (a + b)[..|a + b| - 1] == a + b[..|b| - 1];
      ApplyAllAppend(e, a, b[..|b| - 1]);
    }
  }

  /** The columns of an update object are its keys, so none repeats. */
  predicate DistinctColumns(updates: seq<EventAssignment>) {
    forall i, j :: 0 <= i < j < |updates| ==> ColumnOf(updates[i]) != ColumnOf(updates[j])
  }

  /**
   * `UPDATE events SET <assignments>, updated_at = CURRENT_TIMESTAMP WHERE id
   * = $n RETURNING *`. An empty SET list leaves `SET , updated_at` and a
   * repeated column is a "multiple assignments" error, both syntax errors;
   * an unknown id updates nothing and returns no row.
   */
  function UpdateEventRow(events: seq<EventRow>, id: int, updates: seq<EventAssignment>, now: Stamp)
    : (r: Result<Deleted<EventRow>, DbError>)
    ensures r.Err? <==> updates == [] || !DistinctColumns(updates)
    ensures r.Err? ==> r.error == SyntaxError
    ensures r.Ok? && id !in EventIds(events) ==> r.value == Deleted(events, None)
    ensures r.Ok? && id in EventIds(events) ==> var k := EventIndex(events, id);
      && r.value.row == Some(ApplyAll(events[k], updates).(updatedAt := now))
      && r.value.table == events[k := r.value.row.value]
  {
    if updates == [] || !DistinctColumns(updates) then Err(SyntaxError)
    else
      var k := EventIndex(events, id);
      if k < 0 then Ok(Deleted(events, None))
      else
        var row := ApplyAll(events[k], updates).(updatedAt := now);
        Ok(Deleted(events[k := row], Some(row)))
  }

  /**
   * Event.update: numbers the keys of `updates` as $1..$n with the id at
   * $(n + 1) and runs the UPDATE; no date or time validation is done.
   */
  method Update(db: Database, id: int, updates: seq<EventAssignment>, now: Stamp)
    returns (r: Result<Option<EventRow>, DbError>)
    requires db.Valid()
    modifies db
    ensures db.Valid()
    ensures var u := UpdateEventRow(old(db.events), id, updates, now);
      && (u.Err? ==> r == Err(u.error) && db.events == old(db.events))
      && (u.Ok? ==> r == Ok(u.value.row) && db.events == u.value.table)
    ensures db.users == old(db.users) && db.rsvps == old(db.rsvps)
    ensures db.nextUserId == old(db.nextUserId) && db.nextEventId == old(db.nextEventId)
    ensures db.nextRsvpId == old(db.nextRsvpId)
  {
    var columns := seq(|updates|, i requires 0 <= i < |updates| => ColumnOf(updates[i]));
    var items, params, idParam := NumberSet(columns, updates, id);
    BindNumbered(columns, updates, id, items, params, idParam);
    var u := UpdateEventRow(db.events, id, updates, now);
    if u.Err? {
      return Err(u.error);
    }
    UpdateKeepsEventsValid(db.events, db.nextEventId, db.users, id, updates, now);
    RsvpsKeepEvents(db.rsvps, db.nextRsvpId, db.users, db.events, u.value.table);
    db.events := u.value.table;
    r := Ok(u.value.row);
  }

  /** A successful update keeps the events table valid and its set of ids. */
  lemma UpdateKeepsEventsValid(events: seq<EventRow>, nextId: int, users: seq<UserRow>,
                               id: int, updates: seq<EventAssignment>, now: Stamp)
    requires EventsValid(events, nextId, users)
    requires UpdateEventRow(events, id, updates, now).Ok?
    ensures EventsValid(UpdateEventRow(events, id, updates, now).value.table, nextId, users)
    ensures EventIds(UpdateEventRow(events, id, updates, now).value.table) == EventIds(events)
  {
    var k := EventIndex(events, id);
    if k >= 0 {
      var row := ApplyAll(events[k], updates).(updatedAt := now);
      ApplyAllColumns(events[k], updates, Title);
      EventsValidUpdate(events, nextId, users, k, row);
    }
  }

  // ---------------------------------------------------------------------------
  // delete

  /**
   * `DELETE FROM events WHERE id = $1 RETURNING *`: the rsvps foreign key has
   * no ON DELETE action, so the statement fails while RSVPs reference the event.
   */
  function DeleteEventRow(events: seq<EventRow>, rsvps: seq<RsvpRow>, id: int): (r: Result<Deleted<EventRow>, DbError>)
    ensures r.Err? <==> id in EventIds(events) && exists k :: 0 <= k < |rsvps| && References(rsvps[k], id)
    ensures r.Err? ==> r.error == ForeignKeyViolation
    ensures r.Ok? ==> r.value.table == WithoutEvent(events, id)
    ensures r.Ok? ==> (r.value.row.Some? <==> id in EventIds(events))
    ensures r.Ok? && r.value.row.Some? ==> r.value.row.value in events && r.value.row.value.id == id
  {
    var k := EventIndex(events, id);
    if k >= 0 && exists j :: 0 <= j < |rsvps| && References(rsvps[j], id) then Err(ForeignKeyViolation)
    else Ok(Deleted(WithoutEvent(events, id), if k >= 0 then Some(events[k]) else None))
  }

  /** With distinct ids, deleting an event removes that one row and keeps the rest in order. */
  lemma {:induction false} DeleteRemovesOnlyThatEvent(events: seq<EventRow>, rsvps: seq<RsvpRow>, id: int)
    requires Pairwise(events, DistinctEvents)
    requires id in EventIds(events)
    requires DeleteEventRow(events, rsvps, id).Ok?
    ensures var k := EventIndex(events, id);
      DeleteEventRow(events, rsvps, id).value.table == events[..k] + events[k + 1..]
  {
    var k := EventIndex(events, id);
    var p := (e: EventRow) => e.id != id;
    forall j | 0 <= j < |events| && j != k ensures p(events[j]) {
      if j < k {
        assert DistinctEvents(events[j], events[k]);
      } else {
        assert DistinctEvents(events[k], events[j]);
      }
    }
    FilterDropsOne(events, k, p);
  }

  /** Event.delete: the deleted row, or None, or the foreign-key error. */
  method Delete(db: Database, id: int) returns (r: Result<Option<EventRow>, DbError>)
    requires db.Valid()
    modifies db
    ensures db.Valid()
    ensures var d := DeleteEventRow(old(db.events), old(db.rsvps), id);
      && (d.Err? ==> r == Err(d.error) && db.events == old(db.events))
      && (d.Ok? ==> r == Ok(d.value.row) && db.events == d.value.table)
    ensures db.users == old(db.users) && db.rsvps == old(db.rsvps)
    ensures db.nextUserId == old(db.nextUserId) && db.nextEventId == old(db.nextEventId)
    ensures db.nextRsvpId == old(db.nextRsvpId)
  {
    var d := DeleteEventRow(db.events, db.rsvps, id);
    if d.Err? {
      return Err(d.error);
    }
    if id in EventIds(db.events) {
      assert forall k :: 0 <= k < |db.rsvps| ==> db.rsvps[k].eventId != id by {
        forall k | 0 <= k < |db.rsvps| ensures db.rsvps[k].eventId != id {
          assert !References(db.rsvps[k], id);
        }
      }
    } else {
      assert forall k :: 0 <= k < |db.rsvps| ==> db.rsvps[k].eventId != id;
    }
    EventsValidRemove(db.events, db.nextEventId, db.users, db.rsvps, db.nextRsvpId, id);
    db.events := d.value.table;
    r := Ok(d.value.row);
  }

  /** Deleting an event that has RSVPs always fails, whatever the RSVPs are. */
  lemma DeleteBlockedByRsvps(events: seq<EventRow>, rsvps: seq<RsvpRow>, id: int, k: int)
    requires id in EventIds(events)
    requires 0 <= k < |rsvps| && rsvps[k].eventId == id
    ensures DeleteEventRow(events, rsvps, id) == Err(ForeignKeyViolation)
  {
    assert References(rsvps[k], id);
  }

  // ---------------------------------------------------------------------------
  // findByCreator

  /** `ORDER BY e.created_at DESC`. */
  predicate NewerEventFirst(a: EventListing, b: EventListing) {
    a.event.createdAt >= b.event.createdAt
  }

  predicate CreatedBy(e: EventRow, userId: int) {
    e.createdBy == Some(userId)
  }

  /** The user's events with their creator's name, in table order. */
  function CreatorRows(events: seq<EventRow>, users: seq<UserRow>, userId: int): (ls: seq<EventListing>)
    ensures |ls| == |Filter(events, (e: EventRow) => CreatedBy(e, userId))|
  {
    var own := Filter(events, (e: EventRow) => CreatedBy(e, userId));
    seq(|own|, i requires 0 <= i < |own| => ListingOf(own[i], users, [], false))
  }

  lemma CreatorRowsSound(events: seq<EventRow>, users: seq<UserRow>, userId: int, l: EventListing)
    requires l in CreatorRows(events, users, userId)
    ensures CreatedBy(l.event, userId) && ListedFrom(l, events, users, [], false)
  {
    var own := Filter(events, (e: EventRow) => CreatedBy(e, userId));
    var i :| 0 <= i < |own| && CreatorRows(events, users, userId)[i] == l;
    assert own[i] in own;
  }

  lemma CreatorRowsComplete(events: seq<EventRow>, users: seq<UserRow>, userId: int, e: EventRow)
    requires e in events && CreatedBy(e, userId)
    ensures ListingOf(e, users, [], false) in CreatorRows(events, users, userId)
  {
    var own := Filter(events, (e: EventRow) => CreatedBy(e, userId));
    FilterMembers(events, (e: EventRow) => CreatedBy(e, userId), e);
    var i :| 0 <= i < |own| && own[i] == e;
    assert CreatorRows(events, users, userId)[i] == ListingOf(e, users, [], false);
  }

  /**
   * The whole ordered result of the per-creator query before LIMIT/OFFSET:
   * each of the user's events exactly once, with its creator's name, newest
   * first.
   */
  function CreatorListed(events: seq<EventRow>, users: seq<UserRow>, userId: int): (r: seq<EventListing>)
    ensures SortedBy(r, NewerEventFirst)
    ensures |r| == |Filter(events, (e: EventRow) => CreatedBy(e, userId))|
    ensures forall k :: 0 <= k < |r| ==>
      CreatedBy(r[k].event, userId) && ListedFrom(r[k], events, users, [], false)
    ensures forall e :: e in events && CreatedBy(e, userId) ==> ListingOf(e, users, [], false) in r
  {
    var ls := CreatorRows(events, users, userId);
    var r := Sort(ls, NewerEventFirst);
    forall k | 0 <= k < |r| ensures CreatedBy(r[k].event, userId) && ListedFrom(r[k], events, users, [], false) {
      assert r[k] in multiset(ls);
      CreatorRowsSound(events, users, userId, r[k]);
    }
    forall e | e in events && CreatedBy(e, userId)
      ensures ListingOf(e, users, [], false) in r
    {
      CreatorRowsComplete(events, users, userId, e);
      assert ListingOf(e, users, [], false) in multiset(ls);
    }
    r
  }

  /** Event.findByCreator: the user's events, newest first; page 1 and limit 10 by default. */
  function FindByCreator(events: seq<EventRow>, users: seq<UserRow>, userId: int, page: Option<int>, limit: Option<int>)
    : (r: Result<seq<EventListing>, DbError>)
    ensures var n := OptionOr(limit, 10);
            r.Err? <==> n < 0 || PageOffset(OptionOr(page, 1), n) < 0
    ensures r.Ok? ==> |r.value| <= OptionOr(limit, 10)
    ensures r.Ok? ==> SortedBy(r.value, NewerEventFirst)
    ensures r.Ok? ==> forall k :: 0 <= k < |r.value| ==>
      CreatedBy(r.value[k].event, userId) && ListedFrom(r.value[k], events, users, [], false)
    ensures r.Ok? ==>
      var n := OptionOr(limit, 10);
      Window(r.value, CreatorListed(events, users, userId), n, PageOffset(OptionOr(page, 1), n))
  {
    var n := OptionOr(limit, 10);
    var all := CreatorListed(events, users, userId);
    var result := Paginate(all, n, PageOffset(OptionOr(page, 1), n));
    if result.Ok? then
      WindowOfSorted(result.value, all, n, PageOffset(OptionOr(page, 1), n), NewerEventFirst);
      result
    else result
  }

  // ---------------------------------------------------------------------------
  // getRsvpSummary

  /**
   * Event.getRsvpSummary: one (status, count) pair per status the event's
   * RSVPs use, ordered going, maybe, decline; the counts add up to the
   * number of the event's RSVPs.
   */
  function RsvpSummary(rsvps: seq<RsvpRow>, eventId: int): (r: seq<StatusCount>)
    ensures forall k :: 0 <= k < |r| ==> 0 < r[k].count == CountStatus(RsvpsOfEvent(rsvps, eventId), r[k].status)
    ensures forall s: Status :: CountStatus(RsvpsOfEvent(rsvps, eventId), s) > 0 <==>
      StatusCount(s, CountStatus(RsvpsOfEvent(rsvps, eventId), s)) in r
    ensures forall i, j :: 0 <= i < j < |r| ==> StatusRank(r[i].status) < StatusRank(r[j].status)
    ensures SumCounts(r) == |RsvpsOfEvent(rsvps, eventId)|
  {
    GroupCountsCoverRows(RsvpsOfEvent(rsvps, eventId));
    GroupCounts(RsvpsOfEvent(rsvps, eventId))
  }
}
