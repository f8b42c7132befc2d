/**
 * The event handlers (Backend/controllers/eventController.js): the public
 * listing, lookup, creation with its date and time checks, the partial update,
 * deletion together with the event's RSVPs, and the RSVP summary with its
 * per-status attendee lists.
 */
module EventController {
  import opened Basics
  import opened Sorting
  import opened Store
  import opened Tally
  import opened Placeholders
  import opened EventModel
  import RsvpModel

  const PastDateError: string := "Event date cannot be in the past"
  const TimeOrderError: string := "End time must be after start time"
  const EventNotFound: string := "Event not found"
  const NoFieldsError: string := "No fields to update"

  // ---------------------------------------------------------------------------
  // getAllEvents, getEventById

  /**
   * getAllEvents: every event dated today or later, each with its creator's
   * name and its four zero-filled counts, by date and start time.
   */
  function GetAllEvents(events: seq<EventRow>, users: seq<UserRow>, rsvps: seq<RsvpRow>, today: Day)
    : (r: Reply<seq<EventListing>>)
    ensures r.code == 200 && r.success && r.data.Some?
    ensures SortedBy(r.data.value, EarlierFirst)
    ensures |r.data.value| == |QualifyingEvents(events, true, today)|
    ensures forall k :: 0 <= k < |r.data.value| ==>
      && ListedFrom(r.data.value[k], events, users, rsvps, true)
      && r.data.value[k].event.date >= today
      && r.data.value[k].counts == Some(EventCounts(rsvps, r.data.value[k].event.id))
    ensures forall e :: e in events && e.date >= today ==> ListingOf(e, users, rsvps, true) in r.data.value
  {
    Success(200, "", Listed(events, users, rsvps, true, true, today))
  }

  /** getEventById: the event with its counts, or 404 "Event not found". */
  function GetEventById(events: seq<EventRow>, users: seq<UserRow>, rsvps: seq<RsvpRow>, id: int)
    : (r: Reply<EventListing>)
    ensures r.code == 404 <==> id !in EventIds(events)
    ensures r.code == 404 ==> r == Failure(404, EventNotFound)
    ensures r.code != 404 ==> && r.code == 200 && r.success && r.data.Some?
                              && r.data.value.event.id == id
                              && ListedFrom(r.data.value, events, users, rsvps, true)
  {
    match FindById(events, users, rsvps, id, true)
    case None => Failure(404, EventNotFound)
    case Some(l) => Success(200, "", l)
  }

  // ---------------------------------------------------------------------------
  // The date check

  /** Intended: the event's day is before today's. */
  predicate DateInPast(date: Day, today: Day) {
    date < today
  }

  /**
   * As written: `new Date(date)` for a "YYYY-MM-DD" string is midnight UTC of
   * that day, while `today.setHours(0, 0, 0, 0)` is midnight of the server's
   * local day. Both are instants in minutes; `now` is the local clock and
   * `utcOffset` the local time minus UTC, in minutes.
   */
  predicate DateInPastAsWritten(date: Day, now: Stamp, utcOffset: int) {
    date * MinutesPerDay < DayOf(now) * MinutesPerDay - utcOffset
  }

  /** West of UTC the written check also rejects today's date. */
  lemma AsWrittenRejectsTodayWestOfUtc(date: Day, now: Stamp, utcOffset: int)
    requires -MinutesPerDay < utcOffset < 0
    ensures DateInPastAsWritten(date, now, utcOffset) <==> date <= DayOf(now)
    ensures DateInPastAsWritten(DayOf(now), now, utcOffset) && !DateInPast(DayOf(now), DayOf(now))
  {
    var today := DayOf(now);
    if date <= today {
      assert date * MinutesPerDay <= today * MinutesPerDay;
    } else {
      assert date * MinutesPerDay >= today * MinutesPerDay + MinutesPerDay;
    }
  }

  /** At UTC and east of it the written check is the intended one. */
  lemma AsWrittenAgreesEastOfUtc(date: Day, now: Stamp, utcOffset: int)
    requires 0 <= utcOffset < MinutesPerDay
    ensures DateInPastAsWritten(date, now, utcOffset) <==> DateInPast(date, DayOf(now))
  {
    var today := DayOf(now);
    if date < today {
      assert date * MinutesPerDay <= today * MinutesPerDay - MinutesPerDay;
    } else {
      assert date * MinutesPerDay >= today * MinutesPerDay;
    }
  }

  /**
   * A server at UTC-5 creating an event for 2024-05-01 (day 19844) at 10:00
   * local time on that day is told the date is in the past.
   */
  lemma TodayRejectedAtUtcMinusFive()
    ensures DateInPastAsWritten(19844, 19844 * MinutesPerDay + 600, -300)
    ensures !DateInPast(19844, DayOf(19844 * MinutesPerDay + 600))
  {
    AsWrittenRejectsTodayWestOfUtc(19844, 19844 * MinutesPerDay + 600, -300);
  }

  // ---------------------------------------------------------------------------
  // createEvent

  /** The fields of a create or update request body; None is a field left out. */
  datatype EventBody = EventBody(
    title: Option<string>, description: Option<string>, date: Option<Day>,
    startTime: Option<Minute>, endTime: Option<Minute>, location: Option<string>)

  /** Both times are present and the start is not before the end. */
  predicate TimesOutOfOrder(b: EventBody) {
    b.startTime.Some? && b.endTime.Some? && b.startTime.value >= b.endTime.value
  }

  /**
   * The create-time validation: a past date is reported first, then a start
   * time not before the end time (equal times included); the time of day of
   * `now` plays no part.
   */
  function CreateCheck(b: EventBody, today: Day): (r: Option<string>)
    ensures r == Some(PastDateError) <==> b.date.Some? && DateInPast(b.date.value, today)
    ensures r == Some(TimeOrderError) <==> !(b.date.Some? && DateInPast(b.date.value, today)) && TimesOutOfOrder(b)
    ensures r.None? <==> !(b.date.Some? && DateInPast(b.date.value, today)) && !TimesOutOfOrder(b)
  {
    if b.date.Some? && DateInPast(b.date.value, today) then Some(PastDateError)
    else if TimesOutOfOrder(b) then Some(TimeOrderError)
    else None
  }

  function DataOf(b: EventBody, userId: int): EventData {
    EventData(b.title, b.description, b.date, b.startTime, b.endTime, b.location, Some(userId))
  }

  /**
   * createEvent: 400 on a failed check, otherwise the INSERT with the caller as
   * creator; 201 with the new row, or 500 when the INSERT fails.
   */
  method CreateEvent(db: Database, b: EventBody, userId: int, now: Stamp) returns (r: Reply<EventRow>)
    requires db.Valid()
    modifies db
    ensures db.Valid()
    ensures var check := CreateCheck(b, DayOf(now));
      var ins := InsertEvent(old(db.events), old(db.nextEventId), old(db.users), DataOf(b, userId), now);
      && (check.Some? ==> r == Failure(400, check.value) && db.events == old(db.events))
      && (check.None? && ins.Err? ==>
            r == Failure(500, "Internal server error while creating event") && db.events == old(db.events))
      && (check.None? && ins.Ok? ==>
            r == Success(201, "Event created successfully", ins.value.1) && db.events == ins.value.0)
    ensures db.users == old(db.users) && db.rsvps == old(db.rsvps)
    ensures db.nextEventId == if r.code == 201 then old(db.nextEventId) + 1 else old(db.nextEventId)
    ensures db.nextUserId == old(db.nextUserId) && db.nextRsvpId == old(db.nextRsvpId)
  {
    var check := CreateCheck(b, DayOf(now));
    if check.Some? {
      return Failure(400, check.value);
    }
    var created := Create(db, DataOf(b, userId), now);
    if created.Err? {
      r := Failure(500, "Internal server error while creating event");
    } else {
      r := Success(201, "Event created successfully", created.value);
    }
  }

  // ---------------------------------------------------------------------------
  // updateEvent

  /** Each field's contribution to the SET list: one assignment when the field is truthy. */
  function TitlePart(b: EventBody): seq<EventAssignment> {
    if Truthy(b.title) then [SetTitle(b.title.value)] else []
  }

  function DescriptionPart(b: EventBody): seq<EventAssignment> {
    if Truthy(b.description) then [SetDescription(b.description)] else []
  }

  function DatePart(b: EventBody): seq<EventAssignment> {
    if b.date.Some? then [SetDate(b.date.value)] else []
  }

  function StartPart(b: EventBody): seq<EventAssignment> {
    if b.startTime.Some? then [SetStartTime(b.startTime.value)] else []
  }

  function EndPart(b: EventBody): seq<EventAssignment> {
    if b.endTime.Some? then [SetEndTime(b.endTime.value)] else []
  }

  function LocationPart(b: EventBody): seq<EventAssignment> {
    if Truthy(b.location) then [SetLocation(b.location.value)] else []
  }

  /** The assignments the handler collects: each truthy field, in the fixed column order. */
  function PatchOf(b: EventBody): seq<EventAssignment> {
    TitlePart(b) + DescriptionPart(b) + DatePart(b) + StartPart(b) + EndPart(b) + LocationPart(b)
  }

  /** The stored row with every truthy field of the body written over it and nothing else. */
  function Patched(e: EventRow, b: EventBody): EventRow {
    e.(title := if Truthy(b.title) then b.title.value else e.title,
       description := if Truthy(b.description) then b.description else e.description,
       date := if b.date.Some? then b.date.value else e.date,
       startTime := if b.startTime.Some? then b.startTime.value else e.startTime,
       endTime := if b.endTime.Some? then b.endTime.value else e.endTime,
       location := if Truthy(b.location) then b.location.value else e.location)
  }

  function ColumnRank(c: EventColumn): nat {
    match c
    case Title => 0
    case Description => 1
    case Date => 2
    case StartTime => 3
    case EndTime => 4
    case Location => 5
  }

  predicate RanksBelow(s: seq<EventAssignment>, bound: nat) {
    forall k :: 0 <= k < |s| ==> ColumnRank(ColumnOf(s[k])) < bound
  }

  predicate InColumnOrder(s: seq<EventAssignment>) {
    forall i, j :: 0 <= i < j < |s| ==> ColumnRank(ColumnOf(s[i])) < ColumnRank(ColumnOf(s[j]))
  }

  lemma ExtendInOrder(s: seq<EventAssignment>, part: seq<EventAssignment>, rank: nat)
    requires InColumnOrder(s) && RanksBelow(s, rank)
    requires |part| <= 1 && forall k :: 0 <= k < |part| ==> ColumnRank(ColumnOf(part[k])) == rank
    ensures InColumnOrder(s + part) && RanksBelow(s + part, rank + 1)
  {
  }

  /** The collected fields come in the order title, description, date, start_time, end_time, location. */
  lemma PatchInColumnOrder(b: EventBody)
    ensures InColumnOrder(PatchOf(b)) && DistinctColumns(PatchOf(b))
  {
    var s1 := TitlePart(b);
    assert InColumnOrder(s1) && RanksBelow(s1, 1);
    var s2 := s1 + DescriptionPart(b);
    ExtendInOrder(s1, DescriptionPart(b), 1);
    var s3 := s2 + DatePart(b);
    ExtendInOrder(s2, DatePart(b), 2);
    var s4 := s3 + StartPart(b);
    ExtendInOrder(s3, StartPart(b), 3);
    var s5 := s4 + EndPart(b);
    ExtendInOrder(s4, EndPart(b), 4);
    ExtendInOrder(s5, LocationPart(b), 5);
  }

  /** Applying a SET list of at most one assignment after a prefix. */
  lemma ApplyThenPart(e: EventRow, s: seq<EventAssignment>, part: seq<EventAssignment>)
    requires |part| <= 1
    ensures ApplyAll(e, s + part) == if part == [] then ApplyAll(e, s) else ApplyOne(ApplyAll(e, s), part[0])
  {
    ApplyAllAppend(e, s, part);
    if part != [] {
      assert part[..0] == [];
    }
  }

  /** The UPDATE the handler sends writes exactly the truthy fields of the body. */
  lemma PatchWritesSuppliedFields(e: EventRow, b: EventBody)
    ensures ApplyAll(e, PatchOf(b)) == Patched(e, b)
  {
    var p := Patched(e, b);
    var s1 := TitlePart(b);
    assert ApplyAll(e, s1) == e.(title := p.title) by {
      ApplyThenPart(e, [], s1);
      assert [] + s1 == s1;
    }
    var s2 := s1 + DescriptionPart(b);
    assert ApplyAll(e, s2) == e.(title := p.title, description := p.description) by {
      ApplyThenPart(e, s1, DescriptionPart(b));
    }
    var s3 := s2 + DatePart(b);
    assert ApplyAll(e, s3) == e.(title := p.title, description := p.description, date := p.date) by {
      ApplyThenPart(e, s2, DatePart(b));
    }
    var s4 := s3 + StartPart(b);
    assert ApplyAll(e, s4) == e.(title := p.title, description := p.description, date := p.date,
                                 startTime := p.startTime) by {
      ApplyThenPart(e, s3, StartPart(b));
    }
    var s5 := s4 + EndPart(b);
    assert ApplyAll(e, s5) == e.(title := p.title, description := p.description, date := p.date,
                                 startTime := p.startTime, endTime := p.endTime) by {
      ApplyThenPart(e, s4, EndPart(b));
    }
    assert ApplyAll(e, s5 + LocationPart(b)) == p by {
      ApplyThenPart(e, s5, LocationPart(b));
    }
    assert PatchOf(b) == s5 + LocationPart(b);
  }

  /**
   * The validation of updateEvent, in its order: an unknown id is 404 before
   * anything else; the date is checked only when given; the times are
   * compared only when both are given; then at least one field must be set.
   */
  function UpdateCheck(events: seq<EventRow>, id: int, b: EventBody, today: Day): (r: Option<(nat, string)>)
    ensures r == Some((404, EventNotFound)) <==> id !in EventIds(events)
    ensures r == Some((400, PastDateError)) <==>
      id in EventIds(events) && b.date.Some? && DateInPast(b.date.value, today)
    ensures r == Some((400, TimeOrderError)) <==>
      id in EventIds(events) && !(b.date.Some? && DateInPast(b.date.value, today)) && TimesOutOfOrder(b)
    ensures r == Some((400, NoFieldsError)) <==>
      id in EventIds(events) && CreateCheck(b, today).None? && PatchOf(b) == []
    ensures r.None? <==> id in EventIds(events) && CreateCheck(b, today).None? && PatchOf(b) != []
  {
    if id !in EventIds(events) then Some((404, EventNotFound))
    else if b.date.Some? && DateInPast(b.date.value, today) then Some((400, PastDateError))
    else if TimesOutOfOrder(b) then Some((400, TimeOrderError))
    else if PatchOf(b) == [] then Some((400, NoFieldsError))
    else None
  }

  /** The `column = $i` items for the collected assignments, numbered from $1. */
  function ItemsOf(sets: seq<EventAssignment>): seq<SetItem<EventColumn>> {
    seq(|sets|, i requires 0 <= i < |sets| => SetItem(ColumnOf(sets[i]), i + 1))
  }

  /** The values array for the collected assignments. */
  function ValuesOf(sets: seq<EventAssignment>): seq<Param<EventAssignment>> {
    seq(|sets|, i requires 0 <= i < |sets| => Value(sets[i]))
  }

  predicate Collected(sets: seq<EventAssignment>, items: seq<SetItem<EventColumn>>,
                      params: seq<Param<EventAssignment>>, paramCount: nat) {
    items == ItemsOf(sets) && params == ValuesOf(sets) && paramCount == |sets| + 1
  }

  /** One `updateFields.push(...); values.push(...); paramCount++` step. */
  method Push(sets: seq<EventAssignment>, items: seq<SetItem<EventColumn>>,
              params: seq<Param<EventAssignment>>, paramCount: nat, a: EventAssignment)
    returns (sets': seq<EventAssignment>, items': seq<SetItem<EventColumn>>,
             params': seq<Param<EventAssignment>>, paramCount': nat)
    requires Collected(sets, items, params, paramCount)
    ensures sets' == sets + [a] && Collected(sets', items', params', paramCount')
  {
    items' := items + [SetItem(ColumnOf(a), paramCount)];
    params' := params + [Value(a)];
    sets' := sets + [a];
    paramCount' := paramCount + 1;
  }

  /** One `if (field) { ...push...; paramCount++ }` step: pushes the part's assignment when the field is supplied. */
  method PushPart(sets: seq<EventAssignment>, items: seq<SetItem<EventColumn>>,
                  params: seq<Param<EventAssignment>>, paramCount: nat, part: seq<EventAssignment>)
    returns (sets': seq<EventAssignment>, items': seq<SetItem<EventColumn>>,
             params': seq<Param<EventAssignment>>, paramCount': nat)
    requires Collected(sets, items, params, paramCount)
    requires |part| <= 1
    ensures sets' == sets + part && Collected(sets', items', params', paramCount')
  {
    if part == [] {
      return sets, items, params, paramCount;
    }
    sets', items', params', paramCount' := Push(sets, items, params, paramCount, part[0]);
    assert part == [part[0]];
  }

  /**
   * The six conditional pushes of updateEvent: the collected assignments are
   * PatchOf(b), numbered $1..$n with the id bound at $(n + 1).
   */
  method CollectPatch(b: EventBody, id: int)
    returns (sets: seq<EventAssignment>, items: seq<SetItem<EventColumn>>,
             params: seq<Param<EventAssignment>>, idParam: nat)
    ensures sets == PatchOf(b)
    ensures NumberedAs(Columns(sets), sets, id, items, params, idParam)
  {
    sets, items, params := [], [], [];
    var paramCount: nat := 1;
    sets, items, params, paramCount := PushPart(sets, items, params, paramCount, TitlePart(b));
    assert sets == TitlePart(b);
    sets, items, params, paramCount := PushPart(sets, items, params, paramCount, DescriptionPart(b));
    sets, items, params, paramCount := PushPart(sets, items, params, paramCount, DatePart(b));
    sets, items, params, paramCount := PushPart(sets, items, params, paramCount, StartPart(b));
    sets, items, params, paramCount := PushPart(sets, items, params, paramCount, EndPart(b));
    sets, items, params, paramCount := PushPart(sets, items, params, paramCount, LocationPart(b));
    CollectedNumbered(sets, items, params, paramCount, id);
    params := params + [Key(id)];
    idParam := paramCount;
  }

  function Columns(sets: seq<EventAssignment>): (cs: seq<EventColumn>)
    ensures |cs| == |sets| && forall i :: 0 <= i < |sets| ==> cs[i] == ColumnOf(sets[i])
  {
    seq(|sets|, i requires 0 <= i < |sets| => ColumnOf(sets[i]))
  }

  /** Appending the id after the collected values completes the numbering. */
  lemma CollectedNumbered(sets: seq<EventAssignment>, items: seq<SetItem<EventColumn>>,
                          params: seq<Param<EventAssignment>>, paramCount: nat, id: int)
    requires Collected(sets, items, params, paramCount)
    ensures NumberedAs(Columns(sets), sets, id, items, params + [Key(id)], paramCount)
  {
  }

  /**
   * updateEvent: the first failed check answers; otherwise the stored row gets
   * the truthy fields of the body and a fresh updated_at, and nothing else
   * in the database changes.
   */
  method UpdateEvent(db: Database, id: int, b: EventBody, now: Stamp) returns (r: Reply<EventRow>)
    requires db.Valid()
    modifies db
    ensures db.Valid()
    ensures var check := UpdateCheck(old(db.events), id, b, DayOf(now));
      && (check.Some? ==> r == Failure(check.value.0, check.value.1) && db.events == old(db.events))
      && (check.None? ==>
            var k := EventIndex(old(db.events), id);
            var row := Patched(old(db.events)[k], b).(updatedAt := now);
            r == Success(200, "Event updated successfully", row) && db.events == old(db.events)[k := row])
    ensures db.users == old(db.users) && db.rsvps == old(db.rsvps)
    ensures db.nextUserId == old(db.nextUserId) && db.nextEventId == old(db.nextEventId)
    ensures db.nextRsvpId == old(db.nextRsvpId)
  {
    var k := EventIndex(db.events, id);
    if k < 0 {
      return Failure(404, EventNotFound);
    }
    if b.date.Some? && DateInPast(b.date.value, DayOf(now)) {
      return Failure(400, PastDateError);
    }
    if TimesOutOfOrder(b) {
      return Failure(400, TimeOrderError);
    }
    var sets, items, params, idParam := CollectPatch(b, id);
    if |items| == 0 {
      return Failure(400, NoFieldsError);
    }
    PatchInColumnOrder(b);
    PatchWritesSuppliedFields(db.events[k], b);
    var row := Update(db, id, sets, now);
    r := Success(200, "Event updated successfully", row.value.value);
  }

  /**
   * A body that supplies only an end time is checked against nothing: an
   * event from 10:00 to 11:00 given end_time 09:00 is updated to end before
   * it starts.
   */
  lemma SingleTimeUpdateBreaksOrder()
    ensures var e := EventRow(1, "Launch", None, 20000, 600, 660, "Hall", None, 0, 0);
            var b := EventBody(None, None, None, None, Some(540), None);
      && UpdateCheck([e], 1, b, 19000).None?
      && Patched(e, b).startTime >= Patched(e, b).endTime
  {
    var e := EventRow(1, "Launch", None, 20000, 600, 660, "Hall", None, 0, 0);
    assert [e][0].id == 1;
  }

  // ---------------------------------------------------------------------------
  // deleteEvent

  /**
   * deleteEvent: 404 for an unknown id; otherwise every RSVP of the event is
   * removed and then the event itself.
   */
  method DeleteEvent(db: Database, id: int) returns (r: Reply<()>)
    requires db.Valid()
    modifies db
    ensures db.Valid()
    ensures id !in EventIds(old(db.events)) ==>
      r == Failure(404, EventNotFound) && db.events == old(db.events) && db.rsvps == old(db.rsvps)
    ensures id in EventIds(old(db.events)) ==>
      && r == Reply(200, true, "Event deleted successfully", None)
      && db.rsvps == WithoutEventRsvps(old(db.rsvps), id)
      && db.events == WithoutEvent(old(db.events), id)
    ensures db.users == old(db.users)
    ensures db.nextUserId == old(db.nextUserId) && db.nextEventId == old(db.nextEventId)
    ensures db.nextRsvpId == old(db.nextRsvpId)
  {
    if EventIndex(db.events, id) < 0 {
      return Failure(404, EventNotFound);
    }
    RsvpsValidFilter(db.rsvps, db.nextRsvpId, db.users, db.events, (x: RsvpRow) => x.eventId != id);
    db.rsvps := WithoutEventRsvps(db.rsvps, id);
    assert !exists j :: 0 <= j < |db.rsvps| && References(db.rsvps[j], id);
    var d := Delete(db, id);
    r := Reply(200, true, "Event deleted successfully", None);
  }

  /** Deleting an event leaves the RSVPs of every other event exactly as they were. */
  lemma DeleteEventKeepsOtherRsvps(rsvps: seq<RsvpRow>, id: int, other: int)
    requires other != id
    ensures RsvpsOfEvent(WithoutEventRsvps(rsvps, id), other) == RsvpsOfEvent(rsvps, other)
    ensures RsvpsOfEvent(WithoutEventRsvps(rsvps, id), id) == []
  {
    FilterFilter(rsvps, (x: RsvpRow) => x.eventId != id, (x: RsvpRow) => x.eventId == other);
    var gone := RsvpsOfEvent(WithoutEventRsvps(rsvps, id), id);
    if gone != [] {
      FilterMembers(rsvps, (x: RsvpRow) => x.eventId != id, gone[0]);
    }
  }

  // ---------------------------------------------------------------------------
  // getRsvpSummary

  /** One attendee of the summary: `user_id, name, email, rsvp_date`. */
  datatype Attendee = Attendee(userId: int, name: string, email: string, rsvpDate: Stamp)

  /** A row of the detail query: `r.status` with the attendee columns. */
  datatype DetailRow = DetailRow(status: Status, attendee: Attendee)

  /** `ORDER BY CASE r.status WHEN 'going' THEN 1 WHEN 'maybe' THEN 2 WHEN 'decline' THEN 3 END, u.name`. */
  predicate StatusThenName(a: DetailRow, b: DetailRow) {
    StatusRank(a.status) < StatusRank(b.status)
    || (a.status == b.status && StringLe(a.attendee.name, b.attendee.name))
  }

  lemma StatusThenNameIsTotalPreorder()
    ensures TotalPreorder(StatusThenName)
  {
    forall a: DetailRow, b: DetailRow ensures StatusThenName(a, b) || StatusThenName(b, a) {
      StringLeTotal(a.attendee.name, b.attendee.name);
    }
    forall a: DetailRow, b: DetailRow, c: DetailRow | StatusThenName(a, b) && StatusThenName(b, c)
      ensures StatusThenName(a, c)
    {
      if a.status == b.status && b.status == c.status {
        StringLeTransitive(a.attendee.name, b.attendee.name, c.attendee.name);
      }
    }
  }

  function DetailOf(r: RsvpRow, users: seq<UserRow>): DetailRow
    requires r.userId in UserIds(users)
  {
    var u := users[UserIndex(users, r.userId)];
    DetailRow(r.status, Attendee(r.userId, u.name, u.email, r.createdAt))
  }

  /** The event's RSVPs whose user exists: the rows the inner join with users keeps. */
  function EventRows(rsvps: seq<RsvpRow>, users: seq<UserRow>, eventId: int): seq<RsvpRow> {
    Filter(rsvps, (r: RsvpRow) => RsvpModel.OfEventWithUser(r, eventId, users))
  }

  /** The detail columns of each joined row, in table order. */
  function DetailRows(rows: seq<RsvpRow>, users: seq<UserRow>): (d: seq<DetailRow>)
    requires forall k :: 0 <= k < |rows| ==> rows[k].userId in UserIds(users)
    ensures |d| == |rows| && forall k :: 0 <= k < |rows| ==> d[k] == DetailOf(rows[k], users)
  {
    seq(|rows|, i requires 0 <= i < |rows| => DetailOf(rows[i], users))
  }

  /**
   * The detail query: the event's RSVPs with their users, by status and then
   * name, each joined row exactly as often as it occurs.
   */
  function Details(rsvps: seq<RsvpRow>, users: seq<UserRow>, eventId: int): (d: seq<DetailRow>)
    ensures SortedBy(d, StatusThenName)
    ensures |d| == |EventRows(rsvps, users, eventId)|
    ensures multiset(d) == multiset(DetailRows(EventRows(rsvps, users, eventId), users))
  {
    var rows := EventRows(rsvps, users, eventId);
    StatusThenNameIsTotalPreorder();
    Sort(DetailRows(rows, users), StatusThenName)
  }

  /**
   * A person listed under status `s`: some RSVP of the event with that status
   * whose user exists, with that user's id, name and email and the RSVP's
   * creation time.
   */
  predicate Attends(a: Attendee, s: Status, rsvps: seq<RsvpRow>, users: seq<UserRow>, eventId: int) {
    exists x :: x in rsvps && RsvpModel.OfEventWithUser(x, eventId, users) && x.status == s &&
      DetailOf(x, users).attendee == a
  }

  /** An attendee is grouped under a status iff an RSVP of the event with that status lists them. */
  lemma AttendeesOfEvent(rsvps: seq<RsvpRow>, users: seq<UserRow>, eventId: int, s: Status, a: Attendee)
    ensures a in GroupOf(Details(rsvps, users, eventId), s) <==> Attends(a, s, rsvps, users, eventId)
  {
    var rows := EventRows(rsvps, users, eventId);
    var d := Details(rsvps, users, eventId);
    var dr := DetailRows(rows, users);
    if a in GroupOf(d, s) {
      assert DetailRow(s, a) in multiset(dr);
      var i :| 0 <= i < |dr| && dr[i] == DetailRow(s, a);
      FilterMembers(rsvps, (r: RsvpRow) => RsvpModel.OfEventWithUser(r, eventId, users), rows[i]);
    }
    if Attends(a, s, rsvps, users, eventId) {
      var x :| x in rsvps && RsvpModel.OfEventWithUser(x, eventId, users) && x.status == s &&
        DetailOf(x, users).attendee == a;
      FilterMembers(rsvps, (r: RsvpRow) => RsvpModel.OfEventWithUser(r, eventId, users), x);
      var i :| 0 <= i < |rows| && rows[i] == x;
      assert dr[i] == DetailRow(s, a);
      assert DetailRow(s, a) in multiset(d);
    }
  }

  /** The attendees of the rows with status `s`, in row order. */
  function GroupOf(rows: seq<DetailRow>, s: Status): (g: seq<Attendee>)
    ensures forall a :: a in g <==> DetailRow(s, a) in rows
    ensures |g| <= |rows|
    decreases |rows|
  {
    if rows == [] then []
    else
      var last := rows[|rows| - 1];
      GroupOf(rows[..|rows| - 1], s) + (if last.status == s then [last.attendee] else [])
  }

  /**
   * The `usersByStatus` loop: a status is a key exactly when some row has it,
   * and its list holds that status's attendees in row order.
   */
  method GroupByStatus(rows: seq<DetailRow>) returns (groups: map<Status, seq<Attendee>>)
    ensures forall s :: s in groups <==> GroupOf(rows, s) != []
    ensures forall s :: s in groups ==> groups[s] == GroupOf(rows, s)
  {
    groups := map[];
    var i := 0;
    while i < |rows|
      invariant 0 <= i <= |rows|
      invariant forall s :: s in groups <==> GroupOf(rows[..i], s) != []
      invariant forall s :: s in groups ==> groups[s] == GroupOf(rows[..i], s)
    {
      var row := rows[i];
      assert rows[..i + 1][..i] == rows[..i];
      if row.status !in groups {
        groups := groups[row.status := []];
      }
      groups := groups[row.status := groups[row.status] + [row.attendee]];
      i := i + 1;
    }
    assert rows[..|rows|] == rows;
  }

  predicate NameLe(a: Attendee, b: Attendee) {
    StringLe(a.name, b.name)
  }

  /** Rows sorted by status then name give every status's attendees sorted by name. */
  lemma {:induction false} GroupsSortedByName(rows: seq<DetailRow>, s: Status)
    requires SortedBy(rows, StatusThenName)
    ensures SortedBy(GroupOf(rows, s), NameLe)
    decreases |rows|
  {
    if rows != [] {
      var init := rows[..|rows| - 1];
      var last := rows[|rows| - 1];
      assert SortedBy(init, StatusThenName);
      GroupsSortedByName(init, s);
      var g := GroupOf(init, s);
      if last.status == s {
        forall k | 0 <= k < |g| ensures NameLe(g[k], last.attendee) {
          assert DetailRow(s, g[k]) in init;
          var j :| 0 <= j < |init| && init[j] == DetailRow(s, g[k]);
          assert StatusThenName(rows[j], rows[|rows| - 1]);
        }
        PairwiseAppend(g, last.attendee, NameLe);
      } else {
        assert g + [] == g;
      }
    }
  }

  /** The groups partition the rows: every row lands in exactly one of the three lists. */
  lemma {:induction false} GroupsPartitionRows(rows: seq<DetailRow>)
    ensures |GroupOf(rows, Going)| + |GroupOf(rows, Maybe)| + |GroupOf(rows, Decline)| == |rows|
    decreases |rows|
  {
    if rows != [] {
      GroupsPartitionRows(rows[..|rows| - 1]);
    }
  }

  datatype SummaryData = SummaryData(summary: seq<StatusCount>, users: map<Status, seq<Attendee>>)

  /**
   * getRsvpSummary: the per-status counts and, per status that occurs, its
   * attendees sorted by name. An unknown event id yields empty results with
   * success.
   */
  method GetRsvpSummary(rsvps: seq<RsvpRow>, users: seq<UserRow>, eventId: int) returns (r: Reply<SummaryData>)
    ensures r.code == 200 && r.success && r.data.Some?
    ensures r.data.value.summary == RsvpSummary(rsvps, eventId)
    ensures forall s :: s in r.data.value.users <==> GroupOf(Details(rsvps, users, eventId), s) != []
    ensures forall s :: s in r.data.value.users ==>
      && r.data.value.users[s] == GroupOf(Details(rsvps, users, eventId), s)
      && SortedBy(r.data.value.users[s], NameLe)
    ensures forall s, a :: s in r.data.value.users ==>
      (a in r.data.value.users[s] <==> Attends(a, s, rsvps, users, eventId))
    ensures forall s, a :: Attends(a, s, rsvps, users, eventId) ==> s in r.data.value.users
  {
    var details := Details(rsvps, users, eventId);
    var groups := GroupByStatus(details);
    forall s | s in groups ensures SortedBy(groups[s], NameLe) {
      GroupsSortedByName(details, s);
    }
    forall s, a ensures a in GroupOf(details, s) <==> Attends(a, s, rsvps, users, eventId) {
      AttendeesOfEvent(rsvps, users, eventId, s, a);
    }
    r := Success(200, "", SummaryData(RsvpSummary(rsvps, eventId), groups));
  }

  /** With the foreign key on rsvps.event_id, an unknown event has no RSVPs, so both parts are empty. */
  lemma UnknownEventSummaryEmpty(rsvps: seq<RsvpRow>, nextId: int, users: seq<UserRow>, events: seq<EventRow>, id: int, s: Status)
    requires RsvpsValid(rsvps, nextId, users, events)
    requires id !in EventIds(events)
    ensures RsvpSummary(rsvps, id) == []
    ensures GroupOf(Details(rsvps, users, id), s) == []
  {
  }
}
