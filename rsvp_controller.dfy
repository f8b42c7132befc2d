/**
 * The RSVP handlers (Backend/controllers/rsvpController.js): the caller's RSVP
 * listing, the create-or-update of the caller's RSVP to an event with its
 * event-existence and past-event checks, the lookup of one RSVP and its
 * deletion. The caller is the authenticated user, passed as `userId`.
 */
module RsvpController {
  import opened Basics
  import opened Sorting
  import opened Store
  import opened RsvpModel

  // ---------------------------------------------------------------------------
  // getUserRsvps

  /**
   * getUserRsvps: every RSVP of the caller whose event and organiser exist,
   * with the event's columns, the organiser's name and the past/upcoming flag,
   * latest event first.
   */
  function GetUserRsvps(rsvps: seq<RsvpRow>, events: seq<EventRow>, users: seq<UserRow>, userId: int, now: Stamp)
    : (r: Reply<seq<RsvpListing>>)
    ensures r.code == 200 && r.success && r.data.Some?
    ensures SortedBy(r.data.value, LaterFirst)
    ensures |r.data.value| == |OwnRows(rsvps, userId, events, users)|
    ensures forall l :: l in r.data.value ==> OwnListing(l, rsvps, userId, now)
    ensures forall x :: x in rsvps && OwnJoinable(x, userId, events, users) ==>
      ListingOf(x, events, users, now) in r.data.value
  {
    var ls := UserListings(rsvps, events, users, userId, now);
    Success(200, "", SortedListings(ls))
  }

  // ---------------------------------------------------------------------------
  // upsertRsvp: the past-event guard

  /** Intended: the event is over once its end time on its date lies before now. */
  function EventOver(e: EventRow, now: Stamp): (over: bool)
    ensures over <==> EventPhase(e.date, e.endTime, now) == Past
    ensures over <==> e.date < DayOf(now) || (e.date == DayOf(now) && e.endTime < TimeOf(now))
  {
    AtOrder(e.date, e.endTime, DayOf(now), TimeOf(now));
    At(e.date, e.endTime) < now
  }

  /** A JavaScript Date: an instant, or the Invalid Date that a failed parse yields. */
  datatype JsDate = Instant(t: Stamp) | InvalidDate

  /** `a < b` on Dates compares their numeric values; NaN compares false with everything. */
  predicate JsBefore(a: JsDate, now: Stamp) {
    a.Instant? && a.t < now
  }

  /**
   * As written, the guard parses `${event.date}T${event.end_time}`. The driver
   * returns a DATE column as a Date object, whose interpolation is its long
   * text form ("Wed May 01 2024 00:00:00 GMT..."), and that text followed by
   * "T10:00:00" is no date format, so the parse is the Invalid Date whatever
   * the event's values.
   */
  function InterpolatedEnd(e: EventRow): JsDate {
    InvalidDate
  }

  predicate PastGuardAsWritten(e: EventRow, now: Stamp) {
    JsBefore(InterpolatedEnd(e), now)
  }

  /** As written, the guard lets every RSVP through, including those to events that are over. */
  lemma PastGuardNeverFires(e: EventRow, now: Stamp)
    ensures !PastGuardAsWritten(e, now)
    ensures EventOver(e, now) ==> PastGuardAsWritten(e, now) != EventOver(e, now)
  {
  }

  /** An event of 2024-05-01 (day 19844) that ended at 11:00 still accepts an RSVP the next day. */
  lemma RsvpToEndedEventAccepted()
    ensures var e := EventRow(1, "Launch", None, 19844, 600, 660, "Hall", None, 0, 0);
      var now := At(19845, 540);
      EventOver(e, now) && !PastGuardAsWritten(e, now)
  {
    AtOrder(19844, 660, 19845, 540);
  }

  // ---------------------------------------------------------------------------
  // upsertRsvp

  const CreatedMessage: string := "RSVP created successfully"
  const UpdatedMessage: string := "RSVP updated successfully"

  /**
   * upsertRsvp: 404 for an unknown event, 400 for an event that is over; else
   * the pair's row is updated or inserted, and the reply says which. A
   * statement error (a status outside the CHECK) is 500.
   */
  method UpsertRsvp(db: Database, userId: int, eventId: int, status: string, now: Stamp)
    returns (r: Reply<RsvpRow>)
    requires db.Valid()
    modifies db
    ensures db.Valid()
    ensures eventId !in EventIds(old(db.events)) ==>
      r == Failure(404, "Event not found") && db.rsvps == old(db.rsvps)
    ensures eventId in EventIds(old(db.events)) && EventOver(old(db.events)[EventIndex(old(db.events), eventId)], now) ==>
      r == Failure(400, "Cannot RSVP to past events") && db.rsvps == old(db.rsvps)
    ensures eventId in EventIds(old(db.events)) && !EventOver(old(db.events)[EventIndex(old(db.events), eventId)], now) ==>
      var u := UpsertStatement(old(db.rsvps), old(db.nextRsvpId), old(db.users), old(db.events),
                               userId, eventId, status, now);
      && (u.Err? ==> r == Failure(500, "Internal server error while processing RSVP") && db.rsvps == old(db.rsvps))
      && (u.Ok? ==> (
            && db.rsvps == u.value.table
            && r == Success(200, if PairIndex(old(db.rsvps), userId, eventId) >= 0 then UpdatedMessage else CreatedMessage,
                            u.value.row)
            && IsPair(u.value.row, userId, eventId) && StatusName(u.value.row.status) == status))
    ensures db.users == old(db.users) && db.events == old(db.events)
    ensures db.nextRsvpId == if r.code == 200 then
      UpsertStatement(old(db.rsvps), old(db.nextRsvpId), old(db.users), old(db.events),
                      userId, eventId, status, now).value.nextId
      else old(db.nextRsvpId)
    ensures db.nextUserId == old(db.nextUserId) && db.nextEventId == old(db.nextEventId)
  {
    var k := EventIndex(db.events, eventId);
    if k < 0 {
      return Failure(404, "Event not found");
    }
    if EventOver(db.events[k], now) {
      return Failure(400, "Cannot RSVP to past events");
    }
    var existed := PairIndex(db.rsvps, userId, eventId) >= 0;
    var written := Upsert(db, userId, eventId, status, now);
    if written.Err? {
      r := Failure(500, "Internal server error while processing RSVP");
    } else {
      r := Success(200, if existed then UpdatedMessage else CreatedMessage, written.value);
    }
  }

  // ---------------------------------------------------------------------------
  // getEventRsvp

  /** `SELECT r.*, e.title, e.date, e.start_time ... JOIN events e`. */
  datatype EventRsvp = EventRsvp(rsvp: RsvpRow, title: string, date: Day, startTime: Minute)

  /**
   * getEventRsvp: the caller's RSVP to the event with the event's title, date
   * and start time; when there is none the reply is 404 yet still marked
   * successful, with a null RSVP.
   */
  function GetEventRsvp(rsvps: seq<RsvpRow>, events: seq<EventRow>, userId: int, eventId: int)
    : (r: Reply<EventRsvp>)
    ensures r.success
    ensures r.code == 404 <==> PairIndex(rsvps, userId, eventId) < 0 || eventId !in EventIds(events)
    ensures r.code == 404 ==> r.data.None?
    ensures r.code != 404 ==> (
      && r.code == 200 && r.data.Some?
      && r.data.value.rsvp in rsvps && IsPair(r.data.value.rsvp, userId, eventId)
      && exists j :: 0 <= j < |events| && events[j].id == eventId
           && r.data.value.title == events[j].title && r.data.value.date == events[j].date
           && r.data.value.startTime == events[j].startTime)
  {
    var k := PairIndex(rsvps, userId, eventId);
    var j := EventIndex(events, eventId);
    if k < 0 || j < 0 then Reply(404, true, "", None)
    else
      var e := events[j];
      Success(200, "", EventRsvp(rsvps[k], e.title, e.date, e.startTime))
  }

  // ---------------------------------------------------------------------------
  // deleteRsvp

  /** deleteRsvp: removes the caller's RSVP to the event, or 404 "RSVP not found" when there is none. */
  method DeleteRsvp(db: Database, userId: int, eventId: int) returns (r: Reply<()>)
    requires db.Valid()
    modifies db
    ensures db.Valid()
    ensures PairIndex(old(db.rsvps), userId, eventId) < 0 ==>
      r == Failure(404, "RSVP not found") && db.rsvps == old(db.rsvps)
    ensures PairIndex(old(db.rsvps), userId, eventId) >= 0 ==>
      var k := PairIndex(old(db.rsvps), userId, eventId);
      r == Reply(200, true, "RSVP deleted successfully", None)
      && db.rsvps == old(db.rsvps)[..k] + old(db.rsvps)[k + 1..]
    ensures db.users == old(db.users) && db.events == old(db.events)
    ensures db.nextUserId == old(db.nextUserId) && db.nextEventId == old(db.nextEventId)
    ensures db.nextRsvpId == old(db.nextRsvpId)
  {
    DeleteRemovesAtMostOne(db.rsvps, userId, eventId);
    var deleted := Delete(db, userId, eventId);
    if deleted.None? {
      r := Failure(404, "RSVP not found");
    } else {
      r := Reply(200, true, "RSVP deleted successfully", None);
    }
  }
}
