/**
 * Shared vocabulary of the event planner backend: optional values, results,
 * calendar arithmetic, RSVP statuses, roles and the JSON reply envelope.
 */
module Basics {

  datatype Option<T> = None | Some(value: T)

  datatype Result<T, E> = Ok(value: T) | Err(error: E)

  /** A destructuring default: `const { x = d } = options`. */
  function OptionOr<T>(o: Option<T>, default: T): T {
    match o
    case Some(v) => v
    case None => default
  }

  /** A request body string is "truthy" in JavaScript when present and non-empty. */
  predicate Truthy(o: Option<string>) {
    o.Some? && o.value != ""
  }

  // ---------------------------------------------------------------------------
  // Calendar. A DATE column is a day number, a TIME column is a minute of the
  // day and a TIMESTAMP is a minute since the epoch of the same clock.

  const MinutesPerDay: int := 1440

  type Day = int
  type Minute = m: int | 0 <= m < MinutesPerDay
  type Stamp = int

  /** CURRENT_DATE at the instant `now`. */
  function DayOf(now: Stamp): Day {
    now / MinutesPerDay
  }

  /** CURRENT_TIME at the instant `now`. */
  function TimeOf(now: Stamp): Minute {
    now % MinutesPerDay
  }

  /** The instant at which the given day reaches the given time of day. */
  function At(date: Day, time: Minute): (t: Stamp)
    ensures DayOf(t) == date && TimeOf(t) == time
  {
    date * MinutesPerDay + time
  }

  /** Two instants compare like their (day, time of day) pairs, lexicographically. */
  lemma AtOrder(d1: Day, t1: Minute, d2: Day, t2: Minute)
    ensures At(d1, t1) < At(d2, t2) <==> d1 < d2 || (d1 == d2 && t1 < t2)
  {
    if d1 < d2 {
      assert d1 * MinutesPerDay + MinutesPerDay <= d2 * MinutesPerDay;
    } else if d2 < d1 {
      assert d2 * MinutesPerDay + MinutesPerDay <= d1 * MinutesPerDay;
    }
  }

  // ---------------------------------------------------------------------------
  // RSVP statuses: the CHECK constraint of the rsvps table admits exactly these.

  datatype Status = Going | Maybe | Decline

  function StatusName(s: Status): string {
    match s
    case Going => "going"
    case Maybe => "maybe"
    case Decline => "decline"
  }

  /** The value a status string takes in the rsvps table, or None when the CHECK rejects it. */
  function ParseStatus(name: string): (r: Option<Status>)
    ensures r.Some? <==> name == "going" || name == "maybe" || name == "decline"
    ensures r.Some? ==> StatusName(r.value) == name
  {
    if name == "going" then Some(Going)
    else if name == "maybe" then Some(Maybe)
    else if name == "decline" then Some(Decline)
    else None
  }

  /** The rank given by `CASE status WHEN 'going' THEN 1 WHEN 'maybe' THEN 2 WHEN 'decline' THEN 3`. */
  function StatusRank(s: Status): (k: nat)
    ensures 1 <= k <= 3
    ensures s == Going <==> k == 1
    ensures s == Decline <==> k == 3
  {
    match s
    case Going => 1
    case Maybe => 2
    case Decline => 3
  }

  const AllStatuses: seq<Status> := [Going, Maybe, Decline]

  // ---------------------------------------------------------------------------
  // Roles: the CHECK constraint of the users table admits "admin" and "user".

  const RoleUser: string := "user"
  const RoleAdmin: string := "admin"

  predicate ValidRole(role: string) {
    role == RoleAdmin || role == RoleUser
  }

  // ---------------------------------------------------------------------------
  // Reply envelope: the HTTP status, the `success` flag, the `error` or
  // `message` text and the `data` payload of a JSON response.

  datatype Reply<T> = Reply(code: nat, success: bool, message: string, data: Option<T>)

  function Failure<T>(code: nat, error: string): Reply<T> {
    Reply(code, false, error, None)
  }

  function Success<T>(code: nat, message: string, data: T): Reply<T> {
    Reply(code, true, message, Some(data))
  }
}
