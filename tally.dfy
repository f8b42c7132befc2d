/**
 * RSVP aggregation: the `GROUP BY status` counts (statuses without rows are
 * absent) and the `COUNT(CASE WHEN r.status = ... THEN 1 END)` columns
 * (statuses without rows count 0). Both shapes occur in the backend.
 */
module Tally {
  import opened Basics
  import opened Sorting
  import opened Store

  function RsvpsOfEvent(rsvps: seq<RsvpRow>, eventId: int): seq<RsvpRow> {
    Filter(rsvps, (r: RsvpRow) => r.eventId == eventId)
  }

  /** The number of rows carrying status `s`. */
  function CountStatus(rows: seq<RsvpRow>, s: Status): nat {
    if rows == [] then 0
    else (if rows[0].status == s then 1 else 0) + CountStatus(rows[1..], s)
  }

  /** Every row has exactly one of the three statuses. */
  lemma {:induction false} StatusCountsAddUp(rows: seq<RsvpRow>)
    ensures CountStatus(rows, Going) + CountStatus(rows, Maybe) + CountStatus(rows, Decline) == |rows|
  {
    if rows != [] {
      StatusCountsAddUp(rows[1..]);
    }
  }

  datatype StatusCount = StatusCount(status: Status, count: nat)

  function Group(rows: seq<RsvpRow>, s: Status): seq<StatusCount> {
    var n := CountStatus(rows, s);
    if n > 0 then [StatusCount(s, n)] else []
  }

  /**
   * `SELECT status, COUNT(*) ... GROUP BY status ORDER BY CASE status WHEN 'going'
   * THEN 1 WHEN 'maybe' THEN 2 WHEN 'decline' THEN 3 END`.
   */
  function GroupCounts(rows: seq<RsvpRow>): (r: seq<StatusCount>)
    ensures |r| <= 3
    ensures forall k :: 0 <= k < |r| ==> r[k].count > 0 && r[k].count == CountStatus(rows, r[k].status)
    ensures forall s: Status :: CountStatus(rows, s) > 0 <==> StatusCount(s, CountStatus(rows, s)) in r
    ensures forall i, j :: 0 <= i < j < |r| ==> StatusRank(r[i].status) < StatusRank(r[j].status)
  {
    Group(rows, Going) + Group(rows, Maybe) + Group(rows, Decline)
  }

  function SumCounts(groups: seq<StatusCount>): nat {
    if groups == [] then 0 else groups[0].count + SumCounts(groups[1..])
  }

  /** The groups partition the rows: their counts add up to the number of rows. */
  lemma GroupCountsCoverRows(rows: seq<RsvpRow>)
    ensures SumCounts(GroupCounts(rows)) == |rows|
  {
    StatusCountsAddUp(rows);
    var g, m, d := Group(rows, Going), Group(rows, Maybe), Group(rows, Decline);
    SumCountsAppend(g, m);
    SumCountsAppend(g + m, d);
  }

  lemma {:induction false} SumCountsAppend(a: seq<StatusCount>, b: seq<StatusCount>)
    ensures SumCounts(a + b) == SumCounts(a) + SumCounts(b)
  {
    if a == [] {
      assert a + b == b;
    } else {
      assert (a + b)[1..] == a[1..] + b;
      SumCountsAppend(a[1..], b);
    }
  }

  /** The per-event columns `total_rsvps`, `going_count`, `maybe_count`, `decline_count`. */
  datatype Counts = Counts(total: nat, going: nat, maybe: nat, decline: nat)

  /** LEFT JOIN rsvps + conditional COUNTs for one event: absent statuses count 0. */
  function EventCounts(rsvps: seq<RsvpRow>, eventId: int): (c: Counts)
    ensures c.total == |RsvpsOfEvent(rsvps, eventId)|
    ensures c.total == c.going + c.maybe + c.decline
  {
    var rows := RsvpsOfEvent(rsvps, eventId);
    StatusCountsAddUp(rows);
    Counts(|rows|, CountStatus(rows, Going), CountStatus(rows, Maybe), CountStatus(rows, Decline))
  }

  function CountOf(c: Counts, s: Status): nat {
    match s
    case Going => c.going
    case Maybe => c.maybe
    case Decline => c.decline
  }

  /**
   * The two aggregations agree: a status has a group in the summary exactly when
   * its zero-filled column is positive, and then the two numbers are equal.
   */
  lemma ZeroFilledMatchesGroups(rsvps: seq<RsvpRow>, eventId: int, s: Status)
    ensures var c := EventCounts(rsvps, eventId);
            var g := GroupCounts(RsvpsOfEvent(rsvps, eventId));
            (CountOf(c, s) > 0 <==> StatusCount(s, CountOf(c, s)) in g)
            && (CountOf(c, s) == 0 <==> forall k :: 0 <= k < |g| ==> g[k].status != s)
  {
  }
}
