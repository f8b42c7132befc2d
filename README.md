# Event planner backend — a Dafny model

This project models the Express/PostgreSQL backend of the event planner. Users register and log in. Events are created, listed, updated and deleted. Users RSVP to events as going, maybe or decline, and an event's organiser sees the RSVP summary.

The model covers these parts of the backend:

- **Database.** The three tables `users`, `events` and `rsvps` are the sequence fields of one `Store.Database` object. It also holds the SERIAL counters. Its `Valid()` invariant is the tables' DDL (`Backend/config/initNeonDB.js`): unique ids and emails, the role and status CHECKs, UNIQUE(user_id, event_id), and the foreign keys.
- **Models.** Each model file (`User.js`, `Event.js`, `RSVP.js`) becomes a module. Each SQL statement is a function on the tables. That function returns the new table and the row that `RETURNING` yields, or the constraint the statement violates. A method on the database commits the statement's result.
- **Controllers and middleware.** Each controller or middleware handler becomes a function or method that returns the HTTP reply. The reply is modelled as status code, success flag, message and data.
- **Time.** Dates are day numbers, times of day are minutes (0..1439) and timestamps are minutes. The clock is the parameter `now`; `CURRENT_DATE` is `DayOf(now)` and `CURRENT_TIME` is `TimeOf(now)`.
- **Oracles.** bcrypt becomes the parameters `hash` and `compare`. jsonwebtoken becomes `sign` and `verify`.
- **Sorting.** An `ORDER BY` is a sort by a total preorder, whose result is sorted and a permutation of the rows. `LIMIT`/`OFFSET` is `Sorting.Paginate`.
- **Numbered placeholders.** The `$1..$n` SET lists that `User.update`, `Event.update` and `updateEvent` build are stated in `Placeholders`.

## Model

| member | source | states |
|---|---|---|
| Basics.At | Backend/models/RSVP.js:41-45 | a date and a time of day form one instant that gives the date and the time back |
| Basics.AtOrder | Backend/models/RSVP.js:41-45 | one instant is before another iff its date is earlier, or the dates are equal and its time is earlier, as the CASE compares them |
| Basics.ParseStatus | Backend/config/initNeonDB.js:51 | a status string is accepted iff it is one of going, maybe, decline, and it names the parsed status |
| Basics.StatusRank | Backend/models/Event.js:170-175 | the ORDER BY CASE gives going 1, maybe 2 and decline 3 |
| Sorting.Sort | Backend/models/Event.js:38 | an ORDER BY returns the rows sorted by the key and as a permutation of the input |
| Sorting.SortedHead | Backend/models/Event.js:38 | the first row of a sorted result is ordered before all its rows |
| Sorting.BelowPermutation | Backend/models/Event.js:38 | a row ordered before every row of a list and before one more row is ordered before every row of any permutation of them |
| Sorting.Insert | Backend/models/Event.js:38 | inserting one row into a sorted list keeps it sorted and adds exactly that row |
| Sorting.SortedMembers | Backend/models/Event.js:38 | every row of the sorted result is an input row |
| Sorting.StringLeTotal | Backend/controllers/eventController.js:318-323 | the name ordering compares every two names |
| Sorting.StringLeTransitive | Backend/controllers/eventController.js:318-323 | the name ordering is transitive |
| Sorting.StringLeAntisymmetric | Backend/controllers/eventController.js:318-323 | two names ordered both ways are equal |
| Sorting.Filter | Backend/models/RSVP.js:49 | a WHERE keeps only input rows that satisfy the condition and never adds rows |
| Sorting.FilterMembers | Backend/models/RSVP.js:49 | a row is in the WHERE result iff it is an input row satisfying the condition |
| Sorting.FilterAppend | Backend/models/RSVP.js:49 | filtering a concatenation is concatenating the filtered parts |
| Sorting.FilterUpdateDropped | Backend/models/RSVP.js:49 | replacing a row that fails the condition by another failing row does not change the result |
| Sorting.FilterAll | Backend/models/RSVP.js:49 | a condition every row meets keeps the table unchanged |
| Sorting.FilterPairwise | Backend/models/RSVP.js:49 | a pairwise property of the table holds for the filtered rows |
| Sorting.FilterDropsOne | Backend/models/RSVP.js:99 | when exactly one row fails the condition, the filter removes that row and keeps the rest in order |
| Sorting.FilterFilter | Backend/controllers/eventController.js:266-269 | filtering by a weaker condition and then a stronger one is filtering by the stronger one |
| Sorting.Paginate | Backend/models/Event.js:39-42 | LIMIT/OFFSET fails iff either is negative (naming which), and otherwise returns min(limit, rows after offset) rows, namely rows offset, offset+1, … |
| Sorting.WindowOfSorted | Backend/models/Event.js:38-42 | the LIMIT/OFFSET window of a sorted result is sorted, and each of its rows is a row of that result |
| Sorting.PageOffsetFacts | Backend/models/Event.js:14 | the offset of a positive page is non-negative, and each page starts limit rows after the previous one |
| Sorting.PairwiseAppend | Backend/config/initNeonDB.js:23-24 | appending a row that is distinct from all others keeps a table's uniqueness |
| Store.UserIndex | Backend/models/User.js:19-25 | the position of the user row with an id is -1 iff no row has that id, and otherwise it is a row with that id |
| Store.EventIndex | Backend/models/Event.js:50-72 | the position of the event row with an id is -1 iff no row has that id, and otherwise it is a row with that id |
| Store.PairIndex | Backend/models/RSVP.js:5-14 | the position of the (user, event) row is -1 iff no row has that pair, and otherwise it is a row of that pair |
| Store.UniquePair | Backend/config/initNeonDB.js:54 | with UNIQUE(user_id, event_id), any row of the pair is the one found |
| Store.RsvpsValidUpdate | Backend/models/RSVP.js:72-78 | overwriting a row in place with the same id and pair keeps every constraint of the rsvps table |
| Store.RsvpsValidAppend | Backend/models/RSVP.js:81-86 | inserting a fresh-id row of a new pair whose user and event exist keeps the rsvps constraints |
| Store.EventsValidAppend | Backend/models/Event.js:83-88 | inserting a fresh-id event whose creator exists keeps the events constraints and adds its id |
| Store.EventsValidUpdate | Backend/models/Event.js:111-117 | overwriting an event with the same id and creator keeps the constraints and the id set |
| Store.WithoutEventIds | Backend/models/Event.js:128-131 | deleting by id removes exactly that id from the id set |
| Store.EventsValidRemove | Backend/models/Event.js:126-133 | deleting an event that no RSVP references keeps the events and rsvps constraints |
| Store.UsersValidAppend | Backend/models/User.js:32-44 | inserting a fresh-id user with a new email and an allowed role keeps the users constraints and adds its id |
| Store.UsersValidUpdate | Backend/models/User.js:53-73 | overwriting a user with the same id, an allowed role and an email no other row has keeps the constraints |
| Store.WithoutUserIds | Backend/models/User.js:103-109 | deleting by id removes exactly that id from the id set |
| Store.UsersValidRemove | Backend/models/User.js:103-109 | deleting a user that no event or RSVP references keeps all three tables' constraints |
| Store.RsvpsValidFilter | Backend/models/RSVP.js:96-105 | deleting any subset of RSVP rows keeps the rsvps constraints |
| Store.Database.Valid | Backend/config/initNeonDB.js:20-56 | the DDL: unique ids and emails, the role and status CHECKs, UNIQUE(user_id, event_id) and the foreign keys |
| Store.Database.constructor | Backend/config/initNeonDB.js:20-56 | the freshly created tables are empty and satisfy their constraints |
| Tally.StatusCountsAddUp | Backend/config/initNeonDB.js:51 | every RSVP has exactly one of the three statuses, so the three counts add up to the rows |
| Tally.GroupCounts | Backend/models/Event.js:163-176 | GROUP BY status gives at most three groups, each with a positive and correct count; a status appears iff it has rows; the groups are in going, maybe, decline order |
| Tally.GroupCountsCoverRows | Backend/models/Event.js:163-176 | the group counts add up to the number of rows |
| Tally.SumCountsAppend | Backend/models/Event.js:163-176 | the counts of two lists of groups add up |
| Tally.EventCounts | Backend/models/Event.js:55-59 | total_rsvps is the number of the event's RSVPs and equals going + maybe + decline |
| Tally.ZeroFilledMatchesGroups | Backend/models/Event.js:23-28 | a status has a group in the summary iff its zero-filled column is positive, and then both numbers are equal |
| Placeholders.NumberSet | Backend/models/Event.js:99-109 | the loop with the running counter numbers the columns $1..$n with their values in order and puts the id at $(n+1) |
| Placeholders.Bind | Backend/models/Event.js:111-117 | resolving the placeholders gives one (column, value) per SET item |
| Placeholders.BindNumbered | Backend/models/Event.js:111-117 | a correctly numbered statement assigns each column its own value and its WHERE names the id |
| RsvpModel.FindByUserAndEvent | Backend/models/RSVP.js:5-14 | null iff the pair has no row or its event is missing; otherwise a row of that pair from the table, joined with the title, date, start time and location of the event with that id |
| RsvpModel.EventPhase | Backend/controllers/rsvpController.js:19-23 | the CASE gives 'past' iff the event's date and end time lie before now |
| RsvpModel.UserListings | Backend/controllers/rsvpController.js:8-30 | one listing per RSVP of the user that survives both joins, in table order; each is the user's own RSVP with its event's columns and organiser, flagged past iff its event has ended; every such RSVP's listing is present |
| RsvpModel.LaterFirstIsTotalPreorder | Backend/models/RSVP.js:50 | ORDER BY e.date DESC, e.start_time DESC is a total preorder |
| RsvpModel.FindByUserAsWritten | Backend/models/RSVP.js:21-59 | the statement as written: a syntax error whatever the arguments |
| RsvpModel.SortedListings | Backend/models/RSVP.js:50 | the listing is sorted latest first and is a permutation of the rows, with the same members and size |
| RsvpModel.SelectedSound | Backend/models/RSVP.js:21-49 | every listing the WHERE keeps is one of the user's, with its event's columns, and is dated today or later when upcomingOnly is set |
| RsvpModel.SelectedComplete | Backend/models/RSVP.js:21-49 | every RSVP of the user that survives the joins, and whose event is dated today or later when upcomingOnly is set, is kept |
| RsvpModel.UserListed | Backend/models/RSVP.js:21-50 | the full result before LIMIT/OFFSET is a latest-first permutation of the kept listings, each one of the user's, with every wanted RSVP present |
| RsvpModel.FindByUserAsWrittenAlwaysFails | Backend/models/RSVP.js:41-45 | the query as written fails with a syntax error for every input |
| RsvpModel.FindByUser | Backend/models/RSVP.js:21-59 | defaults are page 1, limit 10 and upcomingOnly false; fails iff the limit or offset is negative; otherwise the page is exactly the rows offset, offset+1, … (at most limit of them) of the full latest-first listing, each the user's own RSVP with its event's columns, organiser and past flag, dated today or later when upcomingOnly is set |
| RsvpModel.UpsertStatement | Backend/models/RSVP.js:62-93 | a status outside the CHECK fails; an existing pair is always updated; a new pair is inserted unless a foreign key fails; the row carries the pair, the status and the new updated_at |
| RsvpModel.UpsertLeavesOneRow | Backend/models/RSVP.js:62-93 | after an upsert the pair has exactly one row with the submitted status, and an existing row keeps its id and created_at |
| RsvpModel.UpsertLeavesOtherPairs | Backend/models/RSVP.js:62-93 | the rows of every other pair are unchanged |
| RsvpModel.UpsertKeepsTableValid | Backend/models/RSVP.js:62-93 | an upsert keeps every constraint of the rsvps table |
| RsvpModel.LastStatusWins | Backend/models/RSVP.js:62-93 | after several upserts for one pair there is exactly one row, with the last status |
| RsvpModel.DeleteStatement | Backend/models/RSVP.js:96-105 | the returned row is null iff the pair had none; otherwise it is that pair's row; no remaining row has the pair |
| RsvpModel.DeleteRemovesAtMostOne | Backend/models/RSVP.js:96-105 | with UNIQUE(user_id, event_id) the delete removes just that one row and keeps the others in order |
| RsvpModel.DeleteKeepsTableValid | Backend/models/RSVP.js:96-105 | the delete keeps every constraint of the rsvps table |
| RsvpModel.Upsert | Backend/models/RSVP.js:62-93 | the table becomes the statement's result and the reply is its row or error; other tables are unchanged |
| RsvpModel.Delete | Backend/models/RSVP.js:96-105 | the table becomes the statement's result and the reply is the deleted row |
| RsvpModel.Joined | Backend/models/RSVP.js:111-120 | one joined row per RSVP of the event whose user exists |
| RsvpModel.JoinedSound | Backend/models/RSVP.js:111-120 | every joined row is an RSVP of the event with its own user's name and email |
| RsvpModel.JoinedComplete | Backend/models/RSVP.js:111-120 | every RSVP of the event whose user exists is joined |
| RsvpModel.EventListed | Backend/models/RSVP.js:111-121 | the full result before LIMIT/OFFSET: every such RSVP once, joined with its user, newest first |
| RsvpModel.FindByEvent | Backend/models/RSVP.js:109-127 | defaults are page 1 and limit 50; fails iff the limit or offset is negative; otherwise the page is exactly the rows offset, offset+1, … (at most limit of them) of the full newest-first listing, each an RSVP of the event joined with its user's name and email |
| RsvpModel.GetUserStats | Backend/models/RSVP.js:134-147 | per status, the positive number of the user's RSVPs for events dated today or later; statuses without such RSVPs are absent |
| EventModel.CreatorName | Backend/models/Event.js:34 | the LEFT JOIN gives the creator's name iff the creator exists, and otherwise null |
| EventModel.EarlierFirstIsTotalPreorder | Backend/models/Event.js:38 | ORDER BY e.date, e.start_time is a total preorder |
| EventModel.Listed | Backend/models/Event.js:16-38 | every qualifying event appears exactly once with its creator and counts, sorted by date and start time |
| EventModel.FindAll | Backend/models/Event.js:5-47 | defaults are page 1, limit 10, upcomingOnly true and counts off; fails iff the limit or offset is negative; otherwise the page is exactly the rows offset, offset+1, … (at most limit of them) of the full ordered listing, each a qualifying event with its creator and counts |
| EventModel.FindById | Backend/models/Event.js:50-76 | null iff no event has the id; otherwise that event with its creator name and counts |
| EventModel.InsertEvent | Backend/models/Event.js:79-94 | the insert fails iff a required column is null (NOT NULL) or the creator does not exist (foreign key); otherwise it appends a fresh-id row with the given fields |
| EventModel.Create | Backend/models/Event.js:79-94 | the events table becomes the insert's result; the other tables are unchanged |
| EventModel.RsvpsKeepEvents | Backend/config/initNeonDB.js:50 | growing the events table keeps every RSVP's event reference valid |
| EventModel.Get | Backend/models/Event.js:103-107 | reading a column gives an assignment to that column |
| EventModel.Assigned | Backend/models/Event.js:103-107 | the last assignment to a column is one of the updates and names that column; it is absent iff no update names the column |
| EventModel.ApplyAllColumns | Backend/models/Event.js:111-117 | a SET list changes exactly the columns it names, each to its last value; id, creator and timestamps are kept |
| EventModel.ApplyAllAppend | Backend/models/Event.js:111-117 | applying two SET lists in turn is applying their concatenation |
| EventModel.UpdateEventRow | Backend/models/Event.js:97-123 | an empty or repeated SET list is a syntax error; an unknown id updates nothing; otherwise exactly that row gets the assignments and the new updated_at |
| EventModel.UpdateKeepsEventsValid | Backend/models/Event.js:97-123 | a successful update keeps the events constraints and the id set |
| EventModel.Update | Backend/models/Event.js:97-123 | the events table becomes the statement's result; the other tables are unchanged |
| EventModel.DeleteEventRow | Backend/models/Event.js:126-136 | the delete fails with a foreign-key error iff the event exists and an RSVP references it; otherwise it removes the rows with that id and returns the deleted row iff one existed |
| EventModel.DeleteRemovesOnlyThatEvent | Backend/models/Event.js:126-136 | with distinct ids the delete removes just that row and keeps the others in order |
| EventModel.Delete | Backend/models/Event.js:126-136 | the events table becomes the statement's result; the other tables are unchanged |
| EventModel.DeleteBlockedByRsvps | Backend/models/Event.js:126-136 | deleting an event that has an RSVP always fails with a foreign-key error |
| EventModel.CreatorRows | Backend/models/Event.js:141-150 | one listing per event of the user, in table order |
| EventModel.CreatorRowsSound | Backend/models/Event.js:141-150 | every such listing is one of the user's events with its creator's name |
| EventModel.CreatorRowsComplete | Backend/models/Event.js:141-150 | every event of the user is listed |
| EventModel.CreatorListed | Backend/models/Event.js:141-151 | the full result before LIMIT/OFFSET: each of the user's events once, with its creator's name, newest first |
| EventModel.FindByCreator | Backend/models/Event.js:139-158 | defaults are page 1 and limit 10; fails iff the limit or offset is negative; otherwise the page is exactly the rows offset, offset+1, … (at most limit of them) of the full newest-first listing of the user's events |
| EventModel.RsvpSummary | Backend/models/Event.js:161-182 | one (status, count) per status the event's RSVPs use, each count positive and correct, in going, maybe, decline order, the counts summing to the event's RSVPs |
| UserModel.EmailIndex | Backend/models/User.js:6-12 | -1 iff no row has the email; otherwise a row with that email |
| UserModel.FindByEmail | Backend/models/User.js:6-12 | null iff no row has the email; otherwise that whole row |
| UserModel.FindByEmailUnique | Backend/config/initNeonDB.js:24 | with UNIQUE(email), the row found is the only row with that email |
| UserModel.FindById | Backend/models/User.js:19-25 | null iff no row has the id; otherwise the public columns of that row |
| UserModel.InsertUser | Backend/models/User.js:32-44 | the insert fails iff email or name is null, the role is outside the CHECK or the email is taken, naming the constraint; otherwise it appends a fresh-id row with those fields |
| UserModel.RoleOrDefault | Backend/config/initNeonDB.js:27 | a missing role defaults to "user" |
| UserModel.Create | Backend/models/User.js:32-44 | a missing password is refused by the hash; otherwise the users table becomes the insert's result with the hashed password, and the counter advances iff a row was added |
| UserModel.Get | Backend/models/User.js:58-62 | reading a column gives an assignment to that column |
| UserModel.Assigned | Backend/models/User.js:58-62 | the last assignment to a column, absent iff no update names it |
| UserModel.ApplyAllColumns | Backend/models/User.js:64-68 | a SET list changes exactly the columns it names; id and timestamps are kept |
| UserModel.UpdateUser | Backend/models/User.js:53-73 | an empty or repeated SET list is a syntax error; an unknown id updates nothing; otherwise the role CHECK and then UNIQUE(email) decide, and the row gets the assignments |
| UserModel.Update | Backend/models/User.js:53-73 | the users table becomes the statement's result; the other tables are unchanged |
| UserModel.UpdateKeepsUsersValid | Backend/models/User.js:53-73 | a successful update keeps the users constraints and the id set |
| UserModel.PublicRows | Backend/models/User.js:87-95 | the public columns of every user, one per row in table order |
| UserModel.UsersListed | Backend/models/User.js:87-95 | the full result before LIMIT/OFFSET: every user's public columns once, newest first |
| UserModel.FindAll | Backend/models/User.js:87-95 | defaults are limit 50 and offset 0; fails iff either is negative; otherwise the page is exactly the rows offset, offset+1, … (at most limit of them) of the full newest-first list of users' public columns |
| UserModel.DeleteUser | Backend/models/User.js:103-109 | fails with a foreign-key error iff the user exists and is referenced; otherwise it removes the user and returns its id iff it existed |
| UserModel.Delete | Backend/models/User.js:103-109 | the users table becomes the statement's result; the other tables are unchanged |
| EventController.GetAllEvents | Backend/controllers/eventController.js:7-28 | every event dated today or later, each once (as many rows as qualifying events), with its creator and zero-filled counts, sorted by date and start time, and no other rows |
| EventController.GetEventById | Backend/controllers/eventController.js:44-64 | 404 "Event not found" iff the id is unknown; otherwise that event with its counts |
| EventController.DateInPast | Backend/controllers/eventController.js:89-93 | the intended date check: the event's day is before today's |
| EventController.DateInPastAsWritten | Backend/controllers/eventController.js:89-93 | the check as written: UTC midnight of the date compared with local midnight of today |
| EventController.AsWrittenRejectsTodayWestOfUtc | Backend/controllers/eventController.js:89-93 | west of UTC the check as written rejects exactly the dates up to and including today |
| EventController.AsWrittenAgreesEastOfUtc | Backend/controllers/eventController.js:89-93 | at or east of UTC the check as written rejects exactly the dates before today |
| EventController.TodayRejectedAtUtcMinusFive | Backend/controllers/eventController.js:89-93 | at UTC-5, today's date is rejected as in the past |
| EventController.CreateCheck | Backend/controllers/eventController.js:88-106 | a past date gives the date error; otherwise a start time not before the end time gives the time error; otherwise the body passes |
| EventController.CreateEvent | Backend/controllers/eventController.js:83-130 | 400 with the message of the corrected check (`CreateCheck`, see Findings), or 500 when the insert fails, or 201 with the inserted row; the events table changes only on 201, and the event id counter advances by one exactly on 201 while the user and RSVP counters stay |
| EventController.ExtendInOrder | Backend/controllers/eventController.js:173-211 | appending a part of a higher column rank keeps the SET list in column order |
| EventController.PatchInColumnOrder | Backend/controllers/eventController.js:173-211 | the SET list is in title, description, date, start, end, location order and names no column twice |
| EventController.ApplyThenPart | Backend/controllers/eventController.js:173-211 | applying a list plus a one-field part is applying that one field last |
| EventController.PatchWritesSuppliedFields | Backend/controllers/eventController.js:173-211 | applying the SET list writes exactly the fields the body supplies |
| EventController.UpdateCheck | Backend/controllers/eventController.js:139-218 | 404 iff the event is unknown; then the corrected date error (`DateInPast`, see Findings), then the time error; "No fields to update" iff the event exists, both checks pass and no field is given; the body passes iff the event exists, both checks pass and some field is given |
| EventController.Push | Backend/controllers/eventController.js:176-180 | pushing one field appends its assignment and keeps the numbering of the collected SET list |
| EventController.PushPart | Backend/controllers/eventController.js:177-210 | a conditional push appends the field's assignment exactly when the field is supplied and keeps the numbering |
| EventController.CollectPatch | Backend/controllers/eventController.js:173-211 | the collected SET list is the body's patch, numbered $1..$n with the id at $(n+1) |
| EventController.Columns | Backend/controllers/eventController.js:173-211 | the columns of a SET list, one per assignment in order |
| EventController.CollectedNumbered | Backend/controllers/eventController.js:211-221 | pushing the id last completes a correctly numbered statement |
| EventController.UpdateEvent | Backend/controllers/eventController.js:133-235 | the reply of `UpdateCheck`, which uses the corrected date check, or 200 with the event row patched by exactly the supplied fields and a new updated_at; the table changes only on 200; no id counter changes |
| EventController.SingleTimeUpdateBreaksOrder | Backend/controllers/eventController.js:165-171 | an update that sends only an end time before the stored start passes the checks and stores an end before the start |
| EventController.DeleteEvent | Backend/controllers/eventController.js:252-274 | 404 for an unknown event; otherwise the event's RSVPs are deleted first and then the event; no id counter changes |
| EventController.DeleteEventKeepsOtherRsvps | Backend/controllers/eventController.js:266 | deleting one event's RSVPs leaves every other event's RSVPs as they were and none for that event |
| EventController.StatusThenNameIsTotalPreorder | Backend/controllers/eventController.js:318-323 | ORDER BY r.status, u.name is a total preorder |
| EventController.DetailRows | Backend/controllers/eventController.js:308-317 | one detail row per joined RSVP, with its user's columns |
| EventController.Details | Backend/controllers/eventController.js:308-324 | the detail rows are sorted by status then name and are, as a multiset, exactly the event's RSVPs whose user exists, each with that user's id, name and email and the RSVP's status and date |
| EventController.GroupOf | Backend/controllers/eventController.js:326-336 | an attendee is grouped under a status iff a detail row with that status lists them |
| EventController.AttendeesOfEvent | Backend/controllers/eventController.js:308-336 | an attendee is grouped under a status iff an RSVP of the event with that status, whose user exists, lists that user |
| EventController.GroupByStatus | Backend/controllers/eventController.js:326-336 | the loop gives a key for a status iff it has attendees, and the key's value is exactly those attendees in row order |
| EventController.GroupsSortedByName | Backend/controllers/eventController.js:318-336 | each group is sorted by name |
| EventController.GroupsPartitionRows | Backend/controllers/eventController.js:326-336 | the three groups partition the detail rows |
| EventController.GetRsvpSummary | Backend/controllers/eventController.js:287-344 | 200 with the model's summary, and a map with a key iff that status has attendees; under each key exactly the people with an RSVP of that status to the event, sorted by name |
| EventController.UnknownEventSummaryEmpty | Backend/controllers/eventController.js:287-344 | an unknown event has an empty summary and no attendees, still answered with 200 |
| RsvpController.GetUserRsvps | Backend/controllers/rsvpController.js:5-36 | 200 with one listing per RSVP of the caller that survives the joins, latest first; each listing is the caller's own, flagged 'past' iff the event has ended; every such RSVP's listing is included |
| RsvpController.EventOver | Backend/controllers/rsvpController.js:69-77 | the event is over iff its date and end time lie before now |
| RsvpController.InterpolatedEnd | Backend/controllers/rsvpController.js:70 | the parse as written of the interpolated date and end time is the Invalid Date |
| RsvpController.PastGuardAsWritten | Backend/controllers/rsvpController.js:70-77 | the guard as written: the Invalid Date compared with now |
| RsvpController.PastGuardNeverFires | Backend/controllers/rsvpController.js:70-77 | the guard as written never refuses, even for an event that is over |
| RsvpController.RsvpToEndedEventAccepted | Backend/controllers/rsvpController.js:70-77 | an event that ended yesterday is over, but the guard as written lets the RSVP through |
| RsvpController.UpsertRsvp | Backend/controllers/rsvpController.js:50-119 | 404 for an unknown event; 400 for an event that is over, by the corrected guard (`EventOver`, see Findings); 500 on a statement error; otherwise 200 "RSVP updated…" iff the pair had a row, else "RSVP created…", and the pair then carries the status; the RSVP id counter follows the statement on 200 and stays otherwise, the other counters stay |
| RsvpController.GetEventRsvp | Backend/controllers/rsvpController.js:123-149 | 404 (still marked successful) iff the caller has no RSVP to the event or the event is missing; otherwise the caller's RSVP with the event's title, date and start time |
| RsvpController.DeleteRsvp | Backend/controllers/rsvpController.js:161-181 | 404 "RSVP not found" iff the pair has no row; otherwise 200 and exactly that row is removed; no id counter changes |
| AuthController.Register | Backend/controllers/authController.js:5-57 | 400 when the email is taken; 500 when the password is missing or the insert fails; otherwise 201 with the new account and a token for it; the users counter advances exactly on 201 and the other counters never |
| AuthController.RegisterNeverHitsUniqueEmail | Backend/controllers/authController.js:10-24 | once the duplicate check passes, the insert cannot fail on UNIQUE(email) |
| AuthController.RegisterAccepted | Backend/controllers/authController.js:19-24 | with email and name given and an allowed or absent role, the account is created with the hashed password and the role defaulting to "user" |
| AuthController.Login | Backend/controllers/authController.js:60-112 | 200 with the account and a token iff the email is known and the password matches its hash; a missing password for a known email is 500; otherwise 401 "Invalid email or password" |
| AuthController.LoginDoesNotRevealAccounts | Backend/controllers/authController.js:65-79 | an unknown email and a wrong password get the same 401 |
| AuthController.LoginAcceptsStoredCredentials | Backend/controllers/authController.js:60-91 | a stored account logs in with the password whose hash it stores, and the token names that account |
| AuthController.GetProfile | Backend/controllers/authController.js:116-132 | 404 "User not found" iff the caller's id is unknown; otherwise the caller's public columns |
| AuthController.ProfilePatch | Backend/controllers/authController.js:158-167 | the update object is empty iff neither name nor email is given, and names no column twice |
| AuthController.EmailTakenByAnotherUser | Backend/controllers/authController.js:148-156 | with UNIQUE(email), the email counts as taken iff another user's row holds it |
| AuthController.UpdateProfile | Backend/controllers/authController.js:143-177 | 400 when another user holds the email; 400 when no field is given; 500 when the update fails; otherwise 200 and the users table is updated; no id counter changes |
| AuthController.ProfilePatchApplied | Backend/controllers/authController.js:158-169 | applying the profile update writes the given name and email and leaves every other column alone |
| AuthController.ProfileEmailFree | Backend/controllers/authController.js:148-156 | once the taken-email check passes, no other row holds the email the caller will have |
| AuthController.ProfileUpdateAccepted | Backend/controllers/authController.js:143-177 | for a stored caller whose new email nobody else holds, the update succeeds and replaces exactly the caller's row with the given name and email and the new updated_at |
| Text.Split | Backend/middleware/auth.js:6 | splitting gives at least one piece and no piece contains the separator |
| Text.JoinSplit | Backend/middleware/auth.js:6 | joining the pieces with the separator gives back the string |
| Text.SplitAfterPiece | Backend/middleware/auth.js:6 | a piece without the separator stays whole at the front of a split |
| Text.SplitJoin | Backend/middleware/auth.js:6 | splitting pieces joined by a separator none contains gives the pieces back |
| AuthMiddleware.Request.constructor | Backend/middleware/auth.js:31-37 | a new request carries no user |
| AuthMiddleware.TokenOf | Backend/middleware/auth.js:5-6 | a token is taken iff the header is present and its second space-separated piece exists and is non-empty, and it is that piece; further pieces are ignored |
| AuthMiddleware.TokenAfterAnyScheme | Backend/middleware/auth.js:5-6 | a header "scheme token" yields the token, whatever the scheme |
| AuthMiddleware.Authenticate | Backend/middleware/auth.js:4-56 | 401 without a token; 401 for an expired or invalid token; 500 for any other verification failure; 401 when the token's user no longer exists; otherwise the token's claims |
| AuthMiddleware.AuthenticatedUserExists | Backend/middleware/auth.js:4-56 | a passed request names an existing user; every refusal is 401, except the 500 for another verification failure |
| AuthMiddleware.RoleComesFromToken | Backend/middleware/auth.js:31-37 | the role attached is the token's, even when the stored role differs |
| AuthMiddleware.AuthenticateToken | Backend/middleware/auth.js:4-56 | passes the request on with the user attached, or answers with the refusal and leaves the request alone |
| AuthMiddleware.AuthorizeRoles | Backend/middleware/auth.js:58-67 | passes iff the user's role is listed; otherwise 403 naming the listed roles |
| AuthMiddleware.AdminOnlyRefusesUsers | Backend/middleware/auth.js:58-67 | an admin-only route refuses an ordinary user with 403 |
| AuthMiddleware.OptionalAuth | Backend/middleware/auth.js:70-95 | always passes the request on, and attaches the user iff authentication would succeed |
| ErrorHandler.DatabaseReply | Backend/middleware/errorHandler.js:5-33 | 409 iff the code is a unique violation; 400 iff a foreign-key, not-null or text-format violation; 500 otherwise; each with its own message |
| ErrorHandler.HandleError | Backend/middleware/errorHandler.js:1-57 | a database code decides first; then "Invalid token" and "Token expired", both 401, for the two token error names; otherwise the error's status or 500, with its message hidden in production |
| ErrorHandler.DatabaseErrorsByCondition | Backend/middleware/errorHandler.js:5-33 | each database error condition maps to its status, whatever the error's name, status and message |
| ErrorHandler.ProductionHidesMessages | Backend/middleware/errorHandler.js:50-56 | in production the reply's message is always one of the fixed texts |
| ErrorHandler.NotFound | Backend/middleware/errorHandler.js:59-64 | 404 "Route <url> not found", from which the url can be read back |

## Left out

- Password hashing and checking (bcrypt), token signing and verification (jsonwebtoken, its secret and its expiry setting) are parameters. `User.verifyPassword` is the `compare` parameter.
- The database connection, the pool and the Express routing are not modelled. Each handler is called with its already-parsed parameters.
- Concurrency: each handler runs atomically. Two requests that interleave between a check and a write (register's duplicate check, the upsert's existence check) are not modelled.
- Times are whole minutes of a day. The `HH:MM` and `HH:MM:SS` text forms, and seconds, are not modelled. Dates are day numbers, and malformed date or time strings are not modelled.
- A NULL status, user_id or role, which the DDL allows, is not modelled. Every RSVP row holds a status and both ids.
- JSON `null` and an absent body field are both `None`.
- Text ordering is by code points. PostgreSQL's collation is not modelled.
- SERIAL values lost to failed inserts are not modelled. The counter advances only on a successful insert.
- A non-numeric id parameter (22P02) and query failures other than constraint violations are not modelled. Each would be a 500 from the handler's catch.
- The order of rows from a `GROUP BY` without `ORDER BY` (RSVP.getUserStats) is not modelled. The model returns them in status order.
- `updateEvent` and `createEvent` compare dates against the server clock's day, which is taken to be the database's `CURRENT_DATE`.
- Unknown keys in an update object are not modelled. The controllers only send known columns.
- The response envelope is modelled as code, success flag, message and data. The exact JSON field names (`message`, `error`, `data`) are not.
- UpdateEvent: the 500 of the handler's catch block (eventController.js:236-243) is not modelled. Within the model the UPDATE of a stored event cannot violate a constraint (`EventModel.UpdateKeepsEventsValid`). In PostgreSQL a title over 255 characters or a location over 500 characters fails with a value-too-long error (SQLSTATE 22001) and reaches that catch; the model has no length limits (next line), and connection failures are left out.
- Column length limits are not modelled: users.email and users.name are VARCHAR(255) (Backend/config/initNeonDB.js:24,26), events.title is VARCHAR(255) and events.location VARCHAR(500) (initNeonDB.js:35,40). So `EventModel.InsertEvent`, `EventModel.UpdateEventRow`, `UserModel.InsertUser` and `UserModel.UpdateUser` never fail with 22001, and `AuthController.RegisterAccepted` and `AuthController.ProfileUpdateAccepted` hold only for values within those limits.
- AuthController.RegisterAccepted: states success for any name and email; PostgreSQL rejects either when longer than 255 characters, which the model does not check.
- AuthController.ProfileUpdateAccepted: states success for any name and email; the same 255-character limits are not checked.
- RsvpModel.GetUserStats: the rows are in status order rather than the database's unspecified GROUP BY order.

## Findings

| source | as written | input that shows it | evidently intended | confidence | as-written member | corrected member |
|---|---|---|---|---|---|---|
| Backend/controllers/eventController.js:89-93 | `new Date(date)` is UTC midnight of the date, compared with local midnight of today; updateEvent repeats the comparison at eventController.js:153-157 | server at UTC-5, date 2024-05-01, now 2024-05-01 10:00 local: today's date is rejected as in the past | reject only dates before today | not executed | EventController.TodayRejectedAtUtcMinusFive | EventController.CreateCheck, EventController.UpdateCheck |
| Backend/controllers/rsvpController.js:71 | the guard parses `${event.date}T${event.end_time}`, but the DATE column arrives as a Date object, so the parse is an Invalid Date and `<` is always false | event on 2024-05-01 ending 11:00, RSVP on 2024-05-02 09:00: accepted | refuse RSVPs once the event's end lies before now | not executed | RsvpController.RsvpToEndedEventAccepted | RsvpController.EventOver |
| Backend/models/RSVP.js:43 | `e.end_time < CURRENT_TIME, 'HH24:MI'` is not valid SQL, so every findByUser call fails | any user id and any options: syntax error | the past/upcoming CASE used by the RSVP controller | not executed | RsvpModel.FindByUserAsWrittenAlwaysFails | RsvpModel.FindByUser |
