# Restaurant table layout and reservations — a Dafny model

The system lets a restaurant administrator draw a floor plan of tables, inside
and outside, and lets customers reserve one of those tables for a date and
time. This project models its core in three parts, one Dafny module each:

- `TableStore` (`table_store.dfy`) is the server's data-access layer
  (`server/models/saveTable_M.js`). The relational datastore becomes a class
  `Store` holding the rows of the `tables` and `reservations` tables and their
  auto-increment counters. Each SQL statement is a method of `Store`. What a
  query returns is a pure function of the rows. The class invariant says that
  ids are positive, below their counter and unique, and that no two
  reservations with the same table and the same location lie within 90
  minutes. Every mutating method keeps it. The 90-minute conflict rule of
  `createReservation` is proved equivalent to "the two times are at most 90
  minutes apart", and an accepted insert is proved to keep that invariant.
  Because the rule also keys on the location string the client sends, one
  table can be booked twice within 90 minutes under two locations; a lemma
  shows it.
- `FloorPlanEditor` (`floor_plan_editor.dfy`) is the administrator's editor
  (`client/src/myComponents/ParentComponent.jsx`). Its React state is the class
  `Editor`. A table is either transient (a client `tempId`, `isNew`) or
  persisted (a server `id`). The save handler is a loop over the list as it
  was when the save started. It sends one request per table that needs one
  and stops at the first failed reply. It is proved against the recursive
  specification `SaveRun`, and its outcome is described request by request
  and entry by entry.
- `ReservationPicker` (`reservation_picker.dfy`) is the customer's picker
  (`client/src/myComponents/Reservation.jsx`). Its state is the class `Picker`.
  The reserved flag it shows on a table is proved to mean "a reservation on
  that table, on the chosen day, lies within 90 minutes of the chosen time".
  A lemma shows that this flag can miss a conflict the server then rejects.

Three support modules hold shared definitions:

- `Wrappers` holds `Option`.
- `Seqs` holds an order-keeping `Filter` and a `Map` over sequences, with their
  lemmas.
- `Time` holds the 90-minute window, and timestamps as whole minutes, with the
  calendar day of a minute.

On the client, each network reply is a parameter of the handler that waits
for it. On the server, every query result is computed from the rows `Store`
holds; only "today" is a parameter.

`TableStore.ReservationScenario` plays one usage scenario through `Store`
rather than modelling a source function: a new table is listed once and
unreserved, a booking at noon is accepted, one at 12:30 on the same table is
rejected with the conflict message, and one at 14:00 is accepted. Its
assertions are checked by the verifier.

## Model

| member | source | states |
|---|---|---|
| TableStore.InWindow | server/models/saveTable_M.js:114-117 | the two inclusive BETWEEN clauses hold together exactly when the requested and booked times are at most 90 minutes apart |
| TableStore.BlockingRows | server/models/saveTable_M.js:110-118 | a stored row is selected by the conflict query iff it has the same table, the same location and a date within 90 minutes |
| TableStore.ConflictIds | server/models/saveTable_M.js:110-125 | the conflict query returns a non-empty list iff some stored reservation for that table and location lies within 90 minutes |
| TableStore.UnrelatedRowsNeverBlock | server/models/saveTable_M.js:110-118 | rows for another table, or for the same table under another location value, never change the conflict query's result |
| TableStore.AcceptedKeepsNoDoubleBooking | server/models/saveTable_M.js:120-133 | inserting a reservation the conflict query lets through keeps every pair of same-table, same-location reservations more than 90 minutes apart |
| TableStore.OtherLocationDoubleBooks | server/models/saveTable_M.js:110-118 | a booking for a table under "outside" 10 minutes after one under "inside" finds no conflict, and the two rows together keep the invariant although they are 10 minutes apart |
| TableStore.TodaysReservationsAsWritten | server/models/saveTable_M.js:55 | the join condition as written attaches only reservations stored at exactly the first minute of today |
| TableStore.TodaysReservations | server/models/saveTable_M.js:55 | the corrected join attaches exactly the table's reservations on today's calendar day |
| TableStore.AsWrittenSeesOnlyMidnight | server/models/saveTable_M.js:55 | every reservation the written join sees is also seen by the corrected join, and lies at midnight |
| TableStore.AsWrittenMissesEveningReservation | server/models/saveTable_M.js:51-56 | a reservation at 19:00 today is missed by the written join and found by the corrected one |
| TableStore.ReservedFlag | server/models/saveTable_M.js:53-55 | the computed column is 0 or 1, and 1 iff the table has a reservation today |
| TableStore.PositionOf | server/models/saveTable_M.js:62-69 | the object for a table copies id, x as left, y as top and size; inside iff the stored flag is 1; reserved iff the table has a reservation today |
| TableStore.RowsFor | server/models/saveTable_M.js:51-56 | the left join gives a table at least one row, each row being its position object, and exactly one row when it has no reservation today |
| TableStore.Positions | server/models/saveTable_M.js:49-74 | a row is listed iff it is the position object of some stored table |
| TableStore.UnreservedTableListedOnce | server/models/saveTable_M.js:49-74 | with unique table ids, a table with no reservation today appears exactly once in the listing, unreserved |
| TableStore.SortAscending | server/models/saveTable_M.js:80 | the grouped times are ascending and a permutation of the day's times |
| TableStore.SameDayReservations | server/models/saveTable_M.js:82 | exactly the table's reservations on the calendar day of the requested date |
| TableStore.DayDates | server/models/saveTable_M.js:80-82 | the grouped list is ascending and is a permutation of the table's booked times on that day (one entry per reservation, duplicates kept) |
| TableStore.AvailableOf | server/models/saveTable_M.js:93-100 | the object copies id, position and size; inside iff the flag is 1; its times are ascending, a permutation of the table's booked times on that day, and empty iff it has none that day |
| TableStore.Available | server/models/saveTable_M.js:76-105 | a row is listed iff it is the object of a stored table whose inside flag matches the location; "inside" selects inside tables and any other string selects outside ones |
| TableStore.JoinTables | server/models/saveTable_M.js:146 | a row is yielded iff it joins the reservation with a stored table of that id, and there are exactly as many rows as stored tables with that id |
| TableStore.UserReservations | server/models/saveTable_M.js:141-159 | a row is listed iff it joins one of the user's reservations with the stored table it names; a reservation whose table is gone is not listed |
| TableStore.SetPosition | server/models/saveTable_M.js:6 | rows with the id get the new x and y; id, size and inside are kept; other rows are unchanged |
| TableStore.WithoutTable | server/models/saveTable_M.js:36 | exactly the table rows with another id remain |
| TableStore.WithoutReservation | server/models/saveTable_M.js:163 | exactly the reservation rows with another id remain |
| TableStore.WithoutTableKeepsUniqueIds | server/models/saveTable_M.js:34-47 | deleting a table keeps table ids unique |
| TableStore.WithoutReservationKeepsInvariants | server/models/saveTable_M.js:161-173 | deleting a reservation keeps reservation ids unique and same-table, same-location reservations more than 90 minutes apart |
| TableStore.DeletedTableNotListed | server/models/saveTable_M.js:34-47 | after a delete, no listed position carries the deleted id |
| TableStore.CreatedTableListed | server/models/saveTable_M.js:19-32 | a created table is listed with the position, size and inside flag it was created with |
| TableStore.Store.UpdateTable | server/models/saveTable_M.js:4-17 | the rows with that id get the new x and y; the affected count is the number of matching rows; nothing else changes; the invariant is kept |
| TableStore.Store.CreateTable | server/models/saveTable_M.js:19-32 | appends a row with x = left, y = top and inside stored as 1/0; the new id is the counter's value and is not used by any existing table |
| TableStore.Store.DeleteTable | server/models/saveTable_M.js:34-47 | drops exactly that table's rows and keeps its reservations; the affected count is the number of matching rows |
| TableStore.Store.GetTablePositions | server/models/saveTable_M.js:49-74 | returns the position listing of the stored rows |
| TableStore.Store.GetAvailableTables | server/models/saveTable_M.js:76-105 | returns the availability listing of the stored rows |
| TableStore.Store.CreateReservation | server/models/saveTable_M.js:108-139 | rejects with the conflict message, leaving the store unchanged, iff a same-table, same-location reservation lies within 90 minutes; otherwise appends the row with the next id and resolves that id |
| TableStore.Store.GetUserReservations | server/models/saveTable_M.js:141-159 | returns the user's joined reservations |
| TableStore.Store.DeleteReservation | server/models/saveTable_M.js:161-173 | drops exactly the rows with that id, whoever owns them; the affected count is the number dropped |
| FloorPlanEditor.FromServer | client/src/myComponents/ParentComponent.jsx:19-20 | a fetched table is persisted: it has its server id, no temporary id, is not new, and keeps size, position and inside |
| FloorPlanEditor.Loaded | client/src/myComponents/ParentComponent.jsx:12-28 | the stored list is the fetched tables in order, or empty when the fetch failed or did not give an array |
| FloorPlanEditor.LoadedKeepsInvariant | client/src/myComponents/ParentComponent.jsx:12-28 | a freshly loaded list satisfies the editor invariant |
| FloorPlanEditor.NewTable | client/src/myComponents/ParentComponent.jsx:31-38 | a new table has the counter as its temporary id, no server id, is new, sits at (0, 0), and is inside iff the layout type is "inside" |
| FloorPlanEditor.AddKeepsInvariant | client/src/myComponents/ParentComponent.jsx:30-43 | the counter is not the temporary id of any listed table, and appending the new table and counting up keeps the invariant |
| FloorPlanEditor.TempIdMayEqualServerId | client/src/myComponents/ParentComponent.jsx:30-43 | a new table's temporary id can equal a fetched table's server id, and a lookup by that number then finds the fetched table |
| FloorPlanEditor.MoveTo | client/src/myComponents/ParentComponent.jsx:49-55 | every entry carrying the id as server or temporary id gets the new position; everything else is unchanged |
| FloorPlanEditor.FindIndex | client/src/myComponents/ParentComponent.jsx:59 | the index of the first entry carrying the id as either identity, or none when no entry does |
| FloorPlanEditor.WithoutTransient | client/src/myComponents/ParentComponent.jsx:68 | exactly the entries with another temporary id remain |
| FloorPlanEditor.WithoutPersisted | client/src/myComponents/ParentComponent.jsx:65 | exactly the entries with another server id remain |
| FloorPlanEditor.FilterKeepsInvariant | client/src/myComponents/ParentComponent.jsx:57-73 | dropping entries keeps the editor invariant |
| FloorPlanEditor.Promoted | client/src/myComponents/ParentComponent.jsx:111 | a promoted entry has the reply's first id, no temporary id, is not new, and keeps size, position and inside |
| FloorPlanEditor.Promote | client/src/myComponents/ParentComponent.jsx:108-114 | the entries with that temporary id are promoted in place; all others are unchanged |
| FloorPlanEditor.PromoteKeepsInvariant | client/src/myComponents/ParentComponent.jsx:107-114 | promotion keeps the editor invariant |
| FloorPlanEditor.SaveRunStaysStopped | client/src/myComponents/ParentComponent.jsx:92-105 | after the first failed reply, later tables change neither the list nor the requests sent |
| FloorPlanEditor.SaveRunRequests | client/src/myComponents/ParentComponent.jsx:79-117 | with no failure, one request is sent per table that needs one, in order; after a failure, the requests up to the failed one are sent and every earlier one was answered ok |
| FloorPlanEditor.SaveRunTables | client/src/myComponents/ParentComponent.jsx:75-121 | the list keeps its length and order; each table that needed a create and was reached is promoted with its reply's id; every other entry is unchanged; earlier promotions survive a failure |
| FloorPlanEditor.ViewFilter | client/src/myComponents/ParentComponent.jsx:129 | the layout receives exactly the tables of the active view |
| FloorPlanEditor.ViewKeepsOrder | client/src/myComponents/ParentComponent.jsx:129 | the view distributes over concatenation, so it keeps the list's order |
| FloorPlanEditor.ViewsPartition | client/src/myComponents/ParentComponent.jsx:129 | the two views together hold every table of the list exactly as often as the list does (a multiset split), so their lengths add up |
| FloorPlanEditor.Editor.constructor | client/src/myComponents/ParentComponent.jsx:7-10 | starts with no tables, nothing selected, counter 1 and the inside view |
| FloorPlanEditor.Editor.LoadTables | client/src/myComponents/ParentComponent.jsx:12-28 | the list becomes the loaded tables; everything else stays |
| FloorPlanEditor.Editor.AddTable | client/src/myComponents/ParentComponent.jsx:30-43 | appends the new table, selects its temporary id and counts up, keeping the invariant |
| FloorPlanEditor.Editor.ChangeLayout | client/src/myComponents/ParentComponent.jsx:45-47 | the inside view is shown iff the layout is "inside"; nothing else changes |
| FloorPlanEditor.Editor.MoveTable | client/src/myComponents/ParentComponent.jsx:49-55 | the list becomes the moved list |
| FloorPlanEditor.Editor.DeleteTable | client/src/myComponents/ParentComponent.jsx:57-73 | if the first matching entry has a truthy server id, a delete request is sent and the persisted entries go only on an ok reply; otherwise the entries with that temporary id go with no request |
| FloorPlanEditor.Editor.SaveTables | client/src/myComponents/ParentComponent.jsx:75-121 | the new list and the requests sent are those of `SaveRun` over the whole snapshot; the invariant is kept |
| ReservationPicker.IsTableReserved | client/src/myComponents/Reservation.jsx:19-28 | true iff some booked time lies at most 90 minutes from the chosen one, on either side |
| ReservationPicker.ReservedMonotone | client/src/myComponents/Reservation.jsx:19-28 | a list holding every time of a reserved list is reserved too |
| ReservationPicker.ClientWindowMatchesServer | client/src/myComponents/Reservation.jsx:25-26 | the client's window agrees with the server's two-clause conflict window on every pair of times |
| ReservationPicker.FlagOverDayTimes | client/src/myComponents/Reservation.jsx:35-38 | over a list holding exactly a table's same-day times, the flag holds iff a same-day booking lies within 90 minutes |
| ReservationPicker.ReservedFlagMeaning | client/src/myComponents/Reservation.jsx:35-38 | for a table as the server lists it, the flag holds iff a reservation on that table, on the chosen day, lies within 90 minutes |
| ReservationPicker.CrossMidnightConflictNotFlagged | client/src/myComponents/Reservation.jsx:19-28 | a booking at 23:30 leaves the table unflagged for 00:30 the next day, although the server's conflict query finds it |
| ReservationPicker.Annotate | client/src/myComponents/Reservation.jsx:35-38 | the list keeps the fetched tables in order, none selected, each flagged by `IsTableReserved` on its times |
| ReservationPicker.Select | client/src/myComponents/Reservation.jsx:50-53 | a table is selected iff its id is the clicked one; tables and flags are kept |
| ReservationPicker.SelectionExclusive | client/src/myComponents/Reservation.jsx:50-53 | with distinct ids at most one table is selected, and one is iff the clicked id is listed |
| ReservationPicker.InitialDetails | client/src/myComponents/Reservation.jsx:9-15 | two guests, "inside", the user's id, no table, and the first minute of today |
| ReservationPicker.AlertFor | client/src/myComponents/Reservation.jsx:70-80 | the alert is never empty: the success text on acceptance, the server's message when it sent a non-empty one, the fallback text otherwise |
| ReservationPicker.Picker.constructor | client/src/myComponents/Reservation.jsx:8-15 | no tables, and the initial request |
| ReservationPicker.Picker.FetchTables | client/src/myComponents/Reservation.jsx:30-44 | queries with the request's location and date; on a reply the list becomes the annotated tables, on a failure it stays |
| ReservationPicker.Picker.SelectTable | client/src/myComponents/Reservation.jsx:50-58 | selects the clicked table and records its id in the request |
| ReservationPicker.Picker.SubmitForm | client/src/myComponents/Reservation.jsx:60-82 | sends the current request; on acceptance re-fetches and clears only the table id; on refusal nothing changes; the alert is `AlertFor` of the reply |

## Left out

- Datastore driver errors are not modelled. The reject strings such as "Error updating table" belong to failures the model cannot produce.
- The conflict check and the insert in `createReservation` are two separate queries. Two concurrent requests can both pass the check. The model runs each call atomically.
- Dates are whole minutes, not strings. Parsing them, time zones, and the comma-joined grouped string are left out. The picker's division of milliseconds by 60000 is exact on whole minutes, so floating point is left out too.
- `TableStore.Store.GetTablePositions`: "today" is a parameter rather than the datastore's clock.
- TableStore.ReservedFlag, TableStore.PositionOf, TableStore.RowsFor, TableStore.Positions, TableStore.UnreservedTableListedOnce, TableStore.Store.GetTablePositions: these follow the corrected calendar-day join from "## Findings". The join as written matches only reservations at today's first minute; `TableStore.TodaysReservationsAsWritten` models that.
- TableStore.BlockingRows, TableStore.ConflictIds, TableStore.UnrelatedRowsNeverBlock, TableStore.Store.CreateReservation: locations are compared as exact strings. The datastore compares them under the column's collation, which by default ignores letter case and may ignore trailing spaces. Under such a collation "Inside" blocks "inside", but not in the model. The model treats more values as "another location" than the datastore does.
- Pixel coordinates (`left`, `top`, `x`, `y`) and table sizes are whole numbers. Drag positions in the browser can be fractional, and the model does not capture that.
- `ReservationPicker.InitialDetails`: the date is taken as the first minute of the current calendar day in UTC. The calendar-date string the component builds is not modelled.
- HTTP routes, controllers, JSON encoding and the fetch API are not part of this model. Each network exchange is a parameter holding its reply. That covers the mapping of `left`/`top` to `x`/`y` on update, and the route that answers a create with `tableIds`.
- React rendering, the Form component's edits of date, location and party size, and the effect that re-fetches when they change are left out. The click guard of the table display is left out too.
- Asynchrony is left out: stale closures and interleaved state updates. The save loop is modelled with the list as it was when it started, and each promotion is applied to the current list, as the updater form does.
- The `reserved` field the editor receives with each fetched table is dropped, because the editor never reads it.
- A submit with no table chosen sends a null table id. The model sends `None` and leaves the server's treatment of it out.
- `selectedTable` in the editor is only recorded; highlighting is left out.

Nothing keeps a new table's `tempId` apart from the server ids already in the list; only `tempId`s are kept distinct from each other. `FloorPlanEditor.TempIdMayEqualServerId` shows a fetched table with id 1 next to a new table with `tempId` 1, and a lookup by 1 finding the fetched one.

## Findings

| source | as written | input that shows it | evidently intended | confidence | as-written member | corrected member |
|---|---|---|---|---|---|---|
| server/models/saveTable_M.js:55 | the join compares the stored reservation date and time with today's date, which compares as today's first minute, so only midnight reservations mark a table reserved | one reservation on the table today at 19:00: the table is listed unreserved | a table is reserved when it has any reservation on today's calendar day, as the availability query on line 82 does by comparing calendar dates | medium, not executed (the column type is not visible; line 115 adds minutes to it, so it holds a time) | TableStore.AsWrittenMissesEveningReservation | TableStore.TodaysReservations |
