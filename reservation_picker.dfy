/**
 * The customer's reservation picker (client/src/myComponents/Reservation.jsx).
 *
 * Its React state becomes the fields of class `Picker`: the fetched tables,
 * each marked reserved and selected, and the pending reservation request.
 * Replies from the server are parameters of the handlers that wait for them.
 */
module ReservationPicker {
  import opened Wrappers
  import opened Time
  import opened Seqs
  import TableStore

  /** A fetched table with the two flags the picker adds to it. */
  datatype PickerTable = PickerTable(table: TableStore.AvailableRow, reserved: bool, selected: bool)

  /** The pending request (`reservationDetails`); no table chosen is `None`. */
  datatype Details = Details(quantity: int, date: int, location: string, userId: int, tableId: Option<int>)

  /** The reply to the submit: accepted, or refused with the server's message if it sent one. */
  datatype SubmitReply = Accepted | Refused(message: Option<string>)

  const SuccessAlert: string := "Reservation successful!"
  const FallbackAlert: string := "Failed to reserve the table."

  // ---------------------------------------------------------------------------
  // The reserved flag
  // ---------------------------------------------------------------------------

  /**
   * `isTableReserved`: some booked time lies at most 90 minutes from the
   * chosen one, on either side, edges included; never for an empty list.
   */
  function IsTableReserved(reservations: seq<int>, date: int): (b: bool)
    ensures b <==> exists i :: 0 <= i < |reservations| && Abs(reservations[i] - date) <= WindowMinutes
  {
    if reservations == [] then false
    else
      var rest := IsTableReserved(reservations[1..], date);
      assert forall i :: 1 <= i < |reservations| ==> reservations[i] == reservations[1..][i - 1];
      Abs(reservations[0] - date) <= WindowMinutes || rest
  }

  /** A list holding every time of a reserved list is reserved too. */
  lemma ReservedMonotone(reservations: seq<int>, more: seq<int>, date: int)
    requires forall x :: x in reservations ==> x in more
    requires IsTableReserved(reservations, date)
    ensures IsTableReserved(more, date)
  {
    var i :| 0 <= i < |reservations| && Abs(reservations[i] - date) <= WindowMinutes;
    assert reservations[i] in more;
  }

  /** The client's window and the server's two-clause window agree on every pair of times. */
  lemma ClientWindowMatchesServer(reservations: seq<int>, date: int)
    ensures IsTableReserved(reservations, date) <==>
      exists i :: 0 <= i < |reservations| && TableStore.InWindow(date, reservations[i])
  {
  }

  /** Whether a stored reservation on table `tableId`, on the day of `date`, lies within the window of `date`. */
  predicate BookedNear(rs: seq<TableStore.ReservationRow>, tableId: int, date: int) {
    exists r :: r in rs && r.tableId == tableId && Day(r.date) == Day(date) && Abs(r.date - date) <= WindowMinutes
  }

  /** The flag over a list holding exactly the day's booked times of a table. */
  lemma FlagOverDayTimes(ds: seq<int>, rs: seq<TableStore.ReservationRow>, tableId: int, date: int)
    requires forall d :: d in ds <==>
      exists r :: r in rs && r.tableId == tableId && Day(r.date) == Day(date) && r.date == d
    ensures IsTableReserved(ds, date) <==> BookedNear(rs, tableId, date)
  {
    if IsTableReserved(ds, date) {
      var i :| 0 <= i < |ds| && Abs(ds[i] - date) <= WindowMinutes;
      assert ds[i] in ds;
      var r :| r in rs && r.tableId == tableId && Day(r.date) == Day(date) && r.date == ds[i];
      assert Abs(r.date - date) <= WindowMinutes;
    }
    if BookedNear(rs, tableId, date) {
      var r :| r in rs && r.tableId == tableId && Day(r.date) == Day(date) && Abs(r.date - date) <= WindowMinutes;
      assert r.date in ds;
      var i :| 0 <= i < |ds| && ds[i] == r.date;
    }
  }

  /**
   * For a table as the server lists it, the picker's flag is set exactly when
   * a stored reservation on that table, on the chosen day, lies within 90
   * minutes of the chosen time.
   */
  lemma ReservedFlagMeaning(t: TableStore.TableRow, rs: seq<TableStore.ReservationRow>, date: int)
    ensures IsTableReserved(TableStore.AvailableOf(t, rs, date).reservations, date) <==> BookedNear(rs, t.id, date)
  {
    FlagOverDayTimes(TableStore.AvailableOf(t, rs, date).reservations, rs, t.id, date);
  }

  /**
   * The flag only looks at the chosen day: a reservation at 23:30 hides no
   * table from a request at 00:30 the next day, which the server then rejects.
   */
  lemma CrossMidnightConflictNotFlagged(day: int)
    ensures var t := TableStore.TableRow(1, 0, 0, 2, 1);
      var rs := [TableStore.ReservationRow(1, 1, 2, Midnight(day) - 30, "inside", 5)];
      var date := Midnight(day) + 30;
      && !IsTableReserved(TableStore.AvailableOf(t, rs, date).reservations, date)
      && |TableStore.ConflictIds(rs, 1, "inside", date)| > 0
  {
    var t := TableStore.TableRow(1, 0, 0, 2, 1);
    var rs := [TableStore.ReservationRow(1, 1, 2, Midnight(day) - 30, "inside", 5)];
    var date := Midnight(day) + 30;
    assert Day(rs[0].date) == day - 1;
    assert Day(date) == day;
    ReservedFlagMeaning(t, rs, date);
  }

  // ---------------------------------------------------------------------------
  // The table list
  // ---------------------------------------------------------------------------

  /** What `fetchTables` stores: the fetched tables in order, each flagged with `isTableReserved`. */
  function Annotate(data: seq<TableStore.AvailableRow>, date: int): (ts: seq<PickerTable>)
    ensures |ts| == |data|
    ensures forall i :: 0 <= i < |ts| ==> ts[i].table == data[i] && !ts[i].selected
    ensures forall i :: 0 <= i < |ts| ==> ts[i].reserved == IsTableReserved(data[i].reservations, date)
  {
    Map(data, (row: TableStore.AvailableRow) => PickerTable(row, IsTableReserved(row.reservations, date), false))
  }

  /** `handleTableReservation`'s list update: selects the tables with that id and clears the rest. */
  function Select(ts: seq<PickerTable>, tableId: int): (r: seq<PickerTable>)
    ensures |r| == |ts|
    ensures forall i :: 0 <= i < |ts| ==> r[i].table == ts[i].table && r[i].reserved == ts[i].reserved
    ensures forall i :: 0 <= i < |ts| ==> (r[i].selected <==> ts[i].table.id == tableId)
  {
    Map(ts, (t: PickerTable) => t.(selected := t.table.id == tableId))
  }

  predicate UniqueTableIds(ts: seq<PickerTable>) {
    forall i, j :: 0 <= i < j < |ts| ==> ts[i].table.id != ts[j].table.id
  }

  /** Selection is exclusive: with distinct ids, exactly the clicked table is selected, if listed. */
  lemma SelectionExclusive(ts: seq<PickerTable>, tableId: int)
    requires UniqueTableIds(ts)
    ensures var r := Select(ts, tableId);
      && (forall i, j :: 0 <= i < |r| && 0 <= j < |r| && r[i].selected && r[j].selected ==> i == j)
      && ((exists i :: 0 <= i < |ts| && ts[i].table.id == tableId) <==>
          (exists i :: 0 <= i < |r| && r[i].selected))
  {
  }

  // ---------------------------------------------------------------------------
  // The request
  // ---------------------------------------------------------------------------

  /** The initial request: two guests, inside, no table, today's date at its first minute. */
  function InitialDetails(userId: int, now: int): (d: Details)
    ensures d.quantity == 2 && d.location == "inside" && d.tableId.None? && d.userId == userId
    ensures Day(d.date) == Day(now) && d.date % MinutesPerDay == 0
  {
    Details(2, Midnight(Day(now)), "inside", userId, None)
  }

  /** The alert after a submit; never empty, and the server's message whenever it sent a non-empty one. */
  function AlertFor(reply: SubmitReply): (alert: string)
    ensures alert != []
    ensures reply.Accepted? ==> alert == SuccessAlert
    ensures reply.Refused? && reply.message.Some? && reply.message.value != [] ==> alert == reply.message.value
    ensures reply.Refused? && (reply.message.None? || reply.message.value == []) ==> alert == FallbackAlert
  {
    match reply
    case Accepted => SuccessAlert
    case Refused(message) =>
      if message.Some? && message.value != [] then message.value else FallbackAlert
  }

  // ---------------------------------------------------------------------------
  // The component's state
  // ---------------------------------------------------------------------------

  class Picker {
    var tables: seq<PickerTable>
    var details: Details

    /** The component's initial state for user `userId`, mounted at minute `now`. */
    constructor (userId: int, now: int)
      ensures tables == [] && details == InitialDetails(userId, now)
    {
      tables := [];
      details := InitialDetails(userId, now);
    }

    /**
     * `fetchTables`, given the reply to its query (`None`: the fetch failed and
     * the list stays). Returns the location and date it asks for.
     */
    method FetchTables(reply: Option<seq<TableStore.AvailableRow>>) returns (location: string, date: int)
      modifies this
      ensures location == details.location && date == details.date
      ensures details == old(details)
      ensures tables == if reply.Some? then Annotate(reply.value, old(details).date) else old(tables)
    {
      location, date := details.location, details.date;
      if reply.Some? {
        tables := Annotate(reply.value, details.date);
      }
    }

    /** `handleTableReservation`: marks the clicked table selected and records it in the request. */
    method SelectTable(tableId: int)
      modifies this
      ensures tables == Select(old(tables), tableId)
      ensures details == old(details).(tableId := Some(tableId))
    {
      tables := Select(tables, tableId);
      details := details.(tableId := Some(tableId));
    }

    /**
     * `handleFormSubmit`, given the reply and, on success, the reply to the
     * re-fetch. Returns the request body sent and the alert shown. On success
     * only `tableId` is cleared; on a refusal nothing changes.
     */
    method SubmitForm(reply: SubmitReply, refetch: Option<seq<TableStore.AvailableRow>>)
      returns (body: Details, alert: string)
      modifies this
      ensures body == old(details) && alert == AlertFor(reply)
      ensures reply.Accepted? ==> details == old(details).(tableId := None)
      ensures reply.Accepted? ==>
        tables == if refetch.Some? then Annotate(refetch.value, old(details).date) else old(tables)
      ensures reply.Refused? ==> details == old(details) && tables == old(tables)
    {
      body := details;
      if reply.Accepted? {
        var _, _ := FetchTables(refetch);
        alert := SuccessAlert;
        details := details.(tableId := None);
      } else {
        alert := AlertFor(reply);
      }
    }
  }
}
