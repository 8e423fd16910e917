/**
 * The server's data-access layer for the two stored entities, tables and
 * reservations (server/models/saveTable_M.js).
 *
 * The relational datastore is an in-memory `Store`: one sequence of rows per
 * SQL table, in insertion order, plus the AUTO_INCREMENT counters. Every SQL
 * statement is a method of `Store`; what a query returns is a function of the
 * rows, and the `results.map` conversions are pure functions. Timestamps are
 * minutes (module Time).
 */
module TableStore {
  import opened Wrappers
  import opened Seqs
  import opened Time

  /** A row of the `tables` table; `inside` is the stored 1/0 column. */
  datatype TableRow = TableRow(id: int, x: int, y: int, size: int, inside: int)

  /** A row of the `reservations` table (`how_many` is the party size). */
  datatype ReservationRow = ReservationRow(
    id: int, tableId: int, howMany: int, date: int, location: string, userId: int)

  /** An object resolved by `getTablePositions`. */
  datatype PositionRow = PositionRow(id: int, left: int, top: int, size: int, inside: bool, reserved: bool)

  /** An object resolved by `getAvailableTables`; `reservations` are that day's booked times. */
  datatype AvailableRow = AvailableRow(
    id: int, left: int, top: int, size: int, inside: bool, reservations: seq<int>)

  /** A row resolved by `getUserReservations`: a reservation joined with its table. */
  datatype UserReservationRow = UserReservationRow(
    reservationId: int, tableId: int, x: int, y: int, size: int, inside: int, date: int, howMany: int)

  /** What `createReservation` resolves (the insert's id) or rejects with. */
  datatype ReserveOutcome = Reserved(insertId: int) | Rejected(message: string)

  const ConflictMessage: string := "This table is already reserved during this time."

  // ---------------------------------------------------------------------------
  // The reservation conflict rule
  // ---------------------------------------------------------------------------

  /**
   * The two inclusive BETWEEN clauses of the conflict query: the requested
   * time, or the requested time plus 90 minutes, lies in [booked, booked + 90].
   * Together they hold exactly when the two times are at most 90 minutes apart.
   */
  function InWindow(requested: int, booked: int): (b: bool)
    ensures b <==> Abs(requested - booked) <= WindowMinutes
  {
    || (booked <= requested <= booked + WindowMinutes)
    || (booked <= requested + WindowMinutes <= booked + WindowMinutes)
  }

  /** Whether stored row `r` is selected by the conflict query for this request. */
  predicate Blocks(r: ReservationRow, tableId: int, location: string, date: int) {
    r.tableId == tableId && r.location == location && InWindow(date, r.date)
  }

  /** The rows the conflict query selects, in storage order. */
  function BlockingRows(rs: seq<ReservationRow>, tableId: int, location: string, date: int)
    : (hits: seq<ReservationRow>)
    ensures forall r :: r in hits <==>
      r in rs && r.tableId == tableId && r.location == location && Abs(date - r.date) <= WindowMinutes
  {
    Filter(rs, (r: ReservationRow) => Blocks(r, tableId, location, date))
  }

  /**
   * The ids the conflict query returns:
   * non-empty exactly when some stored reservation has the same table, the same
   * location and a date at most 90 minutes from the requested one.
   */
  function ConflictIds(rs: seq<ReservationRow>, tableId: int, location: string, date: int)
    : (ids: seq<int>)
    ensures |ids| > 0 <==>
      exists i :: 0 <= i < |rs| && rs[i].tableId == tableId
        && rs[i].location == location && Abs(date - rs[i].date) <= WindowMinutes
  {
    var hits := BlockingRows(rs, tableId, location, date);
    assert |hits| > 0 ==> hits[0] in rs;
    Map(hits, (r: ReservationRow) => r.id)
  }

  /**
   * Rows for another table, or for the same table under another `location`
   * value, never change the verdict of the conflict query.
   */
  lemma {:induction false} UnrelatedRowsNeverBlock(
    rs: seq<ReservationRow>, others: seq<ReservationRow>, tableId: int, location: string, date: int)
    requires forall i :: 0 <= i < |others| ==> others[i].tableId != tableId || others[i].location != location
    ensures BlockingRows(rs + others, tableId, location, date) == BlockingRows(rs, tableId, location, date)
  {
    var p := (r: ReservationRow) => Blocks(r, tableId, location, date);
    FilterConcat(rs, others, p);
    FilterNothing(others, p);
    assert Filter(rs, p) + [] == Filter(rs, p);
  }

  /**
   * No two rows for the same table and the same location lie within 90
   * minutes of each other. The location is the string the client sends, so
   * rows for one table under two locations are not constrained.
   */
  predicate NoDoubleBooking(rs: seq<ReservationRow>) {
    forall i, j :: 0 <= i < j < |rs| && rs[i].tableId == rs[j].tableId && rs[i].location == rs[j].location
      ==> Abs(rs[i].date - rs[j].date) > WindowMinutes
  }

  /**
   * Inserting a reservation the conflict query lets through keeps every two
   * reservations with the same table and the same location more than 90
   * minutes apart.
   */
  lemma AcceptedKeepsNoDoubleBooking(rs: seq<ReservationRow>, r: ReservationRow)
    requires NoDoubleBooking(rs)
    requires |ConflictIds(rs, r.tableId, r.location, r.date)| == 0
    ensures NoDoubleBooking(rs + [r])
  {
    var all := rs + [r];
    forall i, j | 0 <= i < j < |all| && all[i].tableId == all[j].tableId && all[i].location == all[j].location
      ensures Abs(all[i].date - all[j].date) > WindowMinutes
    {
      if j == |rs| {
        assert all[i] == rs[i] && all[j] == r;
        assert Abs(r.date - rs[i].date) > WindowMinutes;
      } else {
        assert all[i] == rs[i] && all[j] == rs[j];
      }
    }
  }

  /**
   * The conflict rule keys on the location string as well as the table: a
   * booking for a table under "outside" 10 minutes after one under "inside"
   * finds no conflict, and both rows together still satisfy `NoDoubleBooking`.
   */
  lemma OtherLocationDoubleBooks(tableId: int, date: int)
    ensures var first := ReservationRow(1, tableId, 2, date, "inside", 1);
      var second := ReservationRow(2, tableId, 2, date + 10, "outside", 2);
      && ConflictIds([first], tableId, "outside", date + 10) == []
      && NoDoubleBooking([first, second])
      && Abs(first.date - second.date) <= WindowMinutes
  {
    var first := ReservationRow(1, tableId, 2, date, "inside", 1);
    AcceptedKeepsNoDoubleBooking([first], ReservationRow(2, tableId, 2, date + 10, "outside", 2));
  }

  // ---------------------------------------------------------------------------
  // getTablePositions
  // ---------------------------------------------------------------------------

  /** The `results.map` conversion of `getTablePositions`; `reservedFlag` is the CASE column. */
  function ToPosition(t: TableRow, reservedFlag: int): PositionRow {
    PositionRow(t.id, t.x, t.y, t.size, t.inside == 1, reservedFlag == 1)
  }

  /**
   * The reservations the LEFT JOIN attaches to table `tableId` as the join
   * condition is written: the stored date and time must equal today's date,
   * which the datastore reads as the first minute of today.
   */
  function TodaysReservationsAsWritten(rs: seq<ReservationRow>, tableId: int, today: int)
    : (m: seq<ReservationRow>)
    ensures forall r :: r in m <==> r in rs && r.tableId == tableId && r.date == Midnight(today)
  {
    Filter(rs, (r: ReservationRow) => r.tableId == tableId && r.date == Midnight(today))
  }

  /** The reservations on table `tableId` during calendar day `today` (the corrected join). */
  function TodaysReservations(rs: seq<ReservationRow>, tableId: int, today: int)
    : (m: seq<ReservationRow>)
    ensures forall r :: r in m <==> r in rs && r.tableId == tableId && Day(r.date) == today
  {
    Filter(rs, (r: ReservationRow) => r.tableId == tableId && Day(r.date) == today)
  }

  /** The join as written only ever sees a subset of the day's reservations. */
  lemma AsWrittenSeesOnlyMidnight(rs: seq<ReservationRow>, tableId: int, today: int)
    ensures forall r :: r in TodaysReservationsAsWritten(rs, tableId, today) ==>
      r in TodaysReservations(rs, tableId, today) && r.date == Midnight(today)
  {
    forall r | r in TodaysReservationsAsWritten(rs, tableId, today)
      ensures r in TodaysReservations(rs, tableId, today)
    {
      assert Day(Midnight(today)) == today;
    }
  }

  /** A reservation at 19:00 today: the join as written misses it, the corrected join finds it. */
  lemma AsWrittenMissesEveningReservation(tableId: int, today: int)
    ensures var rs := [ReservationRow(1, tableId, 2, Midnight(today) + 19 * 60, "inside", 1)];
      TodaysReservationsAsWritten(rs, tableId, today) == [] && |TodaysReservations(rs, tableId, today)| == 1
  {
    var r := ReservationRow(1, tableId, 2, Midnight(today) + 19 * 60, "inside", 1);
    var rs := [r];
    assert Day(r.date) == today;
    assert r in TodaysReservations(rs, tableId, today);
  }

  /** The query's computed reserved column for table `tableId`: 1 when a reservation was joined, else 0. */
  function ReservedFlag(rs: seq<ReservationRow>, tableId: int, today: int): (flag: int)
    ensures flag == 0 || flag == 1
    ensures flag == 1 <==> exists r :: r in rs && r.tableId == tableId && Day(r.date) == today
  {
    var m := TodaysReservations(rs, tableId, today);
    assert |m| > 0 ==> m[0] in m;
    if |m| > 0 then 1 else 0
  }

  /** The object `getTablePositions` produces for stored table `t`. */
  function PositionOf(t: TableRow, rs: seq<ReservationRow>, today: int): (row: PositionRow)
    ensures row.id == t.id && row.left == t.x && row.top == t.y && row.size == t.size
    ensures row.inside <==> t.inside == 1
    ensures row.reserved <==> exists r :: r in rs && r.tableId == t.id && Day(r.date) == today
  {
    ToPosition(t, ReservedFlag(rs, t.id, today))
  }

  /** The rows the LEFT JOIN yields for one table: one per matching reservation, or one alone. */
  function RowsFor(t: TableRow, rs: seq<ReservationRow>, today: int): (rows: seq<PositionRow>)
    ensures |rows| >= 1
    ensures forall i :: 0 <= i < |rows| ==> rows[i] == PositionOf(t, rs, today)
    ensures ReservedFlag(rs, t.id, today) == 0 ==> |rows| == 1
  {
    var m := TodaysReservations(rs, t.id, today);
    if |m| == 0 then [PositionOf(t, rs, today)]
    else seq(|m|, _ => PositionOf(t, rs, today))
  }

  /**
   * What `getTablePositions` resolves: every listed row is the position of a
   * stored table, and every stored table is listed.
   */
  function Positions(ts: seq<TableRow>, rs: seq<ReservationRow>, today: int): (rows: seq<PositionRow>)
    ensures forall row :: row in rows <==> exists i :: 0 <= i < |ts| && row == PositionOf(ts[i], rs, today)
  {
    if ts == [] then []
    else
      var head := RowsFor(ts[0], rs, today);
      var rest := Positions(ts[1..], rs, today);
      assert forall i :: 1 <= i < |ts| ==> ts[i] == ts[1..][i - 1];
      assert head[0] == PositionOf(ts[0], rs, today);
      head + rest
  }

  predicate UniqueTableIds(ts: seq<TableRow>) {
    forall i, j :: 0 <= i < j < |ts| ==> ts[i].id != ts[j].id
  }

  /** The listed rows that carry id `id`. */
  function RowsWithId(rows: seq<PositionRow>, id: int): (r: seq<PositionRow>)
    ensures forall row :: row in r <==> row in rows && row.id == id
  {
    Filter(rows, (row: PositionRow) => row.id == id)
  }

  /**
   * A table with no reservation today is listed exactly once, unreserved
   * (the store's table ids being unique).
   */
  lemma {:induction false} UnreservedTableListedOnce(ts: seq<TableRow>, rs: seq<ReservationRow>, today: int, k: nat)
    requires UniqueTableIds(ts)
    requires k < |ts|
    requires forall r :: r in rs ==> r.tableId != ts[k].id || Day(r.date) != today
    ensures RowsWithId(Positions(ts, rs, today), ts[k].id) == [PositionOf(ts[k], rs, today)]
    ensures !PositionOf(ts[k], rs, today).reserved
  {
    var id := ts[k].id;
    var p := (row: PositionRow) => row.id == id;
    var head := RowsFor(ts[0], rs, today);
    var rest := Positions(ts[1..], rs, today);
    assert Positions(ts, rs, today) == head + rest;
    FilterConcat(head, rest, p);
    if k == 0 {
      assert head == [PositionOf(ts[0], rs, today)];
      assert Filter(head, p) == head;
      forall i | 0 <= i < |rest| ensures !p(rest[i]) {
        assert rest[i] in rest;
        var j :| 0 <= j < |ts[1..]| && rest[i] == PositionOf(ts[1..][j], rs, today);
        assert ts[1..][j] == ts[j + 1];
      }
      FilterNothing(rest, p);
    } else {
      assert ts[0].id != id;
      FilterNothing(head, p);
      assert UniqueTableIds(ts[1..]) by {
        forall i, j | 0 <= i < j < |ts[1..]| ensures ts[1..][i].id != ts[1..][j].id {
          assert ts[1..][i] == ts[i + 1] && ts[1..][j] == ts[j + 1];
        }
      }
      assert ts[1..][k - 1] == ts[k];
      UnreservedTableListedOnce(ts[1..], rs, today, k - 1);
    }
  }

  // ---------------------------------------------------------------------------
  // getAvailableTables
  // ---------------------------------------------------------------------------

  /** The inside flag the availability query filters on: 1 for the location "inside", 0 for any other string. */
  function InsideFlag(location: string): int {
    if location == "inside" then 1 else 0
  }

  predicate Sorted(s: seq<int>) {
    forall i, j :: 0 <= i < j < |s| ==> s[i] <= s[j]
  }

  /** Inserts `x` into the ascending list `s`. */
  function Insert(x: int, s: seq<int>): (r: seq<int>)
    requires Sorted(s)
    ensures Sorted(r)
    ensures multiset(r) == multiset(s) + multiset{x}
  {
    if s == [] then [x]
    else if x <= s[0] then [x] + s
    else
      var rest := Insert(x, s[1..]);
      assert s == [s[0]] + s[1..];
      assert forall i :: 0 <= i < |rest| ==> s[0] <= rest[i] by {
        forall i | 0 <= i < |rest| ensures s[0] <= rest[i] {
          assert rest[i] in multiset(rest);
          assert rest[i] in multiset(s[1..]) || rest[i] == x;
        }
      }
      [s[0]] + rest
  }

  /** The day's booked times in ascending order. */
  function SortAscending(s: seq<int>): (r: seq<int>)
    ensures Sorted(r)
    ensures multiset(r) == multiset(s)
  {
    if s == [] then []
    else
      assert s == [s[0]] + s[1..];
      Insert(s[0], SortAscending(s[1..]))
  }

  /** The reservations on table `tableId` during the calendar day of `date`. */
  function SameDayReservations(rs: seq<ReservationRow>, tableId: int, date: int): (m: seq<ReservationRow>)
    ensures forall r :: r in m <==> r in rs && r.tableId == tableId && Day(r.date) == Day(date)
  {
    Filter(rs, (r: ReservationRow) => r.tableId == tableId && Day(r.date) == Day(date))
  }

  /**
   * The grouped `reservations` list of one table: ascending, one entry per
   * reservation on that table that day, and nothing else.
   */
  function DayDates(rs: seq<ReservationRow>, tableId: int, date: int): (ds: seq<int>)
    ensures Sorted(ds)
    ensures |ds| == |SameDayReservations(rs, tableId, date)|
    ensures multiset(ds) == multiset(Map(SameDayReservations(rs, tableId, date), (r: ReservationRow) => r.date))
    ensures forall d :: d in ds <==>
      exists r :: r in rs && r.tableId == tableId && Day(r.date) == Day(date) && r.date == d
  {
    var m := SameDayReservations(rs, tableId, date);
    var dates := Map(m, (r: ReservationRow) => r.date);
    var ds := SortAscending(dates);
    assert forall d :: d in ds <==> d in multiset(dates);
    assert forall r :: r in m ==> r.date in dates;
    ds
  }

  /** The object `getAvailableTables` produces for stored table `t`. */
  function AvailableOf(t: TableRow, rs: seq<ReservationRow>, date: int): (row: AvailableRow)
    ensures row.id == t.id && row.left == t.x && row.top == t.y && row.size == t.size
    ensures row.inside <==> t.inside == 1
    ensures Sorted(row.reservations)
    ensures multiset(row.reservations) ==
      multiset(Map(SameDayReservations(rs, t.id, date), (r: ReservationRow) => r.date))
    ensures forall d :: d in row.reservations <==>
      exists r :: r in rs && r.tableId == t.id && Day(r.date) == Day(date) && r.date == d
    ensures row.reservations == [] <==>
      forall r :: r in rs && r.tableId == t.id ==> Day(r.date) != Day(date)
  {
    var ds := DayDates(rs, t.id, date);
    assert ds != [] ==> ds[0] in ds;
    AvailableRow(t.id, t.x, t.y, t.size, t.inside == 1, ds)
  }

  /**
   * What `getAvailableTables(location, date)` resolves: exactly the stored
   * tables whose `inside` column matches the location, each with that day's
   * reservations; the location "inside" selects inside tables and any other
   * string outside ones.
   */
  function Available(ts: seq<TableRow>, rs: seq<ReservationRow>, location: string, date: int)
    : (rows: seq<AvailableRow>)
    ensures forall row :: row in rows <==>
      exists i :: 0 <= i < |ts| && ts[i].inside == InsideFlag(location) && row == AvailableOf(ts[i], rs, date)
    ensures forall i :: 0 <= i < |rows| ==> (rows[i].inside <==> location == "inside")
  {
    if ts == [] then []
    else
      var head := if ts[0].inside == InsideFlag(location) then [AvailableOf(ts[0], rs, date)] else [];
      var rest := Available(ts[1..], rs, location, date);
      assert forall i :: 1 <= i < |ts| ==> ts[i] == ts[1..][i - 1];
      assert forall row :: row in head ==> (row.inside <==> location == "inside");
      head + rest
  }

  // ---------------------------------------------------------------------------
  // getUserReservations
  // ---------------------------------------------------------------------------

  function JoinRow(r: ReservationRow, t: TableRow): UserReservationRow {
    UserReservationRow(r.id, t.id, t.x, t.y, t.size, t.inside, r.date, r.howMany)
  }

  /** The rows the inner join on the table id yields for reservation `r`. */
  function JoinTables(r: ReservationRow, ts: seq<TableRow>): (rows: seq<UserReservationRow>)
    ensures forall row :: row in rows <==> exists j :: 0 <= j < |ts| && ts[j].id == r.tableId && row == JoinRow(r, ts[j])
    ensures |rows| == |TablesWithId(ts, r.tableId)|
  {
    if ts == [] then []
    else
      var rest := JoinTables(r, ts[1..]);
      assert forall j :: 1 <= j < |ts| ==> ts[j] == ts[1..][j - 1];
      (if ts[0].id == r.tableId then [JoinRow(r, ts[0])] else []) + rest
  }

  /**
   * What `getUserReservations(userId)` resolves: the user's reservations
   * joined with their tables; a reservation whose table is gone is not listed.
   */
  function UserReservations(rs: seq<ReservationRow>, ts: seq<TableRow>, userId: int)
    : (rows: seq<UserReservationRow>)
    ensures forall row :: row in rows <==>
      exists i, j :: 0 <= i < |rs| && 0 <= j < |ts|
        && rs[i].userId == userId && ts[j].id == rs[i].tableId && row == JoinRow(rs[i], ts[j])
  {
    if rs == [] then []
    else
      var rest := UserReservations(rs[1..], ts, userId);
      assert forall i :: 1 <= i < |rs| ==> rs[i] == rs[1..][i - 1];
      (if rs[0].userId == userId then JoinTables(rs[0], ts) else []) + rest
  }

  // ---------------------------------------------------------------------------
  // Row updates
  // ---------------------------------------------------------------------------

  /** The position update: the rows with that id get the new x and y. */
  function SetPosition(ts: seq<TableRow>, id: int, x: int, y: int): (r: seq<TableRow>)
    ensures |r| == |ts|
    ensures forall i :: 0 <= i < |ts| ==>
      r[i].id == ts[i].id && r[i].size == ts[i].size && r[i].inside == ts[i].inside
    ensures forall i :: 0 <= i < |ts| && ts[i].id == id ==> r[i].x == x && r[i].y == y
    ensures forall i :: 0 <= i < |ts| && ts[i].id != id ==> r[i] == ts[i]
  {
    Map(ts, (t: TableRow) => if t.id == id then t.(x := x, y := y) else t)
  }

  /** The rows of `tables` with id `id` (those an UPDATE or DELETE by id touches). */
  function TablesWithId(ts: seq<TableRow>, id: int): (m: seq<TableRow>)
    ensures forall t :: t in m <==> t in ts && t.id == id
  {
    Filter(ts, (t: TableRow) => t.id == id)
  }

  /** The table delete: the rows with that id are dropped. */
  function WithoutTable(ts: seq<TableRow>, id: int): (r: seq<TableRow>)
    ensures forall t :: t in r <==> t in ts && t.id != id
  {
    Filter(ts, (t: TableRow) => t.id != id)
  }

  /** The reservation delete: the rows with that id are dropped. */
  function WithoutReservation(rs: seq<ReservationRow>, id: int): (r: seq<ReservationRow>)
    ensures forall x :: x in r <==> x in rs && x.id != id
  {
    Filter(rs, (x: ReservationRow) => x.id != id)
  }

  predicate UniqueReservationIds(rs: seq<ReservationRow>) {
    forall i, j :: 0 <= i < j < |rs| ==> rs[i].id != rs[j].id
  }

  /** Deleting a table keeps the remaining table ids unique. */
  lemma WithoutTableKeepsUniqueIds(ts: seq<TableRow>, id: int)
    requires UniqueTableIds(ts)
    ensures UniqueTableIds(WithoutTable(ts, id))
  {
    FilterKeepsPairwise(ts, (t: TableRow) => t.id != id, (a: TableRow, b: TableRow) => a.id != b.id);
  }

  /** Deleting a reservation keeps ids unique and same-table, same-location reservations 90 minutes apart. */
  lemma WithoutReservationKeepsInvariants(rs: seq<ReservationRow>, id: int)
    requires UniqueReservationIds(rs) && NoDoubleBooking(rs)
    ensures UniqueReservationIds(WithoutReservation(rs, id))
    ensures NoDoubleBooking(WithoutReservation(rs, id))
  {
    FilterKeepsPairwise(rs, (x: ReservationRow) => x.id != id, (a: ReservationRow, b: ReservationRow) => a.id != b.id);
    FilterKeepsPairwise(rs, (x: ReservationRow) => x.id != id,
      (a: ReservationRow, b: ReservationRow) =>
        a.tableId == b.tableId && a.location == b.location ==> Abs(a.date - b.date) > WindowMinutes);
  }

  /** A deleted table disappears from the position listing; its reservations stay stored. */
  lemma DeletedTableNotListed(ts: seq<TableRow>, rs: seq<ReservationRow>, today: int, id: int)
    ensures forall row :: row in Positions(WithoutTable(ts, id), rs, today) ==> row.id != id
  {
  }

  /**
   * A created table is listed with the position, size and inside flag it was
   * created with, unreserved unless some stored reservation already names its id.
   */
  lemma CreatedTableListed(ts: seq<TableRow>, rs: seq<ReservationRow>, today: int,
                           newId: int, left: int, top: int, size: int, inside: bool)
    ensures var t := TableRow(newId, left, top, size, if inside then 1 else 0);
      var row := PositionRow(newId, left, top, size, inside,
                             exists r :: r in rs && r.tableId == newId && Day(r.date) == today);
      row in Positions(ts + [t], rs, today)
  {
    var t := TableRow(newId, left, top, size, if inside then 1 else 0);
    assert (ts + [t])[|ts|] == t;
  }

  // ---------------------------------------------------------------------------
  // The store
  // ---------------------------------------------------------------------------

  /** The datastore: the `tables` and `reservations` rows and their AUTO_INCREMENT counters. */
  class Store {
    var tables: seq<TableRow>
    var reservations: seq<ReservationRow>
    var nextTableId: int
    var nextReservationId: int

    /**
     * Ids are positive, below their counter and unique; no two reservations
     * with the same table and the same location lie within 90 minutes.
     */
    ghost predicate Valid()
      reads this
    {
      && 1 <= nextTableId
      && 1 <= nextReservationId
      && (forall i :: 0 <= i < |tables| ==> 1 <= tables[i].id < nextTableId)
      && UniqueTableIds(tables)
      && (forall i :: 0 <= i < |reservations| ==> 1 <= reservations[i].id < nextReservationId)
      && UniqueReservationIds(reservations)
      && NoDoubleBooking(reservations)
    }

    constructor ()
      ensures Valid()
      ensures tables == [] && reservations == []
    {
      tables := [];
      reservations := [];
      nextTableId := 1;
      nextReservationId := 1;
    }

    /** `updateTable`: moves the table with that id; reports how many rows matched. */
    method UpdateTable(id: int, x: int, y: int) returns (affected: nat)
      requires Valid()
      modifies this
      ensures Valid()
      ensures tables == SetPosition(old(tables), id, x, y)
      ensures affected == |TablesWithId(old(tables), id)|
      ensures reservations == old(reservations)
      ensures nextTableId == old(nextTableId) && nextReservationId == old(nextReservationId)
    {
      affected := |TablesWithId(tables, id)|;
      tables := SetPosition(tables, id, x, y);
    }

    /** `createTable`: inserts a row with x = left, y = top; resolves the new id. */
    method CreateTable(left: int, top: int, size: int, inside: bool) returns (insertId: int)
      requires Valid()
      modifies this
      ensures Valid()
      ensures insertId == old(nextTableId)
      ensures forall i :: 0 <= i < |old(tables)| ==> old(tables)[i].id != insertId
      ensures tables == old(tables) + [TableRow(insertId, left, top, size, if inside then 1 else 0)]
      ensures reservations == old(reservations)
      ensures nextTableId == insertId + 1 && nextReservationId == old(nextReservationId)
    {
      insertId := nextTableId;
      tables := tables + [TableRow(insertId, left, top, size, if inside then 1 else 0)];
      nextTableId := nextTableId + 1;
    }

    /** `deleteTable`: removes that table's row; reservations naming it are kept (no cascade). */
    method DeleteTable(id: int) returns (affected: nat)
      requires Valid()
      modifies this
      ensures Valid()
      ensures tables == WithoutTable(old(tables), id)
      ensures affected == |TablesWithId(old(tables), id)|
      ensures reservations == old(reservations)
      ensures nextTableId == old(nextTableId) && nextReservationId == old(nextReservationId)
    {
      affected := |TablesWithId(tables, id)|;
      WithoutTableKeepsUniqueIds(tables, id);
      tables := WithoutTable(tables, id);
    }

    /** `getTablePositions`, today being the calendar day of the query. */
    method GetTablePositions(today: int) returns (rows: seq<PositionRow>)
      ensures rows == Positions(tables, reservations, today)
    {
      rows := Positions(tables, reservations, today);
    }

    /** `getAvailableTables(location, date)`. */
    method GetAvailableTables(location: string, date: int) returns (rows: seq<AvailableRow>)
      ensures rows == Available(tables, reservations, location, date)
    {
      rows := Available(tables, reservations, location, date);
    }

    /**
     * `createReservation`: the conflict query, then the insert when it found
     * nothing. Rejects, leaving the store as it was, exactly when a stored
     * reservation for the same table and location lies within 90 minutes.
     */
    method CreateReservation(tableId: int, quantity: int, date: int, location: string, userId: int)
      returns (outcome: ReserveOutcome)
      requires Valid()
      modifies this
      ensures Valid()
      ensures outcome.Rejected? <==>
        exists i :: 0 <= i < |old(reservations)|
          && old(reservations)[i].tableId == tableId && old(reservations)[i].location == location
          && Abs(date - old(reservations)[i].date) <= WindowMinutes
      ensures outcome.Rejected? ==>
        outcome.message == ConflictMessage && reservations == old(reservations)
        && nextReservationId == old(nextReservationId)
      ensures outcome.Reserved? ==>
        outcome.insertId == old(nextReservationId) && nextReservationId == old(nextReservationId) + 1
        && reservations == old(reservations) + [ReservationRow(outcome.insertId, tableId, quantity, date, location, userId)]
      ensures tables == old(tables) && nextTableId == old(nextTableId)
    {
      var conflicts := ConflictIds(reservations, tableId, location, date);
      if |conflicts| > 0 {
        outcome := Rejected(ConflictMessage);
      } else {
        var row := ReservationRow(nextReservationId, tableId, quantity, date, location, userId);
        AcceptedKeepsNoDoubleBooking(reservations, row);
        reservations := reservations + [row];
        nextReservationId := nextReservationId + 1;
        outcome := Reserved(row.id);
      }
    }

    /** `getUserReservations(userId)`. */
    method GetUserReservations(userId: int) returns (rows: seq<UserReservationRow>)
      ensures rows == UserReservations(reservations, tables, userId)
    {
      rows := UserReservations(reservations, tables, userId);
    }

    /** `deleteReservation`: removes that reservation's row, whoever owns it. */
    method DeleteReservation(reservationId: int) returns (affected: nat)
      requires Valid()
      modifies this
      ensures Valid()
      ensures reservations == WithoutReservation(old(reservations), reservationId)
      ensures affected == |old(reservations)| - |reservations|
      ensures tables == old(tables)
      ensures nextTableId == old(nextTableId) && nextReservationId == old(nextReservationId)
    {
      WithoutReservationKeepsInvariants(reservations, reservationId);
      var kept := WithoutReservation(reservations, reservationId);
      affected := |reservations| - |kept|;
      reservations := kept;
    }
  }

  /**
   * An end-to-end scenario: a new table is listed
   * unreserved; a request 30 minutes from an existing reservation on it is
   * rejected with the conflict message; one 120 minutes away is accepted.
   */
  method ReservationScenario(today: int)
  {
    var store := new Store();
    var tableId := store.CreateTable(10, 20, 4, true);
    var rows := store.GetTablePositions(today);
    UnreservedTableListedOnce(store.tables, store.reservations, today, 0);
    assert RowsWithId(rows, tableId) == [PositionRow(tableId, 10, 20, 4, true, false)];

    var noon := Midnight(today) + 12 * 60;
    var first := store.CreateReservation(tableId, 4, noon, "inside", 7);
    assert first.Reserved?;
    assert store.reservations[0].date == noon && store.reservations[0].tableId == tableId;
    var second := store.CreateReservation(tableId, 2, noon + 30, "inside", 8);
    assert second == Rejected(ConflictMessage);
    var third := store.CreateReservation(tableId, 2, noon + 120, "inside", 8);
    assert third.Reserved?;
  }
}
