/**
 * The admin's floor-plan editor (client/src/myComponents/ParentComponent.jsx).
 *
 * Its React state becomes the fields of class `Editor`, its handlers the
 * methods that update them. A table in the list is either transient (a local
 * `tempId`, `isNew`) or persisted (a server `id`). Each network reply is a
 * parameter of the handler that waits for it.
 */
module FloorPlanEditor {
  import opened Wrappers
  import opened Seqs
  import TableStore

  /** A table as the editor holds it; a missing `id` or `tempId` is `None`. */
  datatype EditorTable = EditorTable(
    id: Option<int>, tempId: Option<int>, size: int, left: int, top: int, inside: bool, isNew: bool)

  /** A request the save loop sends: a position update or a create. */
  datatype Request = UpdateRequest(id: int, left: int, top: int) | CreateRequest(table: EditorTable)

  /** The reply to one save request: `response.ok` and the `tableIds` of a create. */
  datatype Reply = Reply(ok: bool, tableIds: seq<int>)

  /** The save loop's progress: the table list, the requests sent, and where it stopped. */
  datatype SaveState = SaveState(tables: seq<EditorTable>, sent: seq<Request>, failedAt: Option<nat>)

  /** JavaScript truthiness of an optional number: present and not 0. */
  predicate Truthy(v: Option<int>) {
    v.Some? && v.value != 0
  }

  /** Whether `t` carries `id` as its server id or as its temporary id. */
  predicate HasIdentity(t: EditorTable, id: int) {
    t.id == Some(id) || t.tempId == Some(id)
  }

  predicate TempIdsDiffer(a: EditorTable, b: EditorTable) {
    a.tempId.Some? ==> a.tempId != b.tempId
  }

  predicate DistinctTempIds(ts: seq<EditorTable>) {
    forall i, j :: 0 <= i < j < |ts| ==> TempIdsDiffer(ts[i], ts[j])
  }

  /**
   * The editor's invariant: the counter is positive and above every `tempId`,
   * `tempId`s are pairwise distinct, and no table carries both identities.
   * Nothing keeps a server `id` apart from a `tempId` (see TempIdMayEqualServerId).
   */
  predicate EditorInvariant(ts: seq<EditorTable>, idCounter: int) {
    && 1 <= idCounter
    && (forall i :: 0 <= i < |ts| && ts[i].tempId.Some? ==> 1 <= ts[i].tempId.value < idCounter)
    && DistinctTempIds(ts)
    && (forall i :: 0 <= i < |ts| ==> ts[i].id.None? || ts[i].tempId.None?)
  }

  // ---------------------------------------------------------------------------
  // Loading, adding, moving
  // ---------------------------------------------------------------------------

  /** A table fetched from `GET /tables` is persisted. */
  function FromServer(row: TableStore.PositionRow): (t: EditorTable)
    ensures t.id == Some(row.id) && t.tempId.None? && !t.isNew
    ensures t.size == row.size && t.left == row.left && t.top == row.top && t.inside == row.inside
  {
    EditorTable(Some(row.id), None, row.size, row.left, row.top, row.inside, false)
  }

  /** The list `fetchTables` stores: the fetched tables, or none when the fetch failed or gave no array. */
  function Loaded(reply: Option<seq<TableStore.PositionRow>>): (ts: seq<EditorTable>)
    ensures reply.None? ==> ts == []
    ensures reply.Some? ==> |ts| == |reply.value|
    ensures reply.Some? ==> forall i :: 0 <= i < |ts| ==> ts[i] == FromServer(reply.value[i])
  {
    if reply.Some? then Map(reply.value, FromServer) else []
  }

  /** Freshly loaded tables satisfy the invariant for any positive counter. */
  lemma LoadedKeepsInvariant(reply: Option<seq<TableStore.PositionRow>>, idCounter: int)
    requires 1 <= idCounter
    ensures EditorInvariant(Loaded(reply), idCounter)
  {
  }

  /** The table `handleTableClick` appends. */
  function NewTable(tempId: int, tableSize: int, layoutType: string): (t: EditorTable)
    ensures t.id.None? && t.tempId == Some(tempId) && t.isNew
    ensures t.size == tableSize && t.left == 0 && t.top == 0 && (t.inside <==> layoutType == "inside")
  {
    EditorTable(None, Some(tempId), tableSize, 0, 0, layoutType == "inside", true)
  }

  /** The appended table's `tempId` is new, and appending it and counting up keeps the invariant. */
  lemma {:induction false} AddKeepsInvariant(ts: seq<EditorTable>, idCounter: int, tableSize: int, layoutType: string)
    requires EditorInvariant(ts, idCounter)
    ensures forall i :: 0 <= i < |ts| ==> ts[i].tempId != Some(idCounter)
    ensures EditorInvariant(ts + [NewTable(idCounter, tableSize, layoutType)], idCounter + 1)
  {
    var all := ts + [NewTable(idCounter, tableSize, layoutType)];
    forall i, j | 0 <= i < j < |all| ensures TempIdsDiffer(all[i], all[j]) {
      if j < |ts| {
        assert all[i] == ts[i] && all[j] == ts[j];
      } else {
        assert all[i] == ts[i];
      }
    }
  }

  /**
   * The editor does not keep server ids apart from `tempId`s: a fetched table
   * with id 1 and a new table with `tempId` 1 coexist, and looking up 1 finds
   * the fetched one.
   */
  lemma TempIdMayEqualServerId()
    ensures var ts := Loaded(Some([TableStore.PositionRow(1, 0, 0, 4, true, false)]));
      var added := ts + [NewTable(1, 2, "inside")];
      && EditorInvariant(ts, 1)
      && EditorInvariant(added, 2)
      && added[0].id == added[1].tempId
      && FindIndex(added, 1) == Some(0)
  {
    var ts := Loaded(Some([TableStore.PositionRow(1, 0, 0, 4, true, false)]));
    AddKeepsInvariant(ts, 1, 2, "inside");
  }

  /** `handleTableMove`: the updater's `map` over the list. */
  function MoveTo(ts: seq<EditorTable>, id: int, left: int, top: int): (r: seq<EditorTable>)
    ensures |r| == |ts|
    ensures forall i :: 0 <= i < |ts| ==>
      && r[i].id == ts[i].id && r[i].tempId == ts[i].tempId && r[i].isNew == ts[i].isNew
      && r[i].size == ts[i].size && r[i].inside == ts[i].inside
    ensures forall i :: 0 <= i < |ts| && HasIdentity(ts[i], id) ==> r[i].left == left && r[i].top == top
    ensures forall i :: 0 <= i < |ts| && !HasIdentity(ts[i], id) ==> r[i] == ts[i]
  {
    Map(ts, (t: EditorTable) => if HasIdentity(t, id) then t.(left := left, top := top) else t)
  }

  // ---------------------------------------------------------------------------
  // Deleting
  // ---------------------------------------------------------------------------

  /** The lookup in `handleDeleteTable`, as an index: the first table carrying `id` as either identity. */
  function FindIndex(ts: seq<EditorTable>, id: int): (k: Option<nat>)
    ensures k.Some? ==> k.value < |ts| && HasIdentity(ts[k.value], id)
    ensures k.Some? ==> forall j :: 0 <= j < k.value ==> !HasIdentity(ts[j], id)
    ensures k.None? ==> forall j :: 0 <= j < |ts| ==> !HasIdentity(ts[j], id)
  {
    if ts == [] then None
    else if HasIdentity(ts[0], id) then Some(0)
    else
      match FindIndex(ts[1..], id)
      case None => None
      case Some(k) => Some(k + 1)
  }

  /** Deleting a transient table: drops exactly the entries with that `tempId`, keeping the order. */
  function WithoutTransient(ts: seq<EditorTable>, id: int): (r: seq<EditorTable>)
    ensures forall t :: t in r <==> t in ts && t.tempId != Some(id)
  {
    Filter(ts, (t: EditorTable) => t.tempId != Some(id))
  }

  /** Deleting a persisted table: drops exactly the entries with that server `id`, keeping the order. */
  function WithoutPersisted(ts: seq<EditorTable>, id: int): (r: seq<EditorTable>)
    ensures forall t :: t in r <==> t in ts && t.id != Some(id)
  {
    Filter(ts, (t: EditorTable) => t.id != Some(id))
  }

  /** Dropping entries from the list keeps the invariant. */
  lemma FilterKeepsInvariant(ts: seq<EditorTable>, idCounter: int, p: EditorTable -> bool)
    requires EditorInvariant(ts, idCounter)
    ensures EditorInvariant(Filter(ts, p), idCounter)
  {
    var r := Filter(ts, p);
    FilterKeepsPairwise(ts, p, TempIdsDiffer);
    forall i | 0 <= i < |r|
      ensures (r[i].tempId.Some? ==> 1 <= r[i].tempId.value < idCounter)
      ensures r[i].id.None? || r[i].tempId.None?
    {
      assert r[i] in ts;
    }
  }

  // ---------------------------------------------------------------------------
  // Saving
  // ---------------------------------------------------------------------------

  /** The first id of a create reply, absent when the reply lists none. */
  function FirstId(tableIds: seq<int>): Option<int> {
    if |tableIds| > 0 then Some(tableIds[0]) else None
  }

  /** A transient table after its create succeeded. */
  function Promoted(t: EditorTable, newId: Option<int>): (p: EditorTable)
    ensures p.id == newId && p.tempId.None? && !p.isNew
    ensures p.size == t.size && p.left == t.left && p.top == t.top && p.inside == t.inside
  {
    t.(id := newId, tempId := None, isNew := false)
  }

  /** The promotion updater: every entry with that `tempId` is promoted in place; the rest stay. */
  function Promote(ts: seq<EditorTable>, tempId: int, newId: Option<int>): (r: seq<EditorTable>)
    ensures |r| == |ts|
    ensures forall i :: 0 <= i < |ts| && ts[i].tempId == Some(tempId) ==> r[i] == Promoted(ts[i], newId)
    ensures forall i :: 0 <= i < |ts| && ts[i].tempId != Some(tempId) ==> r[i] == ts[i]
  {
    Map(ts, (t: EditorTable) => if t.tempId == Some(tempId) then Promoted(t, newId) else t)
  }

  /** Promotion keeps the invariant. */
  lemma PromoteKeepsInvariant(ts: seq<EditorTable>, idCounter: int, tempId: int, newId: Option<int>)
    requires EditorInvariant(ts, idCounter)
    ensures EditorInvariant(Promote(ts, tempId, newId), idCounter)
  {
    var r := Promote(ts, tempId, newId);
    forall i, j | 0 <= i < j < |r| ensures TempIdsDiffer(r[i], r[j]) {
      assert TempIdsDiffer(ts[i], ts[j]);
    }
  }

  /** A persisted table that is not new gets a position update. */
  predicate IsUpdate(t: EditorTable) {
    Truthy(t.id) && !t.isNew
  }

  /** Otherwise a table with a `tempId` gets a create. */
  predicate IsCreate(t: EditorTable) {
    !IsUpdate(t) && Truthy(t.tempId)
  }

  predicate Issues(t: EditorTable) {
    IsUpdate(t) || IsCreate(t)
  }

  function RequestFor(t: EditorTable): (q: Request)
    requires Issues(t)
  {
    if IsUpdate(t) then UpdateRequest(t.id.value, t.left, t.top) else CreateRequest(t)
  }

  /** The requests a run over `ts` sends when nothing fails, in order. */
  function RequestsOf(ts: seq<EditorTable>): seq<Request> {
    if ts == [] then []
    else
      var last := ts[|ts| - 1];
      RequestsOf(ts[..|ts| - 1]) + (if Issues(last) then [RequestFor(last)] else [])
  }

  /** The reply to the request for the `k`-th table; a missing reply counts as a failure. */
  function ReplyAt(replies: seq<Reply>, k: nat): Reply {
    if k < |replies| then replies[k] else Reply(false, [])
  }

  /** One iteration of the save loop, for the `k`-th table `t` of the snapshot. */
  function SaveStep(s: SaveState, k: nat, t: EditorTable, reply: Reply): SaveState {
    if !Issues(t) then s
    else
      var sent := s.sent + [RequestFor(t)];
      if !reply.ok then SaveState(s.tables, sent, Some(k))
      else if IsCreate(t) then SaveState(Promote(s.tables, t.tempId.value, FirstId(reply.tableIds)), sent, s.failedAt)
      else SaveState(s.tables, sent, s.failedAt)
  }

  /** The save loop after the first `n` tables of the snapshot; it stops at the first failure. */
  function SaveRun(snapshot: seq<EditorTable>, replies: seq<Reply>, n: nat): SaveState
    requires n <= |snapshot|
  {
    if n == 0 then SaveState(snapshot, [], None)
    else
      var s := SaveRun(snapshot, replies, n - 1);
      if s.failedAt.Some? then s else SaveStep(s, n - 1, snapshot[n - 1], ReplyAt(replies, n - 1))
  }

  /** Once the loop has stopped, later tables change nothing. */
  lemma {:induction false} SaveRunStaysStopped(snapshot: seq<EditorTable>, replies: seq<Reply>, m: nat, n: nat)
    requires m <= n <= |snapshot|
    requires SaveRun(snapshot, replies, m).failedAt.Some?
    ensures SaveRun(snapshot, replies, n) == SaveRun(snapshot, replies, m)
  {
    if n > m {
      SaveRunStaysStopped(snapshot, replies, m, n - 1);
    }
  }

  /**
   * The requests of a save: when nothing failed, one per table that needs one,
   * in order, all answered ok; when the `k`-th table's request failed, the
   * requests up to and including that one, every earlier one answered ok.
   */
  lemma {:induction false} SaveRunRequests(snapshot: seq<EditorTable>, replies: seq<Reply>, n: nat)
    requires n <= |snapshot|
    ensures var s := SaveRun(snapshot, replies, n);
      && (s.failedAt.None? ==>
            && s.sent == RequestsOf(snapshot[..n])
            && forall j :: 0 <= j < n && Issues(snapshot[j]) ==> ReplyAt(replies, j).ok)
      && (s.failedAt.Some? ==>
            && s.failedAt.value < n
            && Issues(snapshot[s.failedAt.value]) && !ReplyAt(replies, s.failedAt.value).ok
            && (forall j :: 0 <= j < s.failedAt.value && Issues(snapshot[j]) ==> ReplyAt(replies, j).ok)
            && s.sent == RequestsOf(snapshot[..s.failedAt.value + 1]))
  {
    if n > 0 {
      SaveRunRequests(snapshot, replies, n - 1);
      assert snapshot[..n][..n - 1] == snapshot[..n - 1];
    }
  }

  /** How many tables the loop got through without a failure. */
  function Completed(s: SaveState, n: nat): nat {
    if s.failedAt.Some? then s.failedAt.value else n
  }

  /**
   * The table list after a save, entry by entry: length and order are kept;
   * every table that needed a create and was got through is promoted with the
   * id from its reply; every other entry is as in the snapshot. Promotions made
   * before a failure stay (no rollback).
   */
  lemma {:induction false} SaveRunTables(snapshot: seq<EditorTable>, replies: seq<Reply>, n: nat)
    requires n <= |snapshot|
    requires DistinctTempIds(snapshot)
    ensures var s := SaveRun(snapshot, replies, n);
      && Completed(s, n) <= n
      && |s.tables| == |snapshot|
      && forall j :: 0 <= j < |snapshot| ==>
           s.tables[j] == if j < Completed(s, n) && IsCreate(snapshot[j])
                          then Promoted(snapshot[j], FirstId(ReplyAt(replies, j).tableIds))
                          else snapshot[j]
  {
    if n > 0 {
      SaveRunTables(snapshot, replies, n - 1);
      SaveRunRequests(snapshot, replies, n - 1);
      var prev := SaveRun(snapshot, replies, n - 1);
      var t := snapshot[n - 1];
      var reply := ReplyAt(replies, n - 1);
      if prev.failedAt.None? && Issues(t) && reply.ok && IsCreate(t) {
        var s := SaveRun(snapshot, replies, n);
        var v := t.tempId.value;
        forall j | 0 <= j < |snapshot|
          ensures s.tables[j] == if j < n && IsCreate(snapshot[j])
                                 then Promoted(snapshot[j], FirstId(ReplyAt(replies, j).tableIds))
                                 else snapshot[j]
        {
          if j < n - 1 {
            assert TempIdsDiffer(snapshot[j], t);
          } else if j > n - 1 {
            assert TempIdsDiffer(t, snapshot[j]);
          }
        }
      }
    }
  }

  // ---------------------------------------------------------------------------
  // The view
  // ---------------------------------------------------------------------------

  /** The list handed to the layout: the tables of the active view. */
  function ViewFilter(ts: seq<EditorTable>, insideLayout: bool): (v: seq<EditorTable>)
    ensures forall t :: t in v <==> t in ts && t.inside == insideLayout
  {
    Filter(ts, (t: EditorTable) => t.inside == insideLayout)
  }

  /** The view keeps the list's order: it distributes over concatenation. */
  lemma ViewKeepsOrder(a: seq<EditorTable>, b: seq<EditorTable>, insideLayout: bool)
    ensures ViewFilter(a + b, insideLayout) == ViewFilter(a, insideLayout) + ViewFilter(b, insideLayout)
  {
    FilterConcat(a, b, (t: EditorTable) => t.inside == insideLayout);
  }

  /** The inside view and the outside view together hold every table of the list exactly once. */
  lemma ViewsPartition(ts: seq<EditorTable>)
    ensures multiset(ViewFilter(ts, true)) + multiset(ViewFilter(ts, false)) == multiset(ts)
    ensures |ViewFilter(ts, true)| + |ViewFilter(ts, false)| == |ts|
  {
    FilterSplits(ts, (t: EditorTable) => t.inside == true, (t: EditorTable) => t.inside == false);
  }

  // ---------------------------------------------------------------------------
  // The component's state
  // ---------------------------------------------------------------------------

  class Editor {
    var tables: seq<EditorTable>
    var selectedTable: Option<int>
    var idCounter: int
    var insideLayout: bool

    ghost predicate Valid()
      reads this
    {
      EditorInvariant(tables, idCounter)
    }

    /** The initial state: no tables, nothing selected, counter 1, inside view. */
    constructor ()
      ensures Valid()
      ensures tables == [] && selectedTable.None? && idCounter == 1 && insideLayout
    {
      tables := [];
      selectedTable := None;
      idCounter := 1;
      insideLayout := true;
    }

    /** The mount effect `fetchTables`, given the reply (`None`: failed or not an array). */
    method LoadTables(reply: Option<seq<TableStore.PositionRow>>)
      requires Valid()
      modifies this
      ensures Valid()
      ensures tables == Loaded(reply)
      ensures selectedTable == old(selectedTable) && idCounter == old(idCounter)
      ensures insideLayout == old(insideLayout)
    {
      LoadedKeepsInvariant(reply, idCounter);
      tables := Loaded(reply);
    }

    /** `handleTableClick`: appends a transient table, selects it, counts up. */
    method AddTable(tableSize: int, layoutType: string)
      requires Valid()
      modifies this
      ensures Valid()
      ensures tables == old(tables) + [NewTable(old(idCounter), tableSize, layoutType)]
      ensures selectedTable == Some(old(idCounter)) && idCounter == old(idCounter) + 1
      ensures insideLayout == old(insideLayout)
    {
      AddKeepsInvariant(tables, idCounter, tableSize, layoutType);
      tables := tables + [NewTable(idCounter, tableSize, layoutType)];
      selectedTable := Some(idCounter);
      idCounter := idCounter + 1;
    }

    /** `handleLayoutChange`. */
    method ChangeLayout(layout: string)
      modifies this
      ensures insideLayout == (layout == "inside")
      ensures tables == old(tables) && selectedTable == old(selectedTable) && idCounter == old(idCounter)
    {
      insideLayout := layout == "inside";
    }

    /** `handleTableMove`. */
    method MoveTable(id: int, left: int, top: int)
      requires Valid()
      modifies this
      ensures Valid()
      ensures tables == MoveTo(old(tables), id, left, top)
      ensures selectedTable == old(selectedTable) && idCounter == old(idCounter)
      ensures insideLayout == old(insideLayout)
    {
      tables := MoveTo(tables, id, left, top);
    }

    /**
     * `handleDeleteTable`, given whether the DELETE reply is ok. A found table
     * with a server id is deleted by request and dropped only on an ok reply;
     * otherwise the entries with that `tempId` are dropped without a request.
     * Returns the id the request names, if one is sent.
     */
    method DeleteTable(id: int, replyOk: bool) returns (request: Option<int>)
      requires Valid()
      modifies this
      ensures Valid()
      ensures var k := FindIndex(old(tables), id);
        if k.Some? && Truthy(old(tables)[k.value].id) then
          request == Some(id) && tables == (if replyOk then WithoutPersisted(old(tables), id) else old(tables))
        else
          request.None? && tables == WithoutTransient(old(tables), id)
      ensures selectedTable == old(selectedTable) && idCounter == old(idCounter)
      ensures insideLayout == old(insideLayout)
    {
      var k := FindIndex(tables, id);
      if k.Some? && Truthy(tables[k.value].id) {
        request := tables[k.value].id;
        if replyOk {
          FilterKeepsInvariant(tables, idCounter, (t: EditorTable) => t.id != Some(id));
          tables := WithoutPersisted(tables, id);
        }
      } else {
        request := None;
        FilterKeepsInvariant(tables, idCounter, (t: EditorTable) => t.tempId != Some(id));
        tables := WithoutTransient(tables, id);
      }
    }

    /**
     * `handleSaveTables`, given the reply to each table's request (by its
     * position in the list). Walks the list as it was when the save started,
     * sends one request per table that needs one, promotes each created table,
     * and stops at the first failed reply. Returns the requests sent.
     */
    method SaveTables(replies: seq<Reply>) returns (sent: seq<Request>)
      requires Valid()
      modifies this
      ensures Valid()
      ensures var s := SaveRun(old(tables), replies, |old(tables)|);
        tables == s.tables && sent == s.sent
      ensures selectedTable == old(selectedTable) && idCounter == old(idCounter)
      ensures insideLayout == old(insideLayout)
    {
      var snapshot := tables;
      sent := [];
      var i := 0;
      while i < |snapshot|
        invariant 0 <= i <= |snapshot|
        invariant SaveRun(snapshot, replies, i) == SaveState(tables, sent, None)
        invariant EditorInvariant(tables, idCounter)
        invariant selectedTable == old(selectedTable) && idCounter == old(idCounter)
        invariant insideLayout == old(insideLayout)
      {
        var t := snapshot[i];
        var reply := ReplyAt(replies, i);
        if Truthy(t.id) && !t.isNew {
          sent := sent + [UpdateRequest(t.id.value, t.left, t.top)];
          if !reply.ok {
            SaveRunStaysStopped(snapshot, replies, i + 1, |snapshot|);
            return;
          }
        } else if Truthy(t.tempId) {
          sent := sent + [CreateRequest(t)];
          if !reply.ok {
            SaveRunStaysStopped(snapshot, replies, i + 1, |snapshot|);
            return;
          }
          PromoteKeepsInvariant(tables, idCounter, t.tempId.value, FirstId(reply.tableIds));
          tables := Promote(tables, t.tempId.value, FirstId(reply.tableIds));
        }
        i := i + 1;
      }
    }
  }
}
