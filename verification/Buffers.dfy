/**
 * The in-memory buffer of one table: rows compacted per primary key, a running size and the flags
 * that steer the merge.
 */
module Buffers {
  import opened Values
  import opened Texts
  import opened Sizes
  import opened ColumnLists
  import opened Replay

  datatype Message = Kafka(partition: string, offset: nat) | PubSub(id: nat)
  {
    function Partition(): string {
      if Kafka? then partition else "no_partition"
    }
  }

  /** The state of a TableData as a value. */
  datatype Buffer = Buffer(
    history: bool,
    softDelete: bool,
    primaryKeys: seq<string>,
    columns: seq<Column>,
    rowsData: map<string, Row>,       // replication mode: primary-key text to row
    rows: seq<Row>,                   // history mode
    approxSize: int,
    containOtherOperations: bool,
    containsHardDeletes: bool,
    lastMessages: map<string, seq<Message>>)

  function NewBuffer(history: bool, softDelete: bool, primaryKeys: seq<string>, columns: seq<Column>): Buffer {
    Buffer(history, softDelete, primaryKeys, columns, map[], [], 0, false, false, map[])
  }

  ghost function AfterInsert(b: Buffer, pk: string, row: Row, deleted: bool): Buffer {
    if b.history then b.(rows := b.rows + [row], approxSize := b.approxSize + RowSize(row))
    else
      var prev := Lookup(b.rowsData, pk);
      var resolved := Resolved(prev, row);
      b.(rowsData := b.rowsData[pk := resolved],
         approxSize := b.approxSize + RowSize(resolved) - (if prev.Some? then RowSize(prev.value) else 0),
         containOtherOperations := b.containOtherOperations || !deleted,
         containsHardDeletes := b.containsHardDeletes || (!b.softDelete && deleted))
  }

  function NumberOfRows(b: Buffer): nat {
    if b.history then |b.rows| else |b.rowsData|
  }

  /** Kafka needs only the latest message of a partition, Pub/Sub every one. */
  function Remembered(messages: map<string, seq<Message>>, m: Message): map<string, seq<Message>> {
    messages[m.Partition() :=
      if m.Kafka? then [m]
      else (if m.Partition() in messages then messages[m.Partition()] else []) + [m]]
  }

  function RememberedAll(messages: map<string, seq<Message>>, ms: seq<Message>): map<string, seq<Message>> {
    if ms == [] then messages else Remembered(RememberedAll(messages, ms[..|ms| - 1]), ms[|ms| - 1])
  }

  /** Of Pub/Sub's messages every one is remembered, in the order in which they came. */
  lemma {:induction false} PubSubRemembersAll(ms: seq<Message>)
    requires forall m :: m in ms ==> m.PubSub?
    ensures RememberedAll(map[], ms) == if ms == [] then map[] else map["no_partition" := ms]
  {
    if ms != [] {
      var front, last := ms[..|ms| - 1], ms[|ms| - 1];
      assert last in ms && ms == front + [last];
      forall m | m in front ensures m.PubSub? { assert m in ms; }
      PubSubRemembersAll(front);
      PubSubStep(RememberedAll(map[], front), front, last);
    }
  }

  lemma PubSubStep(before: map<string, seq<Message>>, front: seq<Message>, last: Message)
    requires before == (if front == [] then map[] else map["no_partition" := front]) && last.PubSub?
    ensures Remembered(before, last) == map["no_partition" := front + [last]]
  {
    if front == [] { assert [] + [last] == [last]; }
  }

  /** Of Kafka's messages the last one of each partition is remembered. */
  lemma {:induction false} KafkaRemembersLast(ms: seq<Message>, p: string)
    requires forall m :: m in ms ==> m.Kafka?
    ensures p in RememberedAll(map[], ms) <==> exists i :: 0 <= i < |ms| && ms[i].partition == p
    ensures p in RememberedAll(map[], ms) ==>
      exists i :: 0 <= i < |ms| && ms[i].partition == p && RememberedAll(map[], ms)[p] == [ms[i]]
        && forall j :: i < j < |ms| ==> ms[j].partition != p
  {
    if ms != [] {
      var front, last := ms[..|ms| - 1], ms[|ms| - 1];
      assert last in ms && ms == front + [last] && forall m :: m in front ==> m in ms;
      KafkaRemembersLast(front, p);
      if last.partition == p {
        assert RememberedAll(map[], ms)[p] == [ms[|ms| - 1]];
      } else if p in RememberedAll(map[], front) {
        var i :| 0 <= i < |front| && front[i].partition == p && RememberedAll(map[], front)[p] == [front[i]]
          && forall j :: i < j < |front| ==> front[j].partition != p;
        assert ms[i] == front[i] && forall j :: i < j < |ms| ==> ms[j].partition != p;
      } else {
        assert forall i :: 0 <= i < |front| ==> front[i] == ms[i];
      }
    }
  }

  /**
   * The destination's column of the same lower-cased name decides the kind, unless it would lose a decimal's
   * precision.
   */
  function Reconciled(col: Column, destination: seq<Column>): Column {
    match Find(destination, ToLower(col.name))
    case None => col
    case Some(found) =>
      col.(kind := if col.kind == EDecimal && found.kind == Integer then col.kind else found.kind,
           backfilled := found.backfilled)
  }

  /**
   * Kind and backfill state are those of the destination's column, but a decimal stays one against an
   * integer; everything else of the column stays.
   */
  lemma ReconciledIs(col: Column, destination: seq<Column>, i: nat)
    requires Distinct(destination)
    ensures var now := Reconciled(col, destination);
      && now.name == col.name && now.primaryKey == col.primaryKey
      && now.toast == col.toast && now.default == col.default
      && (i < |destination| && destination[i].name == ToLower(col.name) ==>
            && now.backfilled == destination[i].backfilled
            && (col.kind == EDecimal && destination[i].kind == Integer ==> now.kind == EDecimal)
            && (!(col.kind == EDecimal && destination[i].kind == Integer) ==> now.kind == destination[i].kind))
      && (ToLower(col.name) !in Names(destination) ==> now == col)
  {
    if i < |destination| && destination[i].name == ToLower(col.name) { FoundAt(destination, i); }
  }

  function ReconciledAll(cols: seq<Column>, destination: seq<Column>): seq<Column> {
    seq(|cols|, i requires 0 <= i < |cols| => Reconciled(cols[i], destination))
  }

  /** Reconciling moves no column. */
  lemma PartlyReconciled(all: seq<Column>, cols: seq<Column>, destination: seq<Column>, i: nat)
    requires Distinct(all) && |cols| == |all| && i < |all|
    requires forall k :: 0 <= k < i ==> cols[k] == Reconciled(all[k], destination)
    requires forall k :: i <= k < |all| ==> cols[k] == all[k]
    ensures Position(cols, all[i].name) == i
  {
    assert forall k :: 0 <= k < i ==> cols[k].name == all[k].name;
  }

  class TableData {
    const history: bool
    const softDelete: bool
    const primaryKeys: seq<string>
    var inMemoryColumns: Columns
    var rowsData: map<string, Row>
    var rows: seq<Row>
    var approxSize: int
    var containOtherOperations: bool
    var containsHardDeletes: bool
    var partitionsToLastMessage: map<string, seq<Message>>
    var latestCdcTime: int

    function View(): Buffer
      reads this, inMemoryColumns
    {
      Buffer(history, softDelete, primaryKeys, inMemoryColumns.columns, rowsData, rows, approxSize,
        containOtherOperations, containsHardDeletes, partitionsToLastMessage)
    }

    constructor (columns: Columns, history: bool, softDelete: bool, primaryKeys: seq<string>)
      ensures inMemoryColumns == columns
      ensures View() == NewBuffer(history, softDelete, primaryKeys, columns.columns)
    {
      this.history, this.softDelete, this.primaryKeys := history, softDelete, primaryKeys;
      inMemoryColumns := columns;
      rowsData, rows, approxSize := map[], [], 0;
      containOtherOperations, containsHardDeletes := false, false;
      partitionsToLastMessage, latestCdcTime := map[], 0;
    }

    /** Resolves placeholders from the buffered row of the same key and keeps size and flags current. */
    method InsertRow(pk: string, rowData: Row, delete: bool)
      modifies this`rowsData, this`rows, this`approxSize, this`containOtherOperations, this`containsHardDeletes
      ensures View() == AfterInsert(old(View()), pk, rowData, delete)
    {
      if history {
        rows := rows + [rowData];
        var size := GetApproxSize(Object(rowData));
        approxSize := approxSize + size;
        return;
      }

      var row := rowData;
      var prevRowSize := 0;
      if pk in rowsData {
        var prevRow := rowsData[pk];
        prevRowSize := GetApproxSize(Object(prevRow));
        row := CopyFromPrevious(prevRow, rowData);
      }

      ghost var after := AfterInsert(View(), pk, rowData, delete);
      assert row == Resolved(Lookup(rowsData, pk), rowData);
      var newRowSize := GetApproxSize(Object(row));
      approxSize := approxSize + newRowSize - prevRowSize;
      assert approxSize == after.approxSize;
      rowsData := rowsData[pk := row];
      if !delete && !containOtherOperations { containOtherOperations := true; }
      if !containsHardDeletes && !softDelete && delete { containsHardDeletes := true; }
    }

    /** The loop of InsertRow over the cells of the new row, in whatever order they come. */
    static method CopyFromPrevious(prevRow: Row, rowData: Row) returns (row: Row)
      ensures row == Resolved(Some(prevRow), rowData)
    {
      row := rowData;
      var todo := rowData.Keys;
      ghost var resolved := Resolved(Some(prevRow), rowData);
      while todo != {}
        invariant todo <= rowData.Keys == row.Keys
        invariant forall key :: key in rowData ==> row[key] == if key in todo then rowData[key] else resolved[key]
        decreases |todo|
      {
        var key :| key in todo;
        todo := todo - {key};
        if row[key] == Toast && key in prevRow {
          row := row[key := prevRow[key]];
        }
      }
      assert row == resolved;
    }

    /** A copy of the columns, rebuilt one column at a time. */
    method ReadOnlyInMemoryCols() returns (cols: Columns)
      requires Distinct(inMemoryColumns.columns)
      ensures fresh(cols) && cols.columns == inMemoryColumns.columns
    {
      cols := new Columns();
      var all := inMemoryColumns.columns;
      for i := 0 to |all|
        invariant fresh(cols) && cols.columns == all[..i]
        invariant inMemoryColumns == old(inMemoryColumns) && inMemoryColumns.columns == all
      {
        assert all[..i + 1] == all[..i] + [all[i]];
        cols.AddColumn(all[i]);
      }
    }

    method AddInMemoryCol(col: Column)
      modifies inMemoryColumns
      ensures inMemoryColumns.columns == Added(old(inMemoryColumns.columns), col)
    {
      inMemoryColumns.AddColumn(col);
    }

    method SetInMemoryColumns(cols: Columns)
      modifies this`inMemoryColumns
      ensures inMemoryColumns == cols
    {
      inMemoryColumns := cols;
    }

    method RememberMessage(message: Message)
      modifies this`partitionsToLastMessage
      ensures partitionsToLastMessage == Remembered(old(partitionsToLastMessage), message)
    {
      var partition := message.Partition();
      if message.Kafka? {
        partitionsToLastMessage := partitionsToLastMessage[partition := [message]];
      } else {
        var earlier := if partition in partitionsToLastMessage then partitionsToLastMessage[partition] else [];
        partitionsToLastMessage := partitionsToLastMessage[partition := earlier + [message]];
      }
    }

    method ShouldFlush(bufferRows: nat, flushSizeKb: int) returns (flush: bool, reason: string)
      ensures flush <==> NumberOfRows(View()) > bufferRows || approxSize > flushSizeKb * 1024
      ensures reason == if NumberOfRows(View()) > bufferRows then "rows" else if flush then "size" else ""
    {
      var n := if history then |rows| else |rowsData|;
      if n > bufferRows { return true, "rows"; }
      if approxSize > flushSizeKb * 1024 { return true, "size"; }
      return false, "";
    }

    /** Takes the column kinds from the destination, keeping the in-memory metadata. */
    method MergeColumnsFromDestination(destCols: seq<Column>)
      requires Distinct(inMemoryColumns.columns)
      modifies inMemoryColumns
      ensures inMemoryColumns.columns == ReconciledAll(old(inMemoryColumns.columns), destCols)
    {
      var all := inMemoryColumns.columns;
      if destCols == [] {
        assert ReconciledAll(all, destCols) == all;
        return;
      }
      for i := 0 to |all|
        invariant |inMemoryColumns.columns| == |all|
        invariant forall k :: 0 <= k < i ==> inMemoryColumns.columns[k] == Reconciled(all[k], destCols)
        invariant forall k :: i <= k < |all| ==> inMemoryColumns.columns[k] == all[k]
      {
        var col := all[i];
        var found := FindDestination(destCols, col.name);
        if found < |destCols| {
          var kind :=
            if col.kind == EDecimal && destCols[found].kind == Integer then col.kind else destCols[found].kind;
          var updated := col.(kind := kind, backfilled := destCols[found].backfilled);
          assert updated == Reconciled(col, destCols);
          PartlyReconciled(all, inMemoryColumns.columns, destCols, i);
          inMemoryColumns.UpdateColumn(updated);
        }
      }
    }

    static method FindDestination(destCols: seq<Column>, name: string) returns (p: nat)
      ensures p == Position(destCols, ToLower(name))
    {
      p := 0;
      while p < |destCols| && destCols[p].name != ToLower(name)
        invariant p <= |destCols|
        invariant forall d :: 0 <= d < p ==> destCols[d].name != ToLower(name)
      {
        p := p + 1;
      }
    }
  }
}
