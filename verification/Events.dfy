/**
 * Saving an event into the buffer of its table: the columns it brings or reveals, the normalised
 * and placeholder-marked row, and the message to commit later.
 */
module Events {
  import opened Values
  import opened Texts
  import opened ColumnLists
  import opened MergeMeaning
  import opened MergeLaws
  import opened Replay
  import opened Buffers
  import opened TableConfigs
  import PrimaryKeys

  // ---------------------------------------------------------------------------------------------
  // One cell

  /** An object that carries the placeholder as a key is the placeholder. */
  function Sanitized(v: Value): Value {
    if v.Object? && TOAST_PLACEHOLDER in v.fields then Toast else v
  }

  /** The columns after one cell: a placeholder flags its column, a value gives it a kind. */
  function AfterCell(cols: seq<Column>, name: string, value: Value, kind: Kind): seq<Column> {
    if value == Toast then Upserted(cols, name, UpsertArg(Some(true), None, None))
    else match Find(cols, name)
      case None => Added(cols, NewColumn(name, kind))
      case Some(col) => if col.kind == Invalid && kind != Invalid then Replaced(cols, col.(kind := kind)) else cols
  }

  /** Columns only gain: names keep their places, a known kind stays, a flag stays set. */
  ghost predicate Grows(before: seq<Column>, after: seq<Column>) {
    && |before| <= |after|
    && forall i :: 0 <= i < |before| ==>
        && after[i].name == before[i].name && after[i].primaryKey == before[i].primaryKey
        && after[i].backfilled == before[i].backfilled && after[i].default == before[i].default
        && (before[i].kind != Invalid ==> after[i].kind == before[i].kind)
        && (before[i].toast ==> after[i].toast)
  }

  ghost predicate HasFlag(cols: seq<Column>, name: string) {
    Find(cols, name).Some? && Find(cols, name).value.toast
  }

  lemma PositionIs(cols: seq<Column>, i: nat)
    requires Distinct(cols) && i < |cols|
    ensures Position(cols, cols[i].name) == i
  {}

  lemma GrowsKeepsNames(before: seq<Column>, after: seq<Column>, name: string)
    requires Grows(before, after) && Distinct(after)
    ensures Has(before, name) ==> Has(after, name)
    ensures HasFlag(before, name) ==> HasFlag(after, name)
  {
    if Has(before, name) {
      assert after[Position(before, name)].name == name;
      PositionIs(after, Position(before, name));
    }
  }

  lemma AfterCellLaws(cols: seq<Column>, name: string, value: Value, kind: Kind)
    requires Distinct(cols)
    ensures var after := AfterCell(cols, name, value, kind);
      && Distinct(after) && Grows(cols, after)
      && (name != "" ==> Has(after, name))
      && (name != "" && value == Toast ==> HasFlag(after, name))
  {
    var after := AfterCell(cols, name, value, kind);
    var p := Position(cols, name);
    if p < |cols| {
      assert after[p].name == name;
      PositionIs(after, p);
    } else if name != "" {
      assert |after| == |cols| + 1 && after[|cols|].name == name;
      PositionIs(after, |cols|);
    }
  }

  /** With its column present, a cell sets the flag and may settle the kind, and that is all. */
  lemma PresentCell(cols: seq<Column>, name: string, value: Value, kind: Kind)
    requires Distinct(cols) && Has(cols, name)
    ensures var after := AfterCell(cols, name, value, kind);
      |after| == |cols| && forall i :: 0 <= i < |cols| ==>
        after[i] == (if cols[i].name != name then cols[i]
          else if value == Toast then cols[i].(toast := true)
          else if cols[i].kind == Invalid then cols[i].(kind := kind) else cols[i])
  {
    PositionIs(cols, Position(cols, name));
  }

  /** Without it, the column is appended, flagged if the value is the placeholder. */
  lemma NewCell(cols: seq<Column>, name: string, value: Value, kind: Kind)
    requires !Has(cols, name) && name != ""
    ensures var added := NewColumn(name, if value == Toast then Invalid else kind);
      AfterCell(cols, name, value, kind) == cols + [added.(toast := value == Toast)]
  {}

  function Only(name: string): set<string> {
    if name == "" then {} else {name}
  }

  /** The names and flags after one cell, exactly. */
  lemma AfterCellMarks(cols: seq<Column>, name: string, value: Value, kind: Kind)
    requires Distinct(cols)
    ensures var after := AfterCell(cols, name, value, kind);
      && Names(after) == Names(cols) + Only(name)
      && FlaggedNames(after) == FlaggedNames(cols) + if value == Toast then Only(name) else {}
  {
    if Has(cols, name) {
      PresentCellMarks(cols, name, value, kind);
    } else if name != "" {
      NewCell(cols, name, value, kind);
      AppendedNames(cols, NewColumn(name, if value == Toast then Invalid else kind).(toast := value == Toast));
    }
  }

  lemma PresentCellMarks(cols: seq<Column>, name: string, value: Value, kind: Kind)
    requires Distinct(cols) && Has(cols, name)
    ensures var after := AfterCell(cols, name, value, kind);
      && Names(after) == Names(cols) && name in Names(cols)
      && FlaggedNames(after) == FlaggedNames(cols) + if value == Toast then {name} else {}
  {
    PresentCell(cols, name, value, kind);
    var after, p := AfterCell(cols, name, value, kind), Position(cols, name);
    assert cols[p].name == name && after[p].name == name;
    forall x ensures x in Names(after) <==> x in Names(cols) {
      if i :| 0 <= i < |cols| && cols[i].name == x { assert after[i].name == x; }
    }
    forall x ensures x in FlaggedNames(after) <==> x in FlaggedNames(cols) || (value == Toast && x == name) {
      if i :| 0 <= i < |cols| && cols[i].toast && cols[i].name == x { assert after[i].toast && after[i].name == x; }
      if i :| 0 <= i < |after| && after[i].toast && after[i].name == x { assert cols[i].name == x; }
      if value == Toast { assert after[p].toast; }
    }
  }

  lemma AppendedNames(cols: seq<Column>, last: Column)
    ensures Names(cols + [last]) == Names(cols) + {last.name}
    ensures FlaggedNames(cols + [last]) == FlaggedNames(cols) + if last.toast then {last.name} else {}
  {
    var more := cols + [last];
    assert more[|cols|] == last && forall i :: 0 <= i < |cols| ==> more[i] == cols[i];
  }

  /** The kind of a column; one that is not there has none yet. */
  function KindIn(cols: seq<Column>, name: string): Kind {
    if Has(cols, name) then Find(cols, name).value.kind else Invalid
  }

  /** The kind of column `x` once a cell is tracked: a value settles that of its own column, if it is still unknown. */
  function TrackedKind(cols: seq<Column>, name: string, value: Value, kind: Kind, x: string): Kind {
    if x == name && name != "" && value != Toast && KindIn(cols, x) == Invalid then kind else KindIn(cols, x)
  }

  lemma TrackedKinds(cols: seq<Column>, name: string, value: Value, kind: Kind)
    requires Distinct(cols)
    ensures forall x :: KindIn(AfterCell(cols, name, value, kind), x) == TrackedKind(cols, name, value, kind, x)
  {
    forall x ensures KindIn(AfterCell(cols, name, value, kind), x) == TrackedKind(cols, name, value, kind, x) {
      if Has(cols, name) {
        PresentKind(cols, name, value, kind, x);
      } else if name != "" {
        NewKind(cols, name, value, kind, x);
      }
    }
  }

  lemma PresentKind(cols: seq<Column>, name: string, value: Value, kind: Kind, x: string)
    requires Distinct(cols) && Has(cols, name)
    ensures KindIn(AfterCell(cols, name, value, kind), x) == TrackedKind(cols, name, value, kind, x)
  {
    var after, p := AfterCell(cols, name, value, kind), Position(cols, name);
    AfterCellLaws(cols, name, value, kind);
    PresentCell(cols, name, value, kind);
    if x == name { FoundAt(after, p); } else { SameElsewhere(cols, after, p, x); }
  }

  lemma NewKind(cols: seq<Column>, name: string, value: Value, kind: Kind, x: string)
    requires Distinct(cols) && !Has(cols, name) && name != ""
    ensures KindIn(AfterCell(cols, name, value, kind), x) == TrackedKind(cols, name, value, kind, x)
  {
    var after := AfterCell(cols, name, value, kind);
    AfterCellLaws(cols, name, value, kind);
    NewCell(cols, name, value, kind);
    if x == name { FoundAt(after, |cols|); } else { SameElsewhere(cols, after, |cols|, x); }
  }

  // ---------------------------------------------------------------------------------------------
  // One row

  /** The saved row: every name normalised, every value sanitised. */
  ghost predicate SanitizedRow(data: Row, row: Row) {
    && (forall key :: key in data ==> EscapeName(key) in row)
    && forall name :: name in row ==>
      exists key :: key in data && EscapeName(key) == name && row[name] == Sanitized(data[key])
  }

  predicate InjectiveNames(data: Row) {
    forall a, b :: a in data && b in data && EscapeName(a) == EscapeName(b) ==> a == b
  }

  /**
   * What Save does to the columns for the cells of a row: no column is lost, every cell's column
   * exists, and it is flagged if the cell holds the placeholder.
   */
  ghost predicate TracksRow(before: seq<Column>, row: Row, after: seq<Column>) {
    && Distinct(after) && Grows(before, after)
    && (forall name :: name in row && name != "" ==> Has(after, name))
    && (forall name :: name in row && name != "" && row[name] == Toast ==> HasFlag(after, name))
  }

  /** The names under which a row holds the placeholder. */
  function Unavailable(row: Row): set<string> {
    set x | x in row && x != "" && row[x] == Toast
  }

  /** The names and flags after a row, exactly: its cells' columns appear, and its placeholders are flagged. */
  predicate MarksRow(before: seq<Column>, row: Row, after: seq<Column>) {
    && Names(after) == Names(before) + (row.Keys - {""})
    && FlaggedNames(after) == FlaggedNames(before) + Unavailable(row)
  }

  function Restricted(data: Row, keys: set<string>): Row {
    map key | key in data && key in keys :: data[key]
  }

  lemma TracksOneMore(before: seq<Column>, row: Row, cols: seq<Column>, name: string, value: Value, kind: Kind)
    requires TracksRow(before, row, cols)
    ensures TracksRow(before, row[name := value], AfterCell(cols, name, value, kind))
  {
    var after := AfterCell(cols, name, value, kind);
    AfterCellLaws(cols, name, value, kind);
    assert Grows(before, after);
    forall n | n in row && n != name { GrowsKeepsNames(cols, after, n); }
  }

  lemma SanitizedOneMore(data: Row, keys: set<string>, row: Row, key: string)
    requires key in data && SanitizedRow(Restricted(data, keys), row)
    ensures SanitizedRow(Restricted(data, keys + {key}), row[EscapeName(key) := Sanitized(data[key])])
  {
    var small, large := Restricted(data, keys), Restricted(data, keys + {key});
    var next := row[EscapeName(key) := Sanitized(data[key])];
    assert large.Keys == small.Keys + {key};
    assert key in large && large[key] == data[key];
    forall name | name in next
      ensures exists k :: k in large && EscapeName(k) == name && next[name] == Sanitized(large[k])
    {
      if name != EscapeName(key) {
        var k :| k in small && EscapeName(k) == name && row[name] == Sanitized(small[k]);
        assert k in large && large[k] == small[k];
      }
    }
    forall k | k in large ensures EscapeName(k) in next {}
  }

  /** The cell of this key has a value for the column of this name. */
  predicate Gives(data: Row, key: string, name: string) {
    key in data && EscapeName(key) == name && Sanitized(data[key]) != Toast
  }

  /** A known kind stays, and an unknown one becomes what is inferred from a value for the column, if there is one. */
  ghost predicate RightKind(was: Kind, now: Kind, data: Row, infer: (string, Value) -> Kind, name: string) {
    if was != Invalid then now == was
    else
      || (now == Invalid && forall key :: !Gives(data, key, name))
      || exists key :: Gives(data, key, name) && now == infer(key, Sanitized(data[key]))
  }

  /** What Save does to the kinds of all columns for the cells of a row. */
  ghost predicate SettlesKinds(before: seq<Column>, data: Row, infer: (string, Value) -> Kind, after: seq<Column>) {
    forall x :: x != "" ==> RightKind(KindIn(before, x), KindIn(after, x), data, infer, x)
  }

  lemma KindsOneMore(data: Row, keys: set<string>, key: string, infer: (string, Value) -> Kind, before: seq<Column>,
      cols: seq<Column>, after: seq<Column>)
    requires key in data && Distinct(cols) && SettlesKinds(before, Restricted(data, keys), infer, cols)
    requires after == AfterCell(cols, EscapeName(key), Sanitized(data[key]), infer(key, Sanitized(data[key])))
    ensures SettlesKinds(before, Restricted(data, keys + {key}), infer, after)
  {
    var small, large := Restricted(data, keys), Restricted(data, keys + {key});
    var name, value := EscapeName(key), Sanitized(data[key]);
    TrackedKinds(cols, name, value, infer(key, value));
    forall x | x != "" ensures RightKind(KindIn(before, x), KindIn(after, x), large, infer, x) {
      KindOneMore(data, keys, key, infer, KindIn(before, x), KindIn(cols, x), KindIn(after, x), x);
    }
  }

  lemma KindOneMore(data: Row, keys: set<string>, key: string, infer: (string, Value) -> Kind, was: Kind, kind: Kind,
      now: Kind, x: string)
    requires key in data && RightKind(was, kind, Restricted(data, keys), infer, x)
    requires now ==
      if x == EscapeName(key) && Sanitized(data[key]) != Toast && kind == Invalid then infer(key, Sanitized(data[key]))
      else kind
    ensures RightKind(was, now, Restricted(data, keys + {key}), infer, x)
  {
    var small, large := Restricted(data, keys), Restricted(data, keys + {key});
    forall k ensures Gives(large, k, x) <==> Gives(small, k, x) || (k == key && Gives(data, key, x)) {}
    if was == Invalid {
      if k :| Gives(small, k, x) && kind == infer(k, Sanitized(small[k])) {
        assert Gives(large, k, x) && large[k] == small[k];
      }
      assert Gives(data, key, x) ==> Gives(large, key, x) && large[key] == data[key];
    }
  }

  /** For names that stay apart: the kind of a cell's column, and of a column without a cell. */
  lemma KindsAfterSave(before: seq<Column>, data: Row, infer: (string, Value) -> Kind, after: seq<Column>, key: string,
      x: string)
    requires SettlesKinds(before, data, infer, after) && InjectiveNames(data) && x != ""
    requires key in data && EscapeName(key) != ""
    ensures var was := KindIn(before, EscapeName(key));
      KindIn(after, EscapeName(key)) ==
        if was != Invalid then was
        else if Sanitized(data[key]) == Toast then Invalid else infer(key, Sanitized(data[key]))
    ensures (forall k :: k in data ==> EscapeName(k) != x) ==> KindIn(after, x) == KindIn(before, x)
  {
    var name := EscapeName(key);
    assert RightKind(KindIn(before, name), KindIn(after, name), data, infer, name);
    assert RightKind(KindIn(before, x), KindIn(after, x), data, infer, x);
    assert Gives(data, key, name) <==> Sanitized(data[key]) != Toast;
    forall k | Gives(data, k, name) ensures k == key {}
  }

  /** The cells of a saved row: an object that holds the placeholder as a key becomes it, others stay. */
  lemma SavedCellIs(data: Row, row: Row, key: string)
    requires SanitizedRow(data, row) && InjectiveNames(data) && key in data
    ensures EscapeName(key) in row
    ensures row[EscapeName(key)] ==
      if data[key].Object? && "__debezium_unavailable_value" in data[key].fields then Toast else data[key]
  {
    var k :| k in data && EscapeName(k) == EscapeName(key) && row[EscapeName(key)] == Sanitized(data[k]);
    assert k == key;
  }

  lemma MarksOneMore(before: seq<Column>, row: Row, cols: seq<Column>, name: string, value: Value, kind: Kind)
    requires Distinct(cols) && name !in row && MarksRow(before, row, cols)
    ensures MarksRow(before, row[name := value], AfterCell(cols, name, value, kind))
  {
    AfterCellMarks(cols, name, value, kind);
    CellsOneMore(row, name, value);
  }

  lemma CellsOneMore(row: Row, name: string, value: Value)
    requires name !in row
    ensures row[name := value].Keys - {""} == (row.Keys - {""}) + Only(name)
    ensures Unavailable(row[name := value]) == Unavailable(row) + if value == Toast then Only(name) else {}
  {}

  /** The cells of the keys not in `todo` have been normalised into `row` and tracked in `cols`. */
  ghost predicate SavedCells(data: Row, todo: set<string>, infer: (string, Value) -> Kind, before: seq<Column>,
      row: Row, cols: seq<Column>)
  {
    && SanitizedRow(Restricted(data, data.Keys - todo), row)
    && TracksRow(before, row, cols)
    && SettlesKinds(before, Restricted(data, data.Keys - todo), infer, cols)
    && (InjectiveNames(data) ==>
          && MarksRow(before, row, cols)
          && forall key :: key in data && key in todo ==> EscapeName(key) !in row)
  }

  lemma SavedOneMore(data: Row, todo: set<string>, infer: (string, Value) -> Kind, before: seq<Column>, row: Row,
      cols: seq<Column>, key: string, rest: set<string>, next: Row, after: seq<Column>)
    requires SavedCells(data, todo, infer, before, row, cols) && Distinct(before) && key in data && key in todo
    requires rest == todo - {key} && next == row[EscapeName(key) := Sanitized(data[key])]
    requires after == AfterCell(cols, EscapeName(key), Sanitized(data[key]), infer(key, Sanitized(data[key])))
    ensures SavedCells(data, rest, infer, before, next, after)
  {
    var name, value := EscapeName(key), Sanitized(data[key]);
    var kind := infer(key, value);
    SanitizedOneMore(data, data.Keys - todo, row, key);
    assert data.Keys - rest == data.Keys - todo + {key};
    KindsOneMore(data, data.Keys - todo, key, infer, before, cols, after);
    TracksOneMore(before, row, cols, name, value, kind);
    if InjectiveNames(data) { MarksOneMore(before, row, cols, name, value, kind); }
  }

  // ---------------------------------------------------------------------------------------------
  // The objects

  /** The wrapper that a table's buffer lives in between flushes. */
  class TableSlot {
    var tableData: TableData?
    var lastFlushTime: int

    constructor ()
      ensures tableData == null
    {
      tableData, lastFlushTime := null, 0;
    }

    method Wipe(now: int)
      modifies this
      ensures tableData == null && lastFlushTime == now
    {
      tableData, lastFlushTime := null, now;
    }

    method SetTableData(td: TableData)
      modifies this`tableData
      ensures tableData == td
    {
      tableData := td;
    }
  }

  class Event {
    const table: string
    const primaryKeyMap: map<string, string>     // values in their printed form
    const columns: Columns?
    const deleted: bool
    const history: bool
    const executionTime: int
    var data: Row

    constructor (table: string, primaryKeyMap: map<string, string>, data: Row, columns: Columns?, deleted: bool,
        history: bool, executionTime: int)
      ensures this.table == table && this.primaryKeyMap == primaryKeyMap && this.data == data && this.columns == columns
      ensures this.deleted == deleted && this.history == history && this.executionTime == executionTime
    {
      this.table, this.primaryKeyMap, this.data, this.columns := table, primaryKeyMap, data, columns;
      this.deleted, this.history, this.executionTime := deleted, history, executionTime;
    }

    predicate IsValid()
      reads this
    {
      table != "" && primaryKeyMap != map[] && data != map[] && (history || DELETE_MARKER in data)
    }

    /** One turn of the loop of Save; `kind` is what the value's type is taken to be. */
    static method TrackCell(cols: Columns, name: string, value: Value, kind: Kind)
      requires Distinct(cols.columns)
      modifies cols
      ensures cols.columns == AfterCell(old(cols.columns), name, value, kind)
      ensures forall x :: KindIn(cols.columns, x) == TrackedKind(old(cols.columns), name, value, kind, x)
    {
      TrackedKinds(cols.columns, name, value, kind);
      if value == Toast {
        cols.UpsertColumn(name, UpsertArg(Some(true), None, None));
      } else {
        var existing := cols.GetColumn(name);
        if existing.None? {
          cols.AddColumn(NewColumn(name, kind));
        } else if existing.value.kind == Invalid && kind != Invalid {
          cols.UpdateColumn(existing.value.(kind := kind));
        }
      }
    }

    /** The loop of Save over the cells, in whatever order the map yields them. */
    method SaveCells(cols: Columns, infer: (string, Value) -> Kind) returns (row: Row)
      requires Distinct(cols.columns)
      modifies cols
      ensures SanitizedRow(data, row)
      ensures TracksRow(old(cols.columns), row, cols.columns)
      ensures SettlesKinds(old(cols.columns), data, infer, cols.columns)
      ensures InjectiveNames(data) ==> MarksRow(old(cols.columns), row, cols.columns)
    {
      row := map[];
      ghost var before := cols.columns;
      var todo := data.Keys;
      while todo != {}
        invariant todo <= data.Keys
        invariant SavedCells(data, todo, infer, before, row, cols.columns)
        decreases |todo|
      {
        var key :| key in todo;
        var name, value := EscapeName(key), Sanitized(data[key]);
        ghost var was, saved, left := cols.columns, row, todo;
        TrackCell(cols, name, value, infer(key, value));
        row := row[name := value];
        todo := todo - {key};
        SavedOneMore(data, left, infer, before, saved, was, key, todo, row, cols.columns);
      }
      assert Restricted(data, data.Keys - todo) == data;
    }

    /** Opens the buffer if the slot is empty, and otherwise takes over the event's columns. */
    method Open(slot: TableSlot, softDelete: bool) returns (td: TableData)
      requires columns != null ==> Distinct(columns.columns)
      requires slot.tableData != null ==>
        Distinct(slot.tableData.inMemoryColumns.columns) && slot.tableData.inMemoryColumns != columns
      modifies slot`tableData, if slot.tableData == null then {} else {slot.tableData.inMemoryColumns}
      ensures td == slot.tableData && Distinct(td.inMemoryColumns.columns)
      ensures data == old(data) && EventColumns() == old(EventColumns())
      ensures old(slot.tableData) == null ==>
        fresh(td) && IsNew(td.View(), history, softDelete, primaryKeyMap.Keys, EventColumns())
      ensures old(slot.tableData) != null ==>
        td == old(slot.tableData) && td.View() == WithColumns(old(slot.tableData.View()), EventColumns())
    {
      if slot.tableData == null {
        var cols := columns;
        if cols == null { cols := new Columns(); }
        var keys := PrimaryKeys.SortedNames(primaryKeyMap);
        td := new TableData(cols, history, softDelete, keys);
        slot.SetTableData(td);
      } else {
        td := slot.tableData;
        if columns != null { TakeOver(td); }
      }
    }

    /** Commits the tracked columns, inserts the row and remembers the message. */
    method Commit(td: TableData, tracked: Columns, pk: string, row: Row, message: Message)
      modifies this`data, td
      ensures data == row && td.inMemoryColumns == tracked
      ensures td.View() == AfterInsert(old(td.View()).(columns := tracked.columns), pk, row, deleted)
        .(lastMessages := Remembered(old(td.View()).lastMessages, message))
      ensures td.latestCdcTime == executionTime
    {
      td.SetInMemoryColumns(tracked);
      data := row;
      td.InsertRow(pk, row, deleted);
      td.RememberMessage(message);
      td.latestCdcTime := executionTime;
    }

    /** Tracks the cells on a copy of the columns, commits the result and says whether to flush. */
    method Record(td: TableData, bufferRows: nat, flushSizeKb: int, infer: (string, Value) -> Kind, message: Message)
      returns (pk: string, flush: bool)
      requires Distinct(td.inMemoryColumns.columns)
      modifies this`data, td
      ensures fresh(td.inMemoryColumns)
      ensures flush <==> NumberOfRows(td.View()) > bufferRows || td.approxSize > flushSizeKb * 1024
      ensures forall keys :: PrimaryKeys.Lists(keys, primaryKeyMap.Keys) ==>
        pk == PrimaryKeys.KeyText(keys, primaryKeyMap)
      ensures SanitizedRow(old(data), data)
      ensures SavedTo(old(td.View()), old(data), Change(pk, data, deleted), message, td.View())
      ensures SettlesKinds(old(td.View()).columns, old(data), infer, td.View().columns)
      ensures td.latestCdcTime == executionTime
    {
      var inMemoryColumns := td.ReadOnlyInMemoryCols();
      var row := SaveCells(inMemoryColumns, infer);
      pk := PrimaryKeys.PrimaryKeyValue(primaryKeyMap);
      Commit(td, inMemoryColumns, pk, row, message);
      ghost var after := td.View();
      var reason;
      flush, reason := td.ShouldFlush(bufferRows, flushSizeKb);
      assert td.View() == after;
    }

    /**
     * Save: opens the buffer if the slot is empty, takes over the event's columns, tracks the cells,
     * inserts the row, remembers the message and says whether to flush.
     */
    method Save(slot: TableSlot, softDelete: bool, bufferRows: nat, flushSizeKb: int, infer: (string, Value) -> Kind,
        message: Message)
      returns (r: Result<bool>, pk: string, ghost start: Buffer)
      requires columns != null ==> Distinct(columns.columns)
      requires slot.tableData != null ==>
        Distinct(slot.tableData.inMemoryColumns.columns) && slot.tableData.inMemoryColumns != columns
      modifies this`data, slot`tableData, Footprint(slot)
      ensures r.Err? <==>
        old(table == "" || primaryKeyMap == map[] || data == map[] || (!history && "__artie_delete" !in data))
      ensures !old(IsValid()) ==>
        r.Err? && data == old(data) && slot.tableData == old(slot.tableData) && SlotView(slot) == old(SlotView(slot))
      ensures old(IsValid()) ==>
        && r.Ok? && slot.tableData != null && fresh(slot.tableData.inMemoryColumns)
        && (forall keys :: PrimaryKeys.Lists(keys, primaryKeyMap.Keys) ==>
          pk == PrimaryKeys.KeyText(keys, primaryKeyMap))
        && SanitizedRow(old(data), data)
        && (r.value <==>
          NumberOfRows(slot.tableData.View()) > bufferRows || slot.tableData.approxSize > flushSizeKb * 1024)
      // The save starts from a new buffer with the event's columns, or from the old one with them added.
      ensures old(IsValid() && slot.tableData == null) ==>
        fresh(slot.tableData) && IsNew(start, history, softDelete, primaryKeyMap.Keys, old(EventColumns()))
      ensures old(IsValid() && slot.tableData != null) ==>
        slot.tableData == old(slot.tableData) && start == WithColumns(old(slot.tableData.View()), old(EventColumns()))
      ensures old(IsValid()) ==>
        && SavedTo(start, old(data), Change(pk, data, deleted), message, slot.tableData.View())
        && SettlesKinds(start.columns, old(data), infer, slot.tableData.View().columns)
        && slot.tableData.latestCdcTime == executionTime
    {
      pk, start := "", NewBuffer(history, softDelete, [], []);
      if !IsValid() { return Err("event not valid"), pk, start; }
      var flush;
      flush, pk, start := SaveValid(slot, softDelete, bufferRows, flushSizeKb, infer, message);
      r := Ok(flush);
    }

    /** What Save does once the event is found valid. */
    method SaveValid(slot: TableSlot, softDelete: bool, bufferRows: nat, flushSizeKb: int,
        infer: (string, Value) -> Kind, message: Message)
      returns (flush: bool, pk: string, ghost start: Buffer)
      requires columns != null ==> Distinct(columns.columns)
      requires slot.tableData != null ==>
        Distinct(slot.tableData.inMemoryColumns.columns) && slot.tableData.inMemoryColumns != columns
      modifies this`data, slot`tableData, Footprint(slot)
      ensures slot.tableData != null && fresh(slot.tableData.inMemoryColumns)
      ensures forall keys :: PrimaryKeys.Lists(keys, primaryKeyMap.Keys) ==>
        pk == PrimaryKeys.KeyText(keys, primaryKeyMap)
      ensures SanitizedRow(old(data), data)
      ensures flush <==>
        NumberOfRows(slot.tableData.View()) > bufferRows || slot.tableData.approxSize > flushSizeKb * 1024
      ensures old(slot.tableData) == null ==>
        fresh(slot.tableData) && IsNew(start, history, softDelete, primaryKeyMap.Keys, old(EventColumns()))
      ensures old(slot.tableData) != null ==>
        slot.tableData == old(slot.tableData) && start == WithColumns(old(slot.tableData.View()), old(EventColumns()))
      ensures SavedTo(start, old(data), Change(pk, data, deleted), message, slot.tableData.View())
      ensures SettlesKinds(start.columns, old(data), infer, slot.tableData.View().columns)
      ensures slot.tableData.latestCdcTime == executionTime
    {
      var td := Open(slot, softDelete);
      start := td.View();
      pk, flush := Record(td, bufferRows, flushSizeKb, infer, message);
    }

    function EventColumns(): seq<Column>
      reads this, columns
    {
      if columns == null then [] else columns.columns
    }

    /** Adds the event's columns to those of the buffer. */
    method TakeOver(td: TableData)
      requires columns != null && columns != td.inMemoryColumns
      requires Distinct(td.inMemoryColumns.columns)
      modifies td.inMemoryColumns
      ensures td.View() == WithColumns(old(td.View()), columns.columns) && Distinct(td.inMemoryColumns.columns)
    {
      for i := 0 to |columns.columns|
        invariant td.View() == WithColumns(old(td.View()), columns.columns[..i])
        invariant columns.columns == old(columns.columns)
      {
        assert columns.columns[..i + 1][..i] == columns.columns[..i];
        td.AddInMemoryCol(columns.columns[i]);
      }
      assert columns.columns[..|columns.columns|] == columns.columns;
    }
  }

  function SlotView(slot: TableSlot): Option<Buffer>
    reads slot, Footprint(slot)
  {
    if slot.tableData == null then None else Some(slot.tableData.View())
  }

  /** The objects that a slot owns. */
  function Footprint(slot: TableSlot): set<object?>
    reads slot, slot.tableData
  {
    if slot.tableData == null then {} else {slot.tableData, slot.tableData.inMemoryColumns}
  }

  /** A new buffer whose primary keys are the sorted key names. */
  ghost predicate IsNew(b: Buffer, history: bool, softDelete: bool, names: set<string>, columns: seq<Column>) {
    PrimaryKeys.Lists(b.primaryKeys, names) && b == NewBuffer(history, softDelete, b.primaryKeys, columns)
  }

  function WithColumns(b: Buffer, cols: seq<Column>): Buffer {
    b.(columns := AddedAll(b.columns, cols))
  }

  /** The buffer after a save into `start`: cells tracked, row inserted, message remembered. */
  ghost predicate SavedTo(start: Buffer, data: Row, e: Change, message: Message, after: Buffer) {
    && TracksRow(start.columns, e.row, after.columns)
    && after == AfterInsert(start.(columns := after.columns), e.pk, e.row, e.deleted)
      .(lastMessages := Remembered(start.lastMessages, message))
    && (InjectiveNames(data) ==> MarksRow(start.columns, e.row, after.columns))
  }

  // ---------------------------------------------------------------------------------------------
  // Placeholders stay flagged while columns come and go

  lemma {:induction false} FlaggedIsHasFlag(cols: seq<Column>, x: string)
    requires Distinct(cols)
    ensures Flagged(cols, x) <==> HasFlag(cols, x)
  {
    if cols != [] {
      var front, last := cols[..|cols| - 1], cols[|cols| - 1];
      FlaggedIsHasFlag(front, x);
      assert forall i :: 0 <= i < |front| ==> front[i] == cols[i];
      if last.name == x {
        PositionIs(cols, |front|);
      } else if Has(front, x) {
        PositionIs(cols, Position(front, x));
      }
    }
  }

  /** Taking over the columns of an event keeps every buffered placeholder flagged. */
  lemma {:induction false} TakingOverKeepsFlags(cols: seq<Column>, more: seq<Column>, x: string)
    requires Distinct(cols) && Flagged(cols, x)
    ensures Flagged(AddedAll(cols, more), x)
  {
    if more != [] {
      var before, col := AddedAll(cols, more[..|more| - 1]), more[|more| - 1];
      TakingOverKeepsFlags(cols, more[..|more| - 1], x);
      FlaggedIsHasFlag(before, x);
      assert Has(before, x);
      assert (before + [col])[..|before|] == before;
    }
  }

  /** So does a save, for cells under a non-empty name, even if it brings or reveals new columns. */
  lemma SaveKeepsPlaceholdersFlagged(start: Buffer, data: Row, e: Change, message: Message, after: Buffer)
    requires SavedTo(start, data, e, message, after)
    requires Distinct(start.columns) && "" !in e.row && !start.history
    requires forall text :: text in start.rowsData ==> Covered(start.columns, start.rowsData[text])
    ensures forall text :: text in after.rowsData ==> Covered(after.columns, after.rowsData[text])
  {
    forall text, x | text in after.rowsData && x in after.rowsData[text] && after.rowsData[text][x] == Toast
      ensures Flagged(after.columns, x)
    {
      FlaggedIsHasFlag(after.columns, x);
      if text == e.pk {
        assert x in e.row && e.row[x] == Toast;
      } else {
        FlaggedIsHasFlag(start.columns, x);
        GrowsKeepsNames(start.columns, after.columns, x);
      }
    }
  }
}
