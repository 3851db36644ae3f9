/** The cached schema of a destination table and the columns waiting to be dropped. */
module TableConfigs {
  import opened Values
  import opened ColumnLists

  /** Times are in nanoseconds; four hours. */
  const DELETION_CONFIDENCE_PADDING: int := 4 * 3600 * 1_000_000_000

  datatype TableConfig = TableConfig(columns: seq<Column>, columnsToDelete: map<string, int>, createTable: bool,
      dropDeletedColumns: bool)

  function AddedAll(cols: seq<Column>, more: seq<Column>): (r: seq<Column>)
    ensures Distinct(cols) ==> Distinct(r)
  {
    if more == [] then cols else Added(AddedAll(cols, more[..|more| - 1]), more[|more| - 1])
  }

  function RemovedAll(cols: seq<Column>, gone: seq<Column>): (r: seq<Column>)
    ensures Distinct(cols) ==> Distinct(r)
  {
    if gone == [] then cols else Removed(RemovedAll(cols, gone[..|gone| - 1]), gone[|gone| - 1].name)
  }

  function AfterAdd(c: TableConfig, cols: seq<Column>, createTable: bool): TableConfig {
    c.(columns := AddedAll(c.columns, cols),
      columnsToDelete := c.columnsToDelete - Names(cols), createTable := createTable)
  }

  function AfterDelete(c: TableConfig, cols: seq<Column>): TableConfig {
    c.(columns := RemovedAll(c.columns, cols), columnsToDelete := c.columnsToDelete - Names(cols))
  }

  /** Only columns that are still missing from the source stay scheduled. */
  function Audited(c: TableConfig, missing: seq<Column>): TableConfig {
    if !c.dropDeletedColumns then c
    else c.(columnsToDelete := map name |
      name in c.columnsToDelete && name in Names(missing) :: c.columnsToDelete[name])
  }

  /** Whether a column is due. */
  predicate Due(c: TableConfig, name: string, cdcTime: int, containOtherOperations: bool) {
    containOtherOperations && c.dropDeletedColumns && name in c.columnsToDelete && cdcTime > c.columnsToDelete[name]
  }

  /** The schedule after asking. */
  function Scheduled(c: TableConfig, name: string, containOtherOperations: bool, now: int): TableConfig {
    if containOtherOperations && c.dropDeletedColumns && name !in c.columnsToDelete
    then c.(columnsToDelete := c.columnsToDelete[name := now + DELETION_CONFIDENCE_PADDING])
    else c
  }

  /** Adding columns ends their schedules, dropping columns ends theirs, and no other schedule changes. */
  lemma SchedulesAfter(c: TableConfig, cols: seq<Column>, createTable: bool, name: string)
    ensures Lookup(AfterAdd(c, cols, createTable).columnsToDelete, name) ==
      if exists i :: 0 <= i < |cols| && cols[i].name == name then None else Lookup(c.columnsToDelete, name)
    ensures Lookup(AfterDelete(c, cols).columnsToDelete, name) ==
      if exists i :: 0 <= i < |cols| && cols[i].name == name then None else Lookup(c.columnsToDelete, name)
    ensures AfterAdd(c, cols, createTable).createTable == createTable
    ensures AfterDelete(c, cols).createTable == c.createTable
  {
    assert name in Names(cols) <==> exists i :: 0 <= i < |cols| && cols[i].name == name;
  }

  class DwhTableConfig {
    const columns: Columns
    var columnsToDelete: map<string, int>
    var createTable: bool
    const dropDeletedColumns: bool

    function View(): TableConfig
      reads this, columns
    {
      TableConfig(columns.columns, columnsToDelete, createTable, dropDeletedColumns)
    }

    constructor (columns: Columns, createTable: bool, dropDeletedColumns: bool)
      ensures this.columns == columns
      ensures View() == TableConfig(columns.columns, map[], createTable, dropDeletedColumns)
    {
      this.columns, this.createTable, this.dropDeletedColumns := columns, createTable, dropDeletedColumns;
      columnsToDelete := map[];
    }

    method AddColumns(createTable: bool, cols: seq<Column>)
      modifies this, columns
      ensures View() == AfterAdd(old(View()), cols, createTable)
    {
      for i := 0 to |cols|
        invariant columns.columns == AddedAll(old(columns.columns), cols[..i])
        invariant columnsToDelete == old(columnsToDelete) - Names(cols[..i])
      {
        assert cols[..i + 1][..i] == cols[..i];
        NamesOfOneMore(cols, i);
        columns.AddColumn(cols[i]);
        columnsToDelete := columnsToDelete - {cols[i].name};
      }
      assert cols[..|cols|] == cols;
      this.createTable := createTable;
    }

    method DeleteColumns(cols: seq<Column>)
      modifies this, columns
      ensures View() == AfterDelete(old(View()), cols)
    {
      for i := 0 to |cols|
        invariant columns.columns == RemovedAll(old(columns.columns), cols[..i])
        invariant columnsToDelete == old(columnsToDelete) - Names(cols[..i])
        invariant createTable == old(createTable)
      {
        assert cols[..i + 1][..i] == cols[..i];
        NamesOfOneMore(cols, i);
        columns.DeleteColumn(cols[i].name);
        columnsToDelete := columnsToDelete - {cols[i].name};
      }
      assert cols[..|cols|] == cols;
    }

    method AuditColumnsToDelete(colsToDelete: seq<Column>)
      modifies this`columnsToDelete
      ensures View() == Audited(old(View()), colsToDelete)
    {
      if !dropDeletedColumns { return; }
      var todo := columnsToDelete.Keys;
      while todo != {}
        invariant todo <= old(columnsToDelete.Keys)
        invariant columnsToDelete == map name |
          name in old(columnsToDelete) && (name in todo || name in Names(colsToDelete)) :: old(columnsToDelete)[name]
        decreases |todo|
      {
        var name :| name in todo;
        var i := 0;
        while i < |colsToDelete| && colsToDelete[i].name != name
          invariant i <= |colsToDelete|
          invariant forall k :: 0 <= k < i ==> colsToDelete[k].name != name
        {
          i := i + 1;
        }
        assert i < |colsToDelete| <==> name in Names(colsToDelete);
        if i == |colsToDelete| { columnsToDelete := columnsToDelete - {name}; }
        todo := todo - {name};
      }
    }

    /** A column is dropped only after it has been scheduled by an earlier call; asking first schedules it. */
    method ShouldDeleteColumn(name: string, cdcTime: int, containOtherOperations: bool, now: int) returns (due: bool)
      modifies this`columnsToDelete
      ensures due == Due(old(View()), name, cdcTime, containOtherOperations)
      ensures View() == Scheduled(old(View()), name, containOtherOperations, now)
    {
      if !containOtherOperations { return false; }
      if !dropDeletedColumns { return false; }
      if name in columnsToDelete { return cdcTime > columnsToDelete[name]; }
      columnsToDelete := columnsToDelete[name := now + DELETION_CONFIDENCE_PADDING];
      return false;
    }
  }
}
