/**
 * ALTER TABLE and CREATE TABLE against a destination, with the cached schema updated only when
 * every statement went through.  Which statement fails, if any, is an input.
 */
module Ddl {
  import opened Values
  import opened ColumnLists
  import opened TableConfigs

  /** The destination's own table: whether it exists and which columns it has. */
  datatype Destination = Destination(present: bool, columns: set<string>)

  datatype Mode = Replication | History | Unknown

  datatype ColumnOp = Add | Delete

  datatype AlterTableArgs = AlterTableArgs(op: ColumnOp, createTable: bool, temporary: bool, mode: Mode,
      uppercaseEscNames: Option<bool>)
  {
    /** Temporary tables are only created, and nothing is created while dropping columns. */
    predicate Valid() {
      !(op == Delete && createTable) && mode != Unknown && (temporary ==> createTable) && uppercaseEscNames.Some?
    }
  }

  predicate FailsAt(failAt: Option<nat>, n: nat) {
    failAt.Some? && failAt.value == n
  }

  /** The columns that a DDL step touches: those whose kind is known. */
  function Kept(cols: seq<Column>): seq<Column> {
    if cols == [] then []
    else
      var last := cols[|cols| - 1];
      Kept(cols[..|cols| - 1]) + (if last.ShouldSkip() then [] else [last])
  }

  datatype Altered = Altered(config: TableConfig, table: Destination, dropped: set<string>, failed: bool)

  /** In replication mode a clause for the primary key follows the columns, if one of them is tagged as key. */
  predicate NamesKey(kept: seq<Column>, mode: Mode) {
    mode != History && exists i :: 0 <= i < |kept| && kept[i].primaryKey
  }

  /** How many statements ALTER TABLE ADD COLUMN takes. */
  function Statements(kept: seq<Column>, mode: Mode): nat {
    |kept| + (if NamesKey(kept, mode) then 1 else 0)
  }

  /** How many of them go through: none on a table that is not there, otherwise those before the one that fails. */
  function Executed(t: Destination, n: nat, failAt: Option<nat>): (ran: nat)
    ensures ran <= n
  {
    if !t.present then 0 else if failAt.Some? && failAt.value < n then failAt.value else n
  }

  function UpTo(cols: seq<Column>, n: nat): seq<Column> {
    if n < |cols| then cols[..n] else cols
  }

  /** ALTER TABLE ADD COLUMN for each column; statement `failAt` returns an error other than "already exists". */
  function AddStep(c: TableConfig, t: Destination, cols: seq<Column>, mode: Mode, failAt: Option<nat>): Altered {
    var kept := Kept(cols);
    var ran := Executed(t, Statements(kept, mode), failAt);
    var table := t.(columns := t.columns + Names(UpTo(kept, ran)));
    if cols == [] then Altered(c, t, {}, false)
    else if ran < Statements(kept, mode) then Altered(c, table, {}, true)
    else Altered(AfterAdd(c, kept, false), table, {}, false)
  }

  /** CREATE TABLE IF NOT EXISTS: one statement for all columns. */
  function CreateStep(c: TableConfig, t: Destination, cols: seq<Column>, fails: bool): Altered {
    var kept := Kept(cols);
    if cols == [] then Altered(c, t, {}, false)
    else if fails then Altered(c, t, {}, true)
    else Altered(AfterAdd(c, kept, false), if t.present then t else Destination(true, Names(kept)), {}, false)
  }

  /** CREATE TABLE for the temporary table: the target stays, the cache gains the columns all the same. */
  function TemporaryStep(c: TableConfig, t: Destination, cols: seq<Column>, fails: bool): Altered {
    if cols == [] then Altered(c, t, {}, false)
    else if fails then Altered(c, t, {}, true)
    else Altered(AfterAdd(c, Kept(cols), false), t, {}, false)
  }

  datatype DropArgs = DropArgs(cdcTime: int, containOtherOperations: bool, clock: string -> int)

  /** Asks for each column in turn whether it is due; gives the due columns and the new schedule. */
  function Asked(c: TableConfig, cols: seq<Column>, a: DropArgs): (seq<Column>, TableConfig) {
    if cols == [] then ([], c)
    else
      var last := cols[|cols| - 1];
      var (due, asked) := Asked(c, cols[..|cols| - 1], a);
      if last.ShouldSkip() then (due, asked)
      else (due + (if Due(asked, last.name, a.cdcTime, a.containOtherOperations) then [last] else []),
            Scheduled(asked, last.name, a.containOtherOperations, a.clock(last.name)))
  }

  /** The first statement that fails: one that is made to, or one that drops a column the table lacks. */
  function FirstFailure(t: Destination, due: seq<Column>, failAt: Option<nat>): (n: nat)
    ensures n <= |due|
    ensures n < |due| ==> (FailsAt(failAt, n) || due[n].name !in t.columns || due[n].name in Names(due[..n]))
  {
    if due == [] then 0
    else
      var front := due[..|due| - 1];
      var n := FirstFailure(t, front, failAt);
      assert forall i :: 0 <= i < |front| ==> front[..i] == due[..i];
      if n < |front| then n
      else if FailsAt(failAt, |front|) || due[|front|].name !in t.columns || due[|front|].name in Names(front)
        then |front|
      else |due|
  }

  function DropStep(c: TableConfig, t: Destination, cols: seq<Column>, a: DropArgs, failAt: Option<nat>): Altered {
    var (due, asked) := Asked(c, cols, a);
    var n := FirstFailure(t, due, failAt);
    var table := t.(columns := t.columns - Names(due[..n]));
    if n < |due| then Altered(asked, table, Names(due[..n]), true)
    else Altered(if cols == [] then c else AfterDelete(asked, due), table, Names(due), false)
  }

  // ---------------------------------------------------------------------------------------------
  // The method

  /** The warehouse connection: executes one statement at a time. */
  class Warehouse {
    var present: bool
    var columns: set<string>

    function View(): Destination
      reads this
    {
      Destination(present, columns)
    }

    constructor (t: Destination)
      ensures View() == t
    {
      present, columns := t.present, t.columns;
    }

    /** Adding a column that is already there is reported as such and swallowed by the caller. */
    method AddColumn(name: string, fails: bool) returns (error: bool)
      modifies this`columns
      ensures error == (fails || !present)
      ensures columns == if error then old(columns) else old(columns) + {name}
    {
      error := fails || !present;
      if !error { columns := columns + {name}; }
    }

    method AddKey(fails: bool) returns (error: bool)
      ensures error == (fails || !present)
    {
      error := fails || !present;
    }

    method DropColumn(name: string, fails: bool) returns (error: bool)
      modifies this`columns
      ensures error == (fails || name !in old(columns))
      ensures columns == if error then old(columns) else old(columns) - {name}
    {
      error := fails || name !in columns;
      if !error { columns := columns - {name}; }
    }

    method CreateTable(cols: seq<Column>, fails: bool) returns (error: bool)
      modifies this
      ensures error == fails
      ensures View() == if fails || old(present) then old(View()) else Destination(true, Names(cols))
    {
      if !fails && !present { present, columns := true, Names(cols); }
      error := fails;
    }
  }

  method KeepKnown(cols: seq<Column>) returns (kept: seq<Column>)
    ensures kept == Kept(cols)
  {
    kept := [];
    for i := 0 to |cols|
      invariant kept == Kept(cols[..i])
    {
      assert cols[..i + 1][..i] == cols[..i];
      if cols[i].ShouldSkip() { continue; }
      kept := kept + [cols[i]];
    }
    assert cols[..|cols|] == cols;
  }

  /** One ALTER TABLE ADD COLUMN per column and one for the key clause, up to the first that fails. */
  method AddEach(dwh: Warehouse, kept: seq<Column>, mode: Mode, failAt: Option<nat>) returns (failed: bool)
    modifies dwh`columns
    ensures var n := Statements(kept, mode);
      var ran := Executed(old(dwh.View()), n, failAt);
      failed == (ran < n) && dwh.columns == old(dwh.columns) + Names(UpTo(kept, ran))
  {
    var pkCols := false;
    for i := 0 to |kept|
      invariant pkCols <==> mode != History && exists k :: 0 <= k < i && kept[k].primaryKey
      invariant dwh.columns == old(dwh.columns)
    {
      if kept[i].primaryKey && mode != History { pkCols := true; }
    }
    assert pkCols == NamesKey(kept, mode);
    for i := 0 to |kept|
      invariant i > 0 ==> dwh.present
      invariant failAt.Some? ==> failAt.value >= i
      invariant dwh.columns == old(dwh.columns) + Names(kept[..i])
    {
      failed := dwh.AddColumn(kept[i].name, FailsAt(failAt, i));
      NamesOfOneMore(kept, i);
      if failed { return; }
    }
    assert kept[..|kept|] == kept;
    failed := false;
    if pkCols { failed := dwh.AddKey(FailsAt(failAt, |kept|)); }
  }

  /** AlterTable for a column operation that adds to a table which is there. */
  method AlterTableAdd(dwh: Warehouse, tc: DwhTableConfig, cols: seq<Column>, mode: Mode, failAt: Option<nat>)
    returns (failed: bool)
    modifies dwh`columns, tc, tc.columns
    ensures var after := AddStep(old(tc.View()), old(dwh.View()), cols, mode, failAt);
      tc.View() == after.config && dwh.View() == after.table && failed == after.failed
  {
    if |cols| == 0 { return false; }
    var kept := KeepKnown(cols);
    failed := AddEach(dwh, kept, mode, failAt);
    if failed { return; }
    tc.AddColumns(false, kept);
  }

  /** AlterTable for a table that is still to be created. */
  method AlterTableCreate(dwh: Warehouse, tc: DwhTableConfig, cols: seq<Column>, fails: bool) returns (failed: bool)
    modifies dwh, tc, tc.columns
    ensures var after := CreateStep(old(tc.View()), old(dwh.View()), cols, fails);
      tc.View() == after.config && dwh.View() == after.table && failed == after.failed
  {
    if |cols| == 0 { return false; }
    var kept := KeepKnown(cols);
    failed := dwh.CreateTable(kept, fails);
    if failed { return; }
    tc.AddColumns(false, kept);
  }

  /** AlterTable for the temporary table. */
  method AlterTableTemporary(tc: DwhTableConfig, cols: seq<Column>, fails: bool, ghost t: Destination)
    returns (failed: bool)
    modifies tc, tc.columns
    ensures tc.View() == TemporaryStep(old(tc.View()), t, cols, fails).config
    ensures failed == TemporaryStep(old(tc.View()), t, cols, fails).failed
  {
    if |cols| == 0 { return false; }
    if fails { return true; }
    var kept := KeepKnown(cols);
    tc.AddColumns(false, kept);
    failed := false;
  }

  /** The columns that are due, asking (and so scheduling) each in turn. */
  method AskEach(tc: DwhTableConfig, cols: seq<Column>, a: DropArgs) returns (due: seq<Column>)
    modifies tc`columnsToDelete
    ensures due == Asked(old(tc.View()), cols, a).0
    ensures tc.View() == Asked(old(tc.View()), cols, a).1
  {
    due := [];
    for i := 0 to |cols|
      invariant due == Asked(old(tc.View()), cols[..i], a).0
      invariant tc.View() == Asked(old(tc.View()), cols[..i], a).1
    {
      assert cols[..i + 1][..i] == cols[..i];
      assert due + [] == due;
      if cols[i].ShouldSkip() { continue; }
      var isDue := tc.ShouldDeleteColumn(cols[i].name, a.cdcTime, a.containOtherOperations, a.clock(cols[i].name));
      if !isDue { continue; }
      due := due + [cols[i]];
    }
    assert cols[..|cols|] == cols;
  }

  /** One ALTER TABLE DROP COLUMN per column, up to the first that fails. */
  method DropEach(dwh: Warehouse, due: seq<Column>, failAt: Option<nat>) returns (failed: bool)
    modifies dwh`columns
    ensures var n := FirstFailure(old(dwh.View()), due, failAt);
      failed == (n < |due|) && dwh.View() == old(dwh.View()).(columns := old(dwh.columns) - Names(due[..n]))
  {
    ghost var t := dwh.View();
    for i := 0 to |due|
      invariant FirstFailure(t, due[..i], failAt) == i
      invariant dwh.View() == t.(columns := t.columns - Names(due[..i]))
    {
      OneMoreDrop(t, due, failAt, i);
      failed := dwh.DropColumn(due[i].name, FailsAt(failAt, i));
      if failed {
        FailureStays(t, due, failAt, i + 1);
        return;
      }
      NamesOfOneMore(due, i);
    }
    assert due[..|due|] == due;
    failed := false;
  }

  /** AlterTable with columnOp drop. */
  method AlterTableDrop(dwh: Warehouse, tc: DwhTableConfig, cols: seq<Column>, a: DropArgs, failAt: Option<nat>)
    returns (failed: bool)
    modifies dwh, tc, tc.columns
    ensures var after := DropStep(old(tc.View()), old(dwh.View()), cols, a, failAt);
      tc.View() == after.config && dwh.View() == after.table && failed == after.failed
  {
    if |cols| == 0 { return false; }
    var due := AskEach(tc, cols, a);
    failed := DropEach(dwh, due, failAt);
    assert due[..|due|] == due;
    if failed { return; }
    tc.DeleteColumns(due);
  }

  /** What AlterTable leaves: nothing happens on invalid arguments. */
  function AlterStep(c: TableConfig, t: Destination, cols: seq<Column>, args: AlterTableArgs, a: DropArgs,
      failAt: Option<nat>): Altered
  {
    if !args.Valid() then Altered(c, t, {}, true)
    else if args.op == Delete then DropStep(c, t, cols, a, failAt)
    else if args.temporary then TemporaryStep(c, t, cols, FailsAt(failAt, 0))
    else if args.createTable then CreateStep(c, t, cols, FailsAt(failAt, 0))
    else AddStep(c, t, cols, args.mode, failAt)
  }

  /** What is refused, and which step each valid combination takes. */
  lemma AlterStepIs(c: TableConfig, t: Destination, cols: seq<Column>, args: AlterTableArgs, a: DropArgs,
      failAt: Option<nat>)
    ensures var after := AlterStep(c, t, cols, args, a, failAt);
      var refused := (args.op == Delete && args.createTable) || (args.mode != Replication && args.mode != History)
        || (args.temporary && !args.createTable) || args.uppercaseEscNames == None;
      && (refused ==> after == Altered(c, t, {}, true))
      && (!refused && args.op == Delete ==> after == DropStep(c, t, cols, a, failAt))
      && (!refused && args.op == Add && args.createTable && args.temporary ==>
            after == TemporaryStep(c, t, cols, failAt == Some(0)))
      && (!refused && args.op == Add && args.createTable && !args.temporary ==>
            after == CreateStep(c, t, cols, failAt == Some(0)))
      && (!refused && args.op == Add && !args.createTable ==> after == AddStep(c, t, cols, args.mode, failAt))
  {}

  /** With all columns added, the step still fails on its last statement exactly if that is the clause for a key. */
  lemma KeyClauseFails(c: TableConfig, t: Destination, cols: seq<Column>, mode: Mode)
    requires t.present && cols != []
    ensures var after := AddStep(c, t, cols, mode, Some(|Kept(cols)|));
      && after.table.columns == t.columns + Names(Kept(cols))
      && (after.failed <==> mode != History && exists i :: 0 <= i < |Kept(cols)| && Kept(cols)[i].primaryKey)
  {
    assert Kept(cols)[..|Kept(cols)|] == Kept(cols);
  }

  method AlterTable(dwh: Warehouse, tc: DwhTableConfig, cols: seq<Column>, args: AlterTableArgs, a: DropArgs,
      failAt: Option<nat>)
    returns (failed: bool)
    modifies dwh, tc, tc.columns
    ensures var after := AlterStep(old(tc.View()), old(dwh.View()), cols, args, a, failAt);
      tc.View() == after.config && dwh.View() == after.table && failed == after.failed
  {
    if !args.Valid() { return true; }
    if args.op == Delete {
      failed := AlterTableDrop(dwh, tc, cols, a, failAt);
    } else if args.temporary {
      failed := AlterTableTemporary(tc, cols, FailsAt(failAt, 0), dwh.View());
    } else if args.createTable {
      failed := AlterTableCreate(dwh, tc, cols, FailsAt(failAt, 0));
    } else {
      failed := AlterTableAdd(dwh, tc, cols, args.mode, failAt);
    }
  }

  lemma OneMoreDrop(t: Destination, due: seq<Column>, failAt: Option<nat>, i: nat)
    requires i < |due| && FirstFailure(t, due[..i], failAt) == i
    ensures FirstFailure(t, due[..i + 1], failAt) ==
      if FailsAt(failAt, i) || due[i].name !in t.columns - Names(due[..i]) then i else i + 1
  {
    assert due[..i + 1][..i] == due[..i];
  }

  lemma {:induction false} FailureStays(t: Destination, due: seq<Column>, failAt: Option<nat>, n: nat)
    requires n <= |due| && FirstFailure(t, due[..n], failAt) < n
    ensures FirstFailure(t, due, failAt) == FirstFailure(t, due[..n], failAt)
    decreases |due|
  {
    if n < |due| {
      var front := due[..|due| - 1];
      assert front[..n] == due[..n];
      FailureStays(t, front, failAt, n);
    } else {
      assert due[..n] == due;
    }
  }
}
