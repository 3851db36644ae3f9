/**
 * The schema side of a merge, and what holds of it over runs of merges: columns are dropped only
 * after a long and unbroken absence.
 */
module SchemaRuns {
  import opened Values
  import opened ColumnLists
  import opened Buffers
  import opened Diffs
  import opened TableConfigs
  import opened Ddl

  datatype SchemaState = SchemaState(config: TableConfig, table: Destination)

  /** What one merge brings along, with the statement that fails at each stage, if any. */
  datatype MergeInput = MergeInput(
    source: seq<Column>,
    args: DropArgs,
    addFails: Option<nat>,
    dropFails: Option<nat>,
    stageFails: bool)

  datatype MergeOutcome = MergeOutcome(
    after: SchemaState,
    missing: set<string>,     // columns of the destination that the source lacks
    scheduled: set<string>,   // columns scheduled for dropping by this merge
    dropped: set<string>,     // columns whose DROP was executed
    audited: bool,            // the merge got past its DDL
    failed: bool)

  function SourceMissing(o: DiffOptions, s: SchemaState, source: seq<Column>): seq<Column> {
    Missing(Cloned(s.config.columns), Cloned(source), o)
  }

  function TargetMissing(o: DiffOptions, s: SchemaState, source: seq<Column>): seq<Column> {
    Missing(Cloned(source), Cloned(s.config.columns), o)
  }

  function ModeOf(o: DiffOptions): Mode {
    if o.history then History else Replication
  }

  function AddStage(o: DiffOptions, s: SchemaState, m: MergeInput): Altered {
    if s.config.createTable then CreateStep(s.config, s.table, TargetMissing(o, s, m.source), FailsAt(m.addFails, 0))
    else AddStep(s.config, s.table, TargetMissing(o, s, m.source), ModeOf(o), m.addFails)
  }

  /** Diff, add, drop, audit, reconcile and stage, in this order; any DDL error ends the merge. */
  function SchemaMerge(o: DiffOptions, s: SchemaState, m: MergeInput): MergeOutcome {
    var missing := SourceMissing(o, s, m.source);
    var added := AddStage(o, s, m);
    if added.failed then MergeOutcome(SchemaState(added.config, added.table), Names(missing), {}, {}, false, true)
    else
      var drop := DropStep(added.config, added.table, missing, m.args, m.dropFails);
      var scheduled := Asked(added.config, missing, m.args).1.columnsToDelete.Keys - added.config.columnsToDelete.Keys;
      if drop.failed then
        MergeOutcome(SchemaState(drop.config, drop.table), Names(missing), scheduled, drop.dropped, false, true)
      else
        var audited := Audited(drop.config, missing);
        var staged := TemporaryStep(audited, drop.table, ReconciledAll(m.source, audited.columns), m.stageFails);
        MergeOutcome(SchemaState(staged.config, staged.table), Names(missing), scheduled,
          drop.dropped, true, staged.failed)
  }

  /** The cached configuration after the audit, which decides the column kinds of the batch. */
  function AuditedConfig(o: DiffOptions, s: SchemaState, m: MergeInput): TableConfig {
    var missing, added := SourceMissing(o, s, m.source), AddStage(o, s, m);
    Audited(DropStep(added.config, added.table, missing, m.args, m.dropFails).config, missing)
  }

  /** The schema part of Merge. */
  method Merge(dwh: Warehouse, tc: DwhTableConfig, tableData: TableData, o: DiffOptions, m: MergeInput,
      uppercaseEscNames: bool)
    returns (failed: bool)
    requires m.source == tableData.inMemoryColumns.columns && Distinct(m.source)
    requires m.args.cdcTime == tableData.latestCdcTime
    requires m.args.containOtherOperations == tableData.containOtherOperations
    requires tc.columns != tableData.inMemoryColumns
    modifies dwh, tc, tc.columns, tableData.inMemoryColumns
    ensures var before := SchemaState(old(tc.View()), old(dwh.View()));
      var outcome := SchemaMerge(o, before, m);
      && tc.View() == outcome.after.config && dwh.View() == outcome.after.table && failed == outcome.failed
      && tableData.inMemoryColumns.columns ==
           (if outcome.audited then ReconciledAll(m.source, AuditedConfig(o, before, m).columns) else m.source)
  {
    var sourceMissing, targetMissing := Diff(tableData.inMemoryColumns.columns, tc.columns.columns, o);
    var add := AlterTableArgs(Add, tc.createTable, false, ModeOf(o), Some(uppercaseEscNames));
    failed := AlterTable(dwh, tc, targetMissing, add, m.args, m.addFails);
    if failed { return; }
    failed := AlterTable(dwh, tc, sourceMissing, add.(op := Delete, createTable := false), m.args, m.dropFails);
    if failed { return; }
    tc.AuditColumnsToDelete(sourceMissing);
    tableData.MergeColumnsFromDestination(tc.columns.columns);
    failed := AlterTable(dwh, tc, tableData.inMemoryColumns.columns,
      add.(createTable := true, temporary := true), m.args,
      if m.stageFails then Some(0) else None);
  }

  // ---------------------------------------------------------------------------------------------
  // One merge

  /**
   * Asking changes nothing for columns that are scheduled, and schedules the others for their clock plus four hours.
   */
  lemma {:induction false} AskedFacts(c: TableConfig, cols: seq<Column>, a: DropArgs)
    requires Distinct(cols)
    ensures var (due, asked) := Asked(c, cols, a);
      && asked == c.(columnsToDelete := asked.columnsToDelete)
      && (forall d :: d in due ==> d in cols && Due(c, d.name, a.cdcTime, a.containOtherOperations))
      && (forall name :: name in c.columnsToDelete ==>
        name in asked.columnsToDelete && asked.columnsToDelete[name] == c.columnsToDelete[name])
      && (forall name :: name in asked.columnsToDelete && name !in c.columnsToDelete ==>
            && name in Names(cols) && a.containOtherOperations && c.dropDeletedColumns
            && asked.columnsToDelete[name] == a.clock(name) + DELETION_CONFIDENCE_PADDING)
  {
    if cols != [] {
      var front, last := cols[..|cols| - 1], cols[|cols| - 1];
      assert forall i :: 0 <= i < |front| ==> front[i] == cols[i];
      AskedFacts(c, front, a);
      var (due, asked) := Asked(c, front, a);
      assert last.name !in Names(front);
      assert cols[|cols| - 1].name in Names(cols);
      assert forall name :: name in Names(front) ==> name in Names(cols);
      assert forall d :: d in front ==> d in cols;
    }
  }

  lemma NamesAre(cols: seq<Column>, name: string)
    ensures name in Names(cols) <==> exists c :: c in cols && c.name == name
  {
    if c :| c in cols && c.name == name { var i :| 0 <= i < |cols| && cols[i] == c; }
  }

  lemma MissingIsDistinct(o: DiffOptions, s: SchemaState, source: seq<Column>)
    ensures Distinct(SourceMissing(o, s, source)) && Distinct(TargetMissing(o, s, source))
  {
    MissingIn(Cloned(s.config.columns), Cloned(source), o);
    MissingIn(Cloned(source), Cloned(s.config.columns), o);
  }

  /** Every column that one merge drops was scheduled before it and is due. */
  lemma DroppedWasScheduled(o: DiffOptions, s: SchemaState, m: MergeInput, name: string)
    requires name in SchemaMerge(o, s, m).dropped
    ensures name in SchemaMerge(o, s, m).missing
    ensures Due(s.config, name, m.args.cdcTime, m.args.containOtherOperations)
  {
    var missing, added := SourceMissing(o, s, m.source), AddStage(o, s, m);
    MissingIsDistinct(o, s, m.source);
    AskedFacts(added.config, missing, m.args);
    AddingSchedulesNothing(o, s, m);
    DroppedIsDue(o, s, m, name);
    NamesAre(Asked(added.config, missing, m.args).0, name);
    NamesAre(missing, name);
  }

  lemma DroppedIsDue(o: DiffOptions, s: SchemaState, m: MergeInput, name: string)
    requires name in SchemaMerge(o, s, m).dropped
    ensures name in Names(Asked(AddStage(o, s, m).config, SourceMissing(o, s, m.source), m.args).0)
  {
    var added := AddStage(o, s, m);
    var due := Asked(added.config, SourceMissing(o, s, m.source), m.args).0;
    var n := FirstFailure(added.table, due, m.dropFails);
    assert forall i :: 0 <= i < n ==> due[..n][i] == due[i];
  }

  /** What stays scheduled: an earlier entry that is still missing (if audited), or one made by this merge. */
  lemma ScheduleAfter(o: DiffOptions, s: SchemaState, m: MergeInput, name: string)
    requires name in SchemaMerge(o, s, m).after.config.columnsToDelete
    ensures var outcome := SchemaMerge(o, s, m);
      var time := outcome.after.config.columnsToDelete[name];
      || (&& name in s.config.columnsToDelete && time == s.config.columnsToDelete[name]
          && (outcome.audited && s.config.dropDeletedColumns ==> name in outcome.missing))
      || (&& name in outcome.scheduled && name in outcome.missing
        && m.args.containOtherOperations && s.config.dropDeletedColumns
          && time == m.args.clock(name) + DELETION_CONFIDENCE_PADDING)
  {
    var missing, added := SourceMissing(o, s, m.source), AddStage(o, s, m);
    MissingIsDistinct(o, s, m.source);
    AskedFacts(added.config, missing, m.args);
    AddingSchedulesNothing(o, s, m);
    if added.failed { return; }
    if DropStep(added.config, added.table, missing, m.args, m.dropFails).failed { return; }
  }

  lemma AddingSchedulesNothing(o: DiffOptions, s: SchemaState, m: MergeInput)
    ensures var added := AddStage(o, s, m);
      && added.config.dropDeletedColumns == s.config.dropDeletedColumns
      && forall name :: name in added.config.columnsToDelete ==>
           name in s.config.columnsToDelete && added.config.columnsToDelete[name] == s.config.columnsToDelete[name]
  {}

  lemma DropSettingKept(o: DiffOptions, s: SchemaState, m: MergeInput)
    ensures SchemaMerge(o, s, m).after.config.dropDeletedColumns == s.config.dropDeletedColumns
  {
    MissingIsDistinct(o, s, m.source);
    AskedFacts(AddStage(o, s, m).config, SourceMissing(o, s, m.source), m.args);
  }

  // ---------------------------------------------------------------------------------------------
  // Runs of merges and restarts

  /** A merge, or a restart, after which the columns of the table are read anew. */
  datatype SchemaStep = Merging(input: MergeInput) | Reloading(described: seq<Column>)

  /**
   * What GetTableConfig makes of the columns that the destination describes; a table without columns counts as
   * missing.
   */
  function Reloaded(s: SchemaState, described: seq<Column>): SchemaState {
    s.(config := TableConfig(described, map[], described == [], s.config.dropDeletedColumns))
  }

  function NextSchema(o: DiffOptions, s: SchemaState, step: SchemaStep): SchemaState {
    match step
    case Merging(m) => SchemaMerge(o, s, m).after
    case Reloading(described) => Reloaded(s, described)
  }

  /** What one step did to the drop schedule, with the inputs that matter for it. */
  datatype Record = Record(
    reload: bool,
    before: map<string, int>,
    after: map<string, int>,
    missing: set<string>,
    scheduled: set<string>,
    dropped: set<string>,
    audited: bool,
    args: DropArgs)

  function RecordOf(o: DiffOptions, s: SchemaState, step: SchemaStep): Record {
    match step
    case Merging(m) =>
      var outcome := SchemaMerge(o, s, m);
      Record(false, s.config.columnsToDelete, outcome.after.config.columnsToDelete, outcome.missing,
        outcome.scheduled, outcome.dropped, outcome.audited, m.args)
    case Reloading(described) =>
      Record(true, s.config.columnsToDelete, map[], {}, {}, {}, false, DropArgs(0, false, _ => 0))
  }

  /** The state that a run leaves. */
  function After(o: DiffOptions, s: SchemaState, run: seq<SchemaStep>): SchemaState {
    if run == [] then s
    else NextSchema(o, After(o, s, run[..|run| - 1]), run[|run| - 1])
  }

  /** The steps of a run, each starting from the state that the one before left. */
  function Trace(o: DiffOptions, s: SchemaState, run: seq<SchemaStep>): (records: seq<Record>)
    ensures |records| == |run|
    decreases |run|
  {
    if run == [] then [] else [RecordOf(o, s, run[0])] + Trace(o, NextSchema(o, s, run[0]), run[1..])
  }

  /** Each step keeps an entry only while its column is missing, and schedules for its clock plus four hours. */
  ghost predicate KeepsSchedule(r: Record) {
    && (r.reload ==> r.after == map[])
    && (forall name :: name in r.after ==>
          || (name in r.before && r.after[name] == r.before[name] && (r.audited ==> name in r.missing))
          || (name in r.scheduled && name in r.missing && r.args.containOtherOperations
              && r.after[name] == r.args.clock(name) + DELETION_CONFIDENCE_PADDING))
    && (forall name :: name in r.dropped ==>
          && name in r.missing && r.args.containOtherOperations
          && name in r.before && r.args.cdcTime > r.before[name])
  }

  ghost predicate Linked(records: seq<Record>) {
    && (forall i :: 0 <= i < |records| ==> KeepsSchedule(records[i]))
    && (forall i :: 0 < i < |records| ==> records[i].before == records[i - 1].after)
  }

  /**
   * Merge `m` scheduled the column; up to step `n` the process did not restart and no merge that got past its DDL had
   * it in its source.
   */
  ghost predicate AbsentSince(records: seq<Record>, name: string, m: nat, n: nat)
    requires m < n <= |records|
  {
    && name in records[m].scheduled && name in records[m].missing && records[m].args.containOtherOperations
    && forall j :: m <= j < n ==> !records[j].reload && (records[j].audited ==> name in records[j].missing)
  }

  predicate FourHoursAfter(records: seq<Record>, name: string, m: nat, n: nat)
    requires m < n < |records|
  {
    records[n].args.cdcTime > records[m].args.clock(name) + DELETION_CONFIDENCE_PADDING
  }

  ghost predicate HasHistory(records: seq<Record>, name: string, n: nat, time: int)
    requires n <= |records|
  {
    exists m | 0 <= m < n ::
      AbsentSince(records, name, m, n) && time == records[m].args.clock(name) + DELETION_CONFIDENCE_PADDING
  }

  lemma {:induction false} EveryEntryHasHistory(records: seq<Record>, n: nat, name: string)
    requires Linked(records) && n < |records| && records[0].before == map[] && name in records[n].before
    ensures HasHistory(records, name, n, records[n].before[name])
    decreases n
  {
    if n > 0 {
      var r, time := records[n - 1], records[n].before[name];
      assert KeepsSchedule(r) && r.after == records[n].before;
      if name in r.scheduled && name in r.missing && r.args.containOtherOperations
        && time == r.args.clock(name) + DELETION_CONFIDENCE_PADDING {
        assert AbsentSince(records, name, n - 1, n);
      } else {
        EveryEntryHasHistory(records, n - 1, name);
        var m :| 0 <= m < n - 1 && AbsentSince(records, name, m, n - 1)
          && time == records[m].args.clock(name) + DELETION_CONFIDENCE_PADDING;
        assert AbsentSince(records, name, m, n);
      }
    }
  }

  lemma RecordKeepsSchedule(o: DiffOptions, s: SchemaState, m: MergeInput)
    requires s.config.dropDeletedColumns
    ensures KeepsSchedule(RecordOf(o, s, Merging(m)))
  {
    var r := RecordOf(o, s, Merging(m));
    forall name | name in r.after
      ensures (name in r.before && r.after[name] == r.before[name] && (r.audited ==> name in r.missing))
        || (name in r.scheduled && name in r.missing && r.args.containOtherOperations
            && r.after[name] == r.args.clock(name) + DELETION_CONFIDENCE_PADDING)
    {
      ScheduleAfter(o, s, m, name);
    }
    forall name | name in r.dropped
      ensures name in r.missing && Due(s.config, name, m.args.cdcTime, m.args.containOtherOperations)
    {
      DroppedWasScheduled(o, s, m, name);
    }
  }

  lemma StepKeepsSchedule(o: DiffOptions, s: SchemaState, step: SchemaStep)
    requires s.config.dropDeletedColumns
    ensures KeepsSchedule(RecordOf(o, s, step)) && NextSchema(o, s, step).config.dropDeletedColumns
    ensures RecordOf(o, s, step).before == s.config.columnsToDelete
    ensures RecordOf(o, s, step).after == NextSchema(o, s, step).config.columnsToDelete
  {
    if step.Merging? {
      DropSettingKept(o, s, step.input);
      RecordKeepsSchedule(o, s, step.input);
    }
  }

  lemma LinkedBefore(first: Record, rest: seq<Record>)
    requires KeepsSchedule(first) && Linked(rest) && (rest != [] ==> rest[0].before == first.after)
    ensures Linked([first] + rest)
  {
    var records := [first] + rest;
    forall i | 0 <= i < |records|
      ensures KeepsSchedule(records[i]) && (i > 0 ==> records[i].before == records[i - 1].after)
    {
      if i > 0 { assert records[i] == rest[i - 1] && (i > 1 ==> records[i - 1] == rest[i - 2]); }
    }
  }

  lemma {:induction false} TraceIsLinked(o: DiffOptions, s: SchemaState, run: seq<SchemaStep>)
    requires s.config.dropDeletedColumns
    ensures Linked(Trace(o, s, run))
    ensures run != [] ==> Trace(o, s, run)[0].before == s.config.columnsToDelete
    decreases |run|
  {
    if run != [] {
      var next := NextSchema(o, s, run[0]);
      StepKeepsSchedule(o, s, run[0]);
      TraceIsLinked(o, next, run[1..]);
      LinkedBefore(RecordOf(o, s, run[0]), Trace(o, next, run[1..]));
    }
  }

  /** With drops disabled nothing is ever scheduled or dropped. */
  lemma {:induction false} NothingDropsWhenDisabled(o: DiffOptions, s: SchemaState, run: seq<SchemaStep>, n: nat)
    requires !s.config.dropDeletedColumns && n < |run|
    ensures Trace(o, s, run)[n].dropped == {}
    decreases |run|
  {
    NoDropInStep(o, s, run[0]);
    if n > 0 { NothingDropsWhenDisabled(o, NextSchema(o, s, run[0]), run[1..], n - 1); }
  }

  lemma NoDropInStep(o: DiffOptions, s: SchemaState, step: SchemaStep)
    requires !s.config.dropDeletedColumns
    ensures RecordOf(o, s, step).dropped == {} && !NextSchema(o, s, step).config.dropDeletedColumns
  {
    if step.Merging? {
      DropSettingKept(o, s, step.input);
      forall name | name in SchemaMerge(o, s, step.input).dropped ensures false {
        DroppedWasScheduled(o, s, step.input, name);
      }
    }
  }

  /**
   * Column-drop safety: if step `n` of any run drops a column, then drops are enabled, `n` is a merge
   * that held more than deletes and lacks the column in its source, and some earlier merge `m` of the
   * same process scheduled it, itself holding more than deletes; the change time of `n` is more than
   * four hours after the clock of `m`, and no merge between them that got past its DDL had the column
   * in its source.
   */
  lemma ColumnDropSafety(o: DiffOptions, s: SchemaState, run: seq<SchemaStep>, n: nat, name: string)
    requires s.config.columnsToDelete == map[] && n < |run|
    requires name in Trace(o, s, run)[n].dropped
    ensures s.config.dropDeletedColumns
    ensures Trace(o, s, run)[n].args.containOtherOperations && name in Trace(o, s, run)[n].missing
    ensures exists m | 0 <= m < n ::
      AbsentSince(Trace(o, s, run), name, m, n) && FourHoursAfter(Trace(o, s, run), name, m, n)
  {
    if !s.config.dropDeletedColumns { NothingDropsWhenDisabled(o, s, run, n); }
    var records := Trace(o, s, run);
    TraceIsLinked(o, s, run);
    EveryEntryHasHistory(records, n, name);
    assert KeepsSchedule(records[n]);
    var m :| 0 <= m < n && AbsentSince(records, name, m, n)
      && records[n].before[name] == records[m].args.clock(name) + DELETION_CONFIDENCE_PADDING;
    assert FourHoursAfter(records, name, m, n);
  }
}
