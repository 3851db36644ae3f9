/**
 * A column that the source no longer has: the first merge that misses it schedules its drop, it
 * keeps waiting, and the first merge past its time whose statements go through drops it.
 */
module SchemaSchedule {
  import opened Values
  import opened ColumnLists
  import opened Buffers
  import opened Diffs
  import opened TableConfigs
  import opened Ddl
  import opened SchemaRuns
  import opened SchemaConvergence
  import opened SchemaAgreement

  lemma {:induction false} AskedIsScheduled(c: TableConfig, cols: seq<Column>, a: DropArgs, col: Column)
    requires Distinct(cols) && col in cols && !col.ShouldSkip()
    requires a.containOtherOperations && c.dropDeletedColumns && col.name !in c.columnsToDelete
    ensures var asked := Asked(c, cols, a).1;
      col.name in asked.columnsToDelete && asked.columnsToDelete[col.name] == a.clock(col.name) + 14_400_000_000_000
  {
    var front, last := cols[..|cols| - 1], cols[|cols| - 1];
    assert cols == front + [last];
    assert forall i :: 0 <= i < |front| ==> front[i] == cols[i];
    var asked := Asked(c, front, a).1;
    assert Asked(c, cols, a).1 ==
      if last.ShouldSkip() then asked else Scheduled(asked, last.name, a.containOtherOperations, a.clock(last.name));
    if col != last {
      AskedIsScheduled(c, front, a, col);
      ScheduledKeeps(asked, last.name, a, col.name);
    } else {
      LastIsNew(c, front, a, col);
    }
  }

  lemma ScheduledKeeps(c: TableConfig, name: string, a: DropArgs, other: string)
    requires other in c.columnsToDelete
    ensures var after := Scheduled(c, name, a.containOtherOperations, a.clock(name));
      other in after.columnsToDelete && after.columnsToDelete[other] == c.columnsToDelete[other]
  {}

  lemma LastIsNew(c: TableConfig, front: seq<Column>, a: DropArgs, col: Column)
    requires Distinct(front) && col.name !in Names(front) && col.name !in c.columnsToDelete
    ensures var asked := Asked(c, front, a).1;
      col.name !in asked.columnsToDelete && asked.dropDeletedColumns == c.dropDeletedColumns
  {
    AskedFacts(c, front, a);
  }

  /**
   * A missing column of known kind that was not scheduled is, after a merge with operations other than
   * deletes whose Add step goes through, scheduled for four hours (in nanoseconds) from its clock.
   */
  lemma MissingIsScheduled(o: DiffOptions, s: SchemaState, m: MergeInput, col: Column)
    requires Consistent(s) && TidySource(m) && !AddStage(o, s, m).failed
    requires col in SourceMissing(o, s, m.source) && !col.ShouldSkip()
    requires m.args.containOtherOperations && s.config.dropDeletedColumns && col.name !in s.config.columnsToDelete
    ensures col.name in SchemaMerge(o, s, m).scheduled
    ensures Waiting(o, SchemaMerge(o, s, m).after, col, m.args.clock(col.name) + 14_400_000_000_000)
  {
    var added, missing := AddStage(o, s, m), SourceMissing(o, s, m.source);
    var asked := Asked(added.config, missing, m.args).1;
    var time := m.args.clock(col.name) + 14_400_000_000_000;
    MissingNames(o, s, m);
    AddNames(o, s, m);
    SourceMissingIsCached(o, s, m, col);
    NamesAre(missing, col.name);
    AddedAllKeeps(s.config.columns, ToAdd(o, s, m.source), col);
    AskedIsScheduled(added.config, missing, m.args, col);
    AskedFacts(added.config, missing, m.args);
    assert Waiting(o, SchemaState(asked, added.table), col, time);
    NewlyAskedWaits(o, added.config, added.table, missing, m.args, m.dropFails, col, time);
    var drop := DropStep(added.config, added.table, missing, m.args, m.dropFails);
    if !drop.failed { StageKeepsWaiting(o, drop.config, drop.table, missing, m, col, time); }
  }

  /** A column that was asked for the first time is not due in the same step. */
  lemma NewlyAskedWaits(o: DiffOptions, c: TableConfig, t: Destination, cols: seq<Column>, a: DropArgs,
      failAt: Option<nat>, col: Column, time: int)
    requires Distinct(c.columns) && Distinct(cols) && col in cols && col.name !in c.columnsToDelete
    requires Waiting(o, SchemaState(Asked(c, cols, a).1, t), col, time)
    ensures var drop := DropStep(c, t, cols, a, failAt);
      Waiting(o, SchemaState(drop.config, drop.table), col, time)
  {
    AskedFacts(c, cols, a);
    AskedDue(c, cols, a, col);
    RemovedAllKeeps(c.columns, Asked(c, cols, a).0, col);
  }

  /** A change past the column's time, in a batch that holds more than deletes. */
  predicate IsDue(m: MergeInput, time: int) {
    m.args.containOtherOperations && m.args.cdcTime > time
  }

  /** Both DDL steps of the merge go through. */
  predicate GoesThrough(o: DiffOptions, s: SchemaState, m: MergeInput) {
    !AddStage(o, s, m).failed && FailingDrop(o, s, m) == |ToDrop(o, s, m)|
  }

  /** A waiting column keeps waiting through a merge without it, until one is due and goes through: that drops it. */
  lemma WaitsOrIsDropped(o: DiffOptions, s: SchemaState, m: MergeInput, col: Column, time: int)
    requires Consistent(s) && TidySource(m) && Waiting(o, s, col, time) && col.name !in Names(m.source)
    ensures var outcome := SchemaMerge(o, s, m);
      if IsDue(m, time) && GoesThrough(o, s, m)
      then col.name in outcome.dropped && IsGone(outcome.after.config, outcome.after.table, col.name)
      else Waiting(o, outcome.after, col, time)
  {
    var added, missing := AddStage(o, s, m), SourceMissing(o, s, m.source);
    MissingNames(o, s, m);
    AddNames(o, s, m);
    AddKeepsWaiting(o, s, m, col, time);
    StuckIsMissing(o, s, m, col);
    DropKeepsWaiting(o, added.config, added.table, missing, m.args, m.dropFails, col, time);
    DropNames(added.config, added.table, missing, m.args, m.dropFails);
    var drop := DropStep(added.config, added.table, missing, m.args, m.dropFails);
    if !added.failed && !drop.failed {
      if IsDue(m, time) {
        StageKeepsGone(drop.config, drop.table, missing, m, col.name);
      } else {
        StageKeepsWaiting(o, drop.config, drop.table, missing, m, col, time);
      }
    }
  }

  lemma StageKeepsGone(c: TableConfig, t: Destination, missing: seq<Column>, m: MergeInput, name: string)
    requires TidySource(m) && name !in Names(m.source) && IsGone(c, t, name)
    ensures var audited := Audited(c, missing);
      var staged := TemporaryStep(audited, t, ReconciledAll(m.source, audited.columns), m.stageFails);
      IsGone(staged.config, staged.table, name)
  {
    var all := ReconciledAll(m.source, c.columns);
    assert Distinct(all) && Names(all) == Names(m.source) by {
      assert forall i :: 0 <= i < |all| ==> all[i].name == m.source[i].name;
    }
    KeptIsDistinct(all);
    NamesOfAdded(c.columns, Kept(all));
  }

  /** No merge of the run is due and goes through. */
  predicate NoneDrops(o: DiffOptions, s: SchemaState, run: seq<SchemaStep>, time: int) {
    run == [] ||
    var n := |run| - 1;
    && NoneDrops(o, s, run[..n], time)
    && (run[n].Merging? ==> !(IsDue(run[n].input, time) && GoesThrough(o, After(o, s, run[..n]), run[n].input)))
  }

  lemma {:induction false} WaitsThroughRun(o: DiffOptions, s: SchemaState, run: seq<SchemaStep>, col: Column, time: int)
    requires Consistent(s) && Waiting(o, s, col, time) && AllLack(run, col.name) && NoneDrops(o, s, run, time)
    ensures Consistent(After(o, s, run)) && Waiting(o, After(o, s, run), col, time)
  {
    if run != [] {
      var n := |run| - 1;
      WaitsThroughRun(o, s, run[..n], col, time);
      MergeAgreement(o, After(o, s, run[..n]), run[n].input);
      WaitsOrIsDropped(o, After(o, s, run[..n]), run[n].input, col, time);
    }
  }

  /**
   * Over any run of merges without the column after the one that scheduled it, the first that holds more
   * than deletes, brings a change more than four hours past the scheduling merge's clock and goes
   * through drops it; every other merge leaves it waiting.
   */
  lemma MissingIsDropped(o: DiffOptions, s: SchemaState, m: MergeInput, run: seq<SchemaStep>, next: MergeInput,
      col: Column)
    requires Consistent(s) && TidySource(m) && TidySource(next) && !AddStage(o, s, m).failed
    requires col in SourceMissing(o, s, m.source) && !col.ShouldSkip()
    requires m.args.containOtherOperations && s.config.dropDeletedColumns && col.name !in s.config.columnsToDelete
    requires AllLack(run, col.name) && col.name !in Names(next.source)
    requires NoneDrops(o, SchemaMerge(o, s, m).after, run, m.args.clock(col.name) + 14_400_000_000_000)
    ensures var t := After(o, SchemaMerge(o, s, m).after, run);
      var outcome := SchemaMerge(o, t, next);
      var time := m.args.clock(col.name) + 14_400_000_000_000;
      && col.name in Names(t.config.columns)
      && if IsDue(next, time) && GoesThrough(o, t, next)
         then col.name in outcome.dropped && IsGone(outcome.after.config, outcome.after.table, col.name)
         else Waiting(o, outcome.after, col, time)
  {
    var after, time := SchemaMerge(o, s, m).after, m.args.clock(col.name) + 14_400_000_000_000;
    MissingIsScheduled(o, s, m, col);
    MergeAgreement(o, s, m);
    WaitsThroughRun(o, after, run, col, time);
    NamesAre(After(o, after, run).config.columns, col.name);
    WaitsOrIsDropped(o, After(o, after, run), next, col, time);
  }

  // ---------------------------------------------------------------------------------------------
  // Smaller facts about one merge

  /** A column that the source brings back is no longer scheduled once the merge got past its DDL. */
  lemma ReturnedIsForgotten(o: DiffOptions, s: SchemaState, m: MergeInput, name: string)
    requires Consistent(s) && TidySource(m) && name in Names(m.source) && s.config.dropDeletedColumns
    ensures SchemaMerge(o, s, m).audited ==> name !in SchemaMerge(o, s, m).after.config.columnsToDelete
  {
    MissingNames(o, s, m);
    if SchemaMerge(o, s, m).audited && name in SchemaMerge(o, s, m).after.config.columnsToDelete {
      ScheduleAfter(o, s, m, name);
    }
  }

  /**
   * Staging puts every column of the batch that has a kind by then into the cache, and the table is no
   * longer to be created.
   */
  lemma StagedIsCached(o: DiffOptions, s: SchemaState, m: MergeInput)
    requires Consistent(s) && TidySource(m) && SchemaMerge(o, s, m).audited && !m.stageFails && m.source != []
    ensures var cached := AuditedConfig(o, s, m).columns;
      Names(SchemaMerge(o, s, m).after.config.columns) == Names(cached) + Names(Kept(ReconciledAll(m.source, cached)))
    ensures !SchemaMerge(o, s, m).after.config.createTable
  {
    StagedNamesAre(m.source, AuditedConfig(o, s, m).columns);
    assert SchemaMerge(o, s, m).after.config ==
      AfterAdd(AuditedConfig(o, s, m), Kept(ReconciledAll(m.source, AuditedConfig(o, s, m).columns)), false);
  }

  lemma StagedNamesAre(source: seq<Column>, cached: seq<Column>)
    requires Distinct(source)
    ensures Names(AddedAll(cached, Kept(ReconciledAll(source, cached)))) ==
      Names(cached) + Names(Kept(ReconciledAll(source, cached)))
  {
    var all := ReconciledAll(source, cached);
    assert Distinct(all) by { assert forall i :: 0 <= i < |all| ==> all[i].name == source[i].name; }
    KeptIsDistinct(all);
    NamesOfAdded(cached, Kept(all));
  }

  /** After a restart a table is to be created exactly if it is not there, and no drop is scheduled. */
  lemma ReloadedIs(s: SchemaState, described: seq<Column>)
    requires Describes(described, s.table)
    ensures var c := Reloaded(s, described).config;
      && (c.createTable <==> !s.table.present) && |c.columnsToDelete| == 0 && c.columns == described
      && c.dropDeletedColumns == s.config.dropDeletedColumns && Reloaded(s, described).table == s.table
  {}
}
