/**
 * Whether the cached schema agrees with the destination's table, over runs of merges and restarts:
 * only a drop that stops half way breaks the agreement, and only a restart repairs it.
 */
module SchemaAgreement {
  import opened Values
  import opened Texts
  import opened ColumnLists
  import opened Buffers
  import opened Diffs
  import opened TableConfigs
  import opened Ddl
  import opened SchemaRuns
  import opened SchemaConvergence

  /** The names that are not Artie's own. */
  function Own(names: set<string>): set<string> {
    set x | x in names && !Contains(x, ARTIE_PREFIX)
  }

  /** Every cached column, other than Artie's own, is a column of the destination. */
  ghost predicate Agrees(s: SchemaState) {
    Own(Names(s.config.columns)) <= s.table.columns
  }

  /** Cached names are unique and in lower case, and a table that is still to be created is not there. */
  predicate Consistent(s: SchemaState) {
    && Distinct(s.config.columns) && LowerCased(s.config.columns)
    && (s.config.createTable ==> !s.table.present)
    && (!s.table.present ==> s.table.columns == {})
  }

  /** Names of events' columns are lower-cased as they are made. */
  predicate TidySource(m: MergeInput) {
    Distinct(m.source) && LowerCased(m.source)
  }

  // ---------------------------------------------------------------------------------------------
  // Names of lists

  lemma NamesHas(cols: seq<Column>, x: string)
    ensures Has(cols, x) <==> x in Names(cols)
  {}

  lemma NamesOfAdded(cols: seq<Column>, more: seq<Column>)
    requires Distinct(more)
    ensures Names(AddedAll(cols, more)) == Names(cols) + Names(more)
  {
    forall x ensures x in Names(AddedAll(cols, more)) <==> x in Names(cols) + Names(more) {
      NamesHas(AddedAll(cols, more), x);
      NamesHas(cols, x);
      AddedAllHas(cols, more, x);
    }
  }

  lemma NamesOfRemoved(cols: seq<Column>, gone: seq<Column>)
    requires Distinct(cols)
    ensures Names(RemovedAll(cols, gone)) == Names(cols) - Names(gone)
  {
    forall x ensures x in Names(RemovedAll(cols, gone)) <==> x in Names(cols) - Names(gone) {
      NamesHas(RemovedAll(cols, gone), x);
      NamesHas(cols, x);
      RemovedAllHas(cols, gone, x);
    }
  }

  lemma LowerNames(cols: seq<Column>)
    ensures LowerCased(cols) <==> forall x :: x in Names(cols) ==> ToLower(x) == x
  {
    if forall x :: x in Names(cols) ==> ToLower(x) == x {
      forall i | 0 <= i < |cols| ensures ToLower(cols[i].name) == cols[i].name { assert cols[i].name in Names(cols); }
    }
  }

  lemma {:induction false} ClonedIsSame(cols: seq<Column>)
    requires Distinct(cols) && LowerCased(cols)
    ensures Cloned(cols) == cols
  {
    if cols != [] {
      var front, last := cols[..|cols| - 1], cols[|cols| - 1];
      ClonedIsSame(front);
      assert Lowered(last) == last;
      assert !Has(front, last.name);
      assert cols == front + [last];
    }
  }

  lemma {:induction false} KeptIsDistinct(cols: seq<Column>)
    requires Distinct(cols)
    ensures Distinct(Kept(cols)) && Names(Kept(cols)) <= Names(cols)
  {
    if cols != [] {
      var front, last := cols[..|cols| - 1], cols[|cols| - 1];
      KeptIsDistinct(front);
      NamesOfOneMore(cols, |cols| - 1);
      assert cols[..|cols|] == cols;
      assert last.name !in Names(front);
      var kept := Kept(front);
      forall i | 0 <= i < |kept| ensures kept[i].name != last.name { assert kept[i].name in Names(kept); }
      assert forall x :: x in Names(Kept(cols)) ==> x in Names(kept) || x == last.name;
    }
  }

  lemma RemovedHas(cols: seq<Column>, gone: string, x: string)
    requires Distinct(cols)
    ensures Has(Removed(cols, gone), x) <==> Has(cols, x) && x != gone
  {
    var p, r := Position(cols, gone), Removed(cols, gone);
    if p < |cols| {
      assert forall i :: 0 <= i < p ==> r[i] == cols[i];
      assert forall i :: p <= i < |r| ==> r[i] == cols[i + 1];
      if Has(cols, x) && x != gone {
        var q := Position(cols, x);
        assert r[if q < p then q else q - 1].name == x;
      }
    }
  }

  lemma {:induction false} RemovedAllHas(cols: seq<Column>, gone: seq<Column>, x: string)
    requires Distinct(cols)
    ensures Has(RemovedAll(cols, gone), x) <==> Has(cols, x) && x !in Names(gone)
  {
    if gone != [] {
      var n := |gone| - 1;
      RemovedAllHas(cols, gone[..n], x);
      RemovedHas(RemovedAll(cols, gone[..n]), gone[n].name, x);
      NamesOfOneMore(gone, n);
      assert gone[..n + 1] == gone;
    }
  }

  // ---------------------------------------------------------------------------------------------
  // What each stage does to the names

  /**
   * The columns that are missing in the target are not cached; those missing in the source are cached and not in the
   * source.
   */
  lemma MissingNames(o: DiffOptions, s: SchemaState, m: MergeInput)
    requires Consistent(s) && TidySource(m)
    ensures Distinct(ToAdd(o, s, m.source)) && Distinct(SourceMissing(o, s, m.source))
    ensures Names(ToAdd(o, s, m.source)) <= Names(m.source) && Names(ToAdd(o, s, m.source)) !! Names(s.config.columns)
    ensures Names(SourceMissing(o, s, m.source)) <= Names(s.config.columns)
    ensures Names(SourceMissing(o, s, m.source)) !! Names(m.source)
  {
    var cached, source := s.config.columns, m.source;
    ClonedIsSame(cached);
    ClonedIsSame(source);
    MissingIsDistinct(o, s, source);
    KeptIsDistinct(TargetMissing(o, s, source));
    forall x | x in Names(TargetMissing(o, s, source)) ensures x in Names(source) && x !in Names(cached) {
      MissingIs(source, cached, o, x);
    }
    forall x | x in Names(SourceMissing(o, s, source)) ensures x in Names(cached) && x !in Names(source) {
      MissingIs(cached, source, o, x);
    }
  }

  lemma MissingIs(cols: seq<Column>, other: seq<Column>, o: DiffOptions, x: string)
    ensures x in Names(Missing(cols, other, o)) <==> x in Names(cols) && x !in Names(other) && !ShouldSkipColumn(x, o)
  {
    MissingIn(cols, other, o);
    NamesAre(Missing(cols, other, o), x);
    NamesAre(cols, x);
    NamesHas(other, x);
  }

  /** An Add step that goes through adds the same names to the cache and to the table, be it by ALTER or by CREATE. */
  lemma AddNames(o: DiffOptions, s: SchemaState, m: MergeInput)
    requires Consistent(s) && TidySource(m)
    ensures var added, more := AddStage(o, s, m), Names(ToAdd(o, s, m.source));
      && Consistent(SchemaState(added.config, added.table))
      && (if added.failed
          then added.config == s.config && s.table.columns <= added.table.columns <= s.table.columns + more
          else && Names(added.config.columns) == Names(s.config.columns) + more
               && added.table.columns == s.table.columns + more)
  {
    var added, kept := AddStage(o, s, m), ToAdd(o, s, m.source);
    MissingNames(o, s, m);
    NamesOfAdded(s.config.columns, kept);
    LowerNames(s.config.columns);
    LowerNames(m.source);
    LowerNames(AddedAll(s.config.columns, kept));
    UpToNames(kept, Executed(s.table, Statements(kept, ModeOf(o)), m.addFails));
  }

  /** The columns that the merge is to drop. */
  function ToDrop(o: DiffOptions, s: SchemaState, m: MergeInput): seq<Column> {
    Asked(AddStage(o, s, m).config, SourceMissing(o, s, m.source), m.args).0
  }

  /** The index of the DROP that fails, or their number. */
  function FailingDrop(o: DiffOptions, s: SchemaState, m: MergeInput): (n: nat)
    ensures n <= |ToDrop(o, s, m)|
  {
    FirstFailure(AddStage(o, s, m).table, ToDrop(o, s, m), m.dropFails)
  }

  lemma {:induction false} AskedIsDistinct(c: TableConfig, cols: seq<Column>, a: DropArgs)
    requires Distinct(cols)
    ensures Distinct(Asked(c, cols, a).0) && Names(Asked(c, cols, a).0) <= Names(cols)
  {
    if cols != [] {
      var front, last := cols[..|cols| - 1], cols[|cols| - 1];
      AskedIsDistinct(c, front, a);
      NamesOfOneMore(cols, |cols| - 1);
      assert cols[..|cols|] == cols;
      assert last.name !in Names(front);
      var due := Asked(c, front, a).0;
      forall i | 0 <= i < |due| ensures due[i].name != last.name { assert due[i].name in Names(due); }
      assert forall x :: x in Names(due + [last]) ==> x in Names(due) || x == last.name;
    }
  }

  /** The first failing DROP, without recursion: the first that is made to fail or whose column the table lacks. */
  lemma {:induction false} FirstFailureIs(t: Destination, due: seq<Column>, failAt: Option<nat>, n: nat)
    requires Distinct(due) && n <= |due|
    ensures FirstFailure(t, due, failAt) == n <==>
      && (forall i :: 0 <= i < n ==> !FailsAt(failAt, i) && due[i].name in t.columns)
      && (n < |due| ==> FailsAt(failAt, n) || due[n].name !in t.columns)
    decreases |due|
  {
    if due != [] {
      var last := |due| - 1;
      var front := due[..last];
      assert forall i :: 0 <= i < last ==> front[i] == due[i];
      assert due[last].name !in Names(front);
      FirstFailureIs(t, front, failAt, if n < last then n else last);
    }
  }

  /**
   * A DROP step that goes through takes the same names from the cache and the table; one that fails leaves the cache.
   */
  lemma DropNames(c: TableConfig, t: Destination, cols: seq<Column>, a: DropArgs, failAt: Option<nat>)
    requires Distinct(c.columns) && Distinct(cols)
    ensures var due := Asked(c, cols, a).0;
      var n, drop := FirstFailure(t, due, failAt), DropStep(c, t, cols, a, failAt);
      && drop.failed == (n < |due|)
      && drop.table == t.(columns := t.columns - Names(due[..n]))
      && Distinct(drop.config.columns)
      && drop.config.createTable == c.createTable
      && (drop.failed ==> drop.config.columns == c.columns)
      && (!drop.failed ==> due[..n] == due && Names(drop.config.columns) == Names(c.columns) - Names(due))
      && Names(due) <= Names(cols)
  {
    AskedFacts(c, cols, a);
    AskedIsDistinct(c, cols, a);
    NamesOfRemoved(c.columns, Asked(c, cols, a).0);
    assert cols == [] ==> Names(Asked(c, cols, a).0) == {};
  }

  /** Staging brings no name of its own into the cache besides Artie's. */
  lemma StagedNames(o: DiffOptions, s: SchemaState, m: MergeInput, cached: seq<Column>)
    requires Consistent(s) && TidySource(m)
    requires Names(s.config.columns) + Names(ToAdd(o, s, m.source)) -
      Names(SourceMissing(o, s, m.source)) <= Names(cached)
    ensures Own(Names(Kept(ReconciledAll(m.source, cached)))) <= Names(cached)
    ensures Names(Kept(ReconciledAll(m.source, cached))) <= Names(m.source)
    ensures Distinct(Kept(ReconciledAll(m.source, cached)))
  {
    var all := ReconciledAll(m.source, cached);
    var kept := Kept(all);
    assert Distinct(all) && Names(all) == Names(m.source) by {
      assert forall i :: 0 <= i < |all| ==> all[i].name == m.source[i].name;
    }
    KeptIsDistinct(all);
    MissingNames(o, s, m);
    forall x | x in Own(Names(kept)) ensures x in Names(cached) { StagedName(o, s, m, cached, x); }
  }

  lemma StagedName(o: DiffOptions, s: SchemaState, m: MergeInput, cached: seq<Column>, x: string)
    requires Consistent(s) && TidySource(m)
    requires Names(s.config.columns) + Names(ToAdd(o, s, m.source)) -
      Names(SourceMissing(o, s, m.source)) <= Names(cached)
    requires x in Own(Names(Kept(ReconciledAll(m.source, cached))))
    ensures x in Names(cached)
  {
    var all := ReconciledAll(m.source, cached);
    NamesAre(Kept(all), x);
    var c :| c in Kept(all) && c.name == x;
    KeptIn(all);
    var i :| 0 <= i < |all| && all[i] == c;
    assert ToLower(m.source[i].name) == m.source[i].name;
    NamesHas(cached, x);
    if x !in Names(cached) { StagedWasMissing(o, s, m, m.source[i]); }
  }

  /** A column of known kind, not Artie's own, that the cache lacks is one that the Add step adds. */
  lemma StagedWasMissing(o: DiffOptions, s: SchemaState, m: MergeInput, c: Column)
    requires Consistent(s) && TidySource(m) && c in m.source && !c.ShouldSkip() && !Contains(c.name, ARTIE_PREFIX)
    ensures c.name in Names(s.config.columns) + Names(ToAdd(o, s, m.source)) - Names(SourceMissing(o, s, m.source))
  {
    ClonedIsSame(m.source);
    ClonedIsSame(s.config.columns);
    MissingNames(o, s, m);
    NamesAre(m.source, c.name);
    NamesHas(s.config.columns, c.name);
    if c.name !in Names(s.config.columns) {
      MissingIn(m.source, s.config.columns, o);
      KeptIn(TargetMissing(o, s, m.source));
      NamesAre(ToAdd(o, s, m.source), c.name);
    }
  }

  // ---------------------------------------------------------------------------------------------
  // One merge

  /** What a merge that gets as far as staging leaves. */
  lemma StageKeepsOwn(o: DiffOptions, s: SchemaState, m: MergeInput, c: TableConfig, t: Destination)
    requires Consistent(s) && TidySource(m)
    requires Names(s.config.columns) + Names(ToAdd(o, s, m.source)) -
      Names(SourceMissing(o, s, m.source)) <= Names(c.columns)
    requires Consistent(SchemaState(c, t))
    ensures var staged := TemporaryStep(c, t, ReconciledAll(m.source, c.columns), m.stageFails);
      && Consistent(SchemaState(staged.config, staged.table)) && staged.table == t
      && Own(Names(staged.config.columns)) == Own(Names(c.columns))
  {
    var kept := Kept(ReconciledAll(m.source, c.columns));
    StagedNames(o, s, m, c.columns);
    NamesOfAdded(c.columns, kept);
    LowerNames(c.columns);
    LowerNames(m.source);
    LowerNames(AddedAll(c.columns, kept));
  }

  /** The names in the cache and in the table after a merge. */
  lemma MergeNames(o: DiffOptions, s: SchemaState, m: MergeInput)
    requires Consistent(s) && TidySource(m) && !AddStage(o, s, m).failed
    ensures var cached, more := Names(s.config.columns), Names(ToAdd(o, s, m.source));
      var due, n, after := ToDrop(o, s, m), FailingDrop(o, s, m), SchemaMerge(o, s, m).after;
      && Consistent(after)
      && after.table.columns == s.table.columns + more - Names(due[..n])
      && Names(due) <= Names(SourceMissing(o, s, m.source))
      && (n < |due| ==> Names(after.config.columns) == cached + more)
      && (n == |due| ==> due[..n] == due && Own(Names(after.config.columns)) == Own(cached + more - Names(due)))
  {
    var added, missing := AddStage(o, s, m), SourceMissing(o, s, m.source);
    var drop := DropStep(added.config, added.table, missing, m.args, m.dropFails);
    AddNames(o, s, m);
    MissingNames(o, s, m);
    DropNames(added.config, added.table, missing, m.args, m.dropFails);
    LowerNames(added.config.columns);
    LowerNames(drop.config.columns);
    if !drop.failed { StageKeepsOwn(o, s, m, Audited(drop.config, missing), drop.table); }
  }

  /** No DROP fails, or the first that fails comes before any column that is not Artie's own. */
  predicate DropsCleanly(o: DiffOptions, s: SchemaState, m: MergeInput) {
    var due, n := ToDrop(o, s, m), FailingDrop(o, s, m);
    AddStage(o, s, m).failed || n == |due| || Own(Names(due[..n])) == {}
  }

  /** Where cache and table agree and no column of Artie's is dropped, that is up to the failing statement alone. */
  lemma DropsCleanlyIff(o: DiffOptions, s: SchemaState, m: MergeInput)
    requires Consistent(s) && TidySource(m) && Agrees(s) && !AddStage(o, s, m).failed
    requires Own(Names(ToDrop(o, s, m))) == Names(ToDrop(o, s, m))
    ensures DropsCleanly(o, s, m) <==> !(m.dropFails.Some? && 0 < m.dropFails.value < |ToDrop(o, s, m)|)
  {
    var added, due := AddStage(o, s, m), ToDrop(o, s, m);
    AddNames(o, s, m);
    MissingNames(o, s, m);
    AskedIsDistinct(added.config, SourceMissing(o, s, m.source), m.args);
    forall i | 0 <= i < |due| ensures due[i].name in added.table.columns {
      assert due[i].name in Own(Names(due));
      assert due[i].name in Own(Names(s.config.columns));
    }
    var n := if m.dropFails.Some? && m.dropFails.value < |due| then m.dropFails.value else |due|;
    FirstFailureIs(added.table, due, m.dropFails, n);
    if 0 < n < |due| {
      assert due[..n][0].name in Names(due[..n]);
      assert due[0].name in Own(Names(due));
      assert due[0].name in Own(Names(due[..n]));
    }
  }

  /**
   * Agreement in terms of the names alone: `more` is added to both sides, and `gone` leaves the table or both sides.
   */
  lemma AgreementOfNames(cached: set<string>, table: set<string>, more: set<string>, gone: set<string>)
    requires more !! cached && gone <= cached
    ensures Own(cached + more) <= table + more - gone <==> Own(cached) <= table && Own(gone) == {}
    ensures gone <= table + more ==> (Own(cached + more - gone) <= table + more - gone <==> Own(cached) <= table)
  {
    if Own(cached + more) <= table + more - gone {
      forall x | x in Own(cached) ensures x in table && x !in gone { assert x in Own(cached + more); }
    }
    if Own(cached) <= table && Own(gone) == {} {
      forall x | x in Own(cached + more) ensures x in table + more - gone { assert x in gone ==> x in Own(gone); }
    }
    if gone <= table + more && Own(cached + more - gone) <= table + more - gone {
      forall x | x in Own(cached) ensures x in table { assert x !in gone ==> x in Own(cached + more - gone); }
    }
  }

  lemma CleanDropExists(o: DiffOptions, s: SchemaState, m: MergeInput)
    requires Consistent(s) && TidySource(m) && !AddStage(o, s, m).failed && FailingDrop(o, s, m) == |ToDrop(o, s, m)|
    ensures Names(ToDrop(o, s, m)) <= s.table.columns + Names(ToAdd(o, s, m.source))
  {
    var added, due := AddStage(o, s, m), ToDrop(o, s, m);
    AddNames(o, s, m);
    MissingNames(o, s, m);
    AskedIsDistinct(added.config, SourceMissing(o, s, m.source), m.args);
    FirstFailureIs(added.table, due, m.dropFails, |due|);
  }

  /**
   * After any merge, be it that it fails in its Add step, its DROP step or while staging, cache and
   * table agree exactly if they did before and the merge drops cleanly.
   */
  lemma MergeAgreement(o: DiffOptions, s: SchemaState, m: MergeInput)
    requires Consistent(s) && TidySource(m)
    ensures Consistent(SchemaMerge(o, s, m).after)
    ensures Agrees(SchemaMerge(o, s, m).after) <==> Agrees(s) && DropsCleanly(o, s, m)
  {
    var cached, more := Names(s.config.columns), Names(ToAdd(o, s, m.source));
    MissingNames(o, s, m);
    AddNames(o, s, m);
    if AddStage(o, s, m).failed {
      AgreementOfNames(cached, s.table.columns, more, {});
    } else {
      var due, n := ToDrop(o, s, m), FailingDrop(o, s, m);
      MergeNames(o, s, m);
      assert forall i :: 0 <= i < n ==> due[..n][i] == due[i];
      AgreementOfNames(cached, s.table.columns, more, Names(due[..n]));
      if n == |due| { CleanDropExists(o, s, m); }
    }
  }

  // ---------------------------------------------------------------------------------------------
  // Runs

  /** The columns that a destination describes are those of its table, which has at least one if it is there. */
  ghost predicate Describes(described: seq<Column>, t: Destination) {
    && Distinct(described) && LowerCased(described)
    && Names(described) == t.columns && (t.present <==> described != [])
  }

  /** Every merge has a tidy source, and every restart reads the columns that the table has by then. */
  ghost predicate Plausible(o: DiffOptions, s: SchemaState, run: seq<SchemaStep>) {
    run == [] ||
    var n := |run| - 1;
    && Plausible(o, s, run[..n])
    && match run[n]
       case Merging(m) => TidySource(m)
       case Reloading(described) => Describes(described, After(o, s, run[..n]).table)
  }

  /** How many steps of the run precede its latest process: all up to and including the last restart. */
  function LastReload(run: seq<SchemaStep>): (n: nat)
    ensures n <= |run|
  {
    if run == [] then 0
    else if run[|run| - 1].Reloading? then |run|
    else LastReload(run[..|run| - 1])
  }

  /** Every merge from step `from` on drops cleanly in the state that it finds. */
  predicate CleanSince(o: DiffOptions, s: SchemaState, run: seq<SchemaStep>, from: nat) {
    |run| <= from ||
    var n := |run| - 1;
    CleanSince(o, s, run[..n], from) && (run[n].Merging? ==> DropsCleanly(o, After(o, s, run[..n]), run[n].input))
  }

  /** Reading the columns anew makes cache and table agree, whatever went wrong before. */
  lemma ReloadAgrees(s: SchemaState, described: seq<Column>)
    requires Consistent(s) && Describes(described, s.table)
    ensures Consistent(Reloaded(s, described)) && Agrees(Reloaded(s, described))
  {}

  /**
   * After any run of merges and restarts cache and table agree exactly if every merge of the latest
   * process dropped cleanly and, without a restart, they agreed at the start: within one process an
   * agreement that is lost does not come back.
   */
  lemma {:induction false} RunAgreement(o: DiffOptions, s: SchemaState, run: seq<SchemaStep>)
    requires Consistent(s) && Plausible(o, s, run)
    ensures Consistent(After(o, s, run))
    ensures Agrees(After(o, s, run)) <==>
      (LastReload(run) == 0 ==> Agrees(s)) && CleanSince(o, s, run, LastReload(run))
  {
    if run != [] {
      var n := |run| - 1;
      var before := After(o, s, run[..n]);
      RunAgreement(o, s, run[..n]);
      match run[n]
      case Merging(m) => MergeAgreement(o, before, m);
      case Reloading(described) => ReloadAgrees(before, described);
    }
  }

  /**
   * One DROP step on its own keeps the agreement exactly when no statement fails, or none of the
   * cached columns before the first failing one is other than Artie's.
   */
  lemma DropAgreement(c: TableConfig, t: Destination, cols: seq<Column>, a: DropArgs, failAt: Option<nat>)
    requires Agrees(SchemaState(c, t)) && Distinct(c.columns) && Distinct(cols)
    ensures var after := DropStep(c, t, cols, a, failAt);
      var due := Asked(c, cols, a).0;
      var n := FirstFailure(t, due, failAt);
      Agrees(SchemaState(after.config, after.table)) <==> n == |due| || Own(Names(due[..n])) !! Names(c.columns)
  {
    DropNames(c, t, cols, a, failAt);
  }

  // ---------------------------------------------------------------------------------------------
  // A drop that stops half way

  /** A cached column of known kind that is scheduled to be dropped once a change is later than the given time. */
  ghost predicate Waiting(o: DiffOptions, s: SchemaState, col: Column, time: int) {
    && col in s.config.columns && !col.ShouldSkip() && !ShouldSkipColumn(col.name, o)
    && s.config.dropDeletedColumns
    && col.name in s.config.columnsToDelete && s.config.columnsToDelete[col.name] == time
  }

  /** Such a column that the table lacks. */
  ghost predicate Stuck(o: DiffOptions, s: SchemaState, col: Column, time: int) {
    Waiting(o, s, col, time) && col.name !in s.table.columns
  }

  lemma {:induction false} AddedAllKeeps(cols: seq<Column>, more: seq<Column>, c: Column)
    requires c in cols
    ensures c in AddedAll(cols, more)
  {
    if more != [] { AddedAllKeeps(cols, more[..|more| - 1], c); }
  }

  lemma {:induction false} RemovedAllKeeps(cols: seq<Column>, gone: seq<Column>, c: Column)
    requires c in cols && c.name !in Names(gone)
    ensures c in RemovedAll(cols, gone)
  {
    if gone != [] {
      var n := |gone| - 1;
      NamesOfOneMore(gone, n);
      assert gone[..n + 1] == gone;
      RemovedAllKeeps(cols, gone[..n], c);
      var before := RemovedAll(cols, gone[..n]);
      var p, i :| p == Position(before, gone[n].name) && 0 <= i < |before| && before[i] == c;
      assert i != p;
      if p < |before| { assert Removed(before, gone[n].name)[if i < p then i else i - 1] == c; }
    }
  }

  lemma {:induction false} AskedDue(c: TableConfig, cols: seq<Column>, a: DropArgs, col: Column)
    requires Distinct(cols) && col in cols && !col.ShouldSkip()
    ensures Due(c, col.name, a.cdcTime, a.containOtherOperations) <==> col.name in Names(Asked(c, cols, a).0)
  {
    AskedFacts(c, cols, a);
    if Due(c, col.name, a.cdcTime, a.containOtherOperations) {
      DueIsAsked(c, cols, a, col);
      NamesAre(Asked(c, cols, a).0, col.name);
    } else if col.name in Names(Asked(c, cols, a).0) {
      NamesAre(Asked(c, cols, a).0, col.name);
    }
  }

  lemma {:induction false} DueIsAsked(c: TableConfig, cols: seq<Column>, a: DropArgs, col: Column)
    requires Distinct(cols) && col in cols && !col.ShouldSkip()
    requires Due(c, col.name, a.cdcTime, a.containOtherOperations)
    ensures col in Asked(c, cols, a).0
  {
    var front, last := cols[..|cols| - 1], cols[|cols| - 1];
    assert cols == front + [last];
    assert forall i :: 0 <= i < |front| ==> front[i] == cols[i];
    AskedFacts(c, front, a);
    if col != last { DueIsAsked(c, front, a, col); }
  }

  /** What is cached is not added again, so that it stays scheduled. */
  lemma AddKeepsWaiting(o: DiffOptions, s: SchemaState, m: MergeInput, col: Column, time: int)
    requires Consistent(s) && TidySource(m) && Waiting(o, s, col, time)
    ensures Waiting(o, SchemaState(AddStage(o, s, m).config, AddStage(o, s, m).table), col, time)
    ensures col.name !in s.table.columns ==> col.name !in AddStage(o, s, m).table.columns
  {
    MissingNames(o, s, m);
    AddNames(o, s, m);
    AddedAllKeeps(s.config.columns, ToAdd(o, s, m.source), col);
    NamesAre(s.config.columns, col.name);
  }

  /** A DROP step that goes through drops the column if it is due; otherwise the column keeps waiting. */
  lemma DropKeepsWaiting(o: DiffOptions, c: TableConfig, t: Destination, cols: seq<Column>, a: DropArgs,
      failAt: Option<nat>, col: Column, time: int)
    requires Distinct(c.columns) && Distinct(cols) && col in cols && Waiting(o, SchemaState(c, t), col, time)
    ensures var drop := DropStep(c, t, cols, a, failAt);
      var due := a.containOtherOperations && a.cdcTime > time;
      && (!drop.failed && due ==> IsGone(drop.config, drop.table, col.name) && col.name in drop.dropped)
      && (drop.failed || !due ==> Waiting(o, SchemaState(drop.config, drop.table), col, time))
  {
    var due := Asked(c, cols, a).0;
    AskedFacts(c, cols, a);
    AskedDue(c, cols, a, col);
    DropNames(c, t, cols, a, failAt);
    if col.name !in Names(due) { RemovedAllKeeps(c.columns, due, col); }
  }

  /** Neither cached nor scheduled nor in the table. */
  predicate IsGone(c: TableConfig, t: Destination, name: string) {
    name !in Names(c.columns) && name !in c.columnsToDelete && name !in t.columns
  }

  /** What the table lacks cannot be dropped: the step fails if it is due. */
  lemma DropKeepsStuck(o: DiffOptions, c: TableConfig, t: Destination, cols: seq<Column>, a: DropArgs,
      failAt: Option<nat>, col: Column, time: int)
    requires Distinct(c.columns) && Distinct(cols) && col in cols && Stuck(o, SchemaState(c, t), col, time)
    ensures var drop := DropStep(c, t, cols, a, failAt);
      && Stuck(o, SchemaState(drop.config, drop.table), col, time)
      && (a.containOtherOperations && a.cdcTime > time ==> drop.failed)
  {
    var due := Asked(c, cols, a).0;
    AskedDue(c, cols, a, col);
    DropKeepsWaiting(o, c, t, cols, a, failAt, col, time);
    if col.name in Names(due) {
      var i :| 0 <= i < |due| && due[i].name == col.name;
      FailureAtMissing(t, due, failAt, i);
    }
  }

  lemma {:induction false} FailureAtMissing(t: Destination, due: seq<Column>, failAt: Option<nat>, i: nat)
    requires i < |due| && due[i].name !in t.columns
    ensures FirstFailure(t, due, failAt) < |due|
    decreases |due|
  {
    if i < |due| - 1 { FailureAtMissing(t, due[..|due| - 1], failAt, i); }
  }

  /** Neither the audit nor staging touches it, since it is missing in the source. */
  lemma StageKeepsWaiting(o: DiffOptions, c: TableConfig, t: Destination, missing: seq<Column>, m: MergeInput,
      col: Column, time: int)
    requires TidySource(m) && col.name !in Names(m.source) && col in missing
    requires Waiting(o, SchemaState(c, t), col, time)
    ensures var audited := Audited(c, missing);
      var staged := TemporaryStep(audited, t, ReconciledAll(m.source, audited.columns), m.stageFails);
      Waiting(o, SchemaState(staged.config, staged.table), col, time) && staged.table == t
  {
    NamesAre(missing, col.name);
    var all := ReconciledAll(m.source, c.columns);
    assert Distinct(all) && Names(all) == Names(m.source) by {
      assert forall i :: 0 <= i < |all| ==> all[i].name == m.source[i].name;
    }
    KeptIsDistinct(all);
    AddedAllKeeps(c.columns, Kept(all), col);
  }

  /**
   * Any merge whose source lacks the column leaves it stuck; with operations other than deletes and
   * a change later than the scheduled time it also fails.
   */
  lemma StuckStays(o: DiffOptions, s: SchemaState, m: MergeInput, col: Column, time: int)
    requires Consistent(s) && TidySource(m) && Stuck(o, s, col, time) && col.name !in Names(m.source)
    ensures Stuck(o, SchemaMerge(o, s, m).after, col, time)
    ensures m.args.containOtherOperations && m.args.cdcTime > time ==> SchemaMerge(o, s, m).failed
  {
    var added, missing := AddStage(o, s, m), SourceMissing(o, s, m.source);
    MissingNames(o, s, m);
    AddNames(o, s, m);
    AddKeepsWaiting(o, s, m, col, time);
    StuckIsMissing(o, s, m, col);
    DropKeepsStuck(o, added.config, added.table, missing, m.args, m.dropFails, col, time);
    var drop := DropStep(added.config, added.table, missing, m.args, m.dropFails);
    if !added.failed && !drop.failed { StageKeepsWaiting(o, drop.config, drop.table, missing, m, col, time); }
  }

  lemma StuckIsMissing(o: DiffOptions, s: SchemaState, m: MergeInput, col: Column)
    requires Consistent(s) && TidySource(m)
    requires col in s.config.columns && !ShouldSkipColumn(col.name, o) && col.name !in Names(m.source)
    ensures col in SourceMissing(o, s, m.source)
  {
    ClonedIsSame(s.config.columns);
    ClonedIsSame(m.source);
    MissingIn(s.config.columns, m.source, o);
    NamesHas(m.source, col.name);
  }

  /** Merges of one process, whose sources lack the column. */
  ghost predicate AllLack(run: seq<SchemaStep>, name: string) {
    forall i :: 0 <= i < |run| ==> run[i].Merging? && TidySource(run[i].input) && name !in Names(run[i].input.source)
  }

  lemma {:induction false} StuckThroughRun(o: DiffOptions, s: SchemaState, run: seq<SchemaStep>, col: Column, time: int)
    requires Consistent(s) && Stuck(o, s, col, time) && AllLack(run, col.name)
    ensures Consistent(After(o, s, run)) && Stuck(o, After(o, s, run), col, time)
  {
    if run != [] {
      var n := |run| - 1;
      StuckThroughRun(o, s, run[..n], col, time);
      MergeAgreement(o, After(o, s, run[..n]), run[n].input);
      StuckStays(o, After(o, s, run[..n]), run[n].input, col, time);
    }
  }

  lemma {:induction false} AskedIsKnown(c: TableConfig, cols: seq<Column>, a: DropArgs)
    ensures forall d :: d in Asked(c, cols, a).0 ==> d in cols && !d.ShouldSkip()
  {
    if cols != [] {
      AskedIsKnown(c, cols[..|cols| - 1], a);
      assert cols == cols[..|cols| - 1] + [cols[|cols| - 1]];
    }
  }

  lemma SourceMissingIsCached(o: DiffOptions, s: SchemaState, m: MergeInput, col: Column)
    requires Consistent(s) && col in SourceMissing(o, s, m.source)
    ensures col in s.config.columns && col.name in Names(s.config.columns) && !ShouldSkipColumn(col.name, o)
  {
    ClonedIsSame(s.config.columns);
    MissingIn(s.config.columns, Cloned(m.source), o);
    NamesAre(s.config.columns, col.name);
  }

  lemma DroppedIsGone(o: DiffOptions, s: SchemaState, m: MergeInput, name: string)
    requires var outcome := SchemaMerge(o, s, m); outcome.failed && !outcome.audited && name in outcome.dropped
    ensures !AddStage(o, s, m).failed && name !in SchemaMerge(o, s, m).after.table.columns
    ensures SchemaMerge(o, s, m).after.config ==
      Asked(AddStage(o, s, m).config, SourceMissing(o, s, m.source), m.args).1
  {}

  /** A cached column and its entry in the schedule survive the Add step. */
  lemma AddKeepsCached(o: DiffOptions, s: SchemaState, m: MergeInput, col: Column)
    requires Consistent(s) && TidySource(m) && col in s.config.columns && col.name in Names(s.config.columns)
    requires s.config.dropDeletedColumns && col.name in s.config.columnsToDelete
    ensures var c := AddStage(o, s, m).config;
      && col in c.columns && c.dropDeletedColumns && col.name in c.columnsToDelete
      && c.columnsToDelete[col.name] == s.config.columnsToDelete[col.name]
  {
    MissingNames(o, s, m);
    AddedAllKeeps(s.config.columns, ToAdd(o, s, m.source), col);
  }

  /** What was dropped before the failing statement is stuck from there on, with the time that made it due. */
  lemma PartialDropIsStuck(o: DiffOptions, s: SchemaState, m: MergeInput, name: string)
    requires Consistent(s) && TidySource(m)
    requires var outcome := SchemaMerge(o, s, m); outcome.failed && !outcome.audited && name in outcome.dropped
    ensures Due(s.config, name, m.args.cdcTime, m.args.containOtherOperations)
    ensures exists col: Column ::
      col.name == name && Stuck(o, SchemaMerge(o, s, m).after, col, s.config.columnsToDelete[name])
  {
    var added, missing := AddStage(o, s, m), SourceMissing(o, s, m.source);
    DroppedWasScheduled(o, s, m, name);
    DroppedIsGone(o, s, m, name);
    DroppedIsDue(o, s, m, name);
    MissingNames(o, s, m);
    var col := DueColumn(added.config, missing, m.args, name);
    SourceMissingIsCached(o, s, m, col);
    AddKeepsCached(o, s, m, col);
    AskedFacts(added.config, missing, m.args);
    assert Stuck(o, SchemaMerge(o, s, m).after, col, s.config.columnsToDelete[name]);
  }

  ghost function DueColumn(c: TableConfig, cols: seq<Column>, a: DropArgs, name: string): (col: Column)
    requires name in Names(Asked(c, cols, a).0)
    ensures col.name == name && col in cols && !col.ShouldSkip()
  {
    AskedIsKnown(c, cols, a);
    NamesAre(Asked(c, cols, a).0, name);
    var col :| col in Asked(c, cols, a).0 && col.name == name;
    col
  }

  /**
   * After a merge that dropped a column and then failed, and after any further merges of the same
   * process whose sources lack the column, the cache still lists it and the table still lacks it;
   * each merge whose source lacks it, that holds more than deletes and whose change is past the
   * scheduled time, fails.
   */
  lemma PartialDropSticks(o: DiffOptions, s: SchemaState, m: MergeInput, run: seq<SchemaStep>, next: MergeInput,
      name: string)
    requires Consistent(s) && TidySource(m) && TidySource(next)
    requires var outcome := SchemaMerge(o, s, m); outcome.failed && !outcome.audited && name in outcome.dropped
    requires AllLack(run, name) && name !in Names(next.source)
    ensures var t := After(o, SchemaMerge(o, s, m).after, run);
      && name in Names(t.config.columns) && name !in t.table.columns
      && name in s.config.columnsToDelete
      && (next.args.containOtherOperations && next.args.cdcTime > s.config.columnsToDelete[name] ==>
        SchemaMerge(o, t, next).failed)
  {
    var after := SchemaMerge(o, s, m).after;
    PartialDropIsStuck(o, s, m, name);
    var time := s.config.columnsToDelete[name];
    var col: Column :| col.name == name && Stuck(o, after, col, time);
    MergeAgreement(o, s, m);
    StuckThroughRun(o, after, run, col, time);
    NamesAre(After(o, after, run).config.columns, name);
    StuckStays(o, After(o, after, run), next, col, time);
  }
}
