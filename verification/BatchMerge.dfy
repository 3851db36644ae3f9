/**
 * Merging a buffer into the destination: the merge argument that a buffer gives rise to, the
 * program that its destination runs, and the table that results.
 */
module BatchMerge {
  import opened Values
  import opened Sql
  import opened ColumnLists
  import opened Dml
  import opened MergeMeaning
  import opened MergePrograms
  import opened MergeLaws
  import opened Replay
  import opened Buffers
  import opened Compaction

  /** The settings of one topic and its destination. */
  datatype Config = Config(
    destKind: DestKind,
    softDelete: bool,
    idempotentKey: string,
    primaryKeys: seq<string>,
    schema: seq<Column>,
    fqTableName: string,
    subQuery: string)

  function FreshBuffer(cfg: Config): Buffer {
    NewBuffer(false, cfg.softDelete, cfg.primaryKeys, cfg.schema)
  }

  ghost function BufferOf(cfg: Config, es: seq<Change>): Buffer {
    AfterSaves(FreshBuffer(cfg), es)
  }

  function Argument(cfg: Config, b: Buffer): MergeArgument {
    MergeArgument(cfg.fqTableName, cfg.subQuery, cfg.idempotentKey, b.primaryKeys, [], b.columns, cfg.destKind,
      b.softDelete, Some(b.containsHardDeletes), Some(false))
  }

  lemma BuiltProgramsAreWellFormed(m: MergeArgument)
    ensures Program(m).Ok? ==> forall s :: s in Program(m).value ==> WellFormed(s)
  {}

  /** The destination after a merge; a program that cannot be built changes nothing. */
  ghost function MergeBuffer(cfg: Config, b: Buffer, target: Table): Table {
    var m := Argument(cfg, b);
    BuiltProgramsAreWellFormed(m);
    if Program(m).Ok? then ExecAll(Program(m).value, target, Staging(b.rowsData, b.primaryKeys)) else target
  }

  // ---------------------------------------------------------------------------------------------
  // Columns during saves

  lemma HasInFront(cols: seq<Column>, x: string)
    requires cols != []
    ensures Has(cols, x) <==> Has(cols[..|cols| - 1], x) || cols[|cols| - 1].name == x
  {
    assert forall i :: 0 <= i < |cols| - 1 ==> cols[..|cols| - 1][i] == cols[i];
  }

  lemma {:induction false} FlaggedAfter(cols: seq<Column>, row: Row, x: string)
    requires Distinct(cols)
    ensures Flagged(FlagToasts(cols, row), x) <==> Flagged(cols, x) || (Has(cols, x) && Cell(row, x) == Toast)
  {
    if cols != [] {
      var n := |cols| - 1;
      FlaggedAfter(cols[..n], row, x);
      var after := FlagToasts(cols, row);
      assert after[..n] == FlagToasts(cols[..n], row);
      assert after[n] == cols[n].(toast := cols[n].toast || Cell(row, cols[n].name) == Toast);
      HasInFront(cols, x);
      assert Flagged(after, x) == if cols[n].name == x then after[n].toast else Flagged(after[..n], x);
    }
  }

  lemma {:induction false} SameWritable(a: seq<Column>, b: seq<Column>, skip: bool)
    requires |a| == |b|
    requires forall i :: 0 <= i < |a| ==> a[i].name == b[i].name && a[i].kind == b[i].kind
    ensures Writable(a, skip) == Writable(b, skip) && Updatable(a) == Updatable(b)
  {
    if a != [] { SameWritable(a[..|a| - 1], b[..|b| - 1], skip); }
  }

  /** Saving changes keeps names and kinds; only flags are added. */
  lemma {:induction false} SavedColumns(b: Buffer, es: seq<Change>)
    ensures var cols := AfterSaves(b, es).columns;
      |cols| == |b.columns| && forall i :: 0 <= i < |cols| ==>
        cols[i].name == b.columns[i].name && cols[i].kind == b.columns[i].kind
  {
    if es != [] { SavedColumns(b, es[..|es| - 1]); }
  }

  lemma SameNamesSameHas(a: seq<Column>, b: seq<Column>, x: string)
    requires |a| == |b| && forall i :: 0 <= i < |a| ==> a[i].name == b[i].name
    ensures Has(a, x) == Has(b, x)
  {
    if Has(a, x) { assert b[Position(a, x)].name == x; }
    if Has(b, x) { assert a[Position(b, x)].name == x; }
  }

  predicate WithinColumns(es: seq<Change>, cols: seq<Column>) {
    forall e, x :: e in es && x in e.row ==> Has(cols, x)
  }

  /**
   * Placeholder safety over a buffer's life: after any sequence of saves, every buffered
   * placeholder sits in a column that is flagged.
   */
  lemma {:induction false} BufferedPlaceholdersAreFlagged(b: Buffer, es: seq<Change>)
    requires Distinct(b.columns) && WithinColumns(es, b.columns)
    requires !b.history
    requires forall text :: text in b.rowsData ==> Covered(b.columns, b.rowsData[text])
    ensures Distinct(AfterSaves(b, es).columns)
    ensures forall text :: text in AfterSaves(b, es).rowsData ==>
      Covered(AfterSaves(b, es).columns, AfterSaves(b, es).rowsData[text])
    ensures AfterSaves(b, es).history == b.history
  {
    SavedColumns(b, es);
    if es != [] {
      var front, last := es[..|es| - 1], es[|es| - 1];
      var before := AfterSaves(b, front);
      assert last in es && forall e :: e in front ==> e in es;
      BufferedPlaceholdersAreFlagged(b, front);
      SavedColumns(b, front);
      var after := AfterSaves(b, es);
      forall text, x | text in after.rowsData && x in after.rowsData[text] && after.rowsData[text][x] == Toast
        ensures Flagged(after.columns, x)
      {
        FlaggedAfter(before.columns, last.row, x);
        SameNamesSameHas(before.columns, b.columns, x);
      }
    }
  }

  // ---------------------------------------------------------------------------------------------
  // Compaction of whole batches

  /** A configuration for which merges build: the marker and key columns exist and have a kind. */
  predicate Sound(cfg: Config) {
    && Runnable(Argument(cfg, FreshBuffer(cfg)))
    && (forall i :: 0 <= i < |cfg.schema| ==> !cfg.schema[i].toast)
  }

  function PolicyOf(cfg: Config): Policy {
    Policy(Writable(cfg.schema, !cfg.softDelete), cfg.softDelete)
  }

  /**
   * Changes as the source emits them: proper, within the schema, keyed by their text, placeholders only after a known
   * row.
   */
  ghost predicate WellFormedLog(cfg: Config, es: seq<Change>) {
    && AllProper(es, cfg.primaryKeys)
    && Faithful(es, cfg.primaryKeys)
    && WithinColumns(es, cfg.schema)
    && forall k :: Chained(PolicyOf(cfg), KeyChanges(es, cfg.primaryKeys, k))
  }

  /** A destination table over the written columns, stored by primary key. */
  ghost predicate Settled(cfg: Config, t: Table) {
    Keyed(t, cfg.primaryKeys) && forall k :: k in t ==> t[k].Keys == PolicyOf(cfg).columns
  }

  /** Flags and the values of the buffer's own flags do not matter for whether a merge can be built. */
  lemma SameColumnsRunnable(m: MergeArgument, cols: seq<Column>, hardDeletes: bool)
    requires Runnable(m) && |cols| == |m.columns|
    requires forall i :: 0 <= i < |cols| ==> cols[i].name == m.columns[i].name && cols[i].kind == m.columns[i].kind
    ensures Runnable(m.(columns := cols, containsHardDeletes := Some(hardDeletes)))
  {
    SameWritable(cols, m.columns, false);
    assert Distinct(cols);
  }

  lemma SavedArgumentIsRunnable(cfg: Config, es: seq<Change>)
    requires Sound(cfg)
    ensures Runnable(Argument(cfg, BufferOf(cfg, es)))
    ensures Written(RulesOf(Argument(cfg, BufferOf(cfg, es)))) == PolicyOf(cfg).columns
  {
    var b, m := BufferOf(cfg, es), Argument(cfg, FreshBuffer(cfg));
    SavedColumns(FreshBuffer(cfg), es);
    SavedRows(FreshBuffer(cfg), es);
    SameColumnsRunnable(m, b.columns, b.containsHardDeletes);
    assert Argument(cfg, b) == m.(columns := b.columns, containsHardDeletes := Some(b.containsHardDeletes));
    SameWritable(b.columns, cfg.schema, !cfg.softDelete);
  }

  /** The flags of the buffer put the DELETE part into Redshift's program whenever a staged row is marked deleted. */
  lemma DeletesAreFlagged(cfg: Config, es: seq<Change>)
    requires AllProper(es, cfg.primaryKeys) && Faithful(es, cfg.primaryKeys)
    requires !cfg.softDelete && SomeDeleted(Staging(Buffered(es), cfg.primaryKeys))
    ensures BufferOf(cfg, es).containsHardDeletes
  {
    FlagsAreExact(FreshBuffer(cfg), es);
    var pks := cfg.primaryKeys;
    var k :| k in Staging(Buffered(es), pks) && MarkedDeleted(Staging(Buffered(es), pks)[k]);
    StagingAt(es, pks, k);
    var changes := KeyChanges(es, pks, k);
    KeyChangesAreFromList(es, pks, k);
    CompactShape(changes);
    assert changes[|changes| - 1] in changes;
  }

  /** Merging the buffer of any saved changes runs the reference merge over the compacted rows. */
  lemma MergeBufferIsReference(cfg: Config, es: seq<Change>, target: Table)
    requires Sound(cfg) && Keyed(target, cfg.primaryKeys)
    requires AllProper(es, cfg.primaryKeys) && Faithful(es, cfg.primaryKeys)
    ensures MergeBuffer(cfg, BufferOf(cfg, es), target) ==
      MergeTable(RulesOf(Argument(cfg, BufferOf(cfg, es))), target, Staging(Buffered(es), cfg.primaryKeys))
  {
    SavedArgumentIsRunnable(cfg, es);
    SavedRows(FreshBuffer(cfg), es);
    StagingIsKeyed(es, cfg.primaryKeys);
    if !cfg.softDelete && SomeDeleted(Staging(Buffered(es), cfg.primaryKeys)) { DeletesAreFlagged(cfg, es); }
    ProgramMeaning(Argument(cfg, BufferOf(cfg, es)), target, Staging(Buffered(es), cfg.primaryKeys));
  }

  /**
   * With hard deletes every destination makes the same table of a buffer: its rows have no NULL
   * marker, so that MSSQL leaves none of them out, and its flags put the DELETE part in.
   */
  lemma DestinationsAgree(cfg: Config, other: Config, es: seq<Change>, target: Table)
    requires Sound(cfg) && Sound(other) && !cfg.softDelete && other == cfg.(destKind := other.destKind)
    requires Keyed(target, cfg.primaryKeys) && AllProper(es, cfg.primaryKeys) && Faithful(es, cfg.primaryKeys)
    ensures MergeBuffer(cfg, BufferOf(cfg, es), target) == MergeBuffer(other, BufferOf(other, es), target)
  {
    MergeBufferIsReference(cfg, es, target);
    MergeBufferIsReference(other, es, target);
    StagingIsKeyed(es, cfg.primaryKeys);
    var a, b := RulesOf(Argument(cfg, BufferOf(cfg, es))), RulesOf(Argument(other, BufferOf(other, es)));
    var staging := Staging(Buffered(es), cfg.primaryKeys);
    SavedRows(FreshBuffer(cfg), es);
    forall k | k in staging
      ensures Outcome(a, Lookup(target, k), staging[k]) == Outcome(b, Lookup(target, k), staging[k])
    {
      SameHardOutcome(a, b, Lookup(target, k), staging[k]);
    }
    SameRulesSameTable(a, b, target, staging);
  }

  lemma StagedRowIsCovered(cfg: Config, es: seq<Change>, k: Key)
    requires Sound(cfg) && WithinColumns(es, cfg.schema)
    requires AllProper(es, cfg.primaryKeys) && Faithful(es, cfg.primaryKeys)
    requires k in Staging(Buffered(es), cfg.primaryKeys)
    ensures Covered(BufferOf(cfg, es).columns, Staging(Buffered(es), cfg.primaryKeys)[k])
  {
    BufferedPlaceholdersAreFlagged(FreshBuffer(cfg), es);
    SavedRows(FreshBuffer(cfg), es);
    var rows := Buffered(es);
    var text :| text in rows && KeyOf(rows[text], cfg.primaryKeys) == k
      && Staging(rows, cfg.primaryKeys)[k] == rows[text];
  }

  // ---------------------------------------------------------------------------------------------
  // Placeholders, from the saves to the destination

  lemma {:induction false} ReconcilingKeepsFlags(cols: seq<Column>, destination: seq<Column>, x: string)
    ensures Flagged(ReconciledAll(cols, destination), x) == Flagged(cols, x)
  {
    if cols != [] {
      var n := |cols| - 1;
      ReconcilingKeepsFlags(cols[..n], destination, x);
      assert ReconciledAll(cols, destination)[..n] == ReconciledAll(cols[..n], destination);
    }
  }

  /** The buffer that Merge stages: its column kinds come from the destination. */
  function AtMerge(b: Buffer, destination: seq<Column>): Buffer {
    b.(columns := ReconciledAll(b.columns, destination))
  }

  /**
   * Placeholder safety end to end: whatever was saved and however the destination's columns
   * override the buffered ones, no merge replaces a stored value with the placeholder.
   */
  lemma PlaceholderSafety(cfg: Config, es: seq<Change>, destination: seq<Column>, target: Table)
    requires Sound(cfg) && Keyed(target, cfg.primaryKeys)
    requires AllProper(es, cfg.primaryKeys) && Faithful(es, cfg.primaryKeys) && WithinColumns(es, cfg.schema)
    requires Runnable(Argument(cfg, AtMerge(BufferOf(cfg, es), destination)))
    ensures var after := MergeBuffer(cfg, AtMerge(BufferOf(cfg, es), destination), target);
      forall k, x :: k in target && k in after && Cell(after[k], x) == Toast ==> Cell(target[k], x) == Toast
  {
    var b := AtMerge(BufferOf(cfg, es), destination);
    var staging := Staging(Buffered(es), cfg.primaryKeys);
    SavedRows(FreshBuffer(cfg), es);
    StagingIsKeyed(es, cfg.primaryKeys);
    forall k | k in staging ensures Covered(b.columns, staging[k]) {
      StagedRowIsCovered(cfg, es, k);
      forall x | x in staging[k] && staging[k][x] == Toast ensures Flagged(b.columns, x) {
        ReconcilingKeepsFlags(BufferOf(cfg, es).columns, destination, x);
      }
    }
    ProgramKeepsValues(Argument(cfg, b), target, staging);
  }

  // ---------------------------------------------------------------------------------------------
  // Event-at-a-time application

  /** Merges every change on its own, through a buffer of its own. */
  ghost function OneByOne(cfg: Config, target: Table, es: seq<Change>): Table {
    if es == [] then target
    else MergeBuffer(cfg, BufferOf(cfg, [es[|es| - 1]]), OneByOne(cfg, target, es[..|es| - 1]))
  }

  lemma OneByOneMore(cfg: Config, target: Table, es: seq<Change>)
    requires es != []
    ensures OneByOne(cfg, target, es) ==
      MergeBuffer(cfg, BufferOf(cfg, [es[|es| - 1]]), OneByOne(cfg, target, es[..|es| - 1]))
  {}

  lemma SingleIsWellFormed(cfg: Config, es: seq<Change>, e: Change)
    requires AllProper(es, cfg.primaryKeys) && WithinColumns(es, cfg.schema) && e in es
    ensures WellFormedLog(cfg, [e])
    ensures forall k :: KeyChanges([e], cfg.primaryKeys, k) == if KeyOf(e.row, cfg.primaryKeys) == k then [e] else []
  {
    assert forall f :: f in [e] ==> f == e;
    forall k ensures KeyChanges([e], cfg.primaryKeys, k) == if KeyOf(e.row, cfg.primaryKeys) == k then [e] else [] {
      assert [e][..0] == [];
      assert KeyChanges([e][..0], cfg.primaryKeys, k) == [];
    }
  }
}
