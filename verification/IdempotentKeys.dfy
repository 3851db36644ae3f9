/**
 * Batching with an idempotent key, or with none.  Merges let a staged row pass only if its idempotent
 * key is at least the stored one, but deletes always pass, and compaction keeps a key's last change
 * whatever came before it; these lemmas say exactly when that shows.
 */
module IdempotentKeys {
  import opened Values
  import opened Texts
  import opened Sql
  import opened ColumnLists
  import opened MergeMeaning
  import opened MergePrograms
  import opened MergeLaws
  import opened Replay
  import opened Compaction
  import opened BatchMerge

  /** Without an idempotent key nothing is older. */
  predicate NotOlder(g: string, row: Row, stored: Row) {
    g == "" || AtLeast(Cell(row, g), Cell(stored, g)) == Bool(true)
  }

  /** One staged row under the idempotent key `g`. */
  function GatedRow(p: Policy, g: string, d: Option<Row>, row: Row): Option<Row> {
    if Removes(p, row) then None
    else if d.Some? && !NotOlder(g, row, d.value) then d
    else Some(Base(p, d) + Known(p, row))
  }

  function GatedReplayed(p: Policy, g: string, d: Option<Row>, es: seq<Change>): Option<Row> {
    if es == [] then d else GatedRow(p, g, GatedReplayed(p, g, d, es[..|es| - 1]), es[|es| - 1].row)
  }

  // ---------------------------------------------------------------------------------------------
  // Streams whose keys rise

  /** The row carries an idempotent key that compares with itself: a number, a text, a decimal or a time. */
  predicate Versioned(g: string, row: Row) {
    g == "" || (g in row && (row[g].Num? || row[g].Text? || (row[g].Printed? && row[g].rank.Some?)))
  }

  predicate AllVersioned(p: Policy, g: string, es: seq<Change>) {
    forall e :: e in es && !Removes(p, e.row) ==> Versioned(g, e.row)
  }

  /** Every live change is at least as new as the live change, or the stored row, right before it. */
  predicate Rising(p: Policy, g: string, d: Option<Row>, es: seq<Change>) {
    && (es != [] && d.Some? && !Removes(p, es[0].row) ==> NotOlder(g, es[0].row, d.value))
    && forall i :: 0 < i < |es| && !Removes(p, es[i].row) && !Removes(p, es[i - 1].row) ==>
      NotOlder(g, es[i].row, es[i - 1].row)
  }

  /** Batching is invisible for this row: it ends in a delete, or is absent, or the last change is not older than it. */
  predicate BatchingInvisible(p: Policy, g: string, d: Option<Row>, es: seq<Change>) {
    es == [] || Removes(p, es[|es| - 1].row) || d.None? || NotOlder(g, es[|es| - 1].row, d.value)
  }

  lemma RisingFront(p: Policy, g: string, d: Option<Row>, es: seq<Change>)
    requires es != [] && Rising(p, g, d, es) && AllVersioned(p, g, es)
    ensures Rising(p, g, d, es[..|es| - 1]) && AllVersioned(p, g, es[..|es| - 1])
  {
    var front := es[..|es| - 1];
    assert forall i :: 0 <= i < |front| ==> front[i] == es[i];
    assert forall e :: e in front ==> e in es;
  }

  /** After a live change the row carries the key of that change. */
  lemma ReplayedKey(p: Policy, g: string, d: Option<Row>, es: seq<Change>)
    requires g in p.columns && es != [] && !Removes(p, es[|es| - 1].row)
    requires g != "" && Versioned(g, es[|es| - 1].row)
    ensures Replayed(p, d, es).Some? && Cell(Replayed(p, d, es).value, g) == es[|es| - 1].row[g]
  {
    assert g in Known(p, es[|es| - 1].row);
  }

  /** A rising stream is never held back by the gate. */
  lemma {:induction false} RisingIsNotGated(p: Policy, g: string, d: Option<Row>, es: seq<Change>)
    requires (g != "" ==> g in p.columns) && Rising(p, g, d, es) && AllVersioned(p, g, es)
    ensures GatedReplayed(p, g, d, es) == Replayed(p, d, es)
  {
    if es != [] {
      var front, last := es[..|es| - 1], es[|es| - 1];
      RisingFront(p, g, d, es);
      RisingIsNotGated(p, g, d, front);
      if g != "" && !Removes(p, last.row) && front != [] {
        var before := front[|front| - 1];
        assert before == es[|es| - 2] && before in es && last in es;
        if Removes(p, before.row) {
          assert Replayed(p, d, front) == None;
        } else {
          ReplayedKey(p, g, d, front);
          assert NotOlder(g, last.row, before.row);
        }
      }
    }
  }

  lemma {:induction false} CompactedKey(p: Policy, g: string, es: seq<Change>)
    requires es != [] && g != "" && Versioned(g, es[|es| - 1].row)
    ensures Versioned(g, Compact(es)) && Compact(es)[g] == es[|es| - 1].row[g]
  {}

  /** A gate that holds a row back shows, because the stored key stays different. */
  lemma GateIsVisible(p: Policy, g: string, d: Option<Row>, row: Row)
    requires g in p.columns && g != "" && Versioned(g, row) && !Removes(p, row)
    ensures GatedRow(p, g, d, row) == ApplyRow(p, d, row) <==> d.None? || NotOlder(g, row, d.value)
  {
    assert Cell(ApplyRow(p, d, row).value, g) == row[g];
    if row[g].Text? { LexReflexive(row[g].s); }
  }

  /**
   * For a rising stream, merging the compacted row agrees with merging the changes one by one exactly
   * when the row is not restored, after a delete in the same batch, with a smaller key than it had.
   */
  lemma GatedCompactionExact(p: Policy, g: string, d: Option<Row>, es: seq<Change>)
    requires es != [] && Marked(es) && Chained(p, es) && Shaped(p, d)
    requires (g != "" ==> g in p.columns) && Rising(p, g, d, es) && AllVersioned(p, g, es)
    ensures GatedRow(p, g, d, Compact(es)) == GatedReplayed(p, g, d, es) <==> BatchingInvisible(p, g, d, es)
  {
    var last := es[|es| - 1];
    assert last in es;
    CompactShape(es);
    CompactionRefines(p, d, es);
    RisingIsNotGated(p, g, d, es);
    if g != "" && !Removes(p, last.row) {
      CompactedKey(p, g, es);
      GateIsVisible(p, g, d, Compact(es));
    }
  }

  // ---------------------------------------------------------------------------------------------
  // Histories whose keys never go down

  /** No live change is older than the row. */
  predicate NoneOlder(p: Policy, g: string, d: Option<Row>, es: seq<Change>) {
    d.Some? ==> forall e :: e in es && !Removes(p, e.row) ==> NotOlder(g, e.row, d.value)
  }

  /** Every live change is at least as new as the row that is there at first and as all live changes before it. */
  predicate Ascending(p: Policy, g: string, d: Option<Row>, es: seq<Change>) {
    && AllVersioned(p, g, es) && NoneOlder(p, g, d, es)
    && forall i, j :: 0 <= i < j < |es| && !Removes(p, es[i].row) && !Removes(p, es[j].row) ==>
      NotOlder(g, es[j].row, es[i].row)
  }

  lemma WithoutKeyAscending(p: Policy, d: Option<Row>, es: seq<Change>)
    ensures Ascending(p, "", d, es)
  {}

  lemma AscendingRises(p: Policy, g: string, d: Option<Row>, es: seq<Change>, rest: seq<Change>)
    requires Ascending(p, g, d, es + rest)
    ensures Rising(p, g, d, es) && AllVersioned(p, g, es)
  {
    var all := es + rest;
    assert forall i :: 0 <= i < |es| ==> all[i] == es[i] && all[i] in all && es[i] in es;
  }

  /** What one merge makes of the changes to a key. */
  function MergedOnto(p: Policy, g: string, d: Option<Row>, es: seq<Change>): Option<Row> {
    if es == [] then d else GatedRow(p, g, d, Compact(es))
  }

  /** The gate lets the changes through. */
  predicate Passes(p: Policy, g: string, d: Option<Row>, es: seq<Change>)
    requires es != []
  {
    Removes(p, es[|es| - 1].row) || d.None? || NotOlder(g, es[|es| - 1].row, d.value)
  }

  /** A merge that the gate lets through applies the changes in order; one that it holds back does nothing. */
  lemma MergedOrHeld(p: Policy, g: string, d: Option<Row>, es: seq<Change>)
    requires es != [] && Marked(es) && Chained(p, es) && Shaped(p, d) && AllVersioned(p, g, es)
    ensures MergedOnto(p, g, d, es) == if Passes(p, g, d, es) then Replayed(p, d, es) else d
  {
    var last := es[|es| - 1];
    assert last in es;
    CompactShape(es);
    CompactionRefines(p, d, es);
    if g != "" && !Removes(p, last.row) { CompactedKey(p, g, es); }
  }

  /** After a merge of changes that no later one is older than, none is older than the row. */
  lemma NoneOlderAfter(p: Policy, g: string, d: Option<Row>, es: seq<Change>, later: seq<Change>)
    requires es != [] && AllVersioned(p, g, es) && (g != "" ==> g in p.columns)
    requires !Removes(p, es[|es| - 1].row) ==> forall e :: e in later && !Removes(p, e.row) ==>
      NotOlder(g, e.row, es[|es| - 1].row)
    ensures NoneOlder(p, g, Replayed(p, d, es), later)
  {
    var last := es[|es| - 1];
    assert last in es;
    if g != "" && !Removes(p, last.row) { ReplayedKey(p, g, d, es); }
  }

  lemma LaterAreNotOlder(p: Policy, g: string, d: Option<Row>, before: seq<Change>, es: seq<Change>, later: seq<Change>)
    requires Ascending(p, g, d, before + es + later) && es != [] && !Removes(p, es[|es| - 1].row)
    ensures forall e :: e in later && !Removes(p, e.row) ==> NotOlder(g, e.row, es[|es| - 1].row)
  {
    var all, n := before + es + later, |before| + |es| - 1;
    assert all[n] == es[|es| - 1];
    forall e | e in later && !Removes(p, e.row) ensures NotOlder(g, e.row, es[|es| - 1].row) {
      var i :| 0 <= i < |later| && later[i] == e;
      assert all[n + 1 + i] == e;
    }
  }

  // ---------------------------------------------------------------------------------------------
  // Whole tables

  /** Hard deletes, or Redshift's soft deletes, with a written idempotent key or none. */
  predicate Mergeable(cfg: Config) {
    && Sound(cfg) && (cfg.softDelete ==> cfg.destKind == Redshift)
    && (cfg.idempotentKey != "" ==> cfg.idempotentKey in PolicyOf(cfg).columns)
  }

  lemma OutcomeIsGatedRow(r: Rules, p: Policy, d: Option<Row>, cc: Row)
    requires r.softDelete ==> r.insertDeleted
    requires p == Policy(Written(r), r.softDelete)
    requires Covered(r.columns, cc) && DELETE_MARKER in cc && cc[DELETE_MARKER].Bool?
    requires Shaped(p, d)
    ensures Outcome(r, d, cc) == GatedRow(p, r.idempotentKey, d, cc)
  {
    if !Removes(p, cc) {
      match d
      case Some(c) => assert MergedRow(r, c, cc) == c + Known(p, cc);
      case None => assert InsertedRow(r, cc) == Base(p, None) + Known(p, cc);
    }
  }

  /** A merged buffer leaves each row as its compacted changes say. */
  lemma GatedMergeAt(cfg: Config, es: seq<Change>, target: Table, k: Key)
    requires Mergeable(cfg) && Settled(cfg, target)
    requires AllProper(es, cfg.primaryKeys) && Faithful(es, cfg.primaryKeys) && WithinColumns(es, cfg.schema)
    ensures var changes := KeyChanges(es, cfg.primaryKeys, k);
      Lookup(MergeBuffer(cfg, BufferOf(cfg, es), target), k) ==
        if changes == [] then Lookup(target, k)
          else GatedRow(PolicyOf(cfg), cfg.idempotentKey, Lookup(target, k), Compact(changes))
  {
    var pks, b := cfg.primaryKeys, BufferOf(cfg, es);
    MergeBufferIsReference(cfg, es, target);
    SavedArgumentIsRunnable(cfg, es);
    SavedRows(FreshBuffer(cfg), es);
    MergeTableAt(RulesOf(Argument(cfg, b)), target, Staging(Buffered(es), pks), k);
    StagingAt(es, pks, k);
    if KeyChanges(es, pks, k) != [] {
      StagedRowIsCovered(cfg, es, k);
      KeyChangesAreFromList(es, pks, k);
      CompactShape(KeyChanges(es, pks, k));
      OutcomeIsGatedRow(RulesOf(Argument(cfg, b)), PolicyOf(cfg), Lookup(target, k), Compact(KeyChanges(es, pks, k)));
    }
  }

  lemma GatedMergeSettled(cfg: Config, es: seq<Change>, target: Table)
    requires Mergeable(cfg) && Settled(cfg, target)
    requires AllProper(es, cfg.primaryKeys) && Faithful(es, cfg.primaryKeys) && WithinColumns(es, cfg.schema)
    ensures Settled(cfg, MergeBuffer(cfg, BufferOf(cfg, es), target))
  {
    var after := MergeBuffer(cfg, BufferOf(cfg, es), target);
    MergeBufferIsReference(cfg, es, target);
    SavedArgumentIsRunnable(cfg, es);
    SavedRows(FreshBuffer(cfg), es);
    StagingIsKeyed(es, cfg.primaryKeys);
    MergeTableKeyed(Argument(cfg, BufferOf(cfg, es)), target, Staging(Buffered(es), cfg.primaryKeys));
    forall k | k in after ensures after[k].Keys == PolicyOf(cfg).columns { GatedMergeAt(cfg, es, target, k); }
  }

  lemma GatedSingleAt(cfg: Config, es: seq<Change>, e: Change, target: Table, k: Key)
    requires Mergeable(cfg) && Settled(cfg, target)
    requires AllProper(es, cfg.primaryKeys) && WithinColumns(es, cfg.schema) && e in es
    ensures Settled(cfg, MergeBuffer(cfg, BufferOf(cfg, [e]), target))
    ensures Lookup(MergeBuffer(cfg, BufferOf(cfg, [e]), target), k) ==
      if KeyOf(e.row, cfg.primaryKeys) == k
        then GatedRow(PolicyOf(cfg), cfg.idempotentKey, Lookup(target, k), e.row) else Lookup(target, k)
  {
    SingleIsWellFormed(cfg, es, e);
    GatedMergeAt(cfg, [e], target, k);
    GatedMergeSettled(cfg, [e], target);
    assert Compact([e]) == e.row by { assert [e][..0] == []; }
  }

  lemma GatedReplayedMore(p: Policy, g: string, d: Option<Row>, es: seq<Change>, e: Change)
    ensures GatedReplayed(p, g, d, es + [e]) == GatedRow(p, g, GatedReplayed(p, g, d, es), e.row)
  {
    assert (es + [e])[..|es|] == es;
  }

  lemma {:induction false} GatedOneByOneAt(cfg: Config, target: Table, es: seq<Change>, k: Key)
    requires Mergeable(cfg) && Settled(cfg, target)
    requires AllProper(es, cfg.primaryKeys) && WithinColumns(es, cfg.schema)
    ensures Settled(cfg, OneByOne(cfg, target, es))
    ensures Lookup(OneByOne(cfg, target, es), k) ==
      GatedReplayed(PolicyOf(cfg), cfg.idempotentKey, Lookup(target, k), KeyChanges(es, cfg.primaryKeys, k))
  {
    if es != [] {
      var front, last := es[..|es| - 1], es[|es| - 1];
      assert last in es && forall e :: e in front ==> e in es;
      GatedOneByOneAt(cfg, target, front, k);
      GatedSingleAt(cfg, es, last, OneByOne(cfg, target, front), k);
      LastKeyChange(es, cfg.primaryKeys, k);
      GatedReplayedMore(PolicyOf(cfg), cfg.idempotentKey, Lookup(target, k),
        KeyChanges(front, cfg.primaryKeys, k), last);
      OneByOneMore(cfg, target, es);
    }
  }

  /** The changes to every key rise in the idempotent key, starting from the target's row. */
  ghost predicate RisingLog(cfg: Config, target: Table, es: seq<Change>) {
    forall k ::
      && Rising(PolicyOf(cfg), cfg.idempotentKey, Lookup(target, k), KeyChanges(es, cfg.primaryKeys, k))
      && AllVersioned(PolicyOf(cfg), cfg.idempotentKey, KeyChanges(es, cfg.primaryKeys, k))
  }

  /**
   * With an idempotent key that rises along the log, or with none, one merge of the buffer equals
   * merging the changes one by one exactly when it does not delete a row and restore it with a smaller
   * key.
   */
  lemma GatedBatchingExact(cfg: Config, target: Table, es: seq<Change>)
    requires Mergeable(cfg) && Settled(cfg, target) && WellFormedLog(cfg, es) && RisingLog(cfg, target, es)
    ensures MergeBuffer(cfg, BufferOf(cfg, es), target) == OneByOne(cfg, target, es)
      <==> forall k ::
        BatchingInvisible(PolicyOf(cfg), cfg.idempotentKey, Lookup(target, k), KeyChanges(es, cfg.primaryKeys, k))
  {
    var batch, steps := MergeBuffer(cfg, BufferOf(cfg, es), target), OneByOne(cfg, target, es);
    var p, g := PolicyOf(cfg), cfg.idempotentKey;
    forall k
      ensures Lookup(batch, k) == Lookup(steps, k) <==>
        BatchingInvisible(p, g, Lookup(target, k), KeyChanges(es, cfg.primaryKeys, k))
    {
      var changes := KeyChanges(es, cfg.primaryKeys, k);
      GatedMergeAt(cfg, es, target, k);
      GatedOneByOneAt(cfg, target, es, k);
      KeyChangesAreFromList(es, cfg.primaryKeys, k);
      assert Rising(p, g, Lookup(target, k), changes);
      if changes != [] { GatedCompactionExact(p, g, Lookup(target, k), changes); }
    }
    if forall k :: BatchingInvisible(p, g, Lookup(target, k), KeyChanges(es, cfg.primaryKeys, k)) {
      SameLookups(batch, steps);
    }
  }

  /** Without an idempotent key compaction is invisible: for hard deletes, and for Redshift's soft deletes. */
  lemma CompactionIsInvisible(cfg: Config, target: Table, es: seq<Change>)
    requires Mergeable(cfg) && cfg.idempotentKey == "" && Settled(cfg, target) && WellFormedLog(cfg, es)
    ensures MergeBuffer(cfg, BufferOf(cfg, es), target) == OneByOne(cfg, target, es)
  {
    GatedBatchingExact(cfg, target, es);
  }
}
