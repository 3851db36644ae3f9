/**
 * Soft deletes through a single MERGE (every destination but Redshift).  An unmatched row marked
 * deleted is not inserted, so how the changes are cut into batches can show in the result; these
 * lemmas say exactly when it does.
 */
module SoftDelete {
  import opened Values
  import opened Sql
  import opened ColumnLists
  import opened MergeMeaning
  import opened MergePrograms
  import opened MergeLaws
  import opened Replay
  import opened Compaction
  import opened BatchMerge

  /** One staged row: a marked row only ever updates. */
  function SoftRow(p: Policy, d: Option<Row>, row: Row): Option<Row> {
    if d.None? && MarkedDeleted(row) then None else Some(Base(p, d) + Known(p, row))
  }

  function SoftReplayed(p: Policy, d: Option<Row>, es: seq<Change>): Option<Row> {
    if es == [] then d else SoftRow(p, SoftReplayed(p, d, es[..|es| - 1]), es[|es| - 1].row)
  }

  predicate OnlyDeletes(es: seq<Change>) {
    forall e :: e in es ==> MarkedDeleted(e.row)
  }

  /** Batching is invisible for this row: it exists, or the last change is no delete, or all are. */
  predicate BatchingInvisible(d: Option<Row>, es: seq<Change>) {
    es == [] || d.Some? || !MarkedDeleted(es[|es| - 1].row) || OnlyDeletes(es)
  }

  /** On an existing row soft deletes are updates like any other. */
  lemma {:induction false} SoftOnExisting(p: Policy, d: Option<Row>, es: seq<Change>)
    requires p.soft && d.Some?
    ensures SoftReplayed(p, d, es) == Replayed(p, d, es) && SoftReplayed(p, d, es).Some?
  {
    if es != [] { SoftOnExisting(p, d, es[..|es| - 1]); }
  }

  /** On an absent row the leading deletes leave no trace. */
  lemma {:induction false} SoftOnAbsent(p: Policy, es: seq<Change>)
    requires p.soft && Chained(p.(soft := false), es)
    ensures SoftReplayed(p, None, es) == if OnlyDeletes(es) then None else Replayed(p, None, es)
  {
    if es != [] {
      var front, last := es[..|es| - 1], es[|es| - 1];
      assert forall i :: 0 <= i < |front| ==> front[i] == es[i];
      SoftOnAbsent(p, front);
      assert OnlyDeletes(es) <==> OnlyDeletes(front) && MarkedDeleted(last.row) by {
        assert forall e :: e in es <==> e in front || e == last by { assert es == front + [last]; }
      }
      if OnlyDeletes(front) && !MarkedDeleted(last.row) {
        if front != [] {
          assert front[|front| - 1] in front;
          assert Follows(p.(soft := false), front[|front| - 1].row, last.row);
          ReplayedShaped(p, None, front);
          FullRowHidesBase(p, Replayed(p, None, front), last.row);
        }
      } else if !OnlyDeletes(front) {
        ReplayedShaped(p, None, front);
        ReplayedSoftIsSome(p, None, front);
      }
    }
  }

  lemma FullRowHidesBase(p: Policy, d: Option<Row>, row: Row)
    requires Shaped(p, d) && forall x :: x in row ==> row[x] != Toast
    ensures Base(p, d) + Known(p, row) == Base(p, None) + Known(p, row)
  {
    assert Known(p, row).Keys == p.columns;
  }

  lemma {:induction false} ReplayedSoftIsSome(p: Policy, d: Option<Row>, es: seq<Change>)
    requires p.soft && es != []
    ensures Replayed(p, d, es).Some?
  {}

  /** Merging the compacted row agrees with merging the changes one by one exactly when batching is invisible. */
  lemma SoftCompactionExact(p: Policy, d: Option<Row>, es: seq<Change>)
    requires p.soft && es != [] && Marked(es) && Chained(p.(soft := false), es) && Shaped(p, d)
    ensures SoftRow(p, d, Compact(es)) == SoftReplayed(p, d, es) <==> BatchingInvisible(d, es)
  {
    assert Chained(p, es) by {
      forall i | 0 < i < |es| ensures Follows(p, es[i - 1].row, es[i].row) {
        assert Follows(p.(soft := false), es[i - 1].row, es[i].row);
      }
    }
    CompactShape(es);
    CompactionRefines(p, d, es);
    ReplayedSoftIsSome(p, d, es);
    if d.Some? { SoftOnExisting(p, d, es); } else { SoftOnAbsent(p, es); }
  }

  // ---------------------------------------------------------------------------------------------
  // Whole tables

  predicate SoftMerging(cfg: Config) {
    Sound(cfg) && cfg.idempotentKey == "" && cfg.softDelete && cfg.destKind != Redshift
  }

  /** As WellFormedLog, with no placeholder right after a delete. */
  ghost predicate StrictLog(cfg: Config, es: seq<Change>) {
    && AllProper(es, cfg.primaryKeys)
    && Faithful(es, cfg.primaryKeys)
    && WithinColumns(es, cfg.schema)
    && forall k :: Chained(PolicyOf(cfg).(soft := false), KeyChanges(es, cfg.primaryKeys, k))
  }

  lemma OutcomeIsSoftRow(r: Rules, p: Policy, d: Option<Row>, cc: Row)
    requires r.idempotentKey == "" && r.softDelete && !r.insertDeleted
    requires p == Policy(Written(r), true)
    requires Covered(r.columns, cc) && Shaped(p, d)
    ensures Outcome(r, d, cc) == SoftRow(p, d, cc)
  {
    match d
    case Some(c) => assert MergedRow(r, c, cc) == c + Known(p, cc);
    case None => assert InsertedRow(r, cc) == Base(p, None) + Known(p, cc);
  }

  /** A merged buffer leaves each row as its compacted changes say. */
  lemma SoftMergeAt(cfg: Config, es: seq<Change>, target: Table, k: Key)
    requires SoftMerging(cfg) && Settled(cfg, target)
    requires AllProper(es, cfg.primaryKeys) && Faithful(es, cfg.primaryKeys) && WithinColumns(es, cfg.schema)
    ensures var changes := KeyChanges(es, cfg.primaryKeys, k);
      Lookup(MergeBuffer(cfg, BufferOf(cfg, es), target), k) ==
        if changes == [] then Lookup(target, k) else SoftRow(PolicyOf(cfg), Lookup(target, k), Compact(changes))
  {
    var pks, b := cfg.primaryKeys, BufferOf(cfg, es);
    MergeBufferIsReference(cfg, es, target);
    SavedArgumentIsRunnable(cfg, es);
    SavedRows(FreshBuffer(cfg), es);
    MergeTableAt(RulesOf(Argument(cfg, b)), target, Staging(Buffered(es), pks), k);
    StagingAt(es, pks, k);
    if KeyChanges(es, pks, k) != [] {
      StagedRowIsCovered(cfg, es, k);
      OutcomeIsSoftRow(RulesOf(Argument(cfg, b)), PolicyOf(cfg), Lookup(target, k), Compact(KeyChanges(es, pks, k)));
    }
  }

  lemma SoftMergeSettled(cfg: Config, es: seq<Change>, target: Table)
    requires SoftMerging(cfg) && Settled(cfg, target)
    requires AllProper(es, cfg.primaryKeys) && Faithful(es, cfg.primaryKeys) && WithinColumns(es, cfg.schema)
    ensures Settled(cfg, MergeBuffer(cfg, BufferOf(cfg, es), target))
  {
    var after := MergeBuffer(cfg, BufferOf(cfg, es), target);
    MergeBufferIsReference(cfg, es, target);
    SavedArgumentIsRunnable(cfg, es);
    SavedRows(FreshBuffer(cfg), es);
    StagingIsKeyed(es, cfg.primaryKeys);
    MergeTableKeyed(Argument(cfg, BufferOf(cfg, es)), target, Staging(Buffered(es), cfg.primaryKeys));
    forall k | k in after ensures after[k].Keys == PolicyOf(cfg).columns { SoftMergeAt(cfg, es, target, k); }
  }

  lemma SoftSingleAt(cfg: Config, es: seq<Change>, e: Change, target: Table, k: Key)
    requires SoftMerging(cfg) && Settled(cfg, target)
    requires AllProper(es, cfg.primaryKeys) && WithinColumns(es, cfg.schema) && e in es
    ensures Settled(cfg, MergeBuffer(cfg, BufferOf(cfg, [e]), target))
    ensures Lookup(MergeBuffer(cfg, BufferOf(cfg, [e]), target), k) ==
      if KeyOf(e.row, cfg.primaryKeys) == k then SoftRow(PolicyOf(cfg), Lookup(target, k), e.row) else Lookup(target, k)
  {
    SingleIsWellFormed(cfg, es, e);
    SoftMergeAt(cfg, [e], target, k);
    SoftMergeSettled(cfg, [e], target);
    assert Compact([e]) == e.row by { assert [e][..0] == []; }
  }

  lemma SoftReplayedMore(p: Policy, d: Option<Row>, es: seq<Change>, e: Change)
    ensures SoftReplayed(p, d, es + [e]) == SoftRow(p, SoftReplayed(p, d, es), e.row)
  {
    assert (es + [e])[..|es|] == es;
  }

  lemma {:induction false} SoftOneByOneAt(cfg: Config, target: Table, es: seq<Change>, k: Key)
    requires SoftMerging(cfg) && Settled(cfg, target)
    requires AllProper(es, cfg.primaryKeys) && WithinColumns(es, cfg.schema)
    ensures Settled(cfg, OneByOne(cfg, target, es))
    ensures Lookup(OneByOne(cfg, target, es), k) ==
      SoftReplayed(PolicyOf(cfg), Lookup(target, k), KeyChanges(es, cfg.primaryKeys, k))
  {
    if es != [] {
      var front, last := es[..|es| - 1], es[|es| - 1];
      assert last in es && forall e :: e in front ==> e in es;
      SoftOneByOneAt(cfg, target, front, k);
      SoftSingleAt(cfg, es, last, OneByOne(cfg, target, front), k);
      LastKeyChange(es, cfg.primaryKeys, k);
      SoftReplayedMore(PolicyOf(cfg), Lookup(target, k), KeyChanges(front, cfg.primaryKeys, k), last);
      OneByOneMore(cfg, target, es);
    }
  }

  /**
   * For soft deletes through MERGE, one merge of the buffer equals merging the changes one by one
   * exactly when no key that is absent from the target ends in a delete after some other change.
   */
  lemma SoftBatchingExact(cfg: Config, target: Table, es: seq<Change>)
    requires SoftMerging(cfg) && Settled(cfg, target) && StrictLog(cfg, es)
    ensures MergeBuffer(cfg, BufferOf(cfg, es), target) == OneByOne(cfg, target, es)
      <==> forall k :: BatchingInvisible(Lookup(target, k), KeyChanges(es, cfg.primaryKeys, k))
  {
    var batch, steps := MergeBuffer(cfg, BufferOf(cfg, es), target), OneByOne(cfg, target, es);
    forall k
      ensures Lookup(batch, k) == Lookup(steps, k) <==>
        BatchingInvisible(Lookup(target, k), KeyChanges(es, cfg.primaryKeys, k))
    {
      var changes := KeyChanges(es, cfg.primaryKeys, k);
      SoftMergeAt(cfg, es, target, k);
      SoftOneByOneAt(cfg, target, es, k);
      KeyChangesAreFromList(es, cfg.primaryKeys, k);
      if changes != [] { SoftCompactionExact(PolicyOf(cfg), Lookup(target, k), changes); }
    }
    if forall k :: BatchingInvisible(Lookup(target, k), KeyChanges(es, cfg.primaryKeys, k)) {
      SameLookups(batch, steps);
    }
  }
}
