/**
 * Sequences of saves into one buffer: the running size and the flags agree with what was saved, and
 * the buffered row of a key is the compaction of the changes to that key.
 */
module Compaction {
  import opened Values
  import opened Sql
  import opened Sizes
  import opened ColumnLists
  import opened MergeMeaning
  import opened Replay
  import opened Buffers

  // ---------------------------------------------------------------------------------------------
  // Saving changes

  /** Save flags the columns for which a row carries the placeholder. */
  function FlagToasts(cols: seq<Column>, row: Row): seq<Column> {
    seq(|cols|, i requires 0 <= i < |cols| => cols[i].(toast := cols[i].toast || Cell(row, cols[i].name) == Toast))
  }

  ghost function AfterSave(b: Buffer, e: Change): Buffer {
    AfterInsert(b.(columns := FlagToasts(b.columns, e.row)), e.pk, e.row, e.deleted)
  }

  ghost function AfterSaves(b: Buffer, es: seq<Change>): Buffer {
    if es == [] then b else AfterSave(AfterSaves(b, es[..|es| - 1]), es[|es| - 1])
  }

  ghost predicate SizeAgrees(b: Buffer) {
    b.approxSize == if b.history then ListSize(b.rows) else TotalSize(b.rowsData)
  }

  /** One insert keeps the running size equal to the size recomputed from all buffered rows. */
  lemma InsertKeepsSize(b: Buffer, pk: string, row: Row, deleted: bool)
    requires SizeAgrees(b)
    ensures SizeAgrees(AfterInsert(b, pk, row, deleted))
  {
    if b.history {
      assert (b.rows + [row])[..|b.rows|] == b.rows;
    } else {
      TotalSizeInsert(b.rowsData, pk, Resolved(Lookup(b.rowsData, pk), row));
    }
  }

  /** The running size agrees with recomputation after any sequence of saves, in both modes. */
  lemma {:induction false} RunningSizeAgrees(b: Buffer, es: seq<Change>)
    requires SizeAgrees(b)
    ensures SizeAgrees(AfterSaves(b, es))
    ensures AfterSaves(b, es).history == b.history
  {
    if es != [] {
      var front, e := AfterSaves(b, es[..|es| - 1]), es[|es| - 1];
      RunningSizeAgrees(b, es[..|es| - 1]);
      InsertKeepsSize(front.(columns := FlagToasts(front.columns, e.row)), e.pk, e.row, e.deleted);
    }
  }

  /** The flags say exactly which kinds of operation a replication buffer has seen. */
  lemma {:induction false} FlagsAreExact(b: Buffer, es: seq<Change>)
    requires !b.history && !b.containOtherOperations && !b.containsHardDeletes
    ensures AfterSaves(b, es).containOtherOperations <==> exists e :: e in es && !e.deleted
    ensures AfterSaves(b, es).containsHardDeletes <==> !b.softDelete && exists e :: e in es && e.deleted
    ensures !AfterSaves(b, es).history && AfterSaves(b, es).softDelete == b.softDelete
  {
    if es != [] {
      var front, last := es[..|es| - 1], es[|es| - 1];
      FlagsAreExact(b, front);
      assert es == front + [last];
    }
  }

  /** A buffer that starts empty has, after any saves, the sizes of its rows summed up. */
  lemma SizeOfSaved(history: bool, softDelete: bool, pks: seq<string>, cols: seq<Column>, es: seq<Change>)
    ensures var b := AfterSaves(NewBuffer(history, softDelete, pks, cols), es);
      b.approxSize == if history then ListSize(b.rows) else TotalSize(b.rowsData)
  {
    var empty := NewBuffer(history, softDelete, pks, cols);
    assert AsObject(map[]).fields.Keys == {};
    RunningSizeAgrees(empty, es);
  }

  /** In history mode every saved row is kept, in order, and counted. */
  lemma {:induction false} HistoryKeepsRows(b: Buffer, es: seq<Change>)
    requires b.history
    ensures var after := AfterSaves(b, es);
      && after.history && |after.rows| == |b.rows| + |es| == NumberOfRows(after) && after.rows[..|b.rows|] == b.rows
      && forall i :: 0 <= i < |es| ==> after.rows[|b.rows| + i] == es[i].row
  {
    if es != [] { HistoryKeepsRows(b, es[..|es| - 1]); }
  }

  /** In replication mode the rows counted are those of the different primary keys. */
  lemma {:induction false} ReplicationCountsKeys(b: Buffer, es: seq<Change>)
    requires !b.history && b.rowsData == map[]
    ensures var after := AfterSaves(b, es);
      && after.rowsData.Keys == (set i | 0 <= i < |es| :: es[i].pk)
      && NumberOfRows(after) == |set i | 0 <= i < |es| :: es[i].pk|
  {
    KeysOfSaved(b, es);
    assert |AfterSaves(b, es).rowsData| == |AfterSaves(b, es).rowsData.Keys|;
  }

  lemma {:induction false} KeysOfSaved(b: Buffer, es: seq<Change>)
    requires !b.history && b.rowsData == map[]
    ensures AfterSaves(b, es).rowsData.Keys == (set i | 0 <= i < |es| :: es[i].pk) && !AfterSaves(b, es).history
  {
    if es != [] {
      var n := |es| - 1;
      KeysOfSaved(b, es[..n]);
      assert (set i | 0 <= i < |es| :: es[i].pk) == (set i | 0 <= i < n :: es[..n][i].pk) + {es[n].pk};
    }
  }

  /** The compacted rows, as a map from primary-key text. */
  function Buffered(es: seq<Change>): map<string, Row> {
    if es == [] then map[]
    else
      var rows, e := Buffered(es[..|es| - 1]), es[|es| - 1];
      rows[e.pk := Resolved(Lookup(rows, e.pk), e.row)]
  }

  lemma {:induction false} SavedRows(b: Buffer, es: seq<Change>)
    requires !b.history && b.rowsData == map[]
    ensures AfterSaves(b, es).rowsData == Buffered(es)
    ensures AfterSaves(b, es).history == b.history
    ensures AfterSaves(b, es).softDelete == b.softDelete
    ensures AfterSaves(b, es).primaryKeys == b.primaryKeys
  {
    if es != [] { SavedRows(b, es[..|es| - 1]); }
  }

  // ---------------------------------------------------------------------------------------------
  // The changes of one key

  function TextChanges(es: seq<Change>, text: string): seq<Change> {
    if es == [] then []
    else TextChanges(es[..|es| - 1], text) + if es[|es| - 1].pk == text then [es[|es| - 1]] else []
  }

  function KeyChanges(es: seq<Change>, pks: seq<string>, k: Key): seq<Change> {
    if es == [] then []
    else KeyChanges(es[..|es| - 1], pks, k) + if KeyOf(es[|es| - 1].row, pks) == k then [es[|es| - 1]] else []
  }

  lemma {:induction false} KeyChangesConcat(a: seq<Change>, b: seq<Change>, pks: seq<string>, k: Key)
    ensures KeyChanges(a + b, pks, k) == KeyChanges(a, pks, k) + KeyChanges(b, pks, k)
  {
    if b == [] {
      assert a + b == a;
    } else {
      KeyChangesConcat(a, b[..|b| - 1], pks, k);
      assert (a + b)[..|a + b| - 1] == a + b[..|b| - 1];
    }
  }

  lemma LastKeyChange(es: seq<Change>, pks: seq<string>, k: Key)
    requires es != []
    ensures var front, last := es[..|es| - 1], es[|es| - 1];
      KeyChanges(es, pks, k) ==
        if KeyOf(last.row, pks) == k then KeyChanges(front, pks, k) + [last] else KeyChanges(front, pks, k)
  {}

  lemma {:induction false} KeyChangesAreFromList(es: seq<Change>, pks: seq<string>, k: Key)
    ensures forall e :: e in KeyChanges(es, pks, k) <==> e in es && KeyOf(e.row, pks) == k
  {
    if es != [] {
      var front, last := es[..|es| - 1], es[|es| - 1];
      KeyChangesAreFromList(front, pks, k);
      assert es == front + [last];
    }
  }

  /** What Debezium events look like: a boolean marker that agrees with the operation, and known key values. */
  predicate Proper(e: Change, pks: seq<string>) {
    && DELETE_MARKER in e.row && e.row[DELETE_MARKER].Bool?
    && e.deleted == MarkedDeleted(e.row)
    && forall pk :: pk in pks ==> Cell(e.row, pk) != Nil && Cell(e.row, pk) != Toast
  }

  predicate AllProper(es: seq<Change>, pks: seq<string>) {
    forall e :: e in es ==> Proper(e, pks)
  }

  /** The primary-key text identifies the key tuple (see module PrimaryKeys for when it does). */
  predicate Faithful(es: seq<Change>, pks: seq<string>) {
    forall e, f :: e in es && f in es ==> (e.pk == f.pk <==> KeyOf(e.row, pks) == KeyOf(f.row, pks))
  }

  lemma {:induction false} TextIsKey(es: seq<Change>, pks: seq<string>, text: string, k: Key)
    requires forall e :: e in es ==> (e.pk == text <==> KeyOf(e.row, pks) == k)
    ensures TextChanges(es, text) == KeyChanges(es, pks, k)
  {
    if es != [] {
      TextIsKey(es[..|es| - 1], pks, text, k);
      assert es[|es| - 1] in es;
    }
  }

  lemma {:induction false} BufferedAt(es: seq<Change>, text: string)
    ensures Lookup(Buffered(es), text) ==
      if TextChanges(es, text) == [] then None else Some(Compact(TextChanges(es, text)))
  {
    if es != [] {
      var front, last := es[..|es| - 1], es[|es| - 1];
      BufferedAt(front, text);
      if last.pk == text {
        var earlier := TextChanges(front, text);
        assert (earlier + [last])[..|earlier|] == earlier;
      } else {
        assert TextChanges(es, text) == TextChanges(front, text);
      }
    }
  }

  lemma {:induction false} CompactKey(es: seq<Change>, pks: seq<string>, k: Key)
    requires es != [] && AllProper(es, pks) && forall e :: e in es ==> KeyOf(e.row, pks) == k
    ensures KeyOf(Compact(es), pks) == k && Nil !in k
  {
    var last := es[|es| - 1];
    assert last in es;
    forall i | 0 <= i < |pks|
      ensures Cell(Compact(es), pks[i]) == Cell(last.row, pks[i]) && KeyOf(last.row, pks)[i] != Nil
    {
      assert pks[i] in pks;
    }
    assert KeyOf(Compact(es), pks) == KeyOf(last.row, pks);
  }

  // ---------------------------------------------------------------------------------------------
  // The staging table

  ghost function StagedKeys(rows: map<string, Row>, pks: seq<string>): set<Key> {
    set text | text in rows :: KeyOf(rows[text], pks)
  }

  /** The buffered rows as a table; rows of a faithful buffer have distinct key tuples. */
  ghost function Staging(rows: map<string, Row>, pks: seq<string>): Table {
    map k | k in StagedKeys(rows, pks) ::
      var text :| text in rows && KeyOf(rows[text], pks) == k; rows[text]
  }

  lemma BufferedKey(es: seq<Change>, pks: seq<string>, text: string)
    requires AllProper(es, pks) && Faithful(es, pks) && text in Buffered(es)
    ensures var k := KeyOf(Buffered(es)[text], pks);
      && TextChanges(es, text) == KeyChanges(es, pks, k) && KeyChanges(es, pks, k) != []
      && Buffered(es)[text] == Compact(KeyChanges(es, pks, k))
      && exists e :: e in es && e.pk == text && KeyOf(e.row, pks) == k
  {
    BufferedAt(es, text);
    var changes := TextChanges(es, text);
    TextChangesAreFromList(es, text);
    var e := changes[0];
    assert e in changes;
    var k := KeyOf(e.row, pks);
    TextIsKey(es, pks, text, k);
    KeyChangesAreFromList(es, pks, k);
    CompactKey(changes, pks, k);
  }

  lemma {:induction false} TextChangesAreFromList(es: seq<Change>, text: string)
    ensures forall e :: e in TextChanges(es, text) <==> e in es && e.pk == text
  {
    if es != [] {
      var front, last := es[..|es| - 1], es[|es| - 1];
      TextChangesAreFromList(front, text);
      assert es == front + [last];
    }
  }

  /** The staging table holds, for every key that was touched, the compaction of its changes. */
  lemma StagingAt(es: seq<Change>, pks: seq<string>, k: Key)
    requires AllProper(es, pks) && Faithful(es, pks)
    ensures Lookup(Staging(Buffered(es), pks), k) ==
      if KeyChanges(es, pks, k) == [] then None else Some(Compact(KeyChanges(es, pks, k)))
  {
    var rows := Buffered(es);
    var staging := Staging(rows, pks);
    if k in staging {
      var text :| text in rows && KeyOf(rows[text], pks) == k && staging[k] == rows[text];
      BufferedKey(es, pks, text);
    }
    if KeyChanges(es, pks, k) != [] {
      var e := KeyChanges(es, pks, k)[0];
      KeyChangesAreFromList(es, pks, k);
      assert e in KeyChanges(es, pks, k);
      TextIsKey(es, pks, e.pk, k);
      BufferedAt(es, e.pk);
      assert e.pk in rows;
      BufferedKey(es, pks, e.pk);
      CompactKey(KeyChanges(es, pks, k), pks, k);
      assert KeyOf(rows[e.pk], pks) == k;
    }
  }

  lemma StagingIsKeyed(es: seq<Change>, pks: seq<string>)
    requires AllProper(es, pks) && Faithful(es, pks)
    ensures Keyed(Staging(Buffered(es), pks), pks)
    ensures forall k :: k in Staging(Buffered(es), pks) ==>
      DELETE_MARKER in Staging(Buffered(es), pks)[k] && Staging(Buffered(es), pks)[k][DELETE_MARKER].Bool?
  {
    var staging := Staging(Buffered(es), pks);
    forall k | k in staging
      ensures KeyOf(staging[k], pks) == k && Nil !in k && DELETE_MARKER in staging[k] && staging[k][DELETE_MARKER].Bool?
    {
      StagingAt(es, pks, k);
      KeyChangesAreFromList(es, pks, k);
      CompactKey(KeyChanges(es, pks, k), pks, k);
      CompactShape(KeyChanges(es, pks, k));
    }
  }
}
