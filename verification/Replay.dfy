/**
 * What a sequence of changes does to one row of the destination.  A change either deletes the row
 * or patches it, so a sequence amounts to one patch or to a value that no longer depends on the
 * row; that is what makes compacting and replaying changes harmless.
 */
module Replay {
  import opened Values
  import opened MergeMeaning

  /** One change event, as Save hands it to the buffer. */
  datatype Change = Change(pk: string, row: Row, deleted: bool)

  /** The columns that merges write, and whether deletes are kept as marked rows. */
  datatype Policy = Policy(columns: set<string>, soft: bool)

  predicate Removes(p: Policy, row: Row) {
    !p.soft && MarkedDeleted(row)
  }

  /** The cells that a row sets; placeholders set nothing. */
  function Known(p: Policy, row: Row): Row {
    map x | x in p.columns && Cell(row, x) != Toast :: Cell(row, x)
  }

  /** An absent row reads as unknown in every column. */
  function Base(p: Policy, d: Option<Row>): Row {
    match d
    case Some(row) => row
    case None => map x | x in p.columns :: Toast
  }

  function ApplyRow(p: Policy, d: Option<Row>, row: Row): Option<Row> {
    if Removes(p, row) then None else Some(Base(p, d) + Known(p, row))
  }

  /** Applies the changes in order. */
  function Replayed(p: Policy, d: Option<Row>, es: seq<Change>): Option<Row> {
    if es == [] then d
    else ApplyRow(p, Replayed(p, d, es[..|es| - 1]), es[|es| - 1].row)
  }

  /** A stored row has exactly the written columns. */
  predicate Shaped(p: Policy, d: Option<Row>) {
    d.Some? ==> d.value.Keys == p.columns
  }

  lemma {:induction false} ReplayedShaped(p: Policy, d: Option<Row>, es: seq<Change>)
    requires Shaped(p, d)
    ensures Shaped(p, Replayed(p, d, es))
  {
    if es != [] { ReplayedShaped(p, d, es[..|es| - 1]); }
  }

  lemma {:induction false} ReplayedConcat(p: Policy, d: Option<Row>, a: seq<Change>, b: seq<Change>)
    ensures Replayed(p, d, a + b) == Replayed(p, Replayed(p, d, a), b)
  {
    if b == [] {
      assert a + b == a;
    } else {
      ReplayedConcat(p, d, a, b[..|b| - 1]);
      assert (a + b)[..|a + b| - 1] == a + b[..|b| - 1];
    }
  }

  // ---------------------------------------------------------------------------------------------
  // Sequences as patches

  predicate SomeRemoves(p: Policy, es: seq<Change>) {
    exists i :: 0 <= i < |es| && Removes(p, es[i].row)
  }

  function Patch(p: Policy, es: seq<Change>): Row {
    if es == [] then map[] else Patch(p, es[..|es| - 1]) + Known(p, es[|es| - 1].row)
  }

  lemma UnionAssociates(a: Row, b: Row, c: Row)
    ensures (a + b) + c == a + (b + c)
  {}

  lemma UnionOverrides(a: Row, b: Row, c: Row)
    requires b.Keys <= c.Keys
    ensures (a + b) + c == a + c
  {}

  lemma {:induction false} PatchConcat(p: Policy, a: seq<Change>, b: seq<Change>)
    ensures Patch(p, a + b) == Patch(p, a) + Patch(p, b)
  {
    if b == [] {
      assert a + b == a;
    } else {
      var front, last := b[..|b| - 1], Known(p, b[|b| - 1].row);
      PatchConcat(p, a, front);
      assert (a + b)[..|a + b| - 1] == a + front;
      UnionAssociates(Patch(p, a), Patch(p, front), last);
    }
  }

  lemma {:induction false} WithoutRemovalsIsPatch(p: Policy, d: Option<Row>, es: seq<Change>)
    requires !SomeRemoves(p, es) && es != []
    ensures Replayed(p, d, es) == Some(Base(p, d) + Patch(p, es))
  {
    var front := es[..|es| - 1];
    assert !Removes(p, es[|es| - 1].row);
    var last := Known(p, es[|es| - 1].row);
    if front == [] {
      assert Replayed(p, d, front) == d && Patch(p, front) == map[];
      assert map[] + last == last;
    } else {
      assert forall i :: 0 <= i < |front| ==> front[i] == es[i];
      WithoutRemovalsIsPatch(p, d, front);
      UnionAssociates(Base(p, d), Patch(p, front), last);
    }
  }

  lemma {:induction false} WithRemovalIsConstant(p: Policy, d: Option<Row>, e: Option<Row>, es: seq<Change>)
    requires SomeRemoves(p, es)
    ensures Replayed(p, d, es) == Replayed(p, e, es)
  {
    var front := es[..|es| - 1];
    if !Removes(p, es[|es| - 1].row) {
      var i :| 0 <= i < |es| && Removes(p, es[i].row);
      assert Removes(p, front[i].row);
      WithRemovalIsConstant(p, d, e, front);
    }
  }

  /**
   * Absorption: when a sequence is replayed as a whole, it does not matter that a part of it had
   * already been applied to the row.
   */
  lemma ReplayAbsorbs(p: Policy, d: Option<Row>, before: seq<Change>, part: seq<Change>, after: seq<Change>)
    ensures Replayed(p, Replayed(p, d, part), before + part + after) == Replayed(p, d, before + part + after)
  {
    var whole := before + part + after;
    if SomeRemoves(p, whole) {
      WithRemovalIsConstant(p, d, Replayed(p, d, part), whole);
    } else if part != [] {
      forall i | 0 <= i < |part| ensures !Removes(p, part[i].row) { assert whole[|before| + i] == part[i]; }
      WithoutRemovalsIsPatch(p, d, part);
      WithoutRemovalsIsPatch(p, d, whole);
      WithoutRemovalsIsPatch(p, Replayed(p, d, part), whole);
      PatchConcat(p, before + part, after);
      PatchConcat(p, before, part);
      UnionOverrides(Base(p, d), Patch(p, part), Patch(p, whole));
    }
  }

  // ---------------------------------------------------------------------------------------------
  // Compaction of the changes to one row

  /** Placeholders copy the cell of the previously buffered row, if it has one. */
  function Resolved(prev: Option<Row>, row: Row): Row {
    if prev.None? then row
    else map x | x in row :: if row[x] == Toast && x in prev.value then prev.value[x] else row[x]
  }

  /** The buffered row that a sequence of changes to one key leaves. */
  function Compact(es: seq<Change>): Row
    requires es != []
  {
    var front, last := es[..|es| - 1], es[|es| - 1];
    Resolved(if front == [] then None else Some(Compact(front)), last.row)
  }

  /**
   * A change may carry a placeholder only where the change before it carries the column, and none
   * at all right after a delete.
   */
  predicate Follows(p: Policy, prev: Row, row: Row) {
    forall x :: x in row && row[x] == Toast ==> x in prev && !Removes(p, prev)
  }

  predicate Chained(p: Policy, es: seq<Change>) {
    forall i :: 0 < i < |es| ==> Follows(p, es[i - 1].row, es[i].row)
  }

  predicate Marked(es: seq<Change>) {
    forall e :: e in es ==> DELETE_MARKER in e.row && e.row[DELETE_MARKER].Bool?
  }

  lemma {:induction false} CompactShape(es: seq<Change>)
    requires es != [] && Marked(es)
    ensures Compact(es).Keys == es[|es| - 1].row.Keys
    ensures MarkedDeleted(Compact(es)) == MarkedDeleted(es[|es| - 1].row)
    ensures DELETE_MARKER in Compact(es) && Compact(es)[DELETE_MARKER].Bool?
  {
    assert es[|es| - 1] in es;
  }

  /** Merging the compacted row does what applying the changes one at a time does. */
  lemma {:induction false} CompactionRefines(p: Policy, d: Option<Row>, es: seq<Change>)
    requires es != [] && Marked(es) && Chained(p, es) && Shaped(p, d)
    ensures ApplyRow(p, d, Compact(es)) == Replayed(p, d, es)
  {
    var front, row := es[..|es| - 1], es[|es| - 1].row;
    CompactShape(es);
    if front == [] {
      assert Compact(es) == row;
    } else {
      assert forall i :: 0 <= i < |front| ==> front[i] == es[i];
      CompactionRefines(p, d, front);
      CompactShape(front);
      var prev := Compact(front);
      assert Follows(p, front[|front| - 1].row, row);
      assert Compact(es) == Resolved(Some(prev), row);
      if !Removes(p, row) {
        if Removes(p, prev) {
          UnresolvedAfterRemoval(p, d, prev, row);
        } else {
          ResolvedKnown(p, prev, row);
          UnionAssociates(Base(p, d), Known(p, prev), Known(p, row));
        }
      }
    }
  }

  lemma ResolvedKnown(p: Policy, prev: Row, row: Row)
    requires forall x :: x in row && row[x] == Toast ==> x in prev
    ensures Known(p, Resolved(Some(prev), row)) == Known(p, prev) + Known(p, row)
  {}

  lemma UnresolvedAfterRemoval(p: Policy, d: Option<Row>, prev: Row, row: Row)
    requires Shaped(p, d) && forall x :: x in row ==> row[x] != Toast
    ensures Resolved(Some(prev), row) == row
    ensures Base(p, d) + Known(p, row) == Base(p, None) + Known(p, row)
  {
    assert Known(p, row).Keys == p.columns;
  }

  /** For two changes the condition is exact: without it some row tells the two apart. */
  lemma FollowsIsNecessary(p: Policy, first: Change, second: Change)
    requires Marked([first, second]) && !Removes(p, second.row)
    requires forall x :: x in second.row && second.row[x] == Toast ==> x in p.columns
    ensures (forall d :: Shaped(p, d) ==> ApplyRow(p, d, Compact([first, second])) == Replayed(p, d, [first, second]))
      <==> Follows(p, first.row, second.row)
  {
    var es := [first, second];
    assert es[..1] == [first] && [first][..0] == [];
    assert es[0] in es && es[1] in es;
    assert Compact([first]) == first.row;
    var compacted := Compact(es);
    assert compacted == Resolved(Some(first.row), second.row);
    if Follows(p, first.row, second.row) {
      forall d | Shaped(p, d) ensures ApplyRow(p, d, compacted) == Replayed(p, d, es) { CompactionRefines(p, d, es); }
    } else {
      var d := Some(map y | y in p.columns :: Bool(true));
      assert Replayed(p, d, [first]) == ApplyRow(p, d, first.row);
      assert Replayed(p, d, es) == ApplyRow(p, ApplyRow(p, d, first.row), second.row);
      CompactShape(es);
      assert !Removes(p, compacted);
      TwoToldApart(p, first.row, second.row, d);
    }
  }

  /** A row that is full tells apart a second change which does not follow the first. */
  lemma TwoToldApart(p: Policy, first: Row, second: Row, d: Option<Row>)
    requires d == Some(map y | y in p.columns :: Bool(true)) && !Follows(p, first, second)
    requires forall x :: x in second && second[x] == Toast ==> x in p.columns
    requires !Removes(p, second) && !Removes(p, Resolved(Some(first), second))
    ensures ApplyRow(p, d, Resolved(Some(first), second)) != ApplyRow(p, ApplyRow(p, d, first), second)
  {
    var x :| x in second && second[x] == Toast && !(x in first && !Removes(p, first));
    var batched, stepwise :=
      ApplyRow(p, d, Resolved(Some(first), second)).value, ApplyRow(p, ApplyRow(p, d, first), second).value;
    if Removes(p, first) {
      assert stepwise[x] == Toast;
      assert batched[x] != Toast;
    } else {
      assert stepwise[x] == Nil;
      assert batched[x] == Bool(true);
    }
  }
}
