/** Which columns the source and the destination lack of each other. */
module Diffs {
  import opened Values
  import opened Texts
  import opened ColumnLists

  datatype DiffOptions = DiffOptions(softDelete: bool, includeArtieUpdatedAt: bool, includeDatabaseUpdatedAt: bool,
      history: bool)

  predicate ShouldSkipColumn(name: string, o: DiffOptions) {
    if name == DELETE_MARKER && o.softDelete then false
    else if name == UPDATE_MARKER && o.includeArtieUpdatedAt then false
    else if name == DATABASE_UPDATED_MARKER && o.includeDatabaseUpdatedAt then false
    else if name == OPERATION_MARKER && o.history then false
    else Contains(name, ARTIE_PREFIX)
  }

  /** A name is skipped if it contains Artie's prefix, except that each of four columns follows its own setting. */
  lemma SkippedExactly(o: DiffOptions, name: string)
    ensures ShouldSkipColumn("__artie_delete", o) <==> !o.softDelete
    ensures ShouldSkipColumn("__artie_updated_at", o) <==> !o.includeArtieUpdatedAt
    ensures ShouldSkipColumn("__artie_db_updated_at", o) <==> !o.includeDatabaseUpdatedAt
    ensures ShouldSkipColumn("__artie_operation", o) <==> !o.history
    ensures name !in {"__artie_delete", "__artie_updated_at", "__artie_db_updated_at", "__artie_operation"} ==>
      (ShouldSkipColumn(name, o) <==> exists i :: 0 <= i <= |name| && "__artie" <= name[i..])
  {
    ContainsIs(name, ARTIE_PREFIX);
  }

  function Lowered(col: Column): Column {
    col.(name := ToLower(col.name))
  }

  /** The columns with lower-cased names; of names that fall together the first stays. */
  function Cloned(cols: seq<Column>): (r: seq<Column>)
    ensures Distinct(r)
  {
    if cols == [] then [] else Added(Cloned(cols[..|cols| - 1]), Lowered(cols[|cols| - 1]))
  }

  /** The columns of `cols`, in order, that `other` lacks and that are not skipped. */
  function Missing(cols: seq<Column>, other: seq<Column>, o: DiffOptions): seq<Column> {
    if cols == [] then []
    else
      var last := cols[|cols| - 1];
      Missing(cols[..|cols| - 1], other, o) +
        (if Has(other, last.name) || ShouldSkipColumn(last.name, o) then [] else [last])
  }

  /** The columns of `cols`, in order, whose names are not in the set. */
  function Keeping(cols: seq<Column>, names: set<string>): seq<Column> {
    if cols == [] then []
    else
      var last := cols[|cols| - 1];
      Keeping(cols[..|cols| - 1], names) + (if last.name in names then [] else [last])
  }

  // ---------------------------------------------------------------------------------------------
  // Lemmas on the lists

  lemma HasIff(cols: seq<Column>, name: string)
    ensures Has(cols, name) <==> exists c :: c in cols && c.name == name
  {
    if c :| c in cols && c.name == name { var i :| 0 <= i < |cols| && cols[i] == c; }
  }

  lemma {:induction false} KeepingIn(cols: seq<Column>, names: set<string>)
    ensures forall c :: c in Keeping(cols, names) <==> c in cols && c.name !in names
    ensures Distinct(cols) ==> Distinct(Keeping(cols, names))
  {
    if cols != [] {
      var front, last := cols[..|cols| - 1], cols[|cols| - 1];
      KeepingIn(front, names);
      assert forall c :: c in cols <==> c in front || c == last by { assert cols == front + [last]; }
      if Distinct(cols) {
        var kept := Keeping(front, names);
        forall i | 0 <= i < |kept| ensures kept[i].name != last.name {
          assert kept[i] in front;
        }
      }
    }
  }

  lemma {:induction false} KeepingNone(cols: seq<Column>, names: set<string>)
    requires forall i :: 0 <= i < |cols| ==> cols[i].name !in names
    ensures Keeping(cols, names) == cols
  {
    if cols != [] {
      var front, last := cols[..|cols| - 1], cols[|cols| - 1];
      assert forall i :: 0 <= i < |front| ==> front[i] == cols[i];
      KeepingNone(front, names);
      assert cols == front + [last];
    }
  }

  lemma RemovedLast(cols: seq<Column>, last: Column)
    requires !Has(cols, last.name)
    ensures Removed(cols + [last], last.name) == cols
  {
    var longer := cols + [last];
    assert longer[|cols|] == last;
    assert forall i :: 0 <= i < |cols| ==> longer[i] == cols[i];
    assert Position(longer, last.name) == |cols|;
  }

  /** Deleting a column from a filtered list filters one more name. */
  lemma {:induction false} RemovedFromKeeping(cols: seq<Column>, names: set<string>, name: string)
    requires Distinct(cols)
    ensures Removed(Keeping(cols, names), name) == Keeping(cols, names + {name})
  {
    if cols != [] {
      var front, last := cols[..|cols| - 1], cols[|cols| - 1];
      var kept := Keeping(front, names);
      RemovedFromKeeping(front, names, name);
      if last.name in names {
        assert Keeping(cols, names) == kept;
        assert Keeping(cols, names + {name}) == Keeping(front, names + {name});
      } else if last.name == name {
        assert !Has(kept, name) by {
          KeepingIn(front, names);
          HasIff(kept, name);
        }
        RemovedLast(kept, last);
        assert Removed(kept, name) == kept;
        assert Keeping(cols, names + {name}) == Keeping(front, names + {name});
      } else {
        PositionOfAppended(kept, last, name);
      }
    }
  }

  lemma PositionOfAppended(cols: seq<Column>, last: Column, name: string)
    requires last.name != name
    ensures Removed(cols + [last], name) == Removed(cols, name) + [last]
  {
    var p := Position(cols, name);
    var q := Position(cols + [last], name);
    if p < |cols| {
      assert (cols + [last])[p].name == name;
      assert q == p;
    } else {
      assert q == |cols| + 1;
    }
  }

  /** Once the shared names are gone, what is left over and not skipped is what the other side lacks. */
  lemma {:induction false} LeftOverIsMissing(cols: seq<Column>, other: seq<Column>, shared: set<string>, o: DiffOptions)
    requires forall c :: c in cols ==> (c.name in shared <==> Has(other, c.name))
    ensures Missing(Keeping(cols, shared), [], o) == Missing(cols, other, o)
  {
    if cols != [] {
      var front, last := cols[..|cols| - 1], cols[|cols| - 1];
      assert last in cols && forall c :: c in front ==> c in cols;
      LeftOverIsMissing(front, other, shared, o);
      var kept := Keeping(front, shared);
      if last.name !in shared {
        assert (kept + [last])[..|kept|] == kept;
      } else {
        assert Keeping(cols, shared) == kept;
      }
    }
  }

  /** Of the columns whose names fall together the first one is there, with its new name and otherwise as it was. */
  lemma {:induction false} ClonedFirst(cols: seq<Column>, i: nat)
    requires i < |cols| && cols[i].name != ""
    requires forall j :: 0 <= j < i ==> ToLower(cols[j].name) != ToLower(cols[i].name)
    ensures Find(Cloned(cols), ToLower(cols[i].name)) == Some(cols[i].(name := ToLower(cols[i].name)))
  {
    var front, last, x := cols[..|cols| - 1], cols[|cols| - 1], ToLower(cols[i].name);
    var before := Cloned(front);
    assert forall j :: 0 <= j < |front| ==> front[j] == cols[j];
    if i < |front| {
      ClonedFirst(front, i);
      assert Position(before, x) < |before|;
      if Cloned(cols) != before { SameElsewhere(before, Cloned(cols), |before|, x); }
    } else {
      NotCloned(front, x);
      assert Cloned(cols) == before + [Lowered(last)];
      FoundAt(Cloned(cols), |before|);
    }
  }

  lemma {:induction false} NotCloned(cols: seq<Column>, x: string)
    requires forall j :: 0 <= j < |cols| ==> ToLower(cols[j].name) != x
    ensures !Has(Cloned(cols), x)
  {
    if cols != [] {
      var front, last := cols[..|cols| - 1], cols[|cols| - 1];
      assert forall j :: 0 <= j < |front| ==> front[j] == cols[j];
      NotCloned(front, x);
      if Cloned(cols) != Cloned(front) { SameElsewhere(Cloned(front), Cloned(cols), |Cloned(front)|, x); }
    }
  }

  lemma {:induction false} MissingIn(cols: seq<Column>, other: seq<Column>, o: DiffOptions)
    ensures forall c :: c in Missing(cols, other, o) <==>
      c in cols && !Has(other, c.name) && !ShouldSkipColumn(c.name, o)
    ensures Distinct(cols) ==> Distinct(Missing(cols, other, o))
  {
    if cols != [] {
      var front, last := cols[..|cols| - 1], cols[|cols| - 1];
      MissingIn(front, other, o);
      assert cols == front + [last];
      var before := Missing(front, other, o);
      var added := !Has(other, last.name) && !ShouldSkipColumn(last.name, o);
      assert Missing(cols, other, o) == if added then before + [last] else before;
      if Distinct(cols) {
        forall i | 0 <= i < |before| ensures before[i].name != last.name { assert before[i] in front; }
      }
    }
  }

  lemma PositionInFront(cols: seq<Column>, c: Column)
    requires cols != [] && Distinct(cols) && c in cols[..|cols| - 1]
    ensures Position(cols, c.name) == Position(cols[..|cols| - 1], c.name) < |cols| - 1
  {
    var front := cols[..|cols| - 1];
    var k :| 0 <= k < |front| && front[k] == c;
    assert cols[k] == front[k];
  }

  /** The columns found missing keep the order they had. */
  lemma {:induction false} MissingKeepsOrder(cols: seq<Column>, other: seq<Column>, o: DiffOptions, i: nat, j: nat)
    requires Distinct(cols) && i < j < |Missing(cols, other, o)|
    ensures Position(cols, Missing(cols, other, o)[i].name) < Position(cols, Missing(cols, other, o)[j].name) < |cols|
  {
    var front, last := cols[..|cols| - 1], cols[|cols| - 1];
    var before := Missing(front, other, o);
    MissingIn(front, other, o);
    assert before[i] in front;
    PositionInFront(cols, before[i]);
    if j < |before| {
      MissingKeepsOrder(front, other, o, i, j);
      assert before[j] in front;
      PositionInFront(cols, before[j]);
    }
  }

  // ---------------------------------------------------------------------------------------------
  // The methods

  method CloneColumns(cols: seq<Column>) returns (clone: Columns)
    ensures fresh(clone) && clone.columns == Cloned(cols)
  {
    clone := new Columns();
    for i := 0 to |cols|
      invariant fresh(clone) && clone.columns == Cloned(cols[..i])
    {
      assert cols[..i + 1][..i] == cols[..i];
      clone.AddColumn(Lowered(cols[i]));
    }
    assert cols[..|cols|] == cols;
  }

  /** Adds the columns that are not skipped to a fresh list. */
  method NotSkipped(cols: seq<Column>, o: DiffOptions) returns (missing: seq<Column>)
    requires Distinct(cols)
    ensures missing == Missing(cols, [], o)
  {
    var list := new Columns();
    for i := 0 to |cols|
      invariant fresh(list) && list.columns == Missing(cols[..i], [], o)
    {
      assert cols[..i + 1][..i] == cols[..i];
      if ShouldSkipColumn(cols[i].name, o) { continue; }
      MissingIn(cols[..i], [], o);
      HasIff(list.columns, cols[i].name);
      list.AddColumn(cols[i]);
    }
    assert cols[..|cols|] == cols;
    missing := list.columns;
  }

  /** The columns of `src` that `targ` has as well. */
  method SharedColumns(src: Columns, targ: Columns) returns (shared: seq<Column>)
    ensures forall c :: c in shared <==> c in src.columns && Has(targ.columns, c.name)
  {
    shared := [];
    var all := src.columns;
    for i := 0 to |all|
      invariant forall c :: c in shared <==> c in all[..i] && Has(targ.columns, c.name)
    {
      var found := targ.GetColumn(all[i].name);
      if found.Some? { shared := shared + [all[i]]; }
      assert all[..i + 1] == all[..i] + [all[i]];
    }
    assert all[..|all|] == all;
  }

  method DeleteAll(cols: Columns, shared: seq<Column>)
    requires Distinct(cols.columns)
    modifies cols
    ensures cols.columns == Keeping(old(cols.columns), Names(shared))
  {
    ghost var all := cols.columns;
    KeepingNone(all, {});
    assert Names(shared[..0]) == {};
    for i := 0 to |shared|
      invariant cols.columns == Keeping(all, Names(shared[..i]))
    {
      RemovedFromKeeping(all, Names(shared[..i]), shared[i].name);
      cols.DeleteColumn(shared[i].name);
      NamesOfOneMore(shared, i);
    }
    assert shared[..|shared|] == shared;
  }

  /** The two case-folded differences, minus the skipped names, in the order of the lists. */
  method Diff(source: seq<Column>, destination: seq<Column>, o: DiffOptions)
    returns (sourceMissing: seq<Column>, targetMissing: seq<Column>)
    ensures targetMissing == Missing(Cloned(source), Cloned(destination), o)
    ensures sourceMissing == Missing(Cloned(destination), Cloned(source), o)
  {
    var src := CloneColumns(source);
    var targ := CloneColumns(destination);
    var shared := SharedColumns(src, targ);
    DeleteAll(src, shared);
    DeleteAll(targ, shared);
    SharedNames(Cloned(source), Cloned(destination), shared);
    KeepingIn(Cloned(source), Names(shared));
    KeepingIn(Cloned(destination), Names(shared));
    LeftOverIsMissing(Cloned(source), Cloned(destination), Names(shared), o);
    LeftOverIsMissing(Cloned(destination), Cloned(source), Names(shared), o);
    targetMissing := NotSkipped(src.columns, o);
    sourceMissing := NotSkipped(targ.columns, o);
  }

  lemma SharedNames(source: seq<Column>, destination: seq<Column>, shared: seq<Column>)
    requires forall c :: c in shared <==> c in source && Has(destination, c.name)
    ensures forall c :: c in source ==> (c.name in Names(shared) <==> Has(destination, c.name))
    ensures forall c :: c in destination ==> (c.name in Names(shared) <==> Has(source, c.name))
  {
    forall name ensures name in Names(shared) <==> Has(source, name) && Has(destination, name) {
      HasIff(source, name);
      if Has(source, name) && Has(destination, name) {
        var c :| c in source && c.name == name;
        var i :| 0 <= i < |shared| && shared[i] == c;
      }
    }
    forall c | c in source ensures Has(source, c.name) { HasIff(source, c.name); }
    forall c | c in destination ensures Has(destination, c.name) { HasIff(destination, c.name); }
  }
}
