/** Adding columns converges, also through failures and retries. */
module SchemaConvergence {
  import opened Texts
  import opened ColumnLists
  import opened Diffs
  import opened TableConfigs
  import opened Ddl
  import opened SchemaRuns

  // ---------------------------------------------------------------------------------------------
  // Names of derived lists

  lemma AddedHas(cols: seq<Column>, col: Column, x: string)
    ensures Has(Added(cols, col), x) <==> Has(cols, x) || (x != "" && x == col.name)
  {
    var longer := cols + [col];
    assert longer[|cols|] == col;
    assert forall i :: 0 <= i < |cols| ==> longer[i] == cols[i];
    if Has(cols, x) { assert longer[Position(cols, x)].name == x; }
  }

  lemma {:induction false} AddedAllHas(cols: seq<Column>, more: seq<Column>, x: string)
    ensures Has(AddedAll(cols, more), x) <==> Has(cols, x) || (x != "" && x in Names(more))
  {
    if more != [] {
      var n := |more| - 1;
      AddedAllHas(cols, more[..n], x);
      AddedHas(AddedAll(cols, more[..n]), more[n], x);
      NamesOfOneMore(more, n);
      assert more[..n + 1] == more;
    }
  }

  lemma {:induction false} ClonedHas(cols: seq<Column>, x: string)
    ensures Has(Cloned(cols), x) <==> x != "" && exists c :: c in cols && ToLower(c.name) == x
  {
    if cols != [] {
      var front, last := cols[..|cols| - 1], cols[|cols| - 1];
      ClonedHas(front, x);
      AddedHas(Cloned(front), Lowered(last), x);
      assert forall c :: c in cols <==> c in front || c == last by { assert cols == front + [last]; }
    }
  }

  lemma ClonedMember(cols: seq<Column>, c: Column)
    requires c in Cloned(cols)
    ensures c.name != "" && ToLower(c.name) == c.name
  {
    var i :| 0 <= i < |Cloned(cols)| && Cloned(cols)[i] == c;
    HasIff(Cloned(cols), c.name);
    ClonedHas(cols, c.name);
    var d :| d in cols && ToLower(d.name) == c.name;
    ToLowerIdempotent(d.name);
  }

  lemma {:induction false} KeptIn(cols: seq<Column>)
    ensures forall c :: c in Kept(cols) <==> c in cols && !c.ShouldSkip()
  {
    if cols != [] {
      var front, last := cols[..|cols| - 1], cols[|cols| - 1];
      KeptIn(front);
      assert cols == front + [last];
    }
  }

  /** The columns of unknown kind, in order. */
  function Unknown(cols: seq<Column>): seq<Column> {
    if cols == [] then []
    else
      var last := cols[|cols| - 1];
      Unknown(cols[..|cols| - 1]) + (if last.ShouldSkip() then [last] else [])
  }

  // ---------------------------------------------------------------------------------------------
  // Convergence of Add

  lemma {:induction false} FilterTwice(cols: seq<Column>, before: seq<Column>, after: seq<Column>, o: DiffOptions)
    requires forall c :: c in cols && !Has(before, c.name) && !ShouldSkipColumn(c.name, o) ==>
      (Has(after, c.name) <==> !c.ShouldSkip())
    requires forall c :: c in cols && Has(before, c.name) ==> Has(after, c.name)
    ensures Missing(cols, after, o) == Unknown(Missing(cols, before, o))
  {
    if cols != [] {
      var front, last := cols[..|cols| - 1], cols[|cols| - 1];
      assert last in cols && forall c :: c in front ==> c in cols;
      FilterTwice(front, before, after, o);
      var missing := Missing(front, before, o);
      if !Has(before, last.name) && !ShouldSkipColumn(last.name, o) {
        assert (missing + [last])[..|missing|] == missing;
      } else {
        assert Missing(cols, before, o) == missing;
      }
    }
  }

  /** The names known after the columns that were found missing have been added. */
  lemma HasAfterAdd(cached: seq<Column>, kept: seq<Column>, x: string)
    requires x != "" && ToLower(x) == x
    requires forall c :: c in kept ==> ToLower(c.name) == c.name
    ensures Has(Cloned(AddedAll(cached, kept)), x) <==> Has(Cloned(cached), x) || x in Names(kept)
  {
    var after := AddedAll(cached, kept);
    ClonedHas(after, x);
    ClonedHas(cached, x);
    if c :| c in after && ToLower(c.name) == x {
      HasIff(after, c.name);
      AddedAllHas(cached, kept, c.name);
      HasIff(cached, c.name);
    }
    if c :| c in cached && ToLower(c.name) == x {
      HasIff(cached, c.name);
      AddedAllHas(cached, kept, c.name);
      HasIff(after, c.name);
    }
    if x in Names(kept) {
      AddedAllHas(cached, kept, x);
      HasIff(after, x);
    }
  }

  /** After a successful Add step a second Diff reports only columns of unknown kind as missing in the target. */
  lemma AddConverges(o: DiffOptions, s: SchemaState, source: seq<Column>)
    ensures var missing := TargetMissing(o, s, source);
      TargetMissing(o, s.(config := AfterAdd(s.config, Kept(missing), false)), source) == Unknown(missing)
  {
    var cols, cached := Cloned(source), s.config.columns;
    var missing := TargetMissing(o, s, source);
    var kept := Kept(missing);
    KeptIn(missing);
    MissingIn(cols, Cloned(cached), o);
    forall c | c in kept ensures ToLower(c.name) == c.name { ClonedMember(source, c); }
    forall c | c in cols
      ensures Has(Cloned(AddedAll(cached, kept)), c.name) <==> Has(Cloned(cached), c.name) || c.name in Names(kept)
    {
      ClonedMember(source, c);
      HasAfterAdd(cached, kept, c.name);
    }
    forall c | c in cols && !Has(Cloned(cached), c.name) && !ShouldSkipColumn(c.name, o)
      ensures c.name in Names(kept) <==> !c.ShouldSkip()
    {
      NamesAre(kept, c.name);
      if d :| d in kept && d.name == c.name { SameNameSameColumn(cols, c, d); }
    }
    FilterTwice(cols, Cloned(cached), Cloned(AddedAll(cached, kept)), o);
  }

  lemma SameNameSameColumn(cols: seq<Column>, c: Column, d: Column)
    requires Distinct(cols) && c in cols && d in cols && c.name == d.name
    ensures c == d
  {
    var i :| 0 <= i < |cols| && cols[i] == c;
    var j :| 0 <= j < |cols| && cols[j] == d;
  }

  /** The columns that the Add step adds for a source. */
  function ToAdd(o: DiffOptions, s: SchemaState, source: seq<Column>): seq<Column> {
    Kept(TargetMissing(o, s, source))
  }

  /** `t` is `s` with some of the columns that the merge is to add. */
  ghost predicate Between(o: DiffOptions, s: SchemaState, t: SchemaState, m: MergeInput) {
    && t.config == s.config && t.table.present == s.table.present
    && s.table.columns <= t.table.columns <= s.table.columns + Names(ToAdd(o, s, m.source))
    && (s.config.createTable ==> t.table == s.table)
  }

  /** A merge that ends in its Add step leaves the cache alone, and the table with some of the columns it was to add. */
  lemma FailedAdd(o: DiffOptions, s: SchemaState, m: MergeInput)
    requires AddStage(o, s, m).failed
    ensures Between(o, s, SchemaMerge(o, s, m).after, m)
  {
    var kept := ToAdd(o, s, m.source);
    UpToNames(kept, Executed(s.table, Statements(kept, ModeOf(o)), m.addFails));
  }

  lemma UpToNames(cols: seq<Column>, n: nat)
    ensures Names(UpTo(cols, n)) <= Names(cols)
  {
    if n < |cols| { assert forall i :: 0 <= i < n ==> cols[..n][i] == cols[i]; }
  }

  /** Every merge of the run ends in its Add step, and none of them adds columns that `m` does not add. */
  predicate Attempts(o: DiffOptions, s: SchemaState, run: seq<SchemaStep>, m: MergeInput) {
    run == [] ||
    var n := |run| - 1;
    && Attempts(o, s, run[..n], m)
    && run[n].Merging? && AddStage(o, After(o, s, run[..n]), run[n].input).failed
    && Names(ToAdd(o, s, run[n].input.source)) <= Names(ToAdd(o, s, m.source))
  }

  lemma {:induction false} AttemptsOnlyAdd(o: DiffOptions, s: SchemaState, run: seq<SchemaStep>, m: MergeInput)
    requires Attempts(o, s, run, m)
    ensures Between(o, s, After(o, s, run), m)
  {
    if run != [] {
      var n := |run| - 1;
      AttemptsOnlyAdd(o, s, run[..n], m);
      FailedAdd(o, After(o, s, run[..n]), run[n].input);
    }
  }

  lemma SameAdd(o: DiffOptions, s: SchemaState, t: SchemaState, m: MergeInput)
    requires Between(o, s, t, m)
    ensures AddStage(o, t, m).failed <==> AddStage(o, s, m).failed
    ensures !AddStage(o, s, m).failed ==> AddStage(o, t, m) == AddStage(o, s, m)
  {
    var kept := ToAdd(o, s, m.source);
    assert TargetMissing(o, t, m.source) == TargetMissing(o, s, m.source);
    if !s.config.createTable && !AddStage(o, s, m).failed {
      assert UpTo(kept, Statements(kept, ModeOf(o))) == kept;
      assert t.table.columns + Names(kept) == s.table.columns + Names(kept);
    }
  }

  lemma SameOutcome(o: DiffOptions, s: SchemaState, t: SchemaState, m: MergeInput)
    requires t.config == s.config && AddStage(o, t, m) == AddStage(o, s, m) && !AddStage(o, s, m).failed
    ensures SchemaMerge(o, t, m) == SchemaMerge(o, s, m)
  {
    assert SourceMissing(o, t, m.source) == SourceMissing(o, s, m.source);
  }

  /**
   * However many merges failed while creating the table or part way through adding columns, the one
   * whose Add step goes through ends exactly where it would have without them.
   */
  lemma RetriesConverge(o: DiffOptions, s: SchemaState, run: seq<SchemaStep>, m: MergeInput)
    requires Attempts(o, s, run, m)
    ensures AddStage(o, After(o, s, run), m).failed <==> AddStage(o, s, m).failed
    ensures !AddStage(o, s, m).failed ==> SchemaMerge(o, After(o, s, run), m) == SchemaMerge(o, s, m)
  {
    var t := After(o, s, run);
    AttemptsOnlyAdd(o, s, run, m);
    SameAdd(o, s, t, m);
    if !AddStage(o, s, m).failed { SameOutcome(o, s, t, m); }
  }
}
