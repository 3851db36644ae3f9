/** Every merge program is the reference semantics, hence the programs agree. */
module MergePrograms {
  import opened Values
  import opened Sql
  import opened ColumnLists
  import opened Dml
  import opened MergeMeaning

  // ---------------------------------------------------------------------------------------------
  // Keys survive the programs

  lemma KeysAreWritten(m: MergeArgument)
    requires Runnable(m)
    ensures forall pk :: pk in m.primaryKeys ==> pk in Written(RulesOf(m))
  {
    forall pk | pk in m.primaryKeys ensures pk in Written(RulesOf(m)) { UpdatableNames(m.columns, pk); }
  }

  lemma InsertedKey(m: MergeArgument, cc: Row)
    requires Runnable(m)
    ensures KeyOf(InsertedRow(RulesOf(m), cc), m.primaryKeys) == KeyOf(cc, m.primaryKeys)
  {
    KeysAreWritten(m);
    forall i | 0 <= i < |m.primaryKeys|
      ensures Cell(InsertedRow(RulesOf(m), cc), m.primaryKeys[i]) == Cell(cc, m.primaryKeys[i])
    {
      assert m.primaryKeys[i] in m.primaryKeys;
    }
  }

  lemma MergedKey(m: MergeArgument, c: Row, cc: Row)
    requires Runnable(m)
    requires KeyOf(c, m.primaryKeys) == KeyOf(cc, m.primaryKeys)
    ensures KeyOf(MergedRow(RulesOf(m), c, cc), m.primaryKeys) == KeyOf(c, m.primaryKeys)
  {
    KeysAreWritten(m);
    forall i | 0 <= i < |m.primaryKeys|
      ensures Cell(MergedRow(RulesOf(m), c, cc), m.primaryKeys[i]) == Cell(c, m.primaryKeys[i])
    {
      assert KeyOf(c, m.primaryKeys)[i] == KeyOf(cc, m.primaryKeys)[i];
      assert m.primaryKeys[i] in m.primaryKeys;
    }
  }

  /** A staged row never changes the key that it is merged under. */
  lemma OutcomeKey(m: MergeArgument, d: Option<Row>, cc: Row)
    requires Runnable(m)
    requires d.Some? ==> KeyOf(d.value, m.primaryKeys) == KeyOf(cc, m.primaryKeys)
    ensures Outcome(RulesOf(m), d, cc).Some? ==>
      KeyOf(Outcome(RulesOf(m), d, cc).value, m.primaryKeys) == KeyOf(cc, m.primaryKeys)
  {
    InsertedKey(m, cc);
    if d.Some? { MergedKey(m, d.value, cc); }
  }

  /** Merging keeps the primary key: rows stay stored under their own unique, non-NULL key. */
  lemma MergeTableKeyed(m: MergeArgument, target: Table, staging: Table)
    requires Runnable(m)
    requires Keyed(target, m.primaryKeys) && Keyed(staging, m.primaryKeys)
    ensures Keyed(MergeTable(RulesOf(m), target, staging), m.primaryKeys)
  {
    var merged := MergeTable(RulesOf(m), target, staging);
    forall k | k in merged ensures KeyOf(merged[k], m.primaryKeys) == k && Nil !in k {
      if k in staging { OutcomeKey(m, Lookup(target, k), staging[k]); }
    }
  }

  // ---------------------------------------------------------------------------------------------
  // Conditions

  lemma GatedHolds(m: MergeArgument, cond: Expr, c: Row, cc: Row)
    ensures Holds(Gated(m, cond), c, cc) <==> Holds(cond, c, cc) && GatePasses(RulesOf(m), c, cc)
  {
    if m.idempotentKey != "" {
      var gate := Ge(Ref(Staged, m.idempotentKey), Ref(Target, m.idempotentKey));
      GateHolds(m.idempotentKey, c, cc);
      assert Holds(And(cond, gate), c, cc) <==> Holds(cond, c, cc) && Holds(gate, c, cc);
    }
  }

  lemma GateHolds(key: string, c: Row, cc: Row)
    ensures Holds(Ge(Ref(Staged, key), Ref(Target, key)), c, cc) <==> AtLeast(Cell(cc, key), Cell(c, key)) == Bool(true)
  {
    assert Eval(Ref(Staged, key), c, cc) == Cell(cc, key);
    assert Eval(Ref(Target, key), c, cc) == Cell(c, key);
  }

  lemma NotDeletedHolds(unset: bool, c: Row, cc: Row)
    ensures Holds(NotDeleted(unset), c, cc) <==>
      Cell(cc, DELETE_MARKER) == Bool(false) || (Cell(cc, DELETE_MARKER).Nil? && !unset)
    ensures Holds(Eq(MARKER, Literal(Bool(true))), c, cc) <==> MarkedDeleted(cc)
    ensures Holds(MARKER, c, cc) <==> MarkedDeleted(cc)
  {
    assert Eval(MARKER, c, cc) == Cell(cc, DELETE_MARKER);
    assert Eval(Literal(Bool(true)), c, cc) == Bool(true) && Eval(Literal(Bool(false)), c, cc) == Bool(false);
    assert Eval(Coalesce(MARKER, Literal(Bool(unset))), c, cc) ==
      if Cell(cc, DELETE_MARKER).Nil? then Bool(unset) else Cell(cc, DELETE_MARKER);
  }

  lemma ExecTwo(a: Statement, b: Statement, target: Table, staging: Table)
    requires WellFormed(a) && WellFormed(b)
    ensures ExecAll([a, b], target, staging) == Exec(b, Exec(a, target, staging), staging)
  {
    assert [a, b][1..] == [b] && [b][1..] == [];
    assert forall t :: ExecAll([], t, staging) == t;
    assert forall t :: ExecAll([b], t, staging) == Exec(b, t, staging);
  }

  lemma ExecThree(a: Statement, b: Statement, d: Statement, target: Table, staging: Table)
    requires WellFormed(a) && WellFormed(b) && WellFormed(d)
    ensures ExecAll([a, b, d], target, staging) == Exec(d, Exec(b, Exec(a, target, staging), staging), staging)
  {
    assert [a, b, d][1..] == [b, d];
    ExecTwo(b, d, Exec(a, target, staging), staging);
  }

  // ---------------------------------------------------------------------------------------------
  // The three parts

  /** The left join finds no partner exactly for the keys that the target lacks. */
  lemma JoinSelectsUnmatched(m: MergeArgument, target: Table, staging: Table, k: Key)
    requires Runnable(m) && k in staging
    requires Keyed(target, m.primaryKeys) && Keyed(staging, m.primaryKeys)
    ensures JoinSelects(AllOf(Equalities(m.primaryKeys)), IsNull(Ref(Target, m.primaryKeys[0])), target, staging[k])
      <==> k !in target
  {
    var on, pk := AllOf(Equalities(m.primaryKeys)), m.primaryKeys[0];
    KeyedJoin(m.primaryKeys, target, staging);
    if k in target {
      assert KeyOf(target[k], m.primaryKeys)[0] == Cell(target[k], pk);
      assert Eval(Ref(Target, pk), target[k], staging[k]) == Cell(target[k], pk);
      assert Holds(on, target[k], staging[k]);
    } else {
      assert Eval(Ref(Target, pk), map[], staging[k]) == Nil;
    }
  }

  function Filled(m: MergeArgument, target: Table, staging: Table): Table {
    target + map k | k in staging && k !in target :: InsertedRow(RulesOf(m), staging[k])
  }

  lemma FilledKeyed(m: MergeArgument, target: Table, staging: Table)
    requires Runnable(m)
    requires Keyed(target, m.primaryKeys) && Keyed(staging, m.primaryKeys)
    ensures Keyed(Filled(m, target, staging), m.primaryKeys)
  {
    var filled := Filled(m, target, staging);
    forall k | k in filled ensures KeyOf(filled[k], m.primaryKeys) == k && Nil !in k {
      if k !in target { InsertedKey(m, staging[k]); }
    }
  }

  lemma InsertMeaning(m: MergeArgument, target: Table, staging: Table)
    requires Runnable(m)
    requires Keyed(target, m.primaryKeys) && Keyed(staging, m.primaryKeys)
    ensures var cols := InsertNames(RulesOf(m));
      ExecInsert(cols, StagedRefs(cols), AllOf(Equalities(m.primaryKeys)),
        IsNull(Ref(Target, m.primaryKeys[0])), target, staging)
        == Filled(m, target, staging)
  {
    var cols, on, filter :=
      InsertNames(RulesOf(m)), AllOf(Equalities(m.primaryKeys)), IsNull(Ref(Target, m.primaryKeys[0]));
    var values := StagedRefs(cols);
    var inserted := ExecInsert(cols, values, on, filter, target, staging);
    forall k ensures Lookup(inserted, k) == Lookup(Filled(m, target, staging), k) {
      if k in staging {
        JoinSelectsUnmatched(m, target, staging, k);
        InsertedTuple(RulesOf(m), staging[k]);
      }
    }
    SameLookups(inserted, Filled(m, target, staging));
  }

  predicate Live(cc: Row) {
    Cell(cc, DELETE_MARKER) == Bool(false) || Cell(cc, DELETE_MARKER).Nil?
  }

  /** The table once UPDATE has merged the staged rows, only the live ones in the hard-delete parts. */
  function Refreshed(m: MergeArgument, target: Table, staging: Table): Table {
    map k | k in target ::
      if k in staging && (m.softDelete || Live(staging[k])) && GatePasses(RulesOf(m), target[k], staging[k])
      then MergedRow(RulesOf(m), target[k], staging[k]) else target[k]
  }

  function UpdateFilter(m: MergeArgument): Expr {
    var gated := Gated(m, AllOf(Equalities(m.primaryKeys)));
    if m.softDelete then gated else And(gated, NotDeleted(false))
  }

  lemma UpdateFilterHolds(m: MergeArgument, c: Row, cc: Row)
    ensures Holds(UpdateFilter(m), c, cc) <==>
      Holds(AllOf(Equalities(m.primaryKeys)), c, cc) && GatePasses(RulesOf(m), c, cc) && (m.softDelete || Live(cc))
  {
    var on := AllOf(Equalities(m.primaryKeys));
    GatedHolds(m, on, c, cc);
    NotDeletedHolds(false, c, cc);
    assert Holds(And(Gated(m, on), NotDeleted(false)), c, cc) <==>
      Holds(Gated(m, on), c, cc) && Holds(NotDeleted(false), c, cc);
  }

  lemma UpdateMeaning(m: MergeArgument, target: Table, staging: Table)
    requires Runnable(m)
    requires Keyed(target, m.primaryKeys) && Keyed(staging, m.primaryKeys)
    ensures ExecUpdate(UpdateAssignments(m.columns, m.destKind, !m.softDelete), UpdateFilter(m), target, staging) ==
      Refreshed(m, target, staging)
  {
    var assignments := UpdateAssignments(m.columns, m.destKind, !m.softDelete);
    var updated := ExecUpdate(assignments, UpdateFilter(m), target, staging);
    KeyedJoin(m.primaryKeys, target, staging);
    forall k ensures Lookup(updated, k) == Lookup(Refreshed(m, target, staging), k) {
      if k in target {
        forall j | j in staging && Holds(UpdateFilter(m), target[k], staging[j]) ensures j == k {
          UpdateFilterHolds(m, target[k], staging[j]);
        }
        PartnerIsOwnKey(UpdateFilter(m), target, staging, k);
        if k in staging {
          UpdateFilterHolds(m, target[k], staging[k]);
          UpdatedIsMerged(RulesOf(m), m.destKind, target[k], staging[k]);
        }
      }
    }
    SameLookups(updated, Refreshed(m, target, staging));
  }

  lemma RefreshedKeyed(m: MergeArgument, target: Table, staging: Table)
    requires Runnable(m)
    requires Keyed(target, m.primaryKeys) && Keyed(staging, m.primaryKeys)
    ensures Keyed(Refreshed(m, target, staging), m.primaryKeys)
  {
    forall k | k in target && k in staging
      ensures KeyOf(MergedRow(RulesOf(m), target[k], staging[k]), m.primaryKeys) == k
    {
      MergedKey(m, target[k], staging[k]);
    }
  }

  function Purged(target: Table, staging: Table): Table {
    map k | k in target && !(k in staging && MarkedDeleted(staging[k])) :: target[k]
  }

  lemma DeleteMeaning(m: MergeArgument, target: Table, staging: Table)
    requires Runnable(m)
    requires Keyed(target, m.primaryKeys) && Keyed(staging, m.primaryKeys)
    ensures ExecDelete(m.primaryKeys, StagedRefs(m.primaryKeys), Eq(MARKER, Literal(Bool(true))), target, staging)
      == Purged(target, staging)
  {
    var pks, filter := m.primaryKeys, Eq(MARKER, Literal(Bool(true)));
    var tuple := seq(|pks|, i requires 0 <= i < |pks| => Eq(Ref(Target, pks[i]), StagedRefs(pks)[i]));
    assert tuple == Equalities(pks) by {
      assert forall i :: 0 <= i < |pks| ==> StagedRefs(pks)[i] == Ref(Staged, pks[i]);
      assert forall i :: 0 <= i < |pks| ==> tuple[i] == KeyEquality(pks[i]) == Equalities(pks)[i];
    }
    KeyedJoin(pks, target, staging);
    forall k | k in target
      ensures ListedForDelete(pks, StagedRefs(pks), filter, target[k], staging) <==>
        k in staging && MarkedDeleted(staging[k])
    {
      forall j | j in staging ensures Holds(filter, map[], staging[j]) <==> MarkedDeleted(staging[j]) {
        NotDeletedHolds(true, map[], staging[j]);
      }
      if k in staging && MarkedDeleted(staging[k]) {
        assert Holds(filter, map[], staging[k]) && Holds(AllOf(tuple), target[k], staging[k]);
      }
    }
  }

  /** Merging a row onto its own freshly inserted copy changes nothing. */
  lemma MergedOntoInserted(r: Rules, cc: Row)
    ensures MergedRow(r, InsertedRow(r, cc), cc) == InsertedRow(r, cc)
  {}

  /** INSERT then UPDATE, as both multi-part programs start. */
  lemma InsertThenUpdate(m: MergeArgument, target: Table, staging: Table)
    requires Runnable(m)
    requires Keyed(target, m.primaryKeys) && Keyed(staging, m.primaryKeys)
    ensures var cols := InsertNames(RulesOf(m));
      var insert :=
        Insert(cols, StagedRefs(cols), AllOf(Equalities(m.primaryKeys)), IsNull(Ref(Target, m.primaryKeys[0])));
      var update := Update(UpdateAssignments(m.columns, m.destKind, !m.softDelete), UpdateFilter(m));
      Exec(update, Exec(insert, target, staging), staging) == Refreshed(m, Filled(m, target, staging), staging)
    ensures Keyed(Refreshed(m, Filled(m, target, staging), staging), m.primaryKeys)
  {
    InsertMeaning(m, target, staging);
    FilledKeyed(m, target, staging);
    UpdateMeaning(m, Filled(m, target, staging), staging);
    RefreshedKeyed(m, Filled(m, target, staging), staging);
  }

  lemma SoftPartsMeaning(m: MergeArgument, target: Table, staging: Table)
    requires Runnable(m) && m.destKind == Redshift && m.softDelete
    requires Keyed(target, m.primaryKeys) && Keyed(staging, m.primaryKeys)
    ensures ExecAll(SoftParts(m), target, staging) == MergeTable(RulesOf(m), target, staging)
  {
    InsertThenUpdate(m, target, staging);
    ExecTwo(SoftParts(m)[0], SoftParts(m)[1], target, staging);
    assert SoftParts(m) == [SoftParts(m)[0], SoftParts(m)[1]];
    RefreshedIsMerged(m, target, staging);
  }

  lemma RefreshedIsMerged(m: MergeArgument, target: Table, staging: Table)
    requires m.destKind == Redshift && m.softDelete
    ensures Refreshed(m, Filled(m, target, staging), staging) == MergeTable(RulesOf(m), target, staging)
  {
    var merged := MergeTable(RulesOf(m), target, staging);
    forall k ensures Lookup(Refreshed(m, Filled(m, target, staging), staging), k) == Lookup(merged, k) {
      MergeTableAt(RulesOf(m), target, staging, k);
      if k in staging { MergedOntoInserted(RulesOf(m), staging[k]); }
    }
    SameLookups(Refreshed(m, Filled(m, target, staging), staging), merged);
  }

  lemma SameLookups(a: Table, b: Table)
    requires forall k :: Lookup(a, k) == Lookup(b, k)
    ensures a == b
  {
    forall k ensures k in a <==> k in b { assert Lookup(a, k) == Lookup(b, k); }
    forall k | k in a ensures a[k] == b[k] { assert Lookup(a, k) == Lookup(b, k); }
  }

  /**
   * The hard-delete parts, with or without their DELETE: without it, rows marked deleted stay in
   * the target, or even enter it.
   */
  function HardPartsAt(m: MergeArgument, target: Table, staging: Table, k: Key): Option<Row>
    requires m.containsHardDeletes.Some?
  {
    if k in staging && MarkedDeleted(staging[k]) && !m.containsHardDeletes.value
    then Some(if k in target then target[k] else InsertedRow(RulesOf(m), staging[k]))
    else OutcomeAt(RulesOf(m), target, staging, k)
  }

  lemma HardPartsRun(m: MergeArgument, target: Table, staging: Table)
    requires Runnable(m) && m.destKind == Redshift && !m.softDelete
    requires Keyed(target, m.primaryKeys) && Keyed(staging, m.primaryKeys)
    ensures var updated := Refreshed(m, Filled(m, target, staging), staging);
      ExecAll(HardParts(m), target, staging) ==
        if m.containsHardDeletes.value then Purged(updated, staging) else updated
  {
    var updated := Refreshed(m, Filled(m, target, staging), staging);
    InsertThenUpdate(m, target, staging);
    if m.containsHardDeletes.value {
      ExecThree(HardParts(m)[0], HardParts(m)[1], HardParts(m)[2], target, staging);
      assert HardParts(m) == [HardParts(m)[0], HardParts(m)[1], HardParts(m)[2]];
      DeleteMeaning(m, updated, staging);
    } else {
      ExecTwo(HardParts(m)[0], HardParts(m)[1], target, staging);
      assert HardParts(m) == [HardParts(m)[0], HardParts(m)[1]];
    }
  }

  lemma FinalLookup(m: MergeArgument, target: Table, staging: Table, k: Key)
    requires m.destKind == Redshift && !m.softDelete && m.containsHardDeletes.Some? && TypedMarkers(staging)
    ensures var updated := Refreshed(m, Filled(m, target, staging), staging);
      Lookup(if m.containsHardDeletes.value then Purged(updated, staging) else updated, k) ==
        HardPartsAt(m, target, staging, k)
  {
    var filled := Filled(m, target, staging);
    var updated := Refreshed(m, filled, staging);
    assert k in updated <==> k in target || k in staging;
    if k in staging {
      var cc := staging[k];
      assert filled[k] == if k in target then target[k] else InsertedRow(RulesOf(m), cc);
      assert updated[k] ==
        if Live(cc) && GatePasses(RulesOf(m), filled[k], cc) then MergedRow(RulesOf(m), filled[k], cc) else filled[k];
      MergedOntoInserted(RulesOf(m), cc);
    }
  }

  lemma HardPartsMeaning(m: MergeArgument, target: Table, staging: Table, k: Key)
    requires Runnable(m) && m.destKind == Redshift && !m.softDelete
    requires Keyed(target, m.primaryKeys) && Keyed(staging, m.primaryKeys) && TypedMarkers(staging)
    ensures Lookup(ExecAll(HardParts(m), target, staging), k) == HardPartsAt(m, target, staging, k)
  {
    HardPartsRun(m, target, staging);
    FinalLookup(m, target, staging, k);
  }

  // ---------------------------------------------------------------------------------------------
  // The single statement

  lemma MergeStatementMeaning(m: MergeArgument, on: Expr, clauses: seq<When>, target: Table, staging: Table)
    requires WellFormed(Merge(on, clauses))
    requires JoinsOnKey(on, target, staging)
    requires forall k :: k in staging && k in target ==>
      Matched(clauses, target[k], staging[k]) == Outcome(RulesOf(m), Some(target[k]), staging[k])
    requires forall k :: k in staging && k !in target ==>
      NotMatched(clauses, staging[k]) == Outcome(RulesOf(m), None, staging[k])
    ensures Exec(Merge(on, clauses), target, staging) == MergeTable(RulesOf(m), target, staging)
  {
    var result := Exec(Merge(on, clauses), target, staging);
    forall k ensures Lookup(result, k) == Lookup(MergeTable(RulesOf(m), target, staging), k) {
      MergeTableAt(RulesOf(m), target, staging, k);
      if k in target {
        PartnerIsOwnKey(on, target, staging, k);
        assert k in staging ==> Holds(on, target[k], staging[k]);
      }
      if k in staging {
        assert Joins(on, target, staging[k]) <==> k in target by {
          if k in target { assert Holds(on, target[k], staging[k]); }
        }
      }
    }
    SameLookups(result, MergeTable(RulesOf(m), target, staging));
  }

  lemma SoftMergeClauses(m: MergeArgument, on: Expr, d: Option<Row>, cc: Row)
    requires Runnable(m) && m.softDelete && m.destKind != Redshift
    requires Cell(cc, DELETE_MARKER).Nil? || Cell(cc, DELETE_MARKER).Bool?
    ensures var clauses := SoftMerge(m, on).clauses;
      && WellFormed(SoftMerge(m, on))
      && (d.Some? ==> Matched(clauses, d.value, cc) == Outcome(RulesOf(m), d, cc))
      && (d.None? ==> NotMatched(clauses, cc) == Outcome(RulesOf(m), d, cc))
  {
    var cols := Updatable(m.columns);
    var c := if d.Some? then d.value else map[];
    var updated := MatchedUpdate(Gated(m, Literal(Bool(true))), UpdateAssignments(m.columns, m.destKind, false));
    var inserted := NotMatchedInsert(NotDeleted(false), cols, StagedRefs(cols));
    TwoClauses(updated, inserted, c, cc);
    GatedHolds(m, Literal(Bool(true)), c, cc);
    UpdatedIsMerged(RulesOf(m), m.destKind, c, cc);
    NotDeletedHolds(false, map[], cc);
    InsertedTuple(RulesOf(m), cc);
  }

  lemma TwoClauses(updated: When, inserted: When, c: Row, cc: Row)
    requires updated.MatchedUpdate? && inserted.NotMatchedInsert? && |inserted.columns| == |inserted.values|
    ensures Matched([updated, inserted], c, cc) ==
      if Holds(updated.cond, c, cc) then Some(Updated(updated.assignments, c, cc)) else Some(c)
    ensures NotMatched([updated, inserted], cc) ==
      if Holds(inserted.cond, map[], cc) then Some(Tuple(inserted.columns, inserted.values, map[], cc)) else None
  {
    assert [updated, inserted] == [updated] + [inserted];
    assert [inserted] == [inserted] + [];
    FirstClause(updated, [inserted], c, cc);
    FirstClause(inserted, [], c, cc);
  }

  lemma FirstClause(w: When, rest: seq<When>, c: Row, cc: Row)
    requires WellFormed(Merge(MARKER, [w] + rest)) && WellFormed(Merge(MARKER, rest))
    ensures Matched([w] + rest, c, cc) ==
      if w.MatchedDelete? && Holds(w.cond, c, cc) then None
      else if w.MatchedUpdate? && Holds(w.cond, c, cc) then Some(Updated(w.assignments, c, cc))
      else Matched(rest, c, cc)
    ensures w.NotMatchedInsert? ==> w in [w] + rest
    ensures NotMatched([w] + rest, cc) ==
      if w.NotMatchedInsert? && Holds(w.cond, map[], cc) then Some(Tuple(w.columns, w.values, map[], cc))
      else NotMatched(rest, cc)
  {
    assert ([w] + rest)[1..] == rest;
  }

  lemma ThreeClauses(deleted: When, updated: When, inserted: When, c: Row, cc: Row)
    requires deleted.MatchedDelete? && updated.MatchedUpdate? && inserted.NotMatchedInsert?
    requires |inserted.columns| == |inserted.values|
    ensures Matched([deleted, updated, inserted], c, cc) ==
      if Holds(deleted.cond, c, cc) then None
      else if Holds(updated.cond, c, cc) then Some(Updated(updated.assignments, c, cc))
      else Some(c)
    ensures NotMatched([deleted, updated, inserted], cc) ==
      if Holds(inserted.cond, map[], cc) then Some(Tuple(inserted.columns, inserted.values, map[], cc)) else None
  {
    assert [deleted, updated, inserted] == [deleted] + [updated, inserted];
    assert [updated, inserted] == [updated] + [inserted];
    assert [inserted] == [inserted] + [];
    FirstClause(deleted, [updated, inserted], c, cc);
    FirstClause(updated, [inserted], c, cc);
    FirstClause(inserted, [], c, cc);
  }

  lemma HardMergeClauses(m: MergeArgument, on: Expr, isDeleted: Expr, d: Option<Row>, cc: Row)
    requires Runnable(m) && !m.softDelete
    requires Cell(cc, DELETE_MARKER).Nil? || Cell(cc, DELETE_MARKER).Bool?
    requires isDeleted == MARKER || isDeleted == Eq(MARKER, Literal(Bool(true)))
    ensures var clauses := HardMerge(m, on, isDeleted, m.destKind == MSSQL).clauses;
      && WellFormed(HardMerge(m, on, isDeleted, m.destKind == MSSQL))
      && (d.Some? ==> Matched(clauses, d.value, cc) == Outcome(RulesOf(m), d, cc))
      && (d.None? ==> NotMatched(clauses, cc) == Outcome(RulesOf(m), d, cc))
  {
    var c := if d.Some? then d.value else map[];
    var cols := InsertNames(RulesOf(m));
    ThreeClauses(MatchedDelete(isDeleted),
      MatchedUpdate(Gated(m, NotDeleted(false)), UpdateAssignments(m.columns, m.destKind, true)),
      NotMatchedInsert(NotDeleted(m.destKind == MSSQL), cols, StagedRefs(cols)), c, cc);
    HardMergeIsWellFormed(m, on, isDeleted);
    HardConditions(m, isDeleted, c, cc);
    UpdatedIsMerged(RulesOf(m), m.destKind, c, cc);
    InsertedTuple(RulesOf(m), cc);
  }

  lemma HardMergeIsWellFormed(m: MergeArgument, on: Expr, isDeleted: Expr)
    ensures WellFormed(HardMerge(m, on, isDeleted, m.destKind == MSSQL))
  {}

  /** When the three clauses fire. */
  lemma HardConditions(m: MergeArgument, isDeleted: Expr, c: Row, cc: Row)
    requires Cell(cc, DELETE_MARKER).Nil? || Cell(cc, DELETE_MARKER).Bool?
    requires isDeleted == MARKER || isDeleted == Eq(MARKER, Literal(Bool(true)))
    ensures Holds(isDeleted, c, cc) <==> MarkedDeleted(cc)
    ensures Holds(Gated(m, NotDeleted(false)), c, cc) <==> !MarkedDeleted(cc) && GatePasses(RulesOf(m), c, cc)
    ensures Holds(NotDeleted(m.destKind == MSSQL), map[], cc) <==>
      !MarkedDeleted(cc) && (m.destKind != MSSQL || !Cell(cc, DELETE_MARKER).Nil?)
  {
    NotDeletedHolds(false, c, cc);
    NotDeletedHolds(m.destKind == MSSQL, map[], cc);
    GatedHolds(m, NotDeleted(false), c, cc);
  }

  // ---------------------------------------------------------------------------------------------
  // Main results

  lemma RunnableHasProgram(m: MergeArgument)
    requires Runnable(m)
    ensures Program(m).Ok?
    ensures forall s :: s in Program(m).value ==> WellFormed(s)
  {
    forall i | 0 <= i < |m.primaryKeys| ensures Has(m.columns, m.primaryKeys[i]) {
      assert m.primaryKeys[i] in m.primaryKeys;
      UpdatableNames(m.columns, m.primaryKeys[i]);
    }
  }

  /**
   * Each destination's program, executed statement by statement, is the reference merge.  For
   * Redshift's hard-delete parts this needs the DELETE part when some staged row is marked deleted.
   */
  lemma ProgramMeaning(m: MergeArgument, target: Table, staging: Table)
    requires Runnable(m)
    requires Keyed(target, m.primaryKeys) && Keyed(staging, m.primaryKeys) && TypedMarkers(staging)
    requires m.destKind == Redshift && !m.softDelete && SomeDeleted(staging) ==> m.containsHardDeletes.value
    ensures Program(m).Ok? && forall s :: s in Program(m).value ==> WellFormed(s)
    ensures ExecAll(Program(m).value, target, staging) == MergeTable(RulesOf(m), target, staging)
  {
    RunnableHasProgram(m);
    var merged := MergeTable(RulesOf(m), target, staging);
    if m.destKind == Redshift && m.softDelete {
      SoftPartsMeaning(m, target, staging);
    } else if m.destKind == Redshift {
      forall k ensures Lookup(ExecAll(HardParts(m), target, staging), k) == Lookup(merged, k) {
        HardPartsMeaning(m, target, staging, k);
        MergeTableAt(RulesOf(m), target, staging, k);
      }
      SameLookups(ExecAll(HardParts(m), target, staging), merged);
    } else {
      OneStatementMeaning(m, target, staging);
    }
  }

  /** The destinations that run a single MERGE. */
  lemma OneStatementMeaning(m: MergeArgument, target: Table, staging: Table)
    requires Runnable(m) && m.destKind != Redshift
    requires Keyed(target, m.primaryKeys) && Keyed(staging, m.primaryKeys) && TypedMarkers(staging)
    ensures Program(m).Ok? && forall s :: s in Program(m).value ==> WellFormed(s)
    ensures ExecAll(Program(m).value, target, staging) == MergeTable(RulesOf(m), target, staging)
  {
    RunnableHasProgram(m);
    var statement := Program(m).value[0];
    forall k, j | k in target && j in staging ensures Holds(statement.on, target[k], staging[j]) <==> k == j {
      KeyJoin(m.primaryKeys, target[k], staging[j]);
      MergeJoin(m, target[k], staging[j]);
    }
    forall k | k in staging
      ensures k in target ==>
        Matched(statement.clauses, target[k], staging[k]) == Outcome(RulesOf(m), Some(target[k]), staging[k])
      ensures k !in target ==> NotMatched(statement.clauses, staging[k]) == Outcome(RulesOf(m), None, staging[k])
    {
      if m.softDelete {
        SoftMergeClauses(m, statement.on, Lookup(target, k), staging[k]);
      } else {
        HardMergeClauses(m, statement.on, statement.clauses[0].cond, Lookup(target, k), staging[k]);
      }
    }
    MergeStatementMeaning(m, statement.on, statement.clauses, target, staging);
    assert Program(m).value[1..] == [];
  }

  /**
   * The multi-part program and the single MERGE yield the same table exactly when the DELETE part
   * is present or no staged row is marked deleted.
   */
  lemma PartsAgreeWithMerge(m: MergeArgument, other: MergeArgument, target: Table, staging: Table)
    requires Runnable(m) && m.destKind == Redshift && !m.softDelete
    requires other.destKind in {Snowflake, BigQuery} && Runnable(other)
    requires other == m.(destKind := other.destKind)
    requires Keyed(target, m.primaryKeys) && Keyed(staging, m.primaryKeys) && TypedMarkers(staging)
    ensures Program(m).Ok? && Program(other).Ok?
    ensures forall s :: s in Program(m).value + Program(other).value ==> WellFormed(s)
    ensures ExecAll(Program(m).value, target, staging) == ExecAll(Program(other).value, target, staging)
      <==> (m.containsHardDeletes.value || !SomeDeleted(staging))
  {
    RunnableHasProgram(m);
    ProgramMeaning(other, target, staging);
    if m.containsHardDeletes.value || !SomeDeleted(staging) {
      ProgramMeaning(m, target, staging);
      forall k | k in staging { SameHardOutcome(RulesOf(m), RulesOf(other), Lookup(target, k), staging[k]); }
      SameRulesSameTable(RulesOf(m), RulesOf(other), target, staging);
    } else {
      var k :| k in staging && MarkedDeleted(staging[k]);
      HardPartsMeaning(m, target, staging, k);
      MergeTableAt(RulesOf(other), target, staging, k);
    }
  }

  /** With hard delete, only the insertion of unmarked rows tells the destinations apart. */
  lemma SameHardOutcome(a: Rules, b: Rules, d: Option<Row>, cc: Row)
    requires !a.softDelete && b == a.(insertDeleted := b.insertDeleted, insertUnmarked := b.insertUnmarked)
    requires a.insertUnmarked == b.insertUnmarked || d.Some? || !Cell(cc, DELETE_MARKER).Nil?
    ensures Outcome(a, d, cc) == Outcome(b, d, cc)
  {
    assert Written(a) == Written(b);
    if d.Some? { assert MergedRow(a, d.value, cc) == MergedRow(b, d.value, cc); }
  }

  lemma SameRulesSameTable(a: Rules, b: Rules, target: Table, staging: Table)
    requires forall k :: k in staging ==>
      Outcome(a, Lookup(target, k), staging[k]) == Outcome(b, Lookup(target, k), staging[k])
    ensures MergeTable(a, target, staging) == MergeTable(b, target, staging)
  {
    forall k ensures Lookup(MergeTable(a, target, staging), k) == Lookup(MergeTable(b, target, staging), k) {
      MergeTableAt(a, target, staging, k);
      MergeTableAt(b, target, staging, k);
    }
    SameLookups(MergeTable(a, target, staging), MergeTable(b, target, staging));
  }

  /** MSSQL agrees with the others on every batch without NULL markers among its unmatched rows, and only then. */
  lemma MSSQLAgreesWithMerge(m: MergeArgument, other: MergeArgument, target: Table, staging: Table)
    requires Runnable(m) && m.destKind == MSSQL && !m.softDelete
    requires other.destKind in {Snowflake, BigQuery} && Runnable(other)
    requires other == m.(destKind := other.destKind)
    requires Keyed(target, m.primaryKeys) && Keyed(staging, m.primaryKeys) && TypedMarkers(staging)
    ensures Program(m).Ok? && Program(other).Ok?
    ensures forall s :: s in Program(m).value + Program(other).value ==> WellFormed(s)
    ensures ExecAll(Program(m).value, target, staging) == ExecAll(Program(other).value, target, staging)
      <==> forall k :: k in staging && k !in target ==> !Cell(staging[k], DELETE_MARKER).Nil?
  {
    ProgramMeaning(m, target, staging);
    ProgramMeaning(other, target, staging);
    if k :| k in staging && k !in target && Cell(staging[k], DELETE_MARKER).Nil? {
      MergeTableAt(RulesOf(m), target, staging, k);
      MergeTableAt(RulesOf(other), target, staging, k);
    } else {
      forall k | k in staging { SameHardOutcome(RulesOf(m), RulesOf(other), Lookup(target, k), staging[k]); }
      SameRulesSameTable(RulesOf(m), RulesOf(other), target, staging);
    }
  }
}
