/**
 * What the merge programs do to a table, row by row.  `Outcome` is the reference: the row that one
 * staged row makes of the target row with the same key.  Every program is shown to be that
 * function applied key by key.
 */
module MergeMeaning {
  import opened Values
  import opened Sql
  import opened ColumnLists
  import opened Dml

  /** The parts of a merge argument that decide its meaning. */
  datatype Rules = Rules(
    columns: seq<Column>,
    idempotentKey: string,
    softDelete: bool,
    insertDeleted: bool,    // soft delete: an unmatched row marked deleted is inserted
    insertUnmarked: bool)   // hard delete: an unmatched row with a NULL marker is inserted

  function RulesOf(m: MergeArgument): Rules {
    Rules(m.columns, m.idempotentKey, m.softDelete, m.destKind == Redshift, m.destKind != MSSQL)
  }

  /** The program that a destination runs: parts for Redshift, one statement for the others. */
  function Program(m: MergeArgument): Result<seq<Statement>> {
    if m.destKind == Redshift then Parts(m)
    else
      var statement := if m.destKind == MSSQL then MSSQLStatement(m) else SingleStatement(m);
      if statement.Ok? then Ok([statement.value]) else Err(statement.error)
  }

  // ---------------------------------------------------------------------------------------------
  // Reference semantics

  predicate MarkedDeleted(row: Row) {
    Cell(row, DELETE_MARKER) == Bool(true)
  }

  /** The names of the columns of known kind, without the delete marker if it is skipped. */
  function Writable(cols: seq<Column>, skip: bool): set<string> {
    if cols == [] then {}
    else
      var last := cols[|cols| - 1];
      Writable(cols[..|cols| - 1], skip) +
        if last.ShouldSkip() || (skip && last.name == DELETE_MARKER) then {} else {last.name}
  }

  /** The columns that a program writes. */
  function Written(r: Rules): set<string> {
    Writable(r.columns, !r.softDelete)
  }

  predicate Flagged(cols: seq<Column>, name: string) {
    cols != [] &&
    var last := cols[|cols| - 1];
    if last.name == name then last.toast else Flagged(cols[..|cols| - 1], name)
  }

  /** The value that a program assigns to column `x` of a matched row. */
  function MergedCell(cols: seq<Column>, c: Row, cc: Row, x: string): Value {
    if Flagged(cols, x) && Cell(cc, x) == Toast then Cell(c, x) else Cell(cc, x)
  }

  function MergedRow(r: Rules, c: Row, cc: Row): Row {
    c + map x | x in Written(r) :: MergedCell(r.columns, c, cc, x)
  }

  function InsertedRow(r: Rules, cc: Row): Row {
    map x | x in Written(r) :: Cell(cc, x)
  }

  predicate GatePasses(r: Rules, c: Row, cc: Row) {
    r.idempotentKey == "" || AtLeast(Cell(cc, r.idempotentKey), Cell(c, r.idempotentKey)) == Bool(true)
  }

  function Outcome(r: Rules, d: Option<Row>, cc: Row): Option<Row> {
    if !r.softDelete && MarkedDeleted(cc) then None
    else match d
      case Some(c) => if GatePasses(r, c, cc) then Some(MergedRow(r, c, cc)) else Some(c)
      case None =>
        if r.softDelete && !r.insertDeleted && MarkedDeleted(cc) then None
        else if !r.softDelete && !r.insertUnmarked && Cell(cc, DELETE_MARKER).Nil? then None
        else Some(InsertedRow(r, cc))
  }

  function OutcomeAt(r: Rules, target: Table, staging: Table, k: Key): Option<Row> {
    if k in staging then Outcome(r, Lookup(target, k), staging[k]) else Lookup(target, k)
  }

  function MergeTable(r: Rules, target: Table, staging: Table): Table {
    map k | k in target.Keys + staging.Keys && OutcomeAt(r, target, staging, k).Some?
      :: OutcomeAt(r, target, staging, k).value
  }

  lemma MergeTableAt(r: Rules, target: Table, staging: Table, k: Key)
    ensures Lookup(MergeTable(r, target, staging), k) == OutcomeAt(r, target, staging, k)
  {}

  // ---------------------------------------------------------------------------------------------
  // Assumptions on the inputs

  /** The boolean marker column holds true, false or NULL. */
  predicate TypedMarkers(staging: Table) {
    forall k :: k in staging ==> Cell(staging[k], DELETE_MARKER).Nil? || Cell(staging[k], DELETE_MARKER).Bool?
  }

  /** A merge argument that its builder accepts, over uniquely named columns that hold every key column. */
  predicate Runnable(m: MergeArgument) {
    && Problem(m).None?
    && Distinct(m.columns)
    && m.additionalEquality == []
    && (m.destKind == Redshift ==> m.containsHardDeletes.Some?)
    && (m.softDelete || DELETE_MARKER in Updatable(m.columns))
    && (forall pk :: pk in m.primaryKeys ==> pk != DELETE_MARKER && pk in Updatable(m.columns))
  }

  predicate SomeDeleted(staging: Table) {
    exists k :: k in staging && MarkedDeleted(staging[k])
  }

  // ---------------------------------------------------------------------------------------------
  // Names, assignments and tuples

  lemma {:induction false} UpdatableNames(cols: seq<Column>, x: string)
    requires Distinct(cols)
    ensures x in Updatable(cols) <==> x in Writable(cols, false)
    ensures x in Writable(cols, true) <==> x in Writable(cols, false) && x != DELETE_MARKER
    ensures x in Writable(cols, false) ==> exists i :: 0 <= i < |cols| && cols[i].name == x
  {
    if cols != [] {
      var n := |cols| - 1;
      UpdatableNames(cols[..n], x);
      assert forall i :: 0 <= i < n ==> cols[..n][i] == cols[i];
    }
  }

  lemma {:induction false} UpdatableUnique(cols: seq<Column>)
    requires Distinct(cols)
    ensures forall i, j :: 0 <= i < j < |Updatable(cols)| ==> Updatable(cols)[i] != Updatable(cols)[j]
  {
    if cols != [] {
      var n := |cols| - 1;
      UpdatableUnique(cols[..n]);
      UpdatableNames(cols[..n], cols[n].name);
    }
  }

  lemma {:induction false} WithoutNames(names: seq<string>, name: string, x: string)
    requires forall i, j :: 0 <= i < j < |names| ==> names[i] != names[j]
    ensures x in Without(names, name) <==> x in names && x != name
  {
    if names != [] && names[0] != name { WithoutNames(names[1..], name, x); }
  }

  /** The column names that a program inserts. */
  function InsertNames(r: Rules): seq<string> {
    if r.softDelete then Updatable(r.columns) else Without(Updatable(r.columns), DELETE_MARKER)
  }

  lemma InsertNamesAreWritten(r: Rules, x: string)
    requires Distinct(r.columns)
    ensures x in InsertNames(r) <==> x in Written(r)
  {
    UpdatableNames(r.columns, x);
    UpdatableUnique(r.columns);
    WithoutNames(Updatable(r.columns), DELETE_MARKER, x);
  }

  lemma {:induction false} TupleOfRefs(cols: seq<string>, c: Row, cc: Row)
    ensures Tuple(cols, StagedRefs(cols), c, cc) == map x | x in cols :: Cell(cc, x)
  {
    if cols != [] {
      var n := |cols| - 1;
      TupleOfRefs(cols[..n], c, cc);
      assert StagedRefs(cols)[..n] == StagedRefs(cols[..n]);
      assert forall x :: x in cols <==> x in cols[..n] || x == cols[n] by { assert cols == cols[..n] + [cols[n]]; }
    }
  }

  lemma InsertedTuple(r: Rules, cc: Row)
    requires Distinct(r.columns)
    ensures Tuple(InsertNames(r), StagedRefs(InsertNames(r)), map[], cc) == InsertedRow(r, cc)
  {
    TupleOfRefs(InsertNames(r), map[], cc);
    forall x ensures x in InsertNames(r) <==> x in Written(r) { InsertNamesAreWritten(r, x); }
  }

  /** What an assignment of UpdateQuery evaluates to, in every destination's wording. */
  lemma AssignmentValue(col: Column, dest: DestKind, c: Row, cc: Row)
    ensures Eval(ColumnAssignment(col, dest).value, c, cc) ==
      if col.toast && Cell(cc, col.name) == Toast then Cell(c, col.name) else Cell(cc, col.name)
  {
    var staged := Ref(Staged, col.name);
    var blank := Literal(if col.kind == Struct then Object(map[]) else Text(""));
    var isKnown := if dest == MSSQL then Ne(Coalesce(staged, blank), Literal(Toast)) else Ne(staged, Literal(Toast));
    assert Eval(staged, c, cc) == Cell(cc, col.name);
    assert Eval(Literal(Toast), c, cc) == Toast;
    assert dest == MSSQL ==>
      Eval(Coalesce(staged, blank), c, cc) == if Cell(cc, col.name).Nil? then blank.value else Cell(cc, col.name);
    assert dest == MSSQL ==> Eval(isKnown, c, cc) == Bool(Cell(cc, col.name) != Toast);
    assert dest != MSSQL ==> Eval(Coalesce(isKnown, Literal(Bool(true))), c, cc) == Bool(Cell(cc, col.name) != Toast);
  }

  lemma AssignedStep(before: seq<Assignment>, step: Assignment, c: Row, cc: Row)
    ensures Assigned(before + [step], c, cc) == Assigned(before, c, cc)[step.column := Eval(step.value, c, cc)]
  {
    assert (before + [step])[..|before|] == before;
  }

  /** The row that UpdateQuery's assignments add up to. */
  function AssignedRow(cols: seq<Column>, skip: bool, c: Row, cc: Row): Row {
    if cols == [] then map[]
    else
      var before, last := AssignedRow(cols[..|cols| - 1], skip, c, cc), cols[|cols| - 1];
      if last.ShouldSkip() || (skip && last.name == DELETE_MARKER) then before
      else before[last.name :=
        if last.toast && Cell(cc, last.name) == Toast then Cell(c, last.name) else Cell(cc, last.name)]
  }

  lemma {:induction false} AssignmentsEvaluate(cols: seq<Column>, dest: DestKind, skip: bool, c: Row, cc: Row)
    ensures Assigned(UpdateAssignments(cols, dest, skip), c, cc) == AssignedRow(cols, skip, c, cc)
  {
    if cols != [] {
      var front, last := cols[..|cols| - 1], cols[|cols| - 1];
      AssignmentsEvaluate(front, dest, skip, c, cc);
      var before := UpdateAssignments(front, dest, skip);
      if last.ShouldSkip() || (skip && last.name == DELETE_MARKER) {
        assert UpdateAssignments(cols, dest, skip) == before;
      } else {
        AssignedStep(before, ColumnAssignment(last, dest), c, cc);
        AssignmentValue(last, dest, c, cc);
      }
    }
  }

  lemma {:induction false} AssignedCells(cols: seq<Column>, skip: bool, c: Row, cc: Row)
    requires Distinct(cols)
    ensures AssignedRow(cols, skip, c, cc) == map x | x in Writable(cols, skip) :: MergedCell(cols, c, cc, x)
  {
    if cols != [] {
      var front, last := cols[..|cols| - 1], cols[|cols| - 1];
      AssignedCells(front, skip, c, cc);
      UpdatableNames(front, last.name);
      if last.ShouldSkip() || (skip && last.name == DELETE_MARKER) {
        CellsOfFront(cols, skip, c, cc);
      } else {
        CellsOfFront(cols, skip, c, cc);
        OneMoreCell(cols, skip, c, cc);
      }
    }
  }

  /** A written column adds its cell. */
  lemma OneMoreCell(cols: seq<Column>, skip: bool, c: Row, cc: Row)
    requires cols != [] && Distinct(cols)
    requires var last := cols[|cols| - 1]; !last.ShouldSkip() && !(skip && last.name == DELETE_MARKER)
    ensures var front, last := cols[..|cols| - 1], cols[|cols| - 1];
      (map x | x in Writable(cols, skip) :: MergedCell(cols, c, cc, x)) ==
        (map x | x in Writable(front, skip) :: MergedCell(front, c, cc, x))[last.name :=
          if last.toast && Cell(cc, last.name) == Toast then Cell(c, last.name) else Cell(cc, last.name)]
  {
    var front, last := cols[..|cols| - 1], cols[|cols| - 1];
    assert Writable(cols, skip) == Writable(front, skip) + {last.name};
    CellsOfFront(cols, skip, c, cc);
    UpdatableNames(front, last.name);
  }

  lemma CellsOfFront(cols: seq<Column>, skip: bool, c: Row, cc: Row)
    requires Distinct(cols) && cols != []
    ensures var front := cols[..|cols| - 1];
      forall x :: x in Writable(front, skip) ==> MergedCell(front, c, cc, x) == MergedCell(cols, c, cc, x)
  {
    var front, last := cols[..|cols| - 1], cols[|cols| - 1];
    forall x | x in Writable(front, skip) ensures x != last.name { UpdatableNames(front, x); }
  }

  lemma UpdatedIsMerged(r: Rules, dest: DestKind, c: Row, cc: Row)
    requires Distinct(r.columns)
    ensures Updated(UpdateAssignments(r.columns, dest, !r.softDelete), c, cc) == MergedRow(r, c, cc)
  {
    AssignmentsEvaluate(r.columns, dest, !r.softDelete, c, cc);
    AssignedCells(r.columns, !r.softDelete, c, cc);
  }

  // ---------------------------------------------------------------------------------------------
  // Joins on the key

  lemma KeyEqualityHolds(pk: string, c: Row, cc: Row)
    ensures Holds(KeyEquality(pk), c, cc) <==> Cell(c, pk) == Cell(cc, pk) && Cell(c, pk) != Nil
    ensures Holds(SameJson(Ref(Target, pk), Ref(Staged, pk)), c, cc) <==> Cell(c, pk) == Cell(cc, pk)
  {
    assert Eval(Ref(Target, pk), c, cc) == Cell(c, pk);
    assert Eval(Ref(Staged, pk), c, cc) == Cell(cc, pk);
  }

  lemma KeyJoin(pks: seq<string>, c: Row, cc: Row)
    ensures Holds(AllOf(Equalities(pks)), c, cc) <==> KeyOf(c, pks) == KeyOf(cc, pks) && Nil !in KeyOf(c, pks)
  {
    AllOfHolds(Equalities(pks), c, cc);
    var equal := forall i :: 0 <= i < |pks| ==> Cell(c, pks[i]) == Cell(cc, pks[i]) && Cell(c, pks[i]) != Nil;
    assert forall i :: 0 <= i < |pks| ==>
      Equalities(pks)[i] == KeyEquality(pks[i]) && Equalities(pks)[i] in Equalities(pks);
    forall i | 0 <= i < |pks| { KeyEqualityHolds(pks[i], c, cc); }
    assert equal <==> forall p :: p in Equalities(pks) ==> Holds(p, c, cc);
    assert forall i :: 0 <= i < |pks| ==> KeyOf(c, pks)[i] == Cell(c, pks[i]) && KeyOf(cc, pks)[i] == Cell(cc, pks[i]);
  }

  /** GetStatement's ON clause, including BigQuery's JSON comparison, joins equal non-NULL keys. */
  lemma MergeJoin(m: MergeArgument, c: Row, cc: Row)
    requires m.additionalEquality == []
    requires Nil !in KeyOf(c, m.primaryKeys) && Nil !in KeyOf(cc, m.primaryKeys)
    ensures Holds(MergeOn(m), c, cc) <==> KeyOf(c, m.primaryKeys) == KeyOf(cc, m.primaryKeys)
  {
    var pks := m.primaryKeys;
    var parts := MergeEqualities(m);
    assert MergeOn(m) == AllOf(parts) by { assert parts + [] == parts; }
    AllOfHolds(parts, c, cc);
    assert forall i :: 0 <= i < |pks| ==> KeyOf(c, pks)[i] == Cell(c, pks[i]) && KeyOf(cc, pks)[i] == Cell(cc, pks[i]);
    assert forall i :: 0 <= i < |pks| ==> Cell(c, pks[i]) != Nil && Cell(cc, pks[i]) != Nil;
    assert forall i :: 0 <= i < |pks| ==> parts[i] == MergeEquality(m, pks[i]) && parts[i] in parts;
    forall i | 0 <= i < |pks|
      ensures Holds(MergeEquality(m, pks[i]), c, cc) <==> Cell(c, pks[i]) == Cell(cc, pks[i])
    {
      KeyEqualityHolds(pks[i], c, cc);
    }
  }

  /** GetStatement's ON clause also asks for the additional equalities, in BigQuery and nowhere else. */
  lemma AdditionalEqualitiesHold(m: MergeArgument, c: Row, cc: Row)
    ensures Holds(MergeOn(m), c, cc) <==>
      && Holds(MergeOn(m.(additionalEquality := [])), c, cc)
      && (m.destKind == BigQuery ==> forall e :: e in m.additionalEquality ==> Holds(e, c, cc))
  {
    var keys, more := MergeEqualities(m), if m.destKind == BigQuery then m.additionalEquality else [];
    assert MergeEqualities(m.(additionalEquality := [])) == keys && keys + [] == keys;
    AllOfHolds(keys, c, cc);
    AllOfHolds(keys + more, c, cc);
  }

  /** `on` pairs rows of the two tables exactly when they are stored under the same key. */
  ghost predicate JoinsOnKey(on: Expr, target: Table, staging: Table) {
    forall k, j :: k in target && j in staging ==> (Holds(on, target[k], staging[j]) <==> k == j)
  }

  lemma KeyedJoin(pks: seq<string>, target: Table, staging: Table)
    requires Keyed(target, pks) && Keyed(staging, pks)
    ensures JoinsOnKey(AllOf(Equalities(pks)), target, staging)
  {
    forall k, j | k in target && j in staging
      ensures Holds(AllOf(Equalities(pks)), target[k], staging[j]) <==> k == j
    {
      KeyJoin(pks, target[k], staging[j]);
    }
  }

  lemma PartnerIsOwnKey(filter: Expr, target: Table, staging: Table, k: Key)
    requires k in target
    requires forall j :: j in staging && Holds(filter, target[k], staging[j]) ==> j == k
    ensures Partner(filter, target[k], staging) ==
      if k in staging && Holds(filter, target[k], staging[k]) then Some(k) else None
  {}
}
