/** The three merge programs, built from a merge argument as statements of module Sql. */
module Dml {
  import opened Values
  import opened Sql
  import opened ColumnLists

  datatype MergeArgument = MergeArgument(
    fqTableName: string,
    subQuery: string,
    idempotentKey: string,                // "" when the topic has none
    primaryKeys: seq<string>,
    additionalEquality: seq<Expr>,        // BigQuery partition predicates
    columns: seq<Column>,
    destKind: DestKind,
    softDelete: bool,
    containsHardDeletes: Option<bool>,
    uppercaseEscNames: Option<bool>)

  // ---------------------------------------------------------------------------------------------
  // Specification

  function Problem(m: MergeArgument): Option<string> {
    if m.primaryKeys == [] then Some("merge argument does not contain primary keys")
    else if m.columns == [] then Some("columns cannot be empty")
    else if m.fqTableName == "" || m.subQuery == "" then Some("one of these arguments is empty: fqTableName, subQuery")
    else if m.uppercaseEscNames.None? then Some("uppercaseEscNames cannot be nil")
    else if m.destKind == Unsupported then Some("invalid destination")
    else None
  }

  /** An argument that lacks nothing. */
  predicate Complete(m: MergeArgument) {
    && m.primaryKeys != [] && m.columns != []
    && m.fqTableName != "" && m.subQuery != ""
    && m.uppercaseEscNames.Some? && m.destKind != Unsupported
  }

  function KeyEquality(pk: string): Expr {
    Eq(Ref(Target, pk), Ref(Staged, pk))
  }

  function Equalities(pks: seq<string>): seq<Expr> {
    seq(|pks|, i requires 0 <= i < |pks| => KeyEquality(pks[i]))
  }

  /** GetStatement compares BigQuery JSON keys through their printed form. */
  function MergeEquality(m: MergeArgument, pk: string): Expr {
    var column := Find(m.columns, pk);
    if m.destKind == BigQuery && column.Some? && column.value.kind == Struct
    then SameJson(Ref(Target, pk), Ref(Staged, pk))
    else KeyEquality(pk)
  }

  function MergeEqualities(m: MergeArgument): seq<Expr> {
    seq(|m.primaryKeys|, i requires 0 <= i < |m.primaryKeys| => MergeEquality(m, m.primaryKeys[i]))
  }

  /** `cond AND cc.k >= c.k`, when there is an idempotent key. */
  function Gated(m: MergeArgument, cond: Expr): Expr {
    if m.idempotentKey == "" then cond
    else And(cond, Ge(Ref(Staged, m.idempotentKey), Ref(Target, m.idempotentKey)))
  }

  const MARKER: Expr := Ref(Staged, DELETE_MARKER)

  /** `COALESCE(cc.__artie_delete, unset) = false` */
  function NotDeleted(unset: bool): Expr {
    Eq(Coalesce(MARKER, Literal(Bool(unset))), Literal(Bool(false)))
  }

  function StagedRefs(cols: seq<string>): seq<Expr> {
    seq(|cols|, i requires 0 <= i < |cols| => Ref(Staged, cols[i]))
  }

  /** The list without its first occurrence of `name`. */
  function Without(names: seq<string>, name: string): seq<string> {
    if names == [] then []
    else if names[0] == name then names[1..]
    else [names[0]] + Without(names[1..], name)
  }

  function SoftParts(m: MergeArgument): seq<Statement>
    requires m.primaryKeys != []
  {
    var cols := Updatable(m.columns);
    var on := AllOf(Equalities(m.primaryKeys));
    [ Insert(cols, StagedRefs(cols), on, IsNull(Ref(Target, m.primaryKeys[0]))),
      Update(UpdateAssignments(m.columns, m.destKind, false), Gated(m, on)) ]
  }

  function HardParts(m: MergeArgument): seq<Statement>
    requires m.primaryKeys != [] && m.containsHardDeletes.Some?
  {
    var cols := Without(Updatable(m.columns), DELETE_MARKER);
    var on := AllOf(Equalities(m.primaryKeys));
    [ Insert(cols, StagedRefs(cols), on, IsNull(Ref(Target, m.primaryKeys[0]))),
      Update(UpdateAssignments(m.columns, m.destKind, true), And(Gated(m, on), NotDeleted(false))) ] +
    if m.containsHardDeletes.value
    then [ Delete(m.primaryKeys, StagedRefs(m.primaryKeys), Eq(MARKER, Literal(Bool(true)))) ]
    else []
  }

  function Parts(m: MergeArgument): Result<seq<Statement>> {
    if Problem(m).Some? then Err(Problem(m).value)
    else if m.destKind != Redshift then Err("err - this is meant for redshift only")
    else if m.containsHardDeletes.None? then Err("containsHardDeletes cannot be nil")
    else if m.softDelete then Ok(SoftParts(m))
    else if DELETE_MARKER !in Updatable(m.columns) then Err("artie delete flag doesn't exist")
    else Ok(HardParts(m))
  }

  function MergeOn(m: MergeArgument): Expr {
    AllOf(MergeEqualities(m) + if m.destKind == BigQuery then m.additionalEquality else [])
  }

  function SoftMerge(m: MergeArgument, on: Expr): Statement {
    var cols := Updatable(m.columns);
    Merge(on, [
      MatchedUpdate(Gated(m, Literal(Bool(true))), UpdateAssignments(m.columns, m.destKind, false)),
      NotMatchedInsert(NotDeleted(false), cols, StagedRefs(cols)) ])
  }

  /** `isDeleted` and `unset` are where the MSSQL wording differs from the others. */
  function HardMerge(m: MergeArgument, on: Expr, isDeleted: Expr, unset: bool): Statement {
    var cols := Without(Updatable(m.columns), DELETE_MARKER);
    Merge(on, [
      MatchedDelete(isDeleted),
      MatchedUpdate(Gated(m, NotDeleted(false)), UpdateAssignments(m.columns, m.destKind, true)),
      NotMatchedInsert(NotDeleted(unset), cols, StagedRefs(cols)) ])
  }

  predicate MissingKeyColumn(m: MergeArgument) {
    exists i :: 0 <= i < |m.primaryKeys| && !Has(m.columns, m.primaryKeys[i])
  }

  function SingleStatement(m: MergeArgument): Result<Statement> {
    if Problem(m).Some? then Err(Problem(m).value)
    else if MissingKeyColumn(m) then Err("primary key column does not exist")
    else if m.softDelete then Ok(SoftMerge(m, MergeOn(m)))
    else if DELETE_MARKER !in Updatable(m.columns) then Err("artie delete flag doesn't exist")
    else Ok(HardMerge(m, MergeOn(m), MARKER, false))
  }

  function MSSQLStatement(m: MergeArgument): Result<Statement> {
    if Problem(m).Some? then Err(Problem(m).value)
    else if m.softDelete then Ok(SoftMerge(m, AllOf(Equalities(m.primaryKeys))))
    else if DELETE_MARKER !in Updatable(m.columns) then Err("artie delete flag doesn't exist")
    else Ok(HardMerge(m, AllOf(Equalities(m.primaryKeys)), Eq(MARKER, Literal(Bool(true))), true))
  }

  /** Hard deletes need the marker to tell deleted rows apart; soft deletes do without. */
  predicate TellsDeletes(m: MergeArgument) {
    m.softDelete || DELETE_MARKER in Updatable(m.columns)
  }

  /**
   * What each builder asks of its argument, and no more: they all refuse an incomplete argument with
   * the same problem, and a complete one only for want of what is theirs.
   */
  lemma BuildsExactly(m: MergeArgument)
    ensures Parts(m).Ok? <==> Complete(m) && m.destKind == Redshift && m.containsHardDeletes.Some? && TellsDeletes(m)
    ensures SingleStatement(m).Ok? <==>
      Complete(m) && (forall pk :: pk in m.primaryKeys ==> Has(m.columns, pk)) && TellsDeletes(m)
    ensures MSSQLStatement(m).Ok? <==> Complete(m) && TellsDeletes(m)
    ensures !Complete(m) ==>
      Problem(m).Some? && Parts(m) == Err(Problem(m).value)
        && SingleStatement(m) == Err(Problem(m).value) == MSSQLStatement(m)
  {
    if pk :| pk in m.primaryKeys && !Has(m.columns, pk) {
      var i :| 0 <= i < |m.primaryKeys| && m.primaryKeys[i] == pk;
      assert MissingKeyColumn(m);
    } else {
      assert forall i :: 0 <= i < |m.primaryKeys| ==> m.primaryKeys[i] in m.primaryKeys;
    }
  }

  // ---------------------------------------------------------------------------------------------
  // The builders

  method Valid(m: MergeArgument) returns (problem: Option<string>)
    ensures problem == Problem(m) && (problem.None? <==> Complete(m))
  {
    if |m.primaryKeys| == 0 { return Some("merge argument does not contain primary keys"); }
    if |m.columns| == 0 { return Some("columns cannot be empty"); }
    if m.fqTableName == "" || m.subQuery == "" {
      return Some("one of these arguments is empty: fqTableName, subQuery");
    }
    if m.uppercaseEscNames.None? { return Some("uppercaseEscNames cannot be nil"); }
    if m.destKind == Unsupported { return Some("invalid destination"); }
    return None;
  }

  /** Cuts the delete marker out of the column names, as every hard-delete program does. */
  method RemoveMarker(cols: seq<string>) returns (rest: seq<string>, removed: bool)
    ensures removed == (DELETE_MARKER in cols)
    ensures rest == Without(cols, DELETE_MARKER)
  {
    rest, removed := cols, false;
    for i := 0 to |cols|
      invariant DELETE_MARKER !in cols[..i]
      invariant Without(cols, DELETE_MARKER) == cols[..i] + Without(cols[i..], DELETE_MARKER)
      invariant rest == cols && !removed
    {
      assert cols[i..][1..] == cols[i + 1..];
      if cols[i] == DELETE_MARKER {
        rest, removed := cols[..i] + cols[i + 1..], true;
        return;
      }
      assert cols[..i + 1] == cols[..i] + [cols[i]];
    }
    assert cols[..|cols|] == cols;
  }

  method KeyEqualities(pks: seq<string>) returns (parts: seq<Expr>)
    ensures parts == Equalities(pks)
  {
    parts := [];
    for i := 0 to |pks|
      invariant parts == Equalities(pks[..i])
    {
      parts := parts + [KeyEquality(pks[i])];
    }
    assert pks[..|pks|] == pks;
  }

  method GetParts(m: MergeArgument) returns (r: Result<seq<Statement>>)
    ensures r == Parts(m)
  {
    var problem := Valid(m);
    if problem.Some? { return Err(problem.value); }
    if m.destKind != Redshift { return Err("err - this is meant for redshift only"); }
    if m.containsHardDeletes.None? { return Err("containsHardDeletes cannot be nil"); }
    var equalities := KeyEqualities(m.primaryKeys);
    var on := AllOf(equalities);
    var cols := GetColumnsToUpdate(m.columns);
    if m.softDelete {
      var update := UpdateQuery(m.columns, m.destKind, false);
      return Ok([
        Insert(cols, StagedRefs(cols), on, IsNull(Ref(Target, m.primaryKeys[0]))),
        Update(update, Gated(m, on)) ]);
    }
    var removed;
    cols, removed := RemoveMarker(cols);
    if !removed { return Err("artie delete flag doesn't exist"); }
    var query := UpdateQuery(m.columns, m.destKind, true);
    var parts := [
      Insert(cols, StagedRefs(cols), on, IsNull(Ref(Target, m.primaryKeys[0]))),
      Update(query, And(Gated(m, on), NotDeleted(false))) ];
    if m.containsHardDeletes.value {
      parts := parts + [Delete(m.primaryKeys, StagedRefs(m.primaryKeys), Eq(MARKER, Literal(Bool(true))))];
    }
    assert parts == HardParts(m);
    return Ok(parts);
  }

  method GetStatement(m: MergeArgument) returns (r: Result<Statement>)
    ensures r == SingleStatement(m)
  {
    var problem := Valid(m);
    if problem.Some? { return Err(problem.value); }
    var equalities: seq<Expr> := [];
    for i := 0 to |m.primaryKeys|
      invariant equalities == MergeEqualities(m)[..i]
      invariant forall j :: 0 <= j < i ==> Has(m.columns, m.primaryKeys[j])
    {
      if !Has(m.columns, m.primaryKeys[i]) { return Err("primary key column does not exist"); }
      equalities := equalities + [MergeEquality(m, m.primaryKeys[i])];
    }
    assert equalities == MergeEqualities(m);
    if m.destKind == BigQuery { equalities := equalities + m.additionalEquality; }
    assert equalities == MergeEqualities(m) + if m.destKind == BigQuery then m.additionalEquality else [];
    var on := AllOf(equalities);
    var cols := GetColumnsToUpdate(m.columns);
    if m.softDelete {
      var update := UpdateQuery(m.columns, m.destKind, false);
      return Ok(Merge(on, [
        MatchedUpdate(Gated(m, Literal(Bool(true))), update),
        NotMatchedInsert(NotDeleted(false), cols, StagedRefs(cols)) ]));
    }
    var removed;
    cols, removed := RemoveMarker(cols);
    if !removed { return Err("artie delete flag doesn't exist"); }
    var query := UpdateQuery(m.columns, m.destKind, true);
    return Ok(Merge(on, [
      MatchedDelete(MARKER),
      MatchedUpdate(Gated(m, NotDeleted(false)), query),
      NotMatchedInsert(NotDeleted(false), cols, StagedRefs(cols)) ]));
  }

  method GetMSSQLStatement(m: MergeArgument) returns (r: Result<Statement>)
    ensures r == MSSQLStatement(m)
  {
    var problem := Valid(m);
    if problem.Some? { return Err(problem.value); }
    var equalities := KeyEqualities(m.primaryKeys);
    var on := AllOf(equalities);
    var cols := GetColumnsToUpdate(m.columns);
    if m.softDelete {
      var update := UpdateQuery(m.columns, m.destKind, false);
      return Ok(Merge(on, [
        MatchedUpdate(Gated(m, Literal(Bool(true))), update),
        NotMatchedInsert(NotDeleted(false), cols, StagedRefs(cols)) ]));
    }
    var removed;
    cols, removed := RemoveMarker(cols);
    if !removed { return Err("artie delete flag doesn't exist"); }
    var query := UpdateQuery(m.columns, m.destKind, true);
    return Ok(Merge(on, [
      MatchedDelete(Eq(MARKER, Literal(Bool(true)))),
      MatchedUpdate(Gated(m, NotDeleted(false)), query),
      NotMatchedInsert(NotDeleted(true), cols, StagedRefs(cols)) ]));
  }
}
