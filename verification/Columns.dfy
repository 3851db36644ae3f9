/** The column list of a table: an ordered list of uniquely named columns, updated in place. */
module ColumnLists {
  import opened Values
  import opened Texts
  import opened Sql

  datatype Kind = Invalid | Float | Integer | EDecimal | Boolean | Array | Struct | String | ETime

  datatype Column = Column(name: string, kind: Kind, primaryKey: bool, toast: bool, backfilled: bool, default: Value)
  {
    predicate ShouldSkip() { kind == Invalid }
  }

  datatype DestKind = Snowflake | BigQuery | Redshift | MSSQL | S3 | Unsupported

  function NewColumn(name: string, kind: Kind): Column {
    Column(name, kind, false, false, false, Nil)
  }

  // ---------------------------------------------------------------------------------------------
  // Column lists as values

  function Names(cols: seq<Column>): set<string> {
    set i | 0 <= i < |cols| :: cols[i].name
  }

  /** The names of the columns flagged as unavailable. */
  function FlaggedNames(cols: seq<Column>): set<string> {
    set i | 0 <= i < |cols| && cols[i].toast :: cols[i].name
  }

  predicate LowerCased(cols: seq<Column>) {
    forall i :: 0 <= i < |cols| ==> ToLower(cols[i].name) == cols[i].name
  }

  lemma NamesOfOneMore(cols: seq<Column>, i: nat)
    requires i < |cols|
    ensures Names(cols[..i + 1]) == Names(cols[..i]) + {cols[i].name}
  {
    assert cols[..i + 1][i] == cols[i];
    assert forall k :: 0 <= k < i ==> cols[..i][k] == cols[..i + 1][k];
  }

  /** The index of the first column with the name, or the length of the list. */
  function Position(cols: seq<Column>, name: string): (p: nat)
    ensures p <= |cols|
    ensures p < |cols| ==> cols[p].name == name
    ensures forall i :: 0 <= i < p ==> cols[i].name != name
  {
    if cols == [] || cols[0].name == name then 0
    else 1 + Position(cols[1..], name)
  }

  predicate Has(cols: seq<Column>, name: string) {
    Position(cols, name) < |cols|
  }

  function Find(cols: seq<Column>, name: string): Option<Column> {
    var p := Position(cols, name);
    if p < |cols| then Some(cols[p]) else None
  }

  /** Names are unique and non-empty: what every operation below keeps. */
  predicate Distinct(cols: seq<Column>) {
    && (forall i :: 0 <= i < |cols| ==> cols[i].name != "")
    && (forall i, j :: 0 <= i < j < |cols| ==> cols[i].name != cols[j].name)
  }

  function Added(cols: seq<Column>, col: Column): (r: seq<Column>)
    ensures Distinct(cols) ==> Distinct(r)
  {
    if col.name == "" || Has(cols, col.name) then cols else cols + [col]
  }

  /** Replaces the first column of the same name; no such column, no change. */
  function Replaced(cols: seq<Column>, col: Column): (r: seq<Column>)
    ensures Distinct(cols) ==> Distinct(r)
  {
    var p := Position(cols, col.name);
    if p < |cols| then cols[p := col] else cols
  }

  function Removed(cols: seq<Column>, name: string): (r: seq<Column>)
    ensures Distinct(cols) ==> Distinct(r) && !Has(r, name)
  {
    var p := Position(cols, name);
    if p < |cols| then cols[..p] + cols[p + 1..] else cols
  }

  datatype UpsertArg = UpsertArg(toast: Option<bool>, primaryKey: Option<bool>, backfilled: Option<bool>)

  function Patched(col: Column, arg: UpsertArg): Column {
    col.(toast := if arg.toast.Some? then arg.toast.value else col.toast,
         primaryKey := if arg.primaryKey.Some? then arg.primaryKey.value else col.primaryKey,
         backfilled := if arg.backfilled.Some? then arg.backfilled.value else col.backfilled)
  }

  function Upserted(cols: seq<Column>, name: string, arg: UpsertArg): seq<Column> {
    if name == "" then cols
    else match Find(cols, name)
      case Some(col) => Replaced(cols, Patched(col, arg))
      case None => Added(cols, Patched(NewColumn(name, Invalid), arg))
  }

  /** The names of the columns whose kind is known, in order. */
  function Updatable(cols: seq<Column>): seq<string> {
    if cols == [] then []
    else
      var last := cols[|cols| - 1];
      Updatable(cols[..|cols| - 1]) + if last.kind == Invalid then [] else [last.name]
  }

  /** `CASE WHEN cc.x is not the placeholder THEN cc.x ELSE c.x END`, in the destination's wording. */
  function ToastExpr(name: string, dest: DestKind): Expr {
    if dest == MSSQL
    then Case(Ne(Coalesce(Ref(Staged, name), Literal(Text(""))), Literal(Toast)), Ref(Staged, name), Ref(Target, name))
    else Case(Coalesce(Ne(Ref(Staged, name), Literal(Toast)), Literal(Bool(true))),
      Ref(Staged, name), Ref(Target, name))
  }

  function StructToastExpr(name: string, dest: DestKind): Expr {
    if dest == MSSQL
    then Case(Ne(Coalesce(Ref(Staged, name), Literal(Object(map[]))), Literal(Toast)),
      Ref(Staged, name), Ref(Target, name))
    else Case(Coalesce(Ne(Ref(Staged, name), Literal(Toast)), Literal(Bool(true))),
      Ref(Staged, name), Ref(Target, name))
  }

  function ColumnAssignment(col: Column, dest: DestKind): Assignment {
    Assignment(col.name,
      if !col.toast then Ref(Staged, col.name)
      else if col.kind == Struct then StructToastExpr(col.name, dest)
      else ToastExpr(col.name, dest))
  }

  function UpdateAssignments(cols: seq<Column>, dest: DestKind, skipDeleteCol: bool): seq<Assignment> {
    if cols == [] then []
    else
      var last := cols[|cols| - 1];
      UpdateAssignments(cols[..|cols| - 1], dest, skipDeleteCol) +
      if last.ShouldSkip() || (skipDeleteCol && last.name == DELETE_MARKER) then [] else [ColumnAssignment(last, dest)]
  }

  lemma {:induction false} UpdatableIn(cols: seq<Column>)
    ensures forall x :: x in Updatable(cols) <==>
      exists i :: 0 <= i < |cols| && cols[i].name == x && cols[i].kind != Invalid
  {
    if cols != [] {
      var front, last := cols[..|cols| - 1], cols[|cols| - 1];
      UpdatableIn(front);
      forall x
        ensures x in Updatable(cols) <==> exists i :: 0 <= i < |cols| && cols[i].name == x && cols[i].kind != Invalid
      {
        if i :| 0 <= i < |front| && front[i].name == x && front[i].kind != Invalid { assert cols[i] == front[i]; }
        if i :| 0 <= i < |cols| && cols[i].name == x && cols[i].kind != Invalid {
          assert i < |front| ==> front[i] == cols[i];
        }
      }
    }
  }

  /** The names of known kind keep the order of their columns. */
  lemma {:induction false} UpdatableKeepsOrder(cols: seq<Column>, i: nat, j: nat)
    requires Distinct(cols) && i < j < |Updatable(cols)|
    ensures Position(cols, Updatable(cols)[i]) < Position(cols, Updatable(cols)[j]) < |cols|
  {
    var front, last := cols[..|cols| - 1], cols[|cols| - 1];
    var before := Updatable(front);
    assert before[i] in before;
    InFront(cols, before[i]);
    if j < |before| {
      UpdatableKeepsOrder(front, i, j);
      assert before[j] in before;
      InFront(cols, before[j]);
    } else {
      LastPosition(cols);
    }
  }

  lemma InFront(cols: seq<Column>, x: string)
    requires cols != [] && Distinct(cols) && x in Updatable(cols[..|cols| - 1])
    ensures Position(cols, x) == Position(cols[..|cols| - 1], x) < |cols| - 1
  {
    var front := cols[..|cols| - 1];
    UpdatableIn(front);
    var k :| 0 <= k < |front| && front[k].name == x;
    assert cols[k] == front[k];
    assert forall i :: 0 <= i < |front| ==> front[i] == cols[i];
  }

  lemma LastPosition(cols: seq<Column>)
    requires cols != [] && Distinct(cols)
    ensures Position(cols, cols[|cols| - 1].name) == |cols| - 1
  {}

  /** What each setting of an upsert changes, on the column that is there or on a new one of unknown kind. */
  lemma UpsertedIs(cols: seq<Column>, name: string, arg: UpsertArg)
    requires Distinct(cols) && name != ""
    ensures var was := if Has(cols, name) then Find(cols, name).value
        else Column(name, Invalid, false, false, false, Nil);
      && Find(Upserted(cols, name, arg), name).Some?
      && var now := Find(Upserted(cols, name, arg), name).value;
        && now.name == name && now.kind == was.kind && now.default == was.default
        && now.toast == (if arg.toast.Some? then arg.toast.value else was.toast)
        && now.primaryKey == (if arg.primaryKey.Some? then arg.primaryKey.value else was.primaryKey)
        && now.backfilled == (if arg.backfilled.Some? then arg.backfilled.value else was.backfilled)
    ensures forall x :: x != name ==> Find(Upserted(cols, name, arg), x) == Find(cols, x)
  {
    var after, p := Upserted(cols, name, arg), Position(cols, name);
    if p < |cols| {
      assert after[p].name == name;
      FoundAt(after, p);
    } else {
      assert after[|cols|].name == name;
      FoundAt(after, |cols|);
    }
    forall x | x != name ensures Find(after, x) == Find(cols, x) { SameElsewhere(cols, after, p, x); }
  }

  lemma FoundAt(cols: seq<Column>, i: nat)
    requires Distinct(cols) && i < |cols|
    ensures Position(cols, cols[i].name) == i && Find(cols, cols[i].name) == Some(cols[i])
  {}

  lemma SameElsewhere(cols: seq<Column>, after: seq<Column>, p: nat, x: string)
    requires p <= |cols| <= |after| && |after| == (if p < |cols| then |cols| else |cols| + 1)
    requires forall i :: 0 <= i < |cols| && i != p ==> after[i] == cols[i]
    requires after[p].name != x && (p < |cols| ==> cols[p].name != x)
    ensures Find(after, x) == Find(cols, x)
  {
    var i, j := Position(cols, x), Position(after, x);
    if i < |cols| { assert after[i].name == x; }
    if j < |after| { assert j != p; }
  }

  // ---------------------------------------------------------------------------------------------
  // The container

  class Columns {
    var columns: seq<Column>

    constructor ()
      ensures columns == []
    {
      columns := [];
    }

    method IndexOf(name: string) returns (p: nat)
      ensures p == Position(columns, name)
    {
      p := 0;
      while p < |columns| && columns[p].name != name
        invariant p <= |columns|
        invariant forall i :: 0 <= i < p ==> columns[i].name != name
      {
        p := p + 1;
      }
    }

    method GetColumn(name: string) returns (r: Option<Column>)
      ensures r == Find(columns, name)
    {
      var p := IndexOf(name);
      r := if p < |columns| then Some(columns[p]) else None;
    }

    method AddColumn(col: Column)
      modifies this
      ensures columns == Added(old(columns), col)
    {
      if col.name == "" { return; }
      var existing := GetColumn(col.name);
      if existing.Some? { return; }
      columns := columns + [col];
    }

    method UpdateColumn(col: Column)
      modifies this
      ensures columns == Replaced(old(columns), col)
    {
      var p := IndexOf(col.name);
      if p < |columns| { columns := columns[p := col]; }
    }

    method UpsertColumn(name: string, arg: UpsertArg)
      modifies this
      ensures columns == Upserted(old(columns), name, arg)
    {
      if name == "" { return; }
      var existing := GetColumn(name);
      if existing.Some? {
        UpdateColumn(Patched(existing.value, arg));
        return;
      }
      AddColumn(Patched(NewColumn(name, Invalid), arg));
    }

    method DeleteColumn(name: string)
      modifies this
      ensures columns == Removed(old(columns), name)
    {
      var p := IndexOf(name);
      if p < |columns| { columns := columns[..p] + columns[p + 1..]; }
    }
  }

  // ---------------------------------------------------------------------------------------------
  // Queries that only read the list

  method GetColumnsToUpdate(columns: seq<Column>) returns (names: seq<string>)
    ensures names == Updatable(columns)
  {
    names := [];
    for i := 0 to |columns|
      invariant names == Updatable(columns[..i])
    {
      assert columns[..i + 1][..i] == columns[..i];
      if columns[i].kind == Invalid { continue; }
      names := names + [columns[i].name];
    }
    assert columns[..|columns|] == columns;
  }

  method UpdateQuery(columns: seq<Column>, dest: DestKind, skipDeleteCol: bool) returns (query: seq<Assignment>)
    ensures query == UpdateAssignments(columns, dest, skipDeleteCol)
  {
    query := [];
    for i := 0 to |columns|
      invariant query == UpdateAssignments(columns[..i], dest, skipDeleteCol)
    {
      assert columns[..i + 1][..i] == columns[..i];
      var column := columns[i];
      if column.ShouldSkip() { continue; }
      if skipDeleteCol && column.name == DELETE_MARKER { continue; }
      query := query + [ColumnAssignment(column, dest)];
    }
    assert columns[..|columns|] == columns;
  }
}
