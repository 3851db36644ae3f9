/**
 * The meaning of the SQL statements that the merge programs are built from.  A table with a
 * primary key is a map from key tuples to rows; NULL follows three-valued logic (section 8.2 of
 * ISO/IEC 9075-2) with `Nil` as both NULL and "unknown".
 */
module Sql {
  import opened Values
  import opened Texts

  type Key = seq<Value>
  type Table = map<Key, Row>

  /** `Target` is the alias `c`, `Staged` the alias `cc`. */
  datatype Side = Target | Staged

  datatype Expr =
    | Ref(side: Side, name: string)
    | Literal(value: Value)
    | Eq(left: Expr, right: Expr)
    | Ne(left: Expr, right: Expr)
    | Ge(left: Expr, right: Expr)
    | And(left: Expr, right: Expr)
    | Coalesce(inner: Expr, default: Expr)
    | Case(cond: Expr, yes: Expr, no: Expr)
    | IsNull(inner: Expr)
    | SameJson(left: Expr, right: Expr)

  datatype Assignment = Assignment(column: string, value: Expr)

  datatype When =
    | MatchedDelete(cond: Expr)
    | MatchedUpdate(cond: Expr, assignments: seq<Assignment>)
    | NotMatchedInsert(cond: Expr, columns: seq<string>, values: seq<Expr>)

  datatype Statement =
    // INSERT INTO t (columns) SELECT values FROM staging cc LEFT JOIN t c ON on WHERE filter
    | Insert(columns: seq<string>, values: seq<Expr>, on: Expr, filter: Expr)
    // UPDATE t c SET assignments FROM staging cc WHERE filter
    | Update(assignments: seq<Assignment>, filter: Expr)
    // DELETE FROM t WHERE (keys) IN (SELECT staged FROM staging cc WHERE filter)
    | Delete(keys: seq<string>, staged: seq<Expr>, filter: Expr)
    // MERGE INTO t c USING staging cc ON on clauses
    | Merge(on: Expr, clauses: seq<When>)

  // ---------------------------------------------------------------------------------------------
  // Expressions

  function Conjunction(a: Value, b: Value): Value {
    if a == Bool(false) || b == Bool(false) then Bool(false)
    else if a == Bool(true) && b == Bool(true) then Bool(true)
    else Nil
  }

  function TextOf(v: Value): Option<string> {
    match v
    case Text(s) => Some(s)
    case Toast => Some(TOAST_PLACEHOLDER)
    case _ => None
  }

  /**
   * `a >= b`: numbers by value, decimals and times by rank, texts lexicographically; anything else is not comparable.
   */
  function AtLeast(a: Value, b: Value): Value {
    if a.Num? && b.Num? then Bool(a.n >= b.n)
    else if a.Printed? && b.Printed? && a.rank.Some? && b.rank.Some? then Bool(a.rank.value >= b.rank.value)
    else if TextOf(a).Some? && TextOf(b).Some? then Bool(LexLeq(TextOf(b).value, TextOf(a).value))
    else Nil
  }

  /** `>=` on values: the orders of numbers, instants and texts; NULL and different types do not compare. */
  lemma AtLeastIs()
    ensures forall a, b, v, w :: AtLeast(Num(a, v), Num(b, w)) == Bool(true) <==> a >= b
    ensures forall s, t, q: real, r: real ::
      AtLeast(Printed(s, Some(q)), Printed(t, Some(r))) == Bool(true) <==> q >= r
    ensures forall s, t :: AtLeast(Text(s), Text(t)) == Bool(true) <==> LexLeq(t, s)
    ensures forall v :: AtLeast(Nil, v) == Nil == AtLeast(v, Nil)
    ensures forall n, w, s :: AtLeast(Num(n, w), Text(s)) == Nil == AtLeast(Text(s), Num(n, w))
  {}

  function Eval(e: Expr, c: Row, cc: Row): Value {
    match e
    case Ref(side, name) => Cell(if side.Target? then c else cc, name)
    case Literal(v) => v
    case Eq(l, r) =>
      var a, b := Eval(l, c, cc), Eval(r, c, cc);
      if a.Nil? || b.Nil? then Nil else Bool(a == b)
    case Ne(l, r) =>
      var a, b := Eval(l, c, cc), Eval(r, c, cc);
      if a.Nil? || b.Nil? then Nil else Bool(a != b)
    case Ge(l, r) => AtLeast(Eval(l, c, cc), Eval(r, c, cc))
    case And(l, r) => Conjunction(Eval(l, c, cc), Eval(r, c, cc))
    case Coalesce(i, d) => var a := Eval(i, c, cc); if a.Nil? then Eval(d, c, cc) else a
    case Case(cond, yes, no) => if Eval(cond, c, cc) == Bool(true) then Eval(yes, c, cc) else Eval(no, c, cc)
    case IsNull(i) => Bool(Eval(i, c, cc).Nil?)
    case SameJson(l, r) => Bool(Eval(l, c, cc) == Eval(r, c, cc))
  }

  /** NULL makes comparisons unknown, a false side makes a conjunction false, and IS NULL is never unknown. */
  lemma ThreeValued(l: Expr, r: Expr, c: Row, cc: Row)
    ensures var a, b := Eval(l, c, cc), Eval(r, c, cc);
      && (a == Nil || b == Nil ==> Eval(Eq(l, r), c, cc) == Nil == Eval(Ne(l, r), c, cc))
      && (a != Nil && b != Nil ==> Eval(Eq(l, r), c, cc) == Bool(a == b) && Eval(Ne(l, r), c, cc) == Bool(a != b))
      && (a == Bool(false) || b == Bool(false) ==> Eval(And(l, r), c, cc) == Bool(false))
      && (a == Nil && b in {Nil, Bool(true)} ==> Eval(And(l, r), c, cc) == Nil)
      && (Holds(And(l, r), c, cc) <==> a == Bool(true) && b == Bool(true))
      && Eval(IsNull(l), c, cc) == Bool(a == Nil)
      && Eval(Coalesce(l, r), c, cc) == (if a != Nil then a else b)
  {}

  /** A condition selects a pair of rows only when it is true, not when it is unknown. */
  predicate Holds(e: Expr, c: Row, cc: Row) {
    Eval(e, c, cc) == Bool(true)
  }

  /** `p1 and p2 and ...` */
  function AllOf(parts: seq<Expr>): Expr {
    if parts == [] then Literal(Bool(true))
    else if |parts| == 1 then parts[0]
    else And(AllOf(parts[..|parts| - 1]), parts[|parts| - 1])
  }

  lemma {:induction false} AllOfHolds(parts: seq<Expr>, c: Row, cc: Row)
    ensures Holds(AllOf(parts), c, cc) <==> forall p :: p in parts ==> Holds(p, c, cc)
  {
    if |parts| == 1 {
      assert parts[0] in parts;
    } else if |parts| > 1 {
      var front := parts[..|parts| - 1];
      AllOfHolds(front, c, cc);
      var last := parts[|parts| - 1];
      assert forall p :: p in parts <==> p in front || p == last by { assert parts == front + [last]; }
      assert last in parts;
      assert AllOf(parts) == And(AllOf(front), last);
      assert Holds(AllOf(parts), c, cc) <==> Holds(AllOf(front), c, cc) && Holds(last, c, cc);
    }
  }

  // ---------------------------------------------------------------------------------------------
  // Statements

  /** The row that assigns `values` to `columns`, evaluated on the pair (c, cc). */
  function Tuple(columns: seq<string>, values: seq<Expr>, c: Row, cc: Row): Row
    requires |columns| == |values|
  {
    if columns == [] then map[]
    else
      var last := |columns| - 1;
      Tuple(columns[..last], values[..last], c, cc)[columns[last] := Eval(values[last], c, cc)]
  }

  /** SET evaluates every right-hand side on the row as it was. */
  function Assigned(assignments: seq<Assignment>, c: Row, cc: Row): Row {
    if assignments == [] then map[]
    else
      var last := assignments[|assignments| - 1];
      Assigned(assignments[..|assignments| - 1], c, cc)[last.column := Eval(last.value, c, cc)]
  }

  function Updated(assignments: seq<Assignment>, c: Row, cc: Row): Row {
    c + Assigned(assignments, c, cc)
  }

  /** Some staged row that satisfies `filter` together with the target row `c`. */
  ghost function Partner(filter: Expr, c: Row, staging: Table): Option<Key> {
    if exists j :: j in staging && Holds(filter, c, staging[j])
    then var j :| j in staging && Holds(filter, c, staging[j]); Some(j)
    else None
  }

  /** Whether the left join of `cc` with the target produces a row that passes `filter`. */
  ghost predicate JoinSelects(on: Expr, filter: Expr, target: Table, cc: Row) {
    if exists k :: k in target && Holds(on, target[k], cc)
    then exists k :: k in target && Holds(on, target[k], cc) && Holds(filter, target[k], cc)
    else Holds(filter, map[], cc)
  }

  /** `(keys) IN (SELECT staged FROM staging WHERE filter)` on the target row `c`. */
  ghost predicate ListedForDelete(keys: seq<string>, staged: seq<Expr>, filter: Expr, c: Row, staging: Table)
    requires |keys| == |staged|
  {
    exists j :: j in staging && Holds(filter, map[], staging[j])
      && Holds(AllOf(seq(|keys|, i requires 0 <= i < |keys| => Eq(Ref(Target, keys[i]), staged[i]))), c, staging[j])
  }

  /** What the first applicable WHEN MATCHED clause makes of the pair; None deletes the row. */
  function Matched(clauses: seq<When>, c: Row, cc: Row): Option<Row> {
    if clauses == [] then Some(c)
    else match clauses[0]
      case MatchedDelete(cond) => if Holds(cond, c, cc) then None else Matched(clauses[1..], c, cc)
      case MatchedUpdate(cond, assignments) =>
        if Holds(cond, c, cc) then Some(Updated(assignments, c, cc)) else Matched(clauses[1..], c, cc)
      case NotMatchedInsert(_, _, _) => Matched(clauses[1..], c, cc)
  }

  /** What the first applicable WHEN NOT MATCHED clause inserts for a staged row, if anything. */
  function NotMatched(clauses: seq<When>, cc: Row): Option<Row>
    requires forall w :: w in clauses && w.NotMatchedInsert? ==> |w.columns| == |w.values|
  {
    if clauses == [] then None
    else match clauses[0]
      case NotMatchedInsert(cond, columns, values) =>
        if Holds(cond, map[], cc) then Some(Tuple(columns, values, map[], cc)) else NotMatched(clauses[1..], cc)
      case _ => NotMatched(clauses[1..], cc)
  }

  predicate WellFormed(s: Statement) {
    match s
    case Insert(columns, values, _, _) => |columns| == |values|
    case Update(_, _) => true
    case Delete(keys, staged, _) => |keys| == |staged|
    case Merge(_, clauses) => forall w :: w in clauses && w.NotMatchedInsert? ==> |w.columns| == |w.values|
  }

  /** Executes one statement on the target; a row inserted for the staged key `k` is stored under `k`. */
  ghost function Exec(s: Statement, target: Table, staging: Table): Table
    requires WellFormed(s)
  {
    match s
    case Insert(columns, values, on, filter) => ExecInsert(columns, values, on, filter, target, staging)
    case Update(assignments, filter) => ExecUpdate(assignments, filter, target, staging)
    case Delete(keys, staged, filter) => ExecDelete(keys, staged, filter, target, staging)
    case Merge(on, clauses) => ExecMerge(on, clauses, target, staging)
  }

  ghost function ExecInsert(columns: seq<string>, values: seq<Expr>, on: Expr, filter: Expr, target: Table,
      staging: Table): Table
    requires |columns| == |values|
  {
    target + map k | k in staging && JoinSelects(on, filter, target, staging[k])
      :: Tuple(columns, values, map[], staging[k])
  }

  ghost function ExecUpdate(assignments: seq<Assignment>, filter: Expr, target: Table, staging: Table): Table {
    map k | k in target ::
      var j := Partner(filter, target[k], staging);
      if j.Some? then Updated(assignments, target[k], staging[j.value]) else target[k]
  }

  ghost function ExecDelete(keys: seq<string>, staged: seq<Expr>, filter: Expr, target: Table, staging: Table): Table
    requires |keys| == |staged|
  {
    map k | k in target && !ListedForDelete(keys, staged, filter, target[k], staging) :: target[k]
  }

  ghost function ExecMerge(on: Expr, clauses: seq<When>, target: Table, staging: Table): Table
    requires WellFormed(Merge(on, clauses))
  {
    var kept := map k | k in target && AfterMatch(on, clauses, target[k], staging).Some?
      :: AfterMatch(on, clauses, target[k], staging).value;
    kept + map k | k in staging && !Joins(on, target, staging[k]) && NotMatched(clauses, staging[k]).Some?
      :: NotMatched(clauses, staging[k]).value
  }

  ghost function AfterMatch(on: Expr, clauses: seq<When>, c: Row, staging: Table): Option<Row> {
    var j := Partner(on, c, staging);
    if j.Some? then Matched(clauses, c, staging[j.value]) else Some(c)
  }

  ghost predicate Joins(on: Expr, target: Table, cc: Row) {
    exists k :: k in target && Holds(on, target[k], cc)
  }

  ghost function ExecAll(program: seq<Statement>, target: Table, staging: Table): Table
    requires forall s :: s in program ==> WellFormed(s)
  {
    if program == [] then target
    else ExecAll(program[1..], Exec(program[0], target, staging), staging)
  }

  // ---------------------------------------------------------------------------------------------
  // Keyed tables

  function KeyOf(row: Row, pks: seq<string>): Key {
    seq(|pks|, i requires 0 <= i < |pks| => Cell(row, pks[i]))
  }

  /** Every row is stored under its own key tuple, and no key column is NULL. */
  ghost predicate Keyed(t: Table, pks: seq<string>) {
    forall k :: k in t ==> KeyOf(t[k], pks) == k && Nil !in k
  }
}
