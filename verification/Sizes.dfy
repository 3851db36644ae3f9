/** The approximate size of a value, and its sum over a map in whatever order the map is visited. */
module Sizes {
  import opened Values

  function WidthBytes(w: Width): nat {
    match w
    case OneByte => 1
    case TwoBytes => 2
    case FourBytes => 4
    case EightBytes => 8
    case SixteenBytes => 16
  }

  ghost function Size(v: Value): nat
    decreases v, 1, 0
  {
    match v
    case Nil => 0
    case Toast => |TOAST_PLACEHOLDER|
    case Bool(_) => 1
    case Num(_, w) => WidthBytes(w)
    case Text(s) => |s|
    case Bytes(data) => |data|
    case Object(fields) => SizeOfFields(v, fields.Keys)
    case List(items) => SizeOfItems(v, |items|)
    case Printed(text, _) => |text|
  }

  ghost function SizeOfFields(v: Value, names: set<string>): nat
    requires v.Object? && names <= v.fields.Keys
    decreases v, 0, |names|
  {
    if names == {} then 0
    else var name :| name in names; Size(v.fields[name]) + SizeOfFields(v, names - {name})
  }

  ghost function SizeOfItems(v: Value, n: nat): nat
    requires v.List? && n <= |v.items|
    decreases v, 0, n
  {
    if n == 0 then 0 else SizeOfItems(v, n - 1) + Size(v.items[n - 1])
  }

  /** The sum does not depend on which field is visited first. */
  lemma {:induction false} VisitField(v: Value, names: set<string>, name: string)
    requires v.Object? && names <= v.fields.Keys && name in names
    ensures SizeOfFields(v, names) == Size(v.fields[name]) + SizeOfFields(v, names - {name})
    decreases |names|
  {
    var first :| first in names && SizeOfFields(v, names) == Size(v.fields[first]) + SizeOfFields(v, names - {first});
    if first != name {
      VisitField(v, names - {first}, name);
      VisitField(v, names - {name}, first);
      assert names - {first} - {name} == names - {name} - {first};
    }
  }

  lemma {:induction false} SameFieldsSameSize(v: Value, w: Value, names: set<string>)
    requires v.Object? && w.Object? && names <= v.fields.Keys && names <= w.fields.Keys
    requires forall name :: name in names ==> v.fields[name] == w.fields[name]
    ensures SizeOfFields(v, names) == SizeOfFields(w, names)
    decreases |names|
  {
    if names != {} {
      var name :| name in names;
      VisitField(v, names, name);
      VisitField(w, names, name);
      SameFieldsSameSize(v, w, names - {name});
    }
  }

  /**
   * The size of every value.  Texts and bytes count their length, the placeholder 28, a boolean 1, a
   * number its width, NULL nothing; an object is the sum of its fields and a list that of its items.
   */
  lemma SizeIs()
    ensures Size(Nil) == 0 && Size(Toast) == 28
    ensures forall b :: Size(Bool(b)) == 1
    ensures forall n :: Size(Num(n, OneByte)) == 1 && Size(Num(n, TwoBytes)) == 2 && Size(Num(n, FourBytes)) == 4
    ensures forall n :: Size(Num(n, EightBytes)) == 8 && Size(Num(n, SixteenBytes)) == 16
    ensures forall s :: Size(Text(s)) == |s| && Size(Bytes(s)) == |s|
    ensures forall s, rank :: Size(Printed(s, rank)) == |s|
  {}

  /** An empty object has size 0, and each field adds its own size. */
  lemma ObjectSize(fields: map<string, Value>, name: string, v: Value)
    requires name !in fields
    ensures Size(Object(map[])) == 0
    ensures Size(Object(fields[name := v])) == Size(Object(fields)) + Size(v)
  {
    var small, large := Object(fields), Object(fields[name := v]);
    VisitField(large, large.fields.Keys, name);
    assert large.fields.Keys - {name} == fields.Keys;
    SameFieldsSameSize(small, large, fields.Keys);
  }

  /** An empty list has size 0, and each item adds its own size. */
  lemma ListSizeIs(items: seq<Value>, v: Value)
    ensures Size(List([])) == 0
    ensures Size(List(items + [v])) == Size(List(items)) + Size(v)
  {
    SameItemsSameSize(List(items), List(items + [v]), |items|);
  }

  lemma {:induction false} SameItemsSameSize(v: Value, w: Value, n: nat)
    requires v.List? && w.List? && n <= |v.items| && n <= |w.items| && v.items[..n] == w.items[..n]
    ensures SizeOfItems(v, n) == SizeOfItems(w, n)
    decreases n
  {
    if n > 0 {
      assert v.items[..n][..n - 1] == v.items[..n - 1] && w.items[..n][..n - 1] == w.items[..n - 1];
      assert v.items[n - 1] == v.items[..n][n - 1] && w.items[n - 1] == w.items[..n][n - 1];
      SameItemsSameSize(v, w, n - 1);
    }
  }

  method GetApproxSize(v: Value) returns (size: nat)
    ensures size == Size(v)
    decreases v
  {
    match v
    case Nil => size := 0;
    case Toast => size := |TOAST_PLACEHOLDER|;
    case Bool(_) => size := 1;
    case Num(_, w) => size := WidthBytes(w);
    case Text(s) => size := |s|;
    case Bytes(data) => size := |data|;
    case Object(fields) =>
      size := 0;
      var todo := fields.Keys;
      while todo != {}
        invariant todo <= fields.Keys
        invariant size + SizeOfFields(v, todo) == Size(v)
        decreases |todo|
      {
        var name :| name in todo;
        var part := GetApproxSize(fields[name]);
        VisitField(v, todo, name);
        size, todo := size + part, todo - {name};
      }
    case List(items) =>
      size := 0;
      for i := 0 to |items|
        invariant size == SizeOfItems(v, i)
      {
        var part := GetApproxSize(items[i]);
        size := size + part;
      }
    case Printed(text, _) => size := |text|;
  }

  // ---------------------------------------------------------------------------------------------
  // Buffered rows

  ghost function RowSize(row: Row): nat {
    Size(Object(row))
  }

  /** The sum of the sizes of all rows of a map. */
  ghost function TotalSize(rows: map<string, Row>): nat {
    Size(AsObject(rows))
  }

  function AsObject(rows: map<string, Row>): Value {
    Object(map pk | pk in rows :: Object(rows[pk]))
  }

  ghost function ListSize(rows: seq<Row>): nat {
    if rows == [] then 0 else ListSize(rows[..|rows| - 1]) + RowSize(rows[|rows| - 1])
  }

  lemma TotalSizeInsert(rows: map<string, Row>, pk: string, row: Row)
    ensures TotalSize(rows[pk := row]) + (if pk in rows then RowSize(rows[pk]) else 0) == TotalSize(rows) + RowSize(row)
  {
    var before, after := AsObject(rows), AsObject(rows[pk := row]);
    var others := rows.Keys - {pk};
    assert before.fields.Keys == rows.Keys && after.fields.Keys == rows.Keys + {pk};
    VisitField(after, after.fields.Keys, pk);
    assert after.fields.Keys - {pk} == others;
    if pk in rows {
      VisitField(before, before.fields.Keys, pk);
      assert before.fields.Keys - {pk} == others;
    } else {
      assert before.fields.Keys == others;
    }
    SameFieldsSameSize(before, after, others);
  }
}
