/** Cell values, rows and the result types shared by every module. */
module Values {
  datatype Option<+T> = None | Some(value: T)

  datatype Result<+T> = Ok(value: T) | Err(error: string)

  /** Byte widths of Go's fixed-size numbers. */
  datatype Width = OneByte | TwoBytes | FourBytes | EightBytes | SixteenBytes

  /**
   * A Go `any` as it travels from a change event to a staging table.  `Toast` is the string
   * "__debezium_unavailable_value"; `Text` holds every other string.  `Printed` stands for the Go
   * types that are only ever seen through their printed form (decimals, times and the like), with
   * the number or instant by which a destination compares them, if they have one.
   */
  datatype Value =
    | Nil
    | Toast
    | Bool(b: bool)
    | Num(n: int, width: Width)
    | Text(s: string)
    | Bytes(data: string)
    | Object(fields: map<string, Value>)
    | List(items: seq<Value>)
    | Printed(text: string, rank: Option<real>)

  type Row = map<string, Value>

  const TOAST_PLACEHOLDER := "__debezium_unavailable_value"
  const ARTIE_PREFIX := "__artie"
  const DELETE_MARKER := "__artie_delete"
  const UPDATE_MARKER := "__artie_updated_at"
  const DATABASE_UPDATED_MARKER := "__artie_db_updated_at"
  const OPERATION_MARKER := "__artie_operation"

  /** A column that a row does not carry reads as NULL once the row is staged. */
  function Cell(row: Row, column: string): Value {
    if column in row then row[column] else Nil
  }

  function Lookup<K, V>(m: map<K, V>, k: K): Option<V> {
    if k in m then Some(m[k]) else None
  }

  lemma NothingInEmpty<T>(s: seq<T>)
    requires forall x :: x !in s
    ensures s == []
  {
    FirstIsIn(s);
  }

  lemma FirstIsIn<T>(s: seq<T>)
    ensures s != [] ==> s[0] in s
  {}
}
