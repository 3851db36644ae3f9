/**
 * The row that a relational change event brings, and when a stream of such events is well formed
 * in the sense that compaction and replay need.
 */
module RelationalEvents {
  import opened Values
  import opened Replay
  import opened Compaction
  import opened Texts
  import opened Sql
  import opened ColumnLists
  import opened BatchMerge
  import opened Events
  import opened Pipeline
  import opened PrimaryKeys
  import opened ExactlyOnce
  import opened Replication

  datatype TopicSettings = TopicSettings(idempotentKey: string, includeArtieUpdatedAt: bool,
      includeDatabaseUpdatedAt: bool)

  /** What GetData reads besides the row: the key, the clocks and the fields of the schema with their parser. */
  datatype Context = Context(
    settings: TopicSettings,
    keys: Row,
    executionTime: Value,
    now: Value,
    fields: seq<string>,
    parse: (string, Value) -> Option<Value>)

  /** An empty `after` makes a delete out of the key alone. */
  function Skeleton(c: Context, after: Row): Row {
    if after != map[] then after[DELETE_MARKER := Bool(false)]
    else
      var row := map[DELETE_MARKER := Bool(true)] + c.keys;
      if c.settings.idempotentKey != "" then row[c.settings.idempotentKey := c.executionTime] else row
  }

  function Stamped(c: Context, row: Row): Row {
    var updated := if c.settings.includeArtieUpdatedAt then row[UPDATE_MARKER := c.now] else row;
    if c.settings.includeDatabaseUpdatedAt then updated[DATABASE_UPDATED_MARKER := c.executionTime] else updated
  }

  /** The row before its fields are parsed. */
  function Annotated(c: Context, after: Row): Row {
    Stamped(c, Skeleton(c, after))
  }

  /** A value that does not parse stays as it was. */
  function ParsedField(c: Context, row: Row, field: string): Row {
    if field in row && c.parse(field, row[field]).Some? then row[field := c.parse(field, row[field]).value] else row
  }

  function ParsedFields(c: Context, row: Row, fields: seq<string>): Row {
    if fields == [] then row
    else ParsedField(c, ParsedFields(c, row, fields[..|fields| - 1]), fields[|fields| - 1])
  }

  function Data(c: Context, after: Row): Row {
    ParsedFields(c, Annotated(c, after), c.fields)
  }

  /** A schema names each of its fields once. */
  predicate AllDifferent(fields: seq<string>) {
    forall i, j :: 0 <= i < j < |fields| ==> fields[i] != fields[j]
  }

  /** A cell as its field's parser leaves it: parsed if it is a field of the schema and parses, otherwise as it was. */
  function ReadCell(c: Context, x: string, v: Value): Value {
    if x in c.fields && c.parse(x, v).Some? then c.parse(x, v).value else v
  }

  lemma {:induction false} ParsedCell(c: Context, row: Row, fields: seq<string>, x: string)
    requires AllDifferent(fields)
    ensures ParsedFields(c, row, fields).Keys == row.Keys
    ensures Lookup(ParsedFields(c, row, fields), x) ==
      if x in row && x in fields && c.parse(x, row[x]).Some? then c.parse(x, row[x]) else Lookup(row, x)
  {
    if fields != [] {
      var front, last := fields[..|fields| - 1], fields[|fields| - 1];
      ParsedCell(c, row, front, x);
      assert fields == front + [last] && forall i :: 0 <= i < |front| ==> front[i] == fields[i];
      assert last !in front;
    }
  }

  /**
   * The cells of an event's row one by one.  Each stamp is its own clock, exactly if its setting is on;
   * a delete carries the key, and the idempotent key with the execution time; a live event carries the
   * cells of its `after`; and there is nothing else.
   */
  lemma DataCells(c: Context, after: Row, x: string)
    requires AllDifferent(c.fields)
    ensures c.settings.includeDatabaseUpdatedAt && x == "__artie_db_updated_at" ==>
      Lookup(Data(c, after), x) == Some(ReadCell(c, x, c.executionTime))
    ensures c.settings.includeArtieUpdatedAt && x == "__artie_updated_at" ==>
      Lookup(Data(c, after), x) == Some(ReadCell(c, x, c.now))
    ensures !IsStamp(c, x) && after != map[] && x == "__artie_delete" ==>
      Lookup(Data(c, after), x) == Some(ReadCell(c, x, Bool(false)))
    ensures !IsStamp(c, x) && after != map[] && x != "__artie_delete" ==>
      Lookup(Data(c, after), x) == if x in after then Some(ReadCell(c, x, after[x])) else None
    ensures !IsStamp(c, x) && after == map[] && x == c.settings.idempotentKey && x != "" ==>
      Lookup(Data(c, after), x) == Some(ReadCell(c, x, c.executionTime))
    ensures !IsStamp(c, x) && after == map[] && !(x == c.settings.idempotentKey && x != "") && x in c.keys ==>
      Lookup(Data(c, after), x) == Some(ReadCell(c, x, c.keys[x]))
    ensures !IsStamp(c, x) && after == map[] && !(x == c.settings.idempotentKey && x != "") && x !in c.keys ==>
      Lookup(Data(c, after), x) == if x == "__artie_delete" then Some(ReadCell(c, x, Bool(true))) else None
  {
    ParsedCell(c, Annotated(c, after), c.fields, x);
  }

  /** The columns that hold one of the two clocks. */
  predicate IsStamp(c: Context, x: string) {
    || (c.settings.includeArtieUpdatedAt && x == "__artie_updated_at")
    || (c.settings.includeDatabaseUpdatedAt && x == "__artie_db_updated_at")
  }

  class SchemaEventPayload {
    const operation: string
    var after: Row

    constructor (operation: string, after: Row)
      ensures this.operation == operation && this.after == after
    {
      this.operation, this.after := operation, after;
    }

    predicate DeletePayload() {
      operation == "d"
    }

    /** The result of a live event is the event's own `after`, which is filled in place. */
    method GetData(c: Context) returns (row: Row)
      modifies this`after
      ensures row == Data(c, old(after))
      ensures after == if old(after) == map[] then map[] else row
    {
      ghost var before := after;
      var aliased := after != map[];
      row := Annotate(c);
      for i := 0 to |c.fields|
        invariant row == ParsedFields(c, Annotated(c, before), c.fields[..i])
      {
        assert c.fields[..i + 1][..i] == c.fields[..i];
        var field := c.fields[i];
        if field !in row { continue; }
        var parsed := c.parse(field, row[field]);
        if parsed.Some? { row := row[field := parsed.value]; }
      }
      assert c.fields[..|c.fields|] == c.fields;
      if aliased { after := row; }
    }

    /** The row with its markers, before any field is parsed. */
    method Annotate(c: Context) returns (row: Row)
      ensures row == Annotated(c, after)
    {
      if after == map[] {
        row := map[DELETE_MARKER := Bool(true)];
        row := CopyKeys(row, c.keys);
        if c.settings.idempotentKey != "" { row := row[c.settings.idempotentKey := c.executionTime]; }
      } else {
        row := after[DELETE_MARKER := Bool(false)];
      }
      assert row == Skeleton(c, after);
      if c.settings.includeArtieUpdatedAt { row := row[UPDATE_MARKER := c.now]; }
      if c.settings.includeDatabaseUpdatedAt { row := row[DATABASE_UPDATED_MARKER := c.executionTime]; }
    }

    /** Copies the key values in whatever order the map yields them. */
    static method CopyKeys(start: Row, keys: Row) returns (row: Row)
      ensures row == start + keys
    {
      row := start;
      var todo := keys.Keys;
      while todo != {}
        invariant todo <= keys.Keys
        invariant row == start + map key | key in keys && key !in todo :: keys[key]
        decreases |todo|
      {
        var key :| key in todo;
        row := row[key := keys[key]];
        todo := todo - {key};
      }
    }
  }

  // ---------------------------------------------------------------------------------------------
  // The delete marker

  /** Neither the key, nor the idempotent key, nor a parsed field is called like the delete marker. */
  predicate MarkerIsFree(c: Context) {
    DELETE_MARKER !in c.keys && c.settings.idempotentKey != DELETE_MARKER && DELETE_MARKER !in c.fields
  }

  lemma {:induction false} ParsedKeepsOthers(c: Context, row: Row, fields: seq<string>, x: string)
    requires x !in fields
    ensures Cell(ParsedFields(c, row, fields), x) == Cell(row, x)
    ensures x in ParsedFields(c, row, fields) <==> x in row
  {
    if fields != [] {
      var front, last := fields[..|fields| - 1], fields[|fields| - 1];
      assert last in fields;
      ParsedKeepsOthers(c, row, front, x);
    }
  }

  lemma {:induction false} ParsedKeepsColumns(c: Context, row: Row, fields: seq<string>)
    ensures ParsedFields(c, row, fields).Keys == row.Keys
  {
    if fields != [] { ParsedKeepsColumns(c, row, fields[..|fields| - 1]); }
  }

  /** The marker says whether `after` was empty, and so agrees with the operation exactly when that does. */
  lemma MarkerIsEmptiness(c: Context, after: Row)
    requires MarkerIsFree(c)
    ensures DELETE_MARKER in Data(c, after) && Data(c, after)[DELETE_MARKER] == Bool(after == map[])
  {
    ParsedKeepsOthers(c, Annotated(c, after), c.fields, DELETE_MARKER);
  }

  /** An event is proper exactly when `op == "d"` comes with an empty `after`, and every key column has a value. */
  lemma ProperExactly(c: Context, payload: SchemaEventPayload, after: Row, pk: string, pks: seq<string>)
    requires MarkerIsFree(c)
    ensures Proper(Change(pk, Data(c, after), payload.DeletePayload()), pks) <==>
      && (payload.operation == "d" <==> after == map[])
      && forall name :: name in pks ==> Cell(Data(c, after), name) != Nil && Cell(Data(c, after), name) != Toast
  {
    MarkerIsEmptiness(c, after);
  }

  // ---------------------------------------------------------------------------------------------
  // Placeholders

  /** Parsing makes a placeholder of nothing else, and neither keys nor clocks are placeholders. */
  ghost predicate NoNewPlaceholders(c: Context) {
    && (forall field, v :: c.parse(field, v).Some? && Sanitized(c.parse(field, v).value) == Toast ==>
      Sanitized(v) == Toast)
    && (forall key :: key in c.keys ==> Sanitized(c.keys[key]) != Toast)
    && Sanitized(c.executionTime) != Toast && Sanitized(c.now) != Toast
  }

  lemma {:induction false} ParsedPlaceholders(c: Context, row: Row, fields: seq<string>, x: string)
    requires NoNewPlaceholders(c) && Sanitized(Cell(ParsedFields(c, row, fields), x)) == Toast
    ensures Sanitized(Cell(row, x)) == Toast
  {
    if fields != [] { ParsedPlaceholders(c, row, fields[..|fields| - 1], x); }
  }

  /** A cell of an event's row that Save takes for the placeholder was one in the event's `after`. */
  lemma PlaceholdersComeFromAfter(c: Context, after: Row, x: string)
    requires NoNewPlaceholders(c) && Sanitized(Cell(Data(c, after), x)) == Toast
    ensures x in after && Sanitized(after[x]) == Toast
  {
    ParsedPlaceholders(c, Annotated(c, after), c.fields, x);
  }

  /** A live event's row keeps the columns of its `after`. */
  lemma LiveColumns(c: Context, after: Row)
    requires after != map[]
    ensures after.Keys <= Data(c, after).Keys
  {
    ParsedKeepsColumns(c, Annotated(c, after), c.fields);
  }

  // ---------------------------------------------------------------------------------------------
  // Streams

  /** One event of a stream, with the context it was read in and what its envelope says of key and columns. */
  datatype StreamEvent = StreamEvent(context: Context, after: Row, operation: string, keys: map<string, string>,
      columns: seq<Column>)
  {
    predicate Live() {
      after != map[]
    }
  }

  /** What Save reads of it. */
  function EventOf(e: StreamEvent): SourceEvent {
    SourceEvent(e.keys, e.columns, Data(e.context, e.after), e.operation == "d")
  }

  /** The row that Save buffers for it. */
  ghost function RowOf(e: StreamEvent): Row {
    if InjectiveNames(Data(e.context, e.after)) then Normalised(Data(e.context, e.after)) else map[]
  }

  predicate NoPlaceholders(row: Row) {
    forall x :: x in row ==> Sanitized(row[x]) != Toast
  }

  /**
   * What a source has to keep for the events of one key: live events have one set of columns, and
   * the first live event after a delete carries no placeholder, not even wrapped in an object.
   */
  ghost predicate WellFormedStream(events: seq<StreamEvent>) {
    && (forall i :: 0 <= i < |events| ==> Readable(events[i]))
    && (forall i, j :: 0 <= i < j < |events| && events[i].Live() && events[j].Live() ==>
      events[i].after.Keys == events[j].after.Keys)
    && (forall i :: 0 < i < |events| && !events[i - 1].Live() ==> NoPlaceholders(events[i].after))
  }

  ghost predicate Readable(e: StreamEvent) {
    MarkerIsFree(e.context) && NoNewPlaceholders(e.context) && InjectiveNames(Data(e.context, e.after))
  }

  lemma MarkerName()
    ensures EscapeName(DELETE_MARKER) == DELETE_MARKER
  {
    PlainNameStays(DELETE_MARKER);
  }

  /** The buffered row is marked deleted exactly when `after` was empty. */
  lemma BufferedMarker(e: StreamEvent)
    requires Readable(e)
    ensures DELETE_MARKER in RowOf(e) && RowOf(e)[DELETE_MARKER] == Bool(!e.Live())
  {
    MarkerIsEmptiness(e.context, e.after);
    MarkerName();
    NormalisedAt(Data(e.context, e.after), DELETE_MARKER);
  }

  /** Of two events next to each other, the second only holds placeholders that the first can resolve. */
  lemma NextFollows(p: Policy, before: StreamEvent, now: StreamEvent)
    requires Readable(before) && Readable(now)
    requires before.Live() && now.Live() ==> before.after.Keys == now.after.Keys
    requires !before.Live() ==> NoPlaceholders(now.after)
    ensures Follows(p, RowOf(before), RowOf(now))
  {
    forall x | x in RowOf(now) && RowOf(now)[x] == Toast ensures x in RowOf(before) && !Removes(p, RowOf(before)) {
      var data := Data(now.context, now.after);
      var key :| key in data && EscapeName(key) == x && RowOf(now)[x] == Sanitized(data[key]);
      PlaceholdersComeFromAfter(now.context, now.after, key);
      LiveColumns(before.context, before.after);
      NormalisedAt(Data(before.context, before.after), key);
      BufferedMarker(before);
    }
  }

  // ---------------------------------------------------------------------------------------------
  // From a stream to a good log

  type Stream = map<Partition, seq<Option<StreamEvent>>>

  function SourceOf(stream: Stream): Source {
    map p | p in stream :: seq(|stream[p]|, i requires 0 <= i < |stream[p]| =>
      if stream[p][i].None? then Ignored else Delivered(EventOf(stream[p][i].value)))
  }

  ghost predicate ReadableStream(cfg: Config, stream: Stream) {
    && GoodEvents(cfg, SourceOf(stream))
    && forall p, i :: p in stream && 0 <= i < |stream[p]| && stream[p][i].Some? ==> Readable(stream[p][i].value)
  }

  /** The events of key `k` among the first `n`. */
  ghost function KeyEvents(cfg: Config, entries: seq<Option<StreamEvent>>, k: Key, n: nat): seq<StreamEvent>
    requires n <= |entries|
  {
    if n == 0 then []
    else
      KeyEvents(cfg, entries, k, n - 1) +
        if entries[n - 1].Some? && KeyOf(RowOf(entries[n - 1].value), cfg.primaryKeys) == k
          then [entries[n - 1].value] else []
  }

  ghost predicate AllWellFormed(cfg: Config, stream: Stream) {
    forall p, k :: p in stream ==> WellFormedStream(KeyEvents(cfg, stream[p], k, |stream[p]|))
  }

  /** The entry is what Save makes of the event. */
  ghost predicate Fits(entry: Entry, event: Option<StreamEvent>) {
    (entry.Accepted? <==> event.Some?) && (event.Some? ==> entry.Accepted? && entry.change.row == RowOf(event.value))
  }

  lemma StreamFits(cfg: Config, stream: Stream, p: Partition)
    requires ReadableStream(cfg, stream) && p in stream
    ensures var log := LogOf(cfg, SourceOf(stream));
      && p in log && |log[p]| == |stream[p]|
      && forall i :: 0 <= i < |stream[p]| ==> Fits(log[p][i], stream[p][i])
  {
    var log := LogOf(cfg, SourceOf(stream));
    forall i | 0 <= i < |stream[p]| ensures Fits(log[p][i], stream[p][i]) {
      assert log[p][i] == EntryOf(cfg, SourceOf(stream)[p][i]);
    }
  }

  /** The history of a key is made of the rows that Save buffers for its events. */
  lemma {:induction false} HistoryOfKey(cfg: Config, entries: seq<Entry>, events: seq<Option<StreamEvent>>, k: Key,
      n: nat)
    requires n <= |entries| == |events| && forall i :: 0 <= i < |events| ==> Fits(entries[i], events[i])
    ensures var changes, made := History(cfg, entries, k, 0, n), KeyEvents(cfg, events, k, n);
      |changes| == |made| && forall i :: 0 <= i < |made| ==> changes[i].row == RowOf(made[i])
  {
    if n > 0 {
      HistoryOfKey(cfg, entries, events, k, n - 1);
      assert Fits(entries[n - 1], events[n - 1]);
      OneStepHistory(cfg, entries, k, 0, n - 1);
    } else {
      assert AcceptedIn(entries, 0, 0) == [];
    }
  }

  /** A well-formed stream gives a log on whose buffered rows placeholders only ever follow a known, live row. */
  lemma StreamIsChained(cfg: Config, stream: Stream)
    requires ReadableStream(cfg, stream) && AllWellFormed(cfg, stream)
    ensures ChainedLog(cfg, LogOf(cfg, SourceOf(stream)))
  {
    var log := LogOf(cfg, SourceOf(stream));
    forall p, k | p in log ensures Chained(PolicyOf(cfg), History(cfg, log[p], k, 0, |log[p]|)) {
      StreamFits(cfg, stream, p);
      HistoryOfKey(cfg, log[p], stream[p], k, |stream[p]|);
      var events, changes := KeyEvents(cfg, stream[p], k, |stream[p]|), History(cfg, log[p], k, 0, |log[p]|);
      forall i | 0 < i < |changes| ensures Follows(PolicyOf(cfg), changes[i - 1].row, changes[i].row) {
        NextFollows(PolicyOf(cfg), events[i - 1], events[i]);
      }
    }
  }

  /** The operation agrees with the row, and every key column has a value. */
  ghost predicate Agreeing(cfg: Config, e: StreamEvent) {
    && (e.operation == "d" <==> !e.Live())
    && forall name :: name in cfg.primaryKeys ==> Cell(RowOf(e), name) != Nil && Cell(RowOf(e), name) != Toast
  }

  ghost predicate Among(stream: Stream, p: Partition, e: StreamEvent) {
    p in stream && exists i :: 0 <= i < |stream[p]| && stream[p][i] == Some(e)
  }

  /** The printed key values contain no `=`, but for the last column's. */
  predicate FreeKeys(pks: seq<string>, keys: map<string, string>) {
    forall i :: 0 <= i < |pks| - 1 ==> pks[i] in keys && FreeOf(keys[pks[i]], '=')
  }

  /** Printed values of a key column are the same exactly when the cells of the rows are. */
  ghost predicate PrintedAlike(pks: seq<string>, e: StreamEvent, f: StreamEvent) {
    forall name :: name in pks ==>
      && name in e.keys && name in f.keys
      && (e.keys[name] == f.keys[name] <==> Cell(RowOf(e), name) == Cell(RowOf(f), name))
  }

  /** Events of different partitions are of different keys. */
  ghost predicate KeptInPartition(pks: seq<string>, p: Partition, e: StreamEvent, q: Partition, f: StreamEvent) {
    KeyOf(RowOf(e), pks) == KeyOf(RowOf(f), pks) ==> p == q
  }

  ghost predicate GoodKeys(cfg: Config, stream: Stream) {
    && (forall p, e :: Among(stream, p, e) ==> FreeKeys(cfg.primaryKeys, e.keys))
    && (forall p, e, q, f :: Among(stream, p, e) && Among(stream, q, f) ==>
          PrintedAlike(cfg.primaryKeys, e, f) && KeptInPartition(cfg.primaryKeys, p, e, q, f))
  }

  /** Every change of the log is that of an event of the stream. */
  lemma CarriedEvent(cfg: Config, stream: Stream, p: Partition, change: Change) returns (e: StreamEvent)
    requires ReadableStream(cfg, stream) && Carries(LogOf(cfg, SourceOf(stream)), p, change)
    ensures Among(stream, p, e) && Readable(e) && GoodEvent(cfg, EventOf(e)) && change == ChangeOf(cfg, EventOf(e))
  {
    var source := SourceOf(stream);
    var log := LogOf(cfg, source);
    var i :| 0 <= i < |log[p]| && log[p][i] == Accepted(change);
    assert log[p][i] == EntryOf(cfg, source[p][i]);
    e := stream[p][i].value;
    assert stream[p][i] == Some(e);
  }

  /** The key text tells two keys apart exactly when their cells differ. */
  lemma TextIsFaithful(pks: seq<string>, e: StreamEvent, f: StreamEvent)
    requires Readable(e) && Readable(f) && Lists(pks, e.keys.Keys) && Lists(pks, f.keys.Keys)
    requires FreeKeys(pks, e.keys) && FreeKeys(pks, f.keys) && PrintedAlike(pks, e, f)
    ensures KeyText(pks, e.keys) == KeyText(pks, f.keys) <==> KeyOf(RowOf(e), pks) == KeyOf(RowOf(f), pks)
  {
    KeyTextInjective(pks, e.keys, f.keys);
    SameCells(pks, RowOf(e), RowOf(f), e.keys, f.keys);
  }

  lemma SameCells(pks: seq<string>, a: Row, b: Row, m: map<string, string>, n: map<string, string>)
    requires forall name :: name in pks ==>
      name in m && name in n && (m[name] == n[name] <==> Cell(a, name) == Cell(b, name))
    ensures KeyOf(a, pks) == KeyOf(b, pks) <==> forall name :: name in pks ==> m[name] == n[name]
  {
    if KeyOf(a, pks) == KeyOf(b, pks) {
      forall name | name in pks ensures m[name] == n[name] {
        var i :| 0 <= i < |pks| && pks[i] == name;
        assert KeyOf(a, pks)[i] == KeyOf(b, pks)[i];
      }
    }
    if forall name :: name in pks ==> m[name] == n[name] {
      assert forall i :: 0 <= i < |pks| ==> pks[i] in pks;
    }
  }

  /** Good key values make a faithful log with every key in one partition. */
  lemma KeysAreGood(cfg: Config, stream: Stream)
    requires ReadableStream(cfg, stream) && GoodKeys(cfg, stream)
    ensures FaithfulLog(cfg, LogOf(cfg, SourceOf(stream))) && PartitionedLog(cfg, LogOf(cfg, SourceOf(stream)))
  {
    var log := LogOf(cfg, SourceOf(stream));
    forall p, e, q, f | Carries(log, p, e) && Carries(log, q, f)
      ensures e.pk == f.pk <==> KeyOf(e.row, cfg.primaryKeys) == KeyOf(f.row, cfg.primaryKeys)
    {
      PairIsGood(cfg, stream, p, e, q, f);
    }
    forall p, e | Carries(log, p, e) ensures OwnedBy(cfg, log, p, KeyOf(e.row, cfg.primaryKeys)) {
      forall q, f | Carries(log, q, f) && KeyOf(f.row, cfg.primaryKeys) == KeyOf(e.row, cfg.primaryKeys)
        ensures q == p
      {
        PairIsGood(cfg, stream, p, e, q, f);
      }
    }
  }

  lemma PairIsGood(cfg: Config, stream: Stream, p: Partition, e: Change, q: Partition, f: Change)
    requires ReadableStream(cfg, stream) && GoodKeys(cfg, stream)
    requires Carries(LogOf(cfg, SourceOf(stream)), p, e) && Carries(LogOf(cfg, SourceOf(stream)), q, f)
    ensures e.pk == f.pk <==> KeyOf(e.row, cfg.primaryKeys) == KeyOf(f.row, cfg.primaryKeys)
    ensures KeyOf(f.row, cfg.primaryKeys) == KeyOf(e.row, cfg.primaryKeys) ==> q == p
  {
    var a := CarriedEvent(cfg, stream, p, e);
    var b := CarriedEvent(cfg, stream, q, f);
    assert PrintedAlike(cfg.primaryKeys, a, b) && KeptInPartition(cfg.primaryKeys, p, a, q, b);
    TextIsFaithful(cfg.primaryKeys, a, b);
  }

  /** What a source's stream has to give for everything that the pipeline assumes of its log. */
  lemma StreamIsGood(cfg: Config, stream: Stream)
    requires ReadableStream(cfg, stream) && AllWellFormed(cfg, stream) && GoodKeys(cfg, stream)
    requires forall p, e :: Among(stream, p, e) ==> Agreeing(cfg, e)
    ensures GoodSource(cfg, SourceOf(stream))
  {
    var log := LogOf(cfg, SourceOf(stream));
    StreamIsChained(cfg, stream);
    KeysAreGood(cfg, stream);
    forall p, change | Carries(log, p, change)
      ensures Proper(change, cfg.primaryKeys) && forall x :: x in change.row ==> Has(cfg.schema, x)
    {
      var e := CarriedEvent(cfg, stream, p, change);
      BufferedMarker(e);
      forall x | x in change.row ensures Has(cfg.schema, x) {
        assert x in Names(cfg.schema);
        var j :| 0 <= j < |cfg.schema| && cfg.schema[j].name == x;
      }
    }
  }
}
