/**
 * Concrete batches, with the rows that GetData makes, on which merging the buffer and merging the
 * changes one by one part ways.
 */
module Examples {
  import opened Values
  import opened Sql
  import opened ColumnLists
  import opened MergeMeaning
  import opened Replay
  import opened Compaction
  import opened BatchMerge
  import opened RelationalEvents
  import opened Texts
  import opened Diffs
  import opened TableConfigs
  import opened Ddl
  import opened SchemaRuns
  import opened SchemaAgreement
  import SoftDelete
  import IdempotentKeys

  /** A table of orders with a version, kept by Snowflake. */
  function Orders(softDelete: bool, idempotentKey: string): Config {
    Config(Snowflake, softDelete, idempotentKey, ["id"], Schema(), "orders", "staged_orders")
  }

  function Schema(): seq<Column> {
    [ Column("id", Integer, true, false, false, Nil), Column("version", String, false, false, false, Nil),
      Column(DELETE_MARKER, Boolean, false, false, false, Nil) ]
  }

  function Id(): Value {
    Num(1, EightBytes)
  }

  /** Versions are texts that sort by time, as dates do. */
  predicate Older(older: string, newer: string) {
    LexLeq(older, newer) && older != newer
  }

  lemma OlderIsBelow(older: string, newer: string)
    requires Older(older, newer)
    ensures AtLeast(Text(older), Text(newer)) == Bool(false)
  {
    if LexLeq(newer, older) { LexAntisymmetric(older, newer); }
  }

  /** What an event of the order is read with: its key, and the time that a delete is stamped with. */
  function Reading(idempotentKey: string): Context {
    Context(TopicSettings(idempotentKey, false, false), map["id" := Id()],
      Text("2024-05-09T00:00:00Z"), Nil, [], (field, v) => Some(v))
  }

  function Kept(version: string, idempotentKey: string): Change {
    Change("id=1", Data(Reading(idempotentKey), map["id" := Id(), "version" := Text(version)]), false)
  }

  function Gone(idempotentKey: string): Change {
    Change("id=1", Data(Reading(idempotentKey), map[]), true)
  }

  lemma Rows(version: string, g: string)
    ensures Kept(version, g).row == map["id" := Id(), "version" := Text(version), DELETE_MARKER := Bool(false)]
    ensures Gone("").row == map["id" := Id(), DELETE_MARKER := Bool(true)]
    ensures Gone("version").row ==
      map["id" := Id(), "version" := Text("2024-05-09T00:00:00Z"), DELETE_MARKER := Bool(true)]
  {
    Unparsed(g, map["id" := Id(), "version" := Text(version)]);
    Unparsed("", map[]);
    Unparsed("version", map[]);
    assert map["id" := Id(), "version" := Text(version)] != map[] by {
      assert "id" in map["id" := Id(), "version" := Text(version)];
    }
  }

  lemma Unparsed(g: string, after: Row)
    ensures Data(Reading(g), after) == Skeleton(Reading(g), after)
  {}

  lemma SchemaNames()
    ensures Distinct(Schema()) && Updatable(Schema()) == ["id", "version", DELETE_MARKER]
    ensures Writable(Schema(), true) == {"id", "version"}
    ensures Writable(Schema(), false) == {"id", "version", DELETE_MARKER}
    ensures forall x :: Has(Schema(), x) <==> x in {"id", "version", DELETE_MARKER}
  {
    NamesOfSchema();
    WritableSchema();
  }

  lemma NamesOfSchema()
    ensures Distinct(Schema())
    ensures forall x :: Has(Schema(), x) <==> x in {"id", "version", DELETE_MARKER}
  {
    var s := Schema();
    assert s[0].name == "id" && s[1].name == "version" && s[2].name == DELETE_MARKER;
  }

  lemma WritableSchema()
    ensures Updatable(Schema()) == ["id", "version", DELETE_MARKER]
    ensures Writable(Schema(), true) == {"id", "version"}
    ensures Writable(Schema(), false) == {"id", "version", DELETE_MARKER}
  {
    var s := Schema();
    WritableFront();
    WithOneMore([s[0], s[1]], s[2]);
    assert [s[0], s[1]] + [s[2]] == s;
  }

  lemma WritableFront()
    ensures var front := [Schema()[0], Schema()[1]];
      Updatable(front) == ["id", "version"] && Writable(front, true) == {"id", "version"} == Writable(front, false)
  {
    var s := Schema();
    assert Updatable([]) == [] && Writable([], true) == {} == Writable([], false);
    WithOneMore([], s[0]);
    WithOneMore([s[0]], s[1]);
    assert [] + [s[0]] == [s[0]] && [s[0]] + [s[1]] == [s[0], s[1]];
  }

  lemma WithOneMore(cols: seq<Column>, last: Column)
    requires last.kind != Invalid
    ensures Updatable(cols + [last]) == Updatable(cols) + [last.name]
    ensures Writable(cols + [last], false) == Writable(cols, false) + {last.name}
    ensures Writable(cols + [last], true) ==
      Writable(cols, true) + if last.name == DELETE_MARKER then {} else {last.name}
  {
    assert (cols + [last])[..|cols|] == cols;
  }

  lemma OrdersAreSound(softDelete: bool, g: string)
    ensures Sound(Orders(softDelete, g))
    ensures PolicyOf(Orders(softDelete, g)) == Policy(Writable(Schema(), !softDelete), softDelete)
  {
    SchemaNames();
  }

  function OrderKey(): Key {
    [Id()]
  }

  lemma OneKey(row: Row)
    requires "id" in row && row["id"] == Id()
    ensures KeyOf(row, ["id"]) == OrderKey()
  {}

  /** A change of the one order, with nothing unresolved. */
  predicate OfOrder(e: Change) {
    && e.pk == "id=1" && "id" in e.row && e.row["id"] == Id()
    && DELETE_MARKER in e.row && e.row[DELETE_MARKER] == Bool(e.deleted)
    && e.row.Keys <= {"id", "version", DELETE_MARKER} && forall x :: x in e.row ==> e.row[x] != Toast
  }

  lemma OrderIsProper(e: Change)
    requires OfOrder(e)
    ensures Proper(e, ["id"]) && KeyOf(e.row, ["id"]) == OrderKey() && forall x :: x in e.row ==> Has(Schema(), x)
  {
    SchemaNames();
    OneKey(e.row);
  }

  /** Two of them are such as a source emits, and of one key. */
  lemma TwoChanges(softDelete: bool, g: string, first: Change, second: Change)
    requires OfOrder(first) && OfOrder(second)
    ensures WellFormedLog(Orders(softDelete, g), [first, second])
    ensures SoftDelete.StrictLog(Orders(softDelete, g), [first, second])
    ensures forall k :: KeyChanges([first, second], ["id"], k) == if k == OrderKey() then [first, second] else []
  {
    var es := [first, second];
    PairIsProper(first, second);
    forall k
      ensures KeyChanges(es, ["id"], k) == if k == OrderKey() then es else []
    {
      ChangesOfOneKey(first, second, k);
    }
    PairIsChained(PolicyOf(Orders(softDelete, g)), first, second);
    PairIsChained(PolicyOf(Orders(softDelete, g)).(soft := false), first, second);
  }

  lemma PairIsProper(first: Change, second: Change)
    requires OfOrder(first) && OfOrder(second)
    ensures AllProper([first, second], ["id"]) && Faithful([first, second], ["id"])
    ensures WithinColumns([first, second], Schema())
    ensures KeyOf(first.row, ["id"]) == OrderKey() && KeyOf(second.row, ["id"]) == OrderKey()
  {
    OrderIsProper(first);
    OrderIsProper(second);
  }

  lemma PairIsChained(p: Policy, first: Change, second: Change)
    requires OfOrder(second)
    ensures Chained(p, [first, second]) && Chained(p, [])
  {
    assert Follows(p, first.row, second.row);
  }

  lemma ChangesOfOneKey(first: Change, second: Change, k: Key)
    requires KeyOf(first.row, ["id"]) == OrderKey() && KeyOf(second.row, ["id"]) == OrderKey()
    ensures KeyChanges([first, second], ["id"], k) == if k == OrderKey() then [first, second] else []
  {
    assert [first, second][..1] == [first] && [first][..0] == [];
    assert KeyChanges([first][..0], ["id"], k) == [];
  }

  lemma CompactTwo(first: Change, second: Change)
    requires forall x :: x in second.row ==> second.row[x] != Toast
    ensures Compact([first, second]) == second.row
  {
    assert [first, second][..1] == [first];
  }

  function Stored(version: string): Table {
    map[OrderKey() := map["id" := Id(), "version" := Text(version)]]
  }

  lemma StoredIsSettled(version: string)
    ensures Settled(Orders(false, "version"), Stored(version))
  {
    SchemaNames();
    OrdersAreSound(false, "version");
    OneKey(Stored(version)[OrderKey()]);
  }

  lemma RestoredInputs(older: string)
    ensures IdempotentKeys.Mergeable(Orders(false, "version"))
    ensures PolicyOf(Orders(false, "version")) == Policy({"id", "version"}, false)
    ensures WellFormedLog(Orders(false, "version"), [Gone("version"), Kept(older, "version")])
    ensures KeyChanges([Gone("version"), Kept(older, "version")], ["id"], OrderKey()) ==
      [Gone("version"), Kept(older, "version")]
  {
    SchemaNames();
    OrdersAreSound(false, "version");
    Rows(older, "version");
    TwoChanges(false, "version", Gone("version"), Kept(older, "version"));
  }

  /**
   * A stored order that is deleted and restored within one batch, with any version older than the one
   * it had, stays as it was; merged one by one, the restored order is there.
   */
  lemma RestoredRowIsLost(older: string, newer: string)
    requires Older(older, newer)
    ensures var cfg, es := Orders(false, "version"), [Gone("version"), Kept(older, "version")];
      && IdempotentKeys.Mergeable(cfg) && Settled(cfg, Stored(newer)) && WellFormedLog(cfg, es)
      && IdempotentKeys.RisingLog(cfg, Stored(newer), es)
      && Lookup(MergeBuffer(cfg, BufferOf(cfg, es), Stored(newer)), OrderKey()) == Lookup(Stored(newer), OrderKey())
      && Lookup(OneByOne(cfg, Stored(newer), es), OrderKey()) == Lookup(Stored(older), OrderKey())
  {
    var cfg, gone, back := Orders(false, "version"), Gone("version"), Kept(older, "version");
    RestoredInputs(older);
    StoredIsSettled(newer);
    Rows(older, "version");
    IdempotentKeys.GatedMergeAt(cfg, [gone, back], Stored(newer), OrderKey());
    IdempotentKeys.GatedOneByOneAt(cfg, Stored(newer), [gone, back], OrderKey());
    CompactTwo(gone, back);
    GatedSteps(PolicyOf(cfg), Stored(newer)[OrderKey()], gone, back, older, newer);
    RestoredIsRising(older, newer);
  }

  lemma RestoredIsRising(older: string, newer: string)
    ensures IdempotentKeys.RisingLog(Orders(false, "version"), Stored(newer), [Gone("version"), Kept(older, "version")])
  {
    var cfg, es := Orders(false, "version"), [Gone("version"), Kept(older, "version")];
    var p := PolicyOf(cfg);
    RestoredInputs(older);
    Rows(older, "version");
    TwoChanges(false, "version", es[0], es[1]);
    assert Removes(p, es[0].row) && IdempotentKeys.Versioned("version", es[1].row);
    forall k
      ensures IdempotentKeys.Rising(p, "version", Lookup(Stored(newer), k), KeyChanges(es, ["id"], k))
      ensures IdempotentKeys.AllVersioned(p, "version", KeyChanges(es, ["id"], k))
    {
      assert KeyChanges(es, ["id"], k) == if k == OrderKey() then es else [];
    }
  }

  lemma GatedSteps(p: Policy, stored: Row, gone: Change, back: Change, older: string, newer: string)
    requires Older(older, newer)
    requires p == Policy({"id", "version"}, false) && stored == map["id" := Id(), "version" := Text(newer)]
    requires MarkedDeleted(gone.row)
    requires back.row == map["id" := Id(), "version" := Text(older), DELETE_MARKER := Bool(false)]
    ensures IdempotentKeys.GatedRow(p, "version", Some(stored), back.row) == Some(stored)
    ensures IdempotentKeys.GatedReplayed(p, "version", Some(stored), [gone, back]) ==
      Some(map["id" := Id(), "version" := Text(older)])
  {
    OlderIsBelow(older, newer);
    assert [gone, back][..1] == [gone] && [gone][..0] == [];
    assert IdempotentKeys.GatedReplayed(p, "version", Some(stored), [gone][..0]) == Some(stored);
    assert IdempotentKeys.GatedReplayed(p, "version", Some(stored), [gone]) == None;
    assert Base(p, None) + Known(p, back.row) == map["id" := Id(), "version" := Text(older)];
  }

  lemma InsertedInputs(version: string)
    ensures SoftDelete.SoftMerging(Orders(true, "")) && Settled(Orders(true, ""), map[])
    ensures PolicyOf(Orders(true, "")) == Policy({"id", "version", DELETE_MARKER}, true)
    ensures SoftDelete.StrictLog(Orders(true, ""), [Kept(version, ""), Gone("")])
    ensures KeyChanges([Kept(version, ""), Gone("")], ["id"], OrderKey()) == [Kept(version, ""), Gone("")]
  {
    OrdersAreMerging();
    Rows(version, "");
    TwoChanges(true, "", Kept(version, ""), Gone(""));
  }

  lemma OrdersAreMerging()
    ensures SoftDelete.SoftMerging(Orders(true, "")) && Settled(Orders(true, ""), map[])
    ensures PolicyOf(Orders(true, "")) == Policy({"id", "version", DELETE_MARKER}, true)
  {
    SchemaNames();
    OrdersAreSound(true, "");
  }

  /**
   * An order inserted and deleted within one batch of soft deletes never arrives; merged one by one,
   * it is there, marked deleted.
   */
  lemma InsertThenDeleteIsLost(version: string)
    ensures var cfg, es := Orders(true, ""), [Kept(version, ""), Gone("")];
      && SoftDelete.SoftMerging(cfg) && Settled(cfg, map[]) && SoftDelete.StrictLog(cfg, es)
      && Lookup(MergeBuffer(cfg, BufferOf(cfg, es), map[]), OrderKey()) == None
      && Lookup(OneByOne(cfg, map[], es), OrderKey()) ==
        Some(map["id" := Id(), "version" := Nil, DELETE_MARKER := Bool(true)])
  {
    var cfg, inserted, gone := Orders(true, ""), Kept(version, ""), Gone("");
    InsertedInputs(version);
    Rows(version, "");
    SoftDelete.SoftMergeAt(cfg, [inserted, gone], map[], OrderKey());
    SoftDelete.SoftOneByOneAt(cfg, map[], [inserted, gone], OrderKey());
    CompactTwo(inserted, gone);
    SoftSteps(PolicyOf(cfg), inserted, gone, version);
  }

  lemma SoftSteps(p: Policy, inserted: Change, gone: Change, version: string)
    requires p == Policy({"id", "version", DELETE_MARKER}, true)
    requires inserted.row == map["id" := Id(), "version" := Text(version), DELETE_MARKER := Bool(false)]
    requires gone.row == map["id" := Id(), DELETE_MARKER := Bool(true)]
    ensures SoftDelete.SoftRow(p, None, gone.row) == None
    ensures SoftDelete.SoftReplayed(p, None, [inserted, gone]) ==
      Some(map["id" := Id(), "version" := Nil, DELETE_MARKER := Bool(true)])
  {
    assert [inserted, gone][..1] == [inserted] && [inserted][..0] == [];
    assert SoftDelete.SoftReplayed(p, None, [inserted][..0]) == None;
    InsertedStep(p, inserted, version);
    assert inserted.row + Known(p, gone.row) == map["id" := Id(), "version" := Nil, DELETE_MARKER := Bool(true)];
  }

  lemma InsertedStep(p: Policy, inserted: Change, version: string)
    requires p == Policy({"id", "version", DELETE_MARKER}, true)
    requires inserted.row == map["id" := Id(), "version" := Text(version), DELETE_MARKER := Bool(false)]
    ensures SoftDelete.SoftReplayed(p, None, [inserted]) == Some(inserted.row)
  {
    assert [inserted][..0] == [] && SoftDelete.SoftReplayed(p, None, [inserted][..0]) == None;
    assert Base(p, None) + Known(p, inserted.row) == inserted.row;
  }

  // ---------------------------------------------------------------------------------------------
  // A drop that stops half way

  function Named(name: string): Column {
    NewColumn(name, String)
  }

  /** Three columns, two of which are due for dropping. */
  function TwoDue(): SchemaState {
    SchemaState(TableConfig([Named("c"), Named("a"), Named("b")], map["a" := 0, "b" := 0], false, true),
      Destination(true, {"a", "b", "c"}))
  }

  /** A merge whose source has only the third; the second DROP fails. */
  function SecondDropFails(): MergeInput {
    MergeInput([Named("c")], DropArgs(1, true, _ => 0), None, Some(1), false)
  }

  function Plain(): DiffOptions {
    DiffOptions(false, false, false, false)
  }

  lemma NotArtie(name: string)
    requires |name| == 1
    ensures !Contains(name, ARTIE_PREFIX) && !ShouldSkipColumn(name, Plain())
  {
    assert name[1..] == [];
  }

  lemma MissingStep(cols: seq<Column>, last: Column, other: seq<Column>)
    requires |last.name| == 1
    ensures Missing(cols + [last], other, Plain()) ==
      if Has(other, last.name) then Missing(cols, other, Plain()) else Missing(cols, other, Plain()) + [last]
  {
    assert (cols + [last])[..|cols|] == cols;
    NotArtie(last.name);
  }

  lemma {:induction false} NothingMissing(cols: seq<Column>, other: seq<Column>)
    requires forall c :: c in cols ==> Has(other, c.name)
    ensures Missing(cols, other, Plain()) == []
  {
    if cols != [] {
      NothingMissing(cols[..|cols| - 1], other);
      assert cols[|cols| - 1] in cols;
    }
  }

  lemma MissingTwoMore(cols: seq<Column>, a: Column, b: Column, other: seq<Column>)
    requires |a.name| == |b.name| == 1 && !Has(other, a.name) && !Has(other, b.name)
    ensures Missing(cols + [a] + [b], other, Plain()) == Missing(cols, other, Plain()) + [a] + [b]
  {
    MissingStep(cols, a, other);
    MissingStep(cols + [a], b, other);
  }

  lemma TwoMissing()
    ensures SourceMissing(Plain(), TwoDue(), SecondDropFails().source) == [Named("a"), Named("b")]
    ensures TargetMissing(Plain(), TwoDue(), SecondDropFails().source) == []
  {
    TwoDueIsConsistent();
    var cached, source := TwoDue().config.columns, SecondDropFails().source;
    var a, b, c := Named("a"), Named("b"), Named("c");
    ClonedIsSame(cached);
    ClonedIsSame(source);
    assert source[0] == c && cached[0] == c;
    NothingMissing(source, source);
    NothingMissing(source, cached);
    MissingTwoMore(source, a, b, source);
    assert source + [a] + [b] == cached && [] + [a] + [b] == [a, b];
  }

  lemma TwoDueIsConsistent()
    ensures Consistent(TwoDue()) && Agrees(TwoDue()) && TidySource(SecondDropFails())
  {
    var cols := TwoDue().config.columns;
    assert cols[0].name == "c" && cols[1].name == "a" && cols[2].name == "b";
  }

  /**
   * Cache and table agree, and a merge drops one column and then fails: the cache still lists it, so
   * they no longer agree.
   */
  lemma PartialDrop()
    ensures var o, s, m := Plain(), TwoDue(), SecondDropFails();
      var outcome := SchemaMerge(o, s, m);
      && Consistent(s) && TidySource(m) && Agrees(s)
      && outcome.failed && !outcome.audited && outcome.dropped == {"a"}
      && !DropsCleanly(o, s, m) && !Agrees(outcome.after)
  {
    var o, s, m := Plain(), TwoDue(), SecondDropFails();
    TwoDueIsConsistent();
    TwoMissing();
    SecondFails(o, s, m, Named("a"), Named("b"));
    MergeAgreement(o, s, m);
  }

  lemma SecondFails(o: DiffOptions, s: SchemaState, m: MergeInput, a: Column, b: Column)
    requires o == Plain() && a.name == "a" && b.name == "b" && !a.ShouldSkip() && !b.ShouldSkip()
    requires SourceMissing(o, s, m.source) == [a, b] && TargetMissing(o, s, m.source) == []
    requires s.config.dropDeletedColumns && s.config.columnsToDelete == map["a" := 0, "b" := 0] && !s.config.createTable
    requires s.table.present && "a" in s.table.columns && "b" in s.table.columns
    requires m.args.cdcTime == 1 && m.args.containOtherOperations && m.dropFails == Some(1) && m.addFails == None
    ensures var outcome := SchemaMerge(o, s, m);
      outcome.failed && !outcome.audited && outcome.dropped == {"a"} && !DropsCleanly(o, s, m)
  {
    BothAreDue(s.config, a, b, m.args);
    assert AddStage(o, s, m) == Altered(s.config, s.table, {}, false) by { assert Names(UpTo(Ddl.Kept([]), 0)) == {}; }
    FirstFailureIs(s.table, [a, b], Some(1), 1);
    assert [a, b][..1] == [a] && Names([a]) == {"a"};
    NotArtie("a");
    assert "a" in Own({"a"});
  }

  lemma AskedStep(c: TableConfig, cols: seq<Column>, last: Column, a: DropArgs)
    requires !last.ShouldSkip() && Due(c, last.name, a.cdcTime, a.containOtherOperations)
    requires Asked(c, cols, a) == (cols, c)
    ensures Asked(c, cols + [last], a) == (cols + [last], c)
  {
    assert (cols + [last])[..|cols|] == cols;
  }

  lemma BothAreDue(c: TableConfig, a: Column, b: Column, args: DropArgs)
    requires !a.ShouldSkip() && !b.ShouldSkip()
    requires Due(c, a.name, args.cdcTime, args.containOtherOperations)
    requires Due(c, b.name, args.cdcTime, args.containOtherOperations)
    ensures Asked(c, [a, b], args) == ([a, b], c)
  {
    AskedStep(c, [], a, args);
    assert [] + [a] == [a] && [a] + [b] == [a, b];
    AskedStep(c, [a], b, args);
  }
}
