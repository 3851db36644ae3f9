/**
 * The consumer's objects: committing offsets, flushing a table's buffer and processing one message.
 * Each method does one or two steps of module Replication; which calls fail is an input.
 */
module Consumer {
  import opened Values
  import opened Sql
  import opened ColumnLists
  import opened Dml
  import opened MergeMeaning
  import opened Replay
  import opened Buffers
  import opened Compaction
  import opened BatchMerge
  import opened Pipeline
  import opened Events
  import opened Replication
  import opened LiveSafety

  /** The reader of a topic, as far as commits and acknowledgements go. */
  class TopicConsumer {
    var committed: map<Partition, nat>
    var acked: set<nat>

    constructor (committed: map<Partition, nat>)
      ensures this.committed == committed && acked == {}
    {
      this.committed, acked := committed, {};
    }

    method CommitMessages(m: Message, fails: bool) returns (error: bool)
      requires m.Kafka?
      modifies this`committed
      ensures error == fails
      ensures committed == if fails then old(committed) else old(committed)[m.partition := m.offset + 1]
    {
      if !fails { committed := committed[m.partition := m.offset + 1]; }
      error := fails;
    }

    method Ack(m: Message)
      requires m.PubSub?
      modifies this`acked
      ensures acked == old(acked) + {m.id}
    {
      acked := acked + {m.id};
    }
  }

  /** A buffer fed by Kafka remembers one message of each partition. */
  predicate OneEach(messages: map<Partition, seq<Message>>) {
    forall p :: p in messages ==> |messages[p]| == 1 && messages[p][0].Kafka? && messages[p][0].partition == p
  }

  /** The acknowledgements of the Pub/Sub messages in a list. */
  function Acks(messages: seq<Message>): set<nat> {
    set i | 0 <= i < |messages| && messages[i].PubSub? :: messages[i].id
  }

  /** The offsets after committing the Kafka messages in a list, one after the other. */
  function Advanced(committed: map<Partition, nat>, messages: seq<Message>): map<Partition, nat> {
    if messages == [] then committed
    else
      var before, last := Advanced(committed, messages[..|messages| - 1]), messages[|messages| - 1];
      if last.Kafka? then before[last.partition := last.offset + 1] else before
  }

  lemma {:induction false} AdvancedConcat(committed: map<Partition, nat>, a: seq<Message>, b: seq<Message>)
    ensures Advanced(committed, a + b) == Advanced(Advanced(committed, a), b)
    ensures Acks(a + b) == Acks(a) + Acks(b)
  {
    if b == [] {
      assert a + b == a;
    } else {
      var n := |b| - 1;
      AdvancedConcat(committed, a, b[..n]);
      assert (a + b)[..|a + b| - 1] == a + b[..n];
    }
    AcksConcat(a, b);
  }

  lemma AcksConcat(a: seq<Message>, b: seq<Message>)
    ensures Acks(a + b) == Acks(a) + Acks(b)
  {
    var all := a + b;
    forall i | 0 <= i < |b| ensures all[|a| + i] == b[i] {}
    forall i | 0 <= i < |a| ensures all[i] == a[i] {}
  }

  predicate AnyKafka(messages: seq<Message>) {
    exists i :: 0 <= i < |messages| && messages[i].Kafka?
  }

  /** `done` has every message of the partitions in `commits`, and only messages of some partition. */
  ghost predicate Covers(messages: map<Partition, seq<Message>>, commits: set<Partition>, done: seq<Message>) {
    && (forall p, m :: p in commits && p in messages && m in messages[p] ==> m in done)
    && (forall m :: m in done ==> InSome(messages, m))
  }

  ghost predicate InSome(messages: map<Partition, seq<Message>>, m: Message) {
    exists p :: p in messages && m in messages[p]
  }

  lemma CoversMore(messages: map<Partition, seq<Message>>, commits: set<Partition>, done: seq<Message>, p: Partition,
      n: nat)
    requires Covers(messages, commits, done) && p in messages && n <= |messages[p]|
    ensures Covers(messages, commits, done + messages[p][..n])
    ensures n == |messages[p]| ==> Covers(messages, commits + {p}, done + messages[p][..n])
  {
    assert forall m :: m in messages[p][..n] ==> m in messages[p];
    assert n == |messages[p]| ==> messages[p][..n] == messages[p];
  }

  /**
   * Commits or acknowledges partition by partition, in whatever order, and stops at the first error;
   * `unreachable` are the partitions whose commit fails.  `done` lists what went through, `commits`
   * the partitions of which everything did.
   */
  method CommitOffset(consumer: TopicConsumer, messages: map<Partition, seq<Message>>, unreachable: set<Partition>)
    returns (error: bool, ghost commits: set<Partition>, ghost done: seq<Message>)
    modifies consumer
    ensures commits <= messages.Keys && (error <==> commits != messages.Keys)
    ensures forall p :: p in commits ==> p !in unreachable || !AnyKafka(messages[p])
    ensures error ==> exists p :: p in messages && p in unreachable && AnyKafka(messages[p])
    ensures Covers(messages, commits, done)
    ensures !error ==> AllAcked(messages, consumer.acked)
    ensures consumer.committed == Advanced(old(consumer.committed), done)
    ensures consumer.acked == old(consumer.acked) + Acks(done)
    ensures OneEach(messages) && messages.Keys <= old(consumer.committed.Keys) ==>
      consumer.committed == AfterCommits(old(consumer.committed), messages, commits)
  {
    ghost var before, acked := consumer.committed, consumer.acked;
    var todo := messages.Keys;
    commits, done := {}, [];
    NoCommits(before, messages);
    while todo != {}
      invariant todo <= messages.Keys && commits == messages.Keys - todo
      invariant forall p :: p in commits ==> p !in unreachable || !AnyKafka(messages[p])
      invariant Progress(messages, commits, done, before, acked, consumer.committed, consumer.acked)
      decreases |todo|
    {
      var p :| p in todo;
      error, done := CommitNext(consumer, messages, p, p in unreachable, commits, done, before, acked);
      if error { return; }
      commits := commits + {p};
      todo := todo - {p};
    }
    error := false;
    DoneIsAcked(messages, done, acked);
  }

  /** Every Pub/Sub message of the map is acknowledged. */
  ghost predicate AllAcked(messages: map<Partition, seq<Message>>, acked: set<nat>) {
    forall p, m :: p in messages && m in messages[p] && m.PubSub? ==> m.id in acked
  }

  lemma DoneIsAcked(messages: map<Partition, seq<Message>>, done: seq<Message>, acked: set<nat>)
    requires Covers(messages, messages.Keys, done)
    ensures AllAcked(messages, acked + Acks(done))
  {
    forall p, m | p in messages && m in messages[p] && m.PubSub? ensures m.id in Acks(done) {
      assert p in messages.Keys && m in done;
      var i :| 0 <= i < |done| && done[i] == m;
    }
  }

  /** So once a commit went through, every Pub/Sub message saved since the buffer was opened is acknowledged. */
  lemma EverySavedIsAcked(cfg: Config, es: seq<SourceEvent>, ms: seq<Message>, buffer: Buffer, acked: set<nat>)
    requires |es| == |ms| && SavesAll(cfg, es, ms, Some(buffer)) && forall m :: m in ms ==> m.PubSub?
    requires AllAcked(buffer.lastMessages, acked)
    ensures forall i :: 0 <= i < |ms| ==> ms[i].id in acked
  {
    PubSubSavesRemember(cfg, es, ms, buffer);
    forall i | 0 <= i < |ms| ensures ms[i].id in acked { assert ms[i] in buffer.lastMessages["no_partition"]; }
  }

  /** How far a commit has got. */
  ghost predicate Progress(messages: map<Partition, seq<Message>>, commits: set<Partition>, done: seq<Message>,
      before: map<Partition, nat>, acked: set<nat>, committedNow: map<Partition, nat>, ackedNow: set<nat>)
  {
    && Covers(messages, commits, done)
    && committedNow == Advanced(before, done) && ackedNow == acked + Acks(done)
    && (OneEach(messages) && messages.Keys <= before.Keys ==> committedNow == AfterCommits(before, messages, commits))
  }

  /** Commits one more partition. */
  method CommitNext(consumer: TopicConsumer, messages: map<Partition, seq<Message>>, p: Partition, fails: bool,
      ghost commits: set<Partition>, ghost done: seq<Message>, ghost before: map<Partition, nat>, ghost acked: set<nat>)
    returns (error: bool, ghost more: seq<Message>)
    requires p in messages && Progress(messages, commits, done, before, acked, consumer.committed, consumer.acked)
    modifies consumer
    ensures error <==> fails && AnyKafka(messages[p])
    ensures Progress(messages, if error then commits else commits + {p}, more,
      before, acked, consumer.committed, consumer.acked)
  {
    ghost var n;
    error, n := CommitPartition(consumer, messages[p], fails);
    more := done + messages[p][..n];
    AdvancedConcat(before, done, messages[p][..n]);
    CoversMore(messages, commits, done, p, n);
    if error {
      assert OneEach(messages) ==> n == 0 && messages[p][..0] == [];
    } else {
      assert messages[p][..n] == messages[p];
      if OneEach(messages) && p in before { OneMoreCommit(before, messages, commits, p); }
    }
  }

  lemma NoCommits(committed: map<Partition, nat>, messages: map<Partition, seq<Message>>)
    ensures AfterCommits(committed, messages, {}) == committed
  {}

  lemma OneMoreCommit(committed: map<Partition, nat>, messages: map<Partition, seq<Message>>, commits: set<Partition>,
      p: Partition)
    requires OneEach(messages) && p in messages && p in committed
    ensures AfterCommits(committed, messages, commits + {p}) ==
      Advanced(AfterCommits(committed, messages, commits), messages[p])
  {
    assert messages[p][..0] == [];
  }

  /** The inner loop: Kafka messages are committed, Pub/Sub messages acknowledged; `n` of them go through. */
  method CommitPartition(consumer: TopicConsumer, messages: seq<Message>, fails: bool)
    returns (error: bool, ghost n: nat)
    modifies consumer
    ensures error <==> fails && AnyKafka(messages)
    ensures n <= |messages| && (error <==> n < |messages|)
    ensures error ==> messages[n].Kafka? && !AnyKafka(messages[..n])
    ensures consumer.committed == Advanced(old(consumer.committed), messages[..n])
    ensures consumer.acked == old(consumer.acked) + Acks(messages[..n])
  {
    for i := 0 to |messages|
      invariant fails ==> !AnyKafka(messages[..i])
      invariant consumer.committed == Advanced(old(consumer.committed), messages[..i])
      invariant consumer.acked == old(consumer.acked) + Acks(messages[..i])
    {
      n := i;
      assert messages[..i + 1] == messages[..i] + [messages[i]];
      assert messages[..i + 1][..i] == messages[..i];
      AcksConcat(messages[..i], [messages[i]]);
      if messages[i].Kafka? {
        error := consumer.CommitMessages(messages[i], fails);
        if error { return; }
      } else {
        consumer.Ack(messages[i]);
      }
    }
    assert messages[..|messages|] == messages;
    error, n := false, |messages|;
  }

  /** The destination table; its contents are seen only through the meaning of the statements. */
  class DestinationTable {
    ghost var rows: Table

    constructor (ghost rows: Table)
      ensures this.rows == rows
    {
      this.rows := rows;
    }

    method Execute(program: seq<Statement>, ghost staging: Table)
      requires forall s :: s in program ==> WellFormed(s)
      modifies this
      ensures rows == ExecAll(program, old(rows), staging)
    {
      rows := ExecAll(program, rows, staging);
    }
  }

  /**
   * Takes the column kinds from the destination, builds the destination's program from the buffer
   * and runs it as one transaction; a buffer without rows is not merged at all.
   */
  method Merge(cfg: Config, td: TableData, destination: DestinationTable, fails: bool) returns (error: bool)
    requires Distinct(td.inMemoryColumns.columns)
    modifies destination, td.inMemoryColumns
    ensures NumberOfRows(old(td.View())) == 0 ==>
      !error && destination.rows == old(destination.rows) && td.View() == old(td.View())
    ensures NumberOfRows(old(td.View())) > 0 ==>
      && (error <==> fails || Program(Argument(cfg, AtMerge(old(td.View()), cfg.schema))).Err?)
      && destination.rows ==
        (if error then old(destination.rows)
         else MergeBuffer(cfg, AtMerge(old(td.View()), cfg.schema), old(destination.rows)))
      && (td.View() == AtMerge(old(td.View()), cfg.schema) || (error && td.View() == old(td.View())))
  {
    var n := if td.history then |td.rows| else |td.rowsData|;
    if n == 0 { return false; }
    if fails { return true; }
    td.MergeColumnsFromDestination(cfg.schema);
    var m := Argument(cfg, td.View());
    BuiltProgramsAreWellFormed(m);
    var program: Result<seq<Statement>>;
    if m.destKind == Redshift {
      program := GetParts(m);
    } else if m.destKind == MSSQL {
      var statement := GetMSSQLStatement(m);
      program := if statement.Ok? then Ok([statement.value]) else Err(statement.error);
    } else {
      var statement := GetStatement(m);
      program := if statement.Ok? then Ok([statement.value]) else Err(statement.error);
    }
    if program.Err? { return true; }
    destination.Execute(program.value, Staging(td.rowsData, td.primaryKeys));
    return false;
  }

  // ---------------------------------------------------------------------------------------------
  // Flush

  ghost function HeldIn(slot: TableSlot, destination: DestinationTable, consumer: TopicConsumer): Held
    reads slot, Footprint(slot), destination, consumer
  {
    Held(destination.rows, consumer.committed, SlotView(slot))
  }

  /** What a buffer holds in replication mode, fed by Kafka from known partitions. */
  predicate Fed(buffer: Option<Buffer>, partitions: set<Partition>) {
    buffer.Some? ==>
      && !buffer.value.history && buffer.value.rowsData != map[] && Distinct(buffer.value.columns)
      && OneEach(buffer.value.lastMessages) && buffer.value.lastMessages.Keys <= partitions
  }

  /**
   * Merge, then commit, then wipe; a failed merge changes nothing, a failed commit leaves the buffer.
   * An empty slot is left alone.  Failures are logged only: `cleared` says whether there were none.
   */
  method FlushTable(cfg: Config, slot: TableSlot, destination: DestinationTable, consumer: TopicConsumer,
      mergeFails: bool, unreachable: set<Partition>, now: int)
    returns (cleared: bool, ghost commits: Option<set<Partition>>)
    requires slot.tableData != null ==> Distinct(slot.tableData.inMemoryColumns.columns)
    modifies slot, if slot.tableData == null then {} else {slot.tableData.inMemoryColumns}, destination, consumer
    ensures old(slot.tableData) == null ==>
      cleared && HeldIn(slot, destination, consumer) == old(HeldIn(slot, destination, consumer))
    ensures old(slot.tableData) != null ==> (cleared <==> slot.tableData == null)
    ensures old(slot.tableData) != null && cleared ==>
      AllAcked(old(slot.tableData.partitionsToLastMessage), consumer.acked)
    ensures old(slot.tableData != null && Fed(SlotView(slot), consumer.committed.Keys)) ==>
      && Flushed(cfg, old(HeldIn(slot, destination, consumer)), commits, HeldIn(slot, destination, consumer))
      && (commits.None? <==> mergeFails || Program(Argument(cfg, AtMerge(old(slot.tableData.View()), cfg.schema))).Err?)
      && (commits.Some? && !cleared ==> !(old(slot.tableData.partitionsToLastMessage).Keys !! unreachable))
  {
    commits := None;
    if slot.tableData == null { return true, commits; }
    var td := slot.tableData;
    var mergeError := Merge(cfg, td, destination, mergeFails);
    if mergeError { return false, commits; }
    var commitError;
    ghost var done, messages;
    commitError, done, messages := CommitOffset(consumer, td.partitionsToLastMessage, unreachable);
    commits := Some(done);
    if !commitError { slot.Wipe(now); }
    cleared := !commitError;
  }

  /** The flush at the end of Process, if the save asked for it. */
  method FlushIfAsked(cfg: Config, flush: bool, slot: TableSlot, destination: DestinationTable, consumer: TopicConsumer,
      mergeFails: bool, unreachable: set<Partition>, now: int)
    returns (cleared: bool, ghost commits: Option<set<Partition>>)
    requires slot.tableData != null && Fed(SlotView(slot), consumer.committed.Keys)
    modifies slot, slot.tableData.inMemoryColumns, destination, consumer
    ensures !flush ==> cleared && HeldIn(slot, destination, consumer) == old(HeldIn(slot, destination, consumer))
    ensures flush ==> (cleared <==> SlotView(slot).None?)
    ensures flush ==>
      Flushed(cfg, old(HeldIn(slot, destination, consumer)), commits, HeldIn(slot, destination, consumer))
  {
    if !flush { return true, None; }
    cleared, commits := FlushTable(cfg, slot, destination, consumer, mergeFails, unreachable, now);
  }

  // ---------------------------------------------------------------------------------------------
  // Process

  predicate WithinLimits(buffer: Option<Buffer>, bufferRows: nat, flushSizeKb: int) {
    buffer.Some? ==> NumberOfRows(buffer.value) <= bufferRows && buffer.value.approxSize <= flushSizeKb * 1024
  }

  function SourceEventOf(e: Event): SourceEvent
    reads e, e.columns
  {
    SourceEvent(e.primaryKeyMap, e.EventColumns(), e.data, e.deleted)
  }

  lemma SavedStaysFed(softDelete: bool, buffer: Option<Buffer>, e: SourceEvent, message: Message, after: Buffer,
      start: Buffer, change: Change, partitions: set<Partition>)
    requires Fed(buffer, partitions) && SavesAs(softDelete, buffer, e, message, after, start, change)
    requires message.Kafka? && message.partition in partitions
    ensures Fed(Some(after), partitions)
  {
    assert change.pk in after.rowsData;
  }

  /** Save with the event's message. */
  method SaveMessage(softDelete: bool, e: Event, message: Message, slot: TableSlot, ghost partitions: set<Partition>,
      bufferRows: nat, flushSizeKb: int, infer: (string, Value) -> Kind)
    returns (r: Result<bool>)
    requires message.Kafka? && message.partition in partitions
    requires !e.history && Fed(SlotView(slot), partitions)
    requires e.columns != null ==> Distinct(e.columns.columns)
    requires slot.tableData != null ==> slot.tableData.inMemoryColumns != e.columns
    modifies e`data, slot`tableData, Footprint(slot)
    ensures r.Err? <==> !old(e.IsValid())
    ensures r.Err? ==> SlotView(slot) == old(SlotView(slot))
    ensures r.Ok? ==> slot.tableData != null && fresh(slot.tableData.inMemoryColumns) && Fed(SlotView(slot), partitions)
    ensures r.Ok? ==> (r.value <==> !WithinLimits(SlotView(slot), bufferRows, flushSizeKb))
    ensures r.Ok? ==> Saves(softDelete, old(SlotView(slot)), old(SourceEventOf(e)), message, SlotView(slot).value)
  {
    ghost var before, event := SlotView(slot), SourceEventOf(e);
    ghost var pk, start;
    r, pk, start := e.Save(slot, softDelete, bufferRows, flushSizeKb, infer, message);
    if r.Ok? {
      ghost var after, change := slot.tableData.View(), Change(pk, e.data, e.deleted);
      assert SavesAs(softDelete, before, event, message, after, start, change);
      SavedStaysFed(softDelete, before, event, message, after, start, change, partitions);
    }
  }

  /**
   * One message: skipped operations and invalid events leave the buffer alone, every other event is
   * saved, and the table is flushed when it has outgrown its limits.  Only an invalid event is an
   * error; what fails in a flush is not.
   */
  method Process(cfg: Config, e: Event, skip: bool, message: Message, slot: TableSlot, destination: DestinationTable,
      consumer: TopicConsumer, bufferRows: nat, flushSizeKb: int, infer: (string, Value) -> Kind,
      mergeFails: bool, unreachable: set<Partition>, now: int)
    returns (error: bool, flushed: bool, ghost saved: Held, ghost commits: Option<set<Partition>>)
    requires message.Kafka? && message.partition in consumer.committed
    requires !e.history && Fed(SlotView(slot), consumer.committed.Keys)
    requires e.columns != null ==> Distinct(e.columns.columns)
    requires slot.tableData != null ==> slot.tableData.inMemoryColumns != e.columns
    modifies e`data, slot, Footprint(slot), destination, consumer
    ensures error <==> !skip && !old(e.IsValid())
    ensures skip || error ==> !flushed && saved == old(HeldIn(slot, destination, consumer))
    // The event is delivered, and the flush that may follow is one that its buffer allows.
    ensures !skip && !error ==>
      && saved.buffer.Some? && saved == old(HeldIn(slot, destination, consumer)).(buffer := saved.buffer)
      && Saves(cfg.softDelete, old(SlotView(slot)), old(SourceEventOf(e)), message, saved.buffer.value)
      && (flushed <==> !WithinLimits(saved.buffer, bufferRows, flushSizeKb))
    ensures !flushed ==> HeldIn(slot, destination, consumer) == saved
    ensures flushed ==> Flushed(cfg, saved, commits, HeldIn(slot, destination, consumer))
    // While flushes clear the slot, the table is back within its limits after every message.
    ensures !skip && !error && (flushed ==> SlotView(slot).None?) ==>
      WithinLimits(SlotView(slot), bufferRows, flushSizeKb)
  {
    saved, commits := HeldIn(slot, destination, consumer), None;
    if skip { return false, false, saved, commits; }
    var r := SaveMessage(cfg.softDelete, e, message, slot, consumer.committed.Keys, bufferRows, flushSizeKb, infer);
    saved := HeldIn(slot, destination, consumer);
    if r.Err? { return true, false, saved, commits; }
    flushed := r.value;
    error := false;
    var cleared;
    cleared, commits := FlushIfAsked(cfg, flushed, slot, destination, consumer, mergeFails, unreachable, now);
  }
}
