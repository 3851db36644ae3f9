/**
 * No event is lost in any run of the consumer, whatever its settings, its columns and its events: a
 * committed offset only covers deliveries that were saved into a buffer which was then merged.
 */
module LiveSafety {
  import opened Values
  import opened Sql
  import opened ColumnLists
  import opened Buffers
  import opened BatchMerge
  import opened Pipeline
  import opened Replication

  predicate IsDelivered(source: Source, id: Id) {
    id.partition in source && id.offset < |source[id.partition]| && source[id.partition][id.offset].Delivered?
  }

  /** The saves of these deliveries in this order lead to the buffer; between them its columns may be reconciled. */
  ghost predicate Feeds(cfg: Config, source: Source, ids: seq<Id>, buffer: Option<Buffer>) {
    if ids == [] then buffer.None?
    else
      var n := |ids| - 1;
      && buffer.Some? && IsDelivered(source, ids[n])
      && exists before, saved ::
           && Feeds(cfg, source, ids[..n], before) && SavesDelivery(cfg, source, ids[n], before, saved)
           && (buffer.value == saved || buffer.value == AtMerge(saved, cfg.schema))
  }

  ghost predicate SavesDelivery(cfg: Config, source: Source, id: Id, before: Option<Buffer>, saved: Buffer)
    requires IsDelivered(source, id)
  {
    Saves(cfg.softDelete, before, source[id.partition][id.offset].event, Kafka(id.partition, id.offset), saved)
  }

  lemma SavesMessage(softDelete: bool, buffer: Option<Buffer>, e: SourceEvent, message: Message, after: Buffer)
    requires Saves(softDelete, buffer, e, message, after)
    ensures after.lastMessages == Remembered(if buffer.Some? then buffer.value.lastMessages else map[], message)
  {
    var start, change :| SavesAs(softDelete, buffer, e, message, after, start, change);
  }

  lemma AtMergeTwice(b: Buffer, destination: seq<Column>)
    ensures AtMerge(AtMerge(b, destination), destination) == AtMerge(b, destination)
  {
    var once := AtMerge(b, destination).columns;
    assert ReconciledAll(once, destination) == once;
  }

  lemma ReconciledIsFed(cfg: Config, source: Source, ids: seq<Id>, b: Buffer)
    requires Feeds(cfg, source, ids, Some(b))
    ensures Feeds(cfg, source, ids, Some(AtMerge(b, cfg.schema)))
  {
    var n := |ids| - 1;
    var before, saved :| Feeds(cfg, source, ids[..n], before) && SavesDelivery(cfg, source, ids[n], before, saved)
      && (b == saved || b == AtMerge(saved, cfg.schema));
    AtMergeTwice(saved, cfg.schema);
  }

  lemma OneMoreIsFed(cfg: Config, source: Source, ids: seq<Id>, before: Option<Buffer>, id: Id, saved: Buffer)
    requires Feeds(cfg, source, ids, before) && IsDelivered(source, id) && SavesDelivery(cfg, source, id, before, saved)
    ensures Feeds(cfg, source, ids + [id], Some(saved))
  {
    assert (ids + [id])[..|ids|] == ids;
  }

  // ---------------------------------------------------------------------------------------------
  // What a run has buffered and merged

  /** The deliveries in the buffer after a step, given those before it. */
  function ArrivalsAfter(source: Source, ids: seq<Id>, before: Live, step: LiveStep, after: Live): seq<Id> {
    match step
    case Deliver(p) =>
      if p in before.position && IsDelivered(source, Id(p, before.position[p]))
        then ids + [Id(p, before.position[p])] else ids
    case Flush(_) => if after.held.buffer.None? then [] else ids
    case Restart => []
  }

  /** The deliveries in the buffer at the end of a run, in the order in which they came. */
  function Arrivals(source: Source, states: seq<Live>, steps: seq<LiveStep>): seq<Id>
    requires |steps| < |states|
  {
    if steps == [] then []
    else
      var n := |steps| - 1;
      ArrivalsAfter(source, Arrivals(source, states, steps[..n]), states[n], steps[n], states[n + 1])
  }

  /** The deliveries that were in the buffer at some successful merge of the run. */
  function MergedIds(source: Source, states: seq<Live>, steps: seq<LiveStep>): set<Id>
    requires |steps| < |states|
  {
    if steps == [] then {}
    else
      var n := |steps| - 1;
      MergedIds(source, states, steps[..n]) +
        if Merges(steps[n]) then (set id | id in Arrivals(source, states, steps[..n])) else {}
  }

  lemma OneStepMore(source: Source, states: seq<Live>, steps: seq<LiveStep>, n: nat)
    requires n < |steps| < |states|
    ensures var ids := Arrivals(source, states, steps[..n]);
      && Arrivals(source, states, steps[..n + 1]) == ArrivalsAfter(source, ids, states[n], steps[n], states[n + 1])
      && MergedIds(source, states, steps[..n + 1]) ==
           MergedIds(source, states, steps[..n]) + if Merges(steps[n]) then (set id | id in ids) else {}
  {
    assert steps[..n + 1][..n] == steps[..n];
  }

  predicate Merges(step: LiveStep) {
    step.Flush? && step.commits.Some?
  }

  // ---------------------------------------------------------------------------------------------
  // The invariant

  /**
   * The remembered message of a partition is its last delivery; without one, nothing was delivered since the commit.
   */
  ghost predicate RemembersDelivery(entries: seq<Delivery>, p: Partition, committed: nat, position: nat,
      buffer: Option<Buffer>)
    requires position <= |entries|
  {
    if buffer.Some? && p in buffer.value.lastMessages then
      exists o: nat ::
        && o < position && committed <= o + 1 && buffer.value.lastMessages[p] == [Kafka(p, o)]
        && forall i :: o < i < position ==> entries[i].Ignored?
    else forall i :: committed <= i < position ==> entries[i].Ignored?
  }

  ghost predicate LiveOffsets(source: Source, a: Live) {
    && a.held.committed.Keys == a.position.Keys == source.Keys
    && forall p :: p in source ==> a.held.committed[p] <= a.position[p] <= |source[p]|
  }

  /** What was delivered since the committed offsets is in the buffer. */
  ghost predicate LiveArrived(source: Source, a: Live, ids: seq<Id>)
    requires LiveOffsets(source, a)
  {
    forall p, i: nat :: p in source && a.held.committed[p] <= i < a.position[p] && source[p][i].Delivered? ==>
      Id(p, i) in ids
  }

  /** What was delivered before them has been merged. */
  ghost predicate LiveMerged(source: Source, a: Live, merged: set<Id>)
    requires LiveOffsets(source, a)
  {
    forall p, i: nat :: p in source && i < a.held.committed[p] && source[p][i].Delivered? ==> Id(p, i) in merged
  }

  ghost predicate LiveSafe(cfg: Config, source: Source, a: Live, ids: seq<Id>, merged: set<Id>) {
    && LiveOffsets(source, a)
    && Feeds(cfg, source, ids, a.held.buffer)
    && LiveArrived(source, a, ids)
    && (forall p :: p in source ==> RemembersDelivery(source[p], p, a.held.committed[p], a.position[p], a.held.buffer))
    && LiveMerged(source, a, merged)
  }

  lemma IgnoredKeepsLast(entries: seq<Delivery>, p: Partition, committed: nat, position: nat, buffer: Option<Buffer>)
    requires position < |entries| && entries[position].Ignored?
    requires RemembersDelivery(entries, p, committed, position, buffer)
    ensures RemembersDelivery(entries, p, committed, position + 1, buffer)
  {
    if buffer.Some? && p in buffer.value.lastMessages {
      var o: nat :| o < position && committed <= o + 1 && buffer.value.lastMessages[p] == [Kafka(p, o)]
        && forall i :: o < i < position ==> entries[i].Ignored?;
      assert forall i :: o < i < position + 1 ==> entries[i].Ignored?;
    }
  }

  lemma SavedKeepsLast(entries: seq<Delivery>, p: Partition, q: Partition, committed: nat, position: nat, offset: nat,
      before: Option<Buffer>, saved: Buffer)
    requires position <= |entries| && RemembersDelivery(entries, q, committed, position, before)
    requires saved.lastMessages ==
      Remembered(if before.Some? then before.value.lastMessages else map[], Kafka(p, offset))
    requires q == p ==> offset == position < |entries| && committed <= position
    ensures RemembersDelivery(entries, q, committed, if q == p then position + 1 else position, Some(saved))
  {
    if q == p { assert saved.lastMessages[p] == [Kafka(p, offset)]; }
  }

  lemma DeliveryKeepsOffsets(cfg: Config, source: Source, a: Live, p: Partition, b: Live)
    requires LiveOffsets(source, a) && LiveNext(cfg, source, a, Deliver(p), b)
    ensures LiveOffsets(source, b) && b.held.committed == a.held.committed
  {}

  lemma DeliveryIsFed(cfg: Config, source: Source, a: Live, p: Partition, b: Live, ids: seq<Id>)
    requires Feeds(cfg, source, ids, a.held.buffer) && LiveNext(cfg, source, a, Deliver(p), b)
    ensures Feeds(cfg, source, ArrivalsAfter(source, ids, a, Deliver(p), b), b.held.buffer)
  {
    var id := Id(p, a.position[p]);
    if IsDelivered(source, id) { OneMoreIsFed(cfg, source, ids, a.held.buffer, id, b.held.buffer.value); }
  }

  lemma DeliveryIsRemembered(cfg: Config, source: Source, a: Live, p: Partition, b: Live, q: Partition)
    requires LiveOffsets(source, a) && LiveOffsets(source, b) && LiveNext(cfg, source, a, Deliver(p), b) && q in source
    requires RemembersDelivery(source[q], q, a.held.committed[q], a.position[q], a.held.buffer)
    ensures RemembersDelivery(source[q], q, b.held.committed[q], b.position[q], b.held.buffer)
  {
    var offset := a.position[p];
    if source[p][offset].Delivered? {
      var saved := b.held.buffer.value;
      SavesMessage(cfg.softDelete, a.held.buffer, source[p][offset].event, Kafka(p, offset), saved);
      SavedKeepsLast(source[q], p, q, a.held.committed[q], a.position[q], offset, a.held.buffer, saved);
    } else if q == p {
      IgnoredKeepsLast(source[p], p, a.held.committed[p], offset, a.held.buffer);
    }
  }

  lemma DeliveryHasArrived(cfg: Config, source: Source, a: Live, p: Partition, b: Live, ids: seq<Id>)
    requires LiveOffsets(source, a) && LiveOffsets(source, b) && LiveNext(cfg, source, a, Deliver(p), b)
    requires LiveArrived(source, a, ids)
    ensures LiveArrived(source, b, ArrivalsAfter(source, ids, a, Deliver(p), b))
  {
    var offset, later := a.position[p], ArrivalsAfter(source, ids, a, Deliver(p), b);
    forall q, i: nat | q in source && b.held.committed[q] <= i < b.position[q] && source[q][i].Delivered?
      ensures Id(q, i) in later
    {
      assert i < a.position[q] || (q == p && i == offset);
    }
  }

  lemma DeliverIsSafe(cfg: Config, source: Source, a: Live, p: Partition, b: Live, ids: seq<Id>, merged: set<Id>)
    requires LiveSafe(cfg, source, a, ids, merged) && LiveNext(cfg, source, a, Deliver(p), b)
    ensures LiveSafe(cfg, source, b, ArrivalsAfter(source, ids, a, Deliver(p), b), merged)
  {
    DeliveryKeepsOffsets(cfg, source, a, p, b);
    DeliveryIsFed(cfg, source, a, p, b, ids);
    DeliveryHasArrived(cfg, source, a, p, b, ids);
    forall q | q in source ensures RemembersDelivery(source[q], q, b.held.committed[q], b.position[q], b.held.buffer) {
      DeliveryIsRemembered(cfg, source, a, p, b, q);
    }
  }

  /** What committing does to one partition. */
  lemma CommittedPartition(source: Source, a: Live, p: Partition, done: set<Partition>)
    requires LiveOffsets(source, a) && p in source && a.held.buffer.Some?
    requires done <= a.held.buffer.value.lastMessages.Keys
    requires RemembersDelivery(source[p], p, a.held.committed[p], a.position[p], a.held.buffer)
    ensures var b := a.held.buffer.value;
      var committed := AfterCommits(a.held.committed, b.lastMessages, done);
      && committed.Keys == source.Keys && a.held.committed[p] <= committed[p] <= a.position[p]
      && RemembersDelivery(source[p], p, committed[p], a.position[p], Some(b))
      && (p in done || p !in b.lastMessages ==> forall i :: committed[p] <= i < a.position[p] ==> source[p][i].Ignored?)
  {}

  lemma LiveMergeKeepsOffsets(cfg: Config, source: Source, a: Live, done: set<Partition>, b: Live)
    requires LiveOffsets(source, a) && LiveNext(cfg, source, a, Flush(Some(done)), b)
    requires forall p :: p in source ==>
      RemembersDelivery(source[p], p, a.held.committed[p], a.position[p], a.held.buffer)
    ensures LiveOffsets(source, b) && forall p :: p in source ==> a.held.committed[p] <= b.held.committed[p]
    ensures forall p :: p in source ==>
      RemembersDelivery(source[p], p, b.held.committed[p], b.position[p], b.held.buffer)
  {
    forall p | p in source
      ensures a.held.committed[p] <= b.held.committed[p] <= a.position[p]
      ensures RemembersDelivery(source[p], p, b.held.committed[p], b.position[p], b.held.buffer)
    {
      CommittedPartition(source, a, p, done);
    }
  }

  lemma LiveMergeIsSafe(cfg: Config, source: Source, a: Live, done: set<Partition>, b: Live, ids: seq<Id>,
      merged: set<Id>)
    requires LiveSafe(cfg, source, a, ids, merged) && LiveNext(cfg, source, a, Flush(Some(done)), b)
    ensures LiveSafe(cfg, source, b, ArrivalsAfter(source, ids, a, Flush(Some(done)), b), merged + set id | id in ids)
  {
    LiveMergeKeepsOffsets(cfg, source, a, done, b);
    ReconciledIsFed(cfg, source, ids, a.held.buffer.value);
    if b.held.buffer.None? {
      forall p, i: nat | p in source && b.held.committed[p] <= i < b.position[p] ensures source[p][i].Ignored? {
        assert RemembersDelivery(source[p], p, b.held.committed[p], b.position[p], b.held.buffer);
      }
    }
  }

  lemma FailureIsSafe(cfg: Config, source: Source, a: Live, b: Live, ids: seq<Id>, merged: set<Id>)
    requires LiveSafe(cfg, source, a, ids, merged) && LiveNext(cfg, source, a, Flush(None), b)
    ensures LiveSafe(cfg, source, b, ids, merged) && b.held.buffer.Some?
  {
    ReconciledIsFed(cfg, source, ids, a.held.buffer.value);
    forall p | p in source ensures RemembersDelivery(source[p], p, b.held.committed[p], b.position[p], b.held.buffer) {
      assert RemembersDelivery(source[p], p, a.held.committed[p], a.position[p], a.held.buffer);
    }
  }

  lemma LiveStepIsSafe(cfg: Config, source: Source, a: Live, step: LiveStep, b: Live, ids: seq<Id>, merged: set<Id>)
    requires LiveSafe(cfg, source, a, ids, merged) && LiveNext(cfg, source, a, step, b)
    ensures LiveSafe(cfg, source, b, ArrivalsAfter(source, ids, a, step, b),
      merged + if Merges(step) then (set id | id in ids) else {})
  {
    match step
    case Deliver(p) => DeliverIsSafe(cfg, source, a, p, b, ids, merged);
    case Restart =>
    case Flush(None) => FailureIsSafe(cfg, source, a, b, ids, merged);
    case Flush(Some(done)) => LiveMergeIsSafe(cfg, source, a, done, b, ids, merged);
  }

  lemma {:induction false} LiveRunIsSafe(cfg: Config, source: Source, initial: Table, states: seq<Live>,
      steps: seq<LiveStep>, n: nat)
    requires LiveRun(cfg, source, initial, states, steps) && n <= |steps|
    ensures LiveSafe(cfg, source, states[n],
      Arrivals(source, states, steps[..n]), MergedIds(source, states, steps[..n]))
  {
    if n > 0 {
      LiveRunIsSafe(cfg, source, initial, states, steps, n - 1);
      OneStepMore(source, states, steps, n - 1);
      assert LiveNext(cfg, source, states[n - 1], steps[n - 1], states[n - 1 + 1]);
      LiveStepIsSafe(cfg, source, states[n - 1], steps[n - 1], states[n],
        Arrivals(source, states, steps[..n - 1]), MergedIds(source, states, steps[..n - 1]));
    }
  }

  // ---------------------------------------------------------------------------------------------
  // No event is lost

  /** Step `n` is a merge that succeeded, of a buffer into which the delivery had been saved. */
  ghost predicate MergedInStep(cfg: Config, source: Source, states: seq<Live>, steps: seq<LiveStep>, n: nat, id: Id) {
    && n < |steps| < |states| && Merges(steps[n])
    && id in Arrivals(source, states, steps[..n])
    && Feeds(cfg, source, Arrivals(source, states, steps[..n]), states[n].held.buffer)
  }

  lemma {:induction false} MergedIsSomewhere(source: Source, states: seq<Live>, steps: seq<LiveStep>, id: Id)
    returns (n: nat)
    requires |steps| < |states| && id in MergedIds(source, states, steps)
    ensures n < |steps| && Merges(steps[n]) && id in Arrivals(source, states, steps[..n])
  {
    var last := |steps| - 1;
    if id in MergedIds(source, states, steps[..last]) {
      n := MergedIsSomewhere(source, states, steps[..last], id);
      assert steps[..last][..n] == steps[..n];
    } else {
      n := last;
    }
  }

  /** Whatever failed on the way, every delivery below a committed offset was saved into a buffer that was merged. */
  lemma NoDeliveryLost(cfg: Config, source: Source, initial: Table, states: seq<Live>, steps: seq<LiveStep>,
      p: Partition, offset: nat)
    requires LiveRun(cfg, source, initial, states, steps) && p in source && offset < |source[p]|
    requires source[p][offset].Delivered?
    requires p in states[|steps|].held.committed && offset < states[|steps|].held.committed[p]
    ensures exists n :: MergedInStep(cfg, source, states, steps, n, Id(p, offset))
  {
    assert steps[..|steps|] == steps;
    LiveRunIsSafe(cfg, source, initial, states, steps, |steps|);
    var n := MergedIsSomewhere(source, states, steps, Id(p, offset));
    LiveRunIsSafe(cfg, source, initial, states, steps, n);
    assert MergedInStep(cfg, source, states, steps, n, Id(p, offset));
  }

  /** In no step of any run does a committed offset move back, or past what was read. */
  lemma CommitsStay(cfg: Config, source: Source, initial: Table, states: seq<Live>, steps: seq<LiveStep>, n: nat,
      p: Partition)
    requires LiveRun(cfg, source, initial, states, steps) && n < |steps| && p in source
    ensures p in states[n].held.committed && p in states[n + 1].held.committed && p in states[n + 1].position
    ensures states[n].held.committed[p] <= states[n + 1].held.committed[p] <= states[n + 1].position[p] <= |source[p]|
  {
    LiveRunIsSafe(cfg, source, initial, states, steps, n);
    LiveRunIsSafe(cfg, source, initial, states, steps, n + 1);
    if Merges(steps[n]) { CommittedPartition(source, states[n], p, steps[n].commits.value); }
  }

  // ---------------------------------------------------------------------------------------------
  // Remembered messages

  /** The buffer after saving these events with these messages; between them its columns may be reconciled. */
  ghost predicate SavesAll(cfg: Config, es: seq<SourceEvent>, ms: seq<Message>, buffer: Option<Buffer>)
    requires |es| == |ms|
  {
    if es == [] then buffer.None?
    else
      var n := |es| - 1;
      && buffer.Some?
      && exists before, saved ::
           && SavesAll(cfg, es[..n], ms[..n], before) && Saves(cfg.softDelete, before, es[n], ms[n], saved)
           && (buffer.value == saved || buffer.value == AtMerge(saved, cfg.schema))
  }

  lemma {:induction false} SavesAllRemember(cfg: Config, es: seq<SourceEvent>, ms: seq<Message>, buffer: Option<Buffer>)
    requires |es| == |ms| && SavesAll(cfg, es, ms, buffer)
    ensures RememberedAll(map[], ms) == if buffer.Some? then buffer.value.lastMessages else map[]
  {
    if es != [] {
      var n := |es| - 1;
      var before, saved :| SavesAll(cfg, es[..n], ms[..n], before) && Saves(cfg.softDelete, before, es[n], ms[n], saved)
        && (buffer.value == saved || buffer.value == AtMerge(saved, cfg.schema));
      SavesAllRemember(cfg, es[..n], ms[..n], before);
      SavesMessage(cfg.softDelete, before, es[n], ms[n], saved);
    }
  }

  /** From Pub/Sub every message saved since the buffer was opened is remembered, in order. */
  lemma PubSubSavesRemember(cfg: Config, es: seq<SourceEvent>, ms: seq<Message>, buffer: Buffer)
    requires |es| == |ms| && SavesAll(cfg, es, ms, Some(buffer)) && forall m :: m in ms ==> m.PubSub?
    ensures buffer.lastMessages == map["no_partition" := ms]
  {
    SavesAllRemember(cfg, es, ms, Some(buffer));
    PubSubRemembersAll(ms);
  }

  /** From Kafka the last message of every partition is. */
  lemma KafkaSavesRemember(cfg: Config, es: seq<SourceEvent>, ms: seq<Message>, buffer: Buffer, n: nat)
    requires |es| == |ms| && SavesAll(cfg, es, ms, Some(buffer)) && (forall m :: m in ms ==> m.Kafka?) && n < |ms|
    requires forall j :: n < j < |ms| ==> ms[j].partition != ms[n].partition
    ensures ms[n].partition in buffer.lastMessages && buffer.lastMessages[ms[n].partition] == [ms[n]]
  {
    var p := ms[n].partition;
    SavesAllRemember(cfg, es, ms, Some(buffer));
    KafkaRemembersLast(ms, p);
    var i :| 0 <= i < |ms| && ms[i].partition == p && RememberedAll(map[], ms)[p] == [ms[i]]
      && forall j :: i < j < |ms| ==> ms[j].partition != p;
    assert i == n;
  }
}
