/**
 * The consumer as a transition system: messages are fetched per partition and saved into the
 * buffer, a flush merges the buffer, commits the last offset of each partition and wipes the
 * buffer; merges and commits may fail, and a crash loses the buffer and falls back to the
 * committed offsets.
 */
module Pipeline {
  import opened Values
  import opened Sql
  import opened MergeMeaning
  import opened Replay
  import opened Buffers
  import opened Compaction
  import opened BatchMerge
  import opened IdempotentKeys

  type Partition = string

  /** A message is either saved as a change or skipped (invalid event, or an operation to skip). */
  datatype Entry = Skipped | Accepted(change: Change)

  type Log = map<Partition, seq<Entry>>

  datatype Id = Id(partition: Partition, offset: nat)

  datatype State = State(
    destination: Table,
    committed: map<Partition, nat>,   // next offset to fetch after a restart
    position: map<Partition, nat>,    // next offset to fetch
    buffer: Option<Buffer>,
    // History, not seen by the program:
    base: map<Partition, nat>,        // where the buffered messages start
    arrivals: seq<Id>,                // the buffered messages in the order they came
    frontier: map<Partition, nat>,    // the furthest position that was ever merged
    applied: map<Partition, nat>,     // the position at the latest merge
    merged: set<Id>)                  // the messages that were in a successful merge

  datatype Step =
    | Fetch(partition: Partition)
    | MergeFails
    | MergeSucceeds(commits: set<Partition>)   // the partitions whose commit went through
    | Crash

  // ---------------------------------------------------------------------------------------------
  // Transitions

  /** The flushes that a buffer allows; a merge succeeds only if its statements can be built. */
  predicate Flushes(cfg: Config, buffer: Option<Buffer>, step: Step) {
    && buffer.Some?
    && match step
       case MergeFails => true
       case MergeSucceeds(commits) =>
         commits <= buffer.value.lastMessages.Keys && Program(Argument(cfg, buffer.value)).Ok?
       case _ => false
  }

  predicate Enabled(cfg: Config, log: Log, s: State, step: Step) {
    match step
    case Fetch(p) => p in log && p in s.position && s.position[p] < |log[p]|
    case Crash => true
    case _ => Flushes(cfg, s.buffer, step)
  }

  ghost function Saved(cfg: Config, buffer: Option<Buffer>, e: Change, message: Message): Buffer {
    var b := if buffer.Some? then buffer.value else FreshBuffer(cfg);
    AfterSave(b, e).(lastMessages := Remembered(b.lastMessages, message))
  }

  /** Committing a Kafka message makes the offset after it the one to resume from. */
  function AfterCommits(committed: map<Partition, nat>, messages: map<Partition, seq<Message>>,
      commits: set<Partition>): map<Partition, nat>
  {
    map p | p in committed ::
      if p in commits && p in messages && messages[p] != [] && messages[p][|messages[p]| - 1].Kafka?
      then messages[p][|messages[p]| - 1].offset + 1 else committed[p]
  }

  function Furthest(a: map<Partition, nat>, b: map<Partition, nat>): map<Partition, nat>
    requires a.Keys == b.Keys
  {
    map p | p in a :: if a[p] < b[p] then b[p] else a[p]
  }

  ghost function NextFetch(cfg: Config, log: Log, s: State, p: Partition): State
    requires Enabled(cfg, log, s, Fetch(p))
  {
    var offset := s.position[p];
    var moved := s.(position := s.position[p := offset + 1]);
    if log[p][offset].Skipped? then moved
    else moved.(buffer := Some(Saved(cfg, s.buffer, log[p][offset].change, Kafka(p, offset))),
                arrivals := s.arrivals + [Id(p, offset)])
  }

  ghost function NextMerge(cfg: Config, s: State, commits: set<Partition>): State
    requires s.buffer.Some? && s.frontier.Keys == s.position.Keys
  {
    var b := s.buffer.value;
    var committed := AfterCommits(s.committed, b.lastMessages, commits);
    var wiped := commits == b.lastMessages.Keys;
    s.(destination := MergeBuffer(cfg, b, s.destination),
       committed := committed,
       buffer := if wiped then None else Some(b),
       base := if wiped then committed else s.base,
       arrivals := if wiped then [] else s.arrivals,
       frontier := Furthest(s.frontier, s.position),
       applied := s.position,
       merged := s.merged + set id | id in s.arrivals)
  }

  function NextCrash(s: State): State {
    s.(position := s.committed, buffer := None, base := s.committed, arrivals := [])
  }

  ghost function Next(cfg: Config, log: Log, s: State, step: Step): State
    requires Enabled(cfg, log, s, step) && s.frontier.Keys == s.position.Keys
  {
    match step
    case Fetch(p) => NextFetch(cfg, log, s, p)
    case MergeFails => s
    case MergeSucceeds(commits) => NextMerge(cfg, s, commits)
    case Crash => NextCrash(s)
  }

  function Start(log: Log, target: Table): State {
    var zero := map p | p in log :: 0;
    State(target, zero, zero, None, zero, [], zero, zero, {})
  }

  // ---------------------------------------------------------------------------------------------
  // What the log says

  /** The changes accepted in [lo, hi). */
  function AcceptedIn(entries: seq<Entry>, lo: nat, hi: nat): seq<Change>
    requires hi <= |entries|
    decreases hi
  {
    if hi <= lo then []
    else AcceptedIn(entries, lo, hi - 1) + (if entries[hi - 1].Accepted? then [entries[hi - 1].change] else [])
  }

  /** The changes to key `k` accepted in [lo, hi). */
  function History(cfg: Config, entries: seq<Entry>, k: Key, lo: nat, hi: nat): seq<Change>
    requires hi <= |entries|
  {
    KeyChanges(AcceptedIn(entries, lo, hi), cfg.primaryKeys, k)
  }

  ghost predicate Carries(log: Log, p: Partition, e: Change) {
    p in log && exists i :: 0 <= i < |log[p]| && log[p][i] == Accepted(e)
  }

  /** No partition other than `p` holds a change to key `k`. */
  ghost predicate OwnedBy(cfg: Config, log: Log, p: Partition, k: Key) {
    p in log && forall q, e :: Carries(log, q, e) && KeyOf(e.row, cfg.primaryKeys) == k ==> q == p
  }

  /** Proper changes within the schema. */
  ghost predicate ProperLog(cfg: Config, log: Log) {
    forall p, e :: Carries(log, p, e) ==> Proper(e, cfg.primaryKeys) && forall x :: x in e.row ==>
      ColumnLists.Has(cfg.schema, x)
  }

  /** Texts identify keys. */
  ghost predicate FaithfulLog(cfg: Config, log: Log) {
    forall p, e, q, f :: Carries(log, p, e) && Carries(log, q, f) ==>
      (e.pk == f.pk <==> KeyOf(e.row, cfg.primaryKeys) == KeyOf(f.row, cfg.primaryKeys))
  }

  /** Every key stays in one partition. */
  ghost predicate PartitionedLog(cfg: Config, log: Log) {
    forall p, e :: Carries(log, p, e) ==> OwnedBy(cfg, log, p, KeyOf(e.row, cfg.primaryKeys))
  }

  /** Per key, placeholders only follow a row that knows the column. */
  ghost predicate ChainedLog(cfg: Config, log: Log) {
    forall p, k :: p in log ==> Chained(PolicyOf(cfg), History(cfg, log[p], k, 0, |log[p]|))
  }

  ghost predicate GoodLog(cfg: Config, log: Log) {
    ProperLog(cfg, log) && FaithfulLog(cfg, log) && PartitionedLog(cfg, log) && ChainedLog(cfg, log)
  }

  /** With an idempotent key, the live changes to a key never go down in it, starting from the row in `initial`. */
  ghost predicate AscendingLog(cfg: Config, log: Log, initial: Table) {
    forall p, k :: OwnedBy(cfg, log, p, k) ==>
      Ascending(PolicyOf(cfg), cfg.idempotentKey, Lookup(initial, k), History(cfg, log[p], k, 0, |log[p]|))
  }

  /** Without an idempotent key that asks for nothing. */
  lemma WithoutKeyAscends(cfg: Config, log: Log, initial: Table)
    requires cfg.idempotentKey == ""
    ensures AscendingLog(cfg, log, initial)
  {
    forall p, k | OwnedBy(cfg, log, p, k)
      ensures Ascending(PolicyOf(cfg), "", Lookup(initial, k), History(cfg, log[p], k, 0, |log[p]|))
    {
      WithoutKeyAscending(PolicyOf(cfg), Lookup(initial, k), History(cfg, log[p], k, 0, |log[p]|));
    }
  }

  predicate IsAccepted(log: Log, id: Id) {
    id.partition in log && id.offset < |log[id.partition]| && log[id.partition][id.offset].Accepted?
  }

  function Events(log: Log, ids: seq<Id>): seq<Change>
    requires forall id :: id in ids ==> IsAccepted(log, id)
  {
    if ids == [] then []
    else
      var last := ids[|ids| - 1];
      assert last in ids && IsAccepted(log, last);
      Events(log, ids[..|ids| - 1]) + [log[last.partition][last.offset].change]
  }

  lemma {:induction false} AcceptedSplit(entries: seq<Entry>, a: nat, b: nat, c: nat)
    requires a <= b <= c <= |entries|
    ensures AcceptedIn(entries, a, c) == AcceptedIn(entries, a, b) + AcceptedIn(entries, b, c)
    decreases c
  {
    if b < c { AcceptedSplit(entries, a, b, c - 1); }
  }

  lemma HistorySplit(cfg: Config, entries: seq<Entry>, k: Key, a: nat, b: nat, c: nat)
    requires a <= b <= c <= |entries|
    ensures History(cfg, entries, k, a, c) == History(cfg, entries, k, a, b) + History(cfg, entries, k, b, c)
  {
    AcceptedSplit(entries, a, b, c);
    KeyChangesConcat(AcceptedIn(entries, a, b), AcceptedIn(entries, b, c), cfg.primaryKeys, k);
  }

  lemma {:induction false} SkippedHistory(cfg: Config, entries: seq<Entry>, k: Key, a: nat, b: nat)
    requires b <= |entries| && forall i :: a <= i < b ==> entries[i].Skipped?
    ensures History(cfg, entries, k, a, b) == []
    decreases b
  {
    if a < b {
      SkippedHistory(cfg, entries, k, a, b - 1);
      assert AcceptedIn(entries, a, b) == AcceptedIn(entries, a, b - 1);
    }
  }

  lemma {:induction false} AcceptedFromLog(log: Log, p: Partition, a: nat, b: nat)
    requires p in log && b <= |log[p]|
    ensures forall e :: e in AcceptedIn(log[p], a, b) ==> Carries(log, p, e)
    decreases b
  {
    if a < b { AcceptedFromLog(log, p, a, b - 1); }
  }

  // ---------------------------------------------------------------------------------------------
  // The invariant

  /** Replaying the key's changes from `from` up to the frontier gives what applying them once gives. */
  ghost predicate Converges(cfg: Config, entries: seq<Entry>, k: Key, initial: Option<Row>, now: Option<Row>,
      from: nat, frontier: nat)
  {
    && from <= frontier <= |entries|
    && Replayed(PolicyOf(cfg), now, History(cfg, entries, k, from, frontier))
       == Replayed(PolicyOf(cfg), initial, History(cfg, entries, k, 0, frontier))
  }

  /**
   * From every offset between `base` and `reach` replaying converges, and no change from `reach` on is
   * older than the row, so that the idempotent key lets it through.
   */
  ghost predicate Reaching(cfg: Config, entries: seq<Entry>, k: Key, initial: Option<Row>, now: Option<Row>,
      base: nat, reach: nat, frontier: nat)
  {
    && base <= reach <= frontier <= |entries|
    && (forall from :: base <= from <= reach ==> Converges(cfg, entries, k, initial, now, from, frontier))
    && NoneOlder(PolicyOf(cfg), cfg.idempotentKey, now, History(cfg, entries, k, reach, |entries|))
  }

  /** The reach covers the committed offset and the position of the latest merge. */
  ghost predicate Convergence(cfg: Config, entries: seq<Entry>, k: Key, initial: Option<Row>, now: Option<Row>,
      base: nat, committed: nat, applied: nat, frontier: nat)
  {
    exists reach ::
      committed <= reach && applied <= reach && Reaching(cfg, entries, k, initial, now, base, reach, frontier)
  }

  ghost predicate Offsets(log: Log, s: State) {
    && s.committed.Keys == s.position.Keys == s.base.Keys == s.frontier.Keys == s.applied.Keys == log.Keys
    && forall p :: p in log ==> s.base[p] <= s.committed[p] <= s.position[p] <= |log[p]|
  }

  /** The arrivals are the accepted messages between base and position. */
  ghost predicate Arrived(log: Log, s: State)
    requires Offsets(log, s)
  {
    && (forall id :: id in s.arrivals ==> IsAccepted(log, id))
    && (forall p, i :: p in log && s.base[p] <= i < s.position[p] && log[p][i].Accepted? ==> Id(p, i) in s.arrivals)
  }

  /** The arrivals hold the key's changes in [base, position), in their order. */
  ghost predicate InOrderFor(cfg: Config, log: Log, ids: seq<Id>, p: Partition, k: Key, base: nat, position: nat)
    requires p in log && position <= |log[p]| && forall id :: id in ids ==> IsAccepted(log, id)
  {
    KeyChanges(Events(log, ids), cfg.primaryKeys, k) == History(cfg, log[p], k, base, position)
  }

  /** The arrivals have kept the order of the log for every key. */
  ghost predicate InOrder(cfg: Config, log: Log, s: State)
    requires Offsets(log, s) && Arrived(log, s)
  {
    forall p, k :: OwnedBy(cfg, log, p, k) ==> InOrderFor(cfg, log, s.arrivals, p, k, s.base[p], s.position[p])
  }

  /** The buffer is the fold of the arrivals. */
  ghost predicate Buffering(cfg: Config, log: Log, s: State)
    requires Offsets(log, s) && Arrived(log, s)
  {
    && (s.buffer.None? <==> s.arrivals == [])
    && (s.buffer.Some? ==> s.buffer.value.(lastMessages := map[]) == BufferOf(cfg, Events(log, s.arrivals)))
  }

  /** The remembered message of a partition is the last accepted one since the base. */
  ghost predicate RemembersLast(entries: seq<Entry>, p: Partition, base: nat, committed: nat, position: nat,
      buffer: Option<Buffer>)
    requires position <= |entries|
  {
    if buffer.Some? && p in buffer.value.lastMessages then
      exists o ::
        && base <= o < position && committed <= o + 1
        && buffer.value.lastMessages[p] == [Kafka(p, o)]
        && forall i :: o < i < position ==> entries[i].Skipped?
    else forall i :: base <= i < position ==> entries[i].Skipped?
  }

  ghost predicate Remembering(log: Log, s: State)
    requires Offsets(log, s)
  {
    forall p :: p in log ==> RemembersLast(log[p], p, s.base[p], s.committed[p], s.position[p], s.buffer)
  }

  ghost predicate Convergent(cfg: Config, log: Log, initial: Table, s: State)
    requires Offsets(log, s)
  {
    && Settled(cfg, s.destination)
    && (log == map[] ==> s.destination == initial)
    && forall p, k :: OwnedBy(cfg, log, p, k) ==>
         Convergence(cfg, log[p], k, Lookup(initial, k), Lookup(s.destination, k),
           s.base[p], s.committed[p], s.applied[p], s.frontier[p])
  }

  /** Every accepted message below a committed offset has been through a successful merge. */
  ghost predicate NothingLost(log: Log, s: State)
    requires Offsets(log, s)
  {
    forall p, i :: p in log && 0 <= i < s.committed[p] && log[p][i].Accepted? ==> Id(p, i) in s.merged
  }

  /** What keeps events safe, whatever the events are. */
  ghost predicate Safe(cfg: Config, log: Log, s: State) {
    && Offsets(log, s)
    && Arrived(log, s)
    && Buffering(cfg, log, s)
    && Remembering(log, s)
    && NothingLost(log, s)
  }

  ghost predicate Inv(cfg: Config, log: Log, initial: Table, s: State) {
    && Safe(cfg, log, s)
    && InOrder(cfg, log, s)
    && Convergent(cfg, log, initial, s)
  }
}
