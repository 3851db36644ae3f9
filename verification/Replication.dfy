/**
 * Runs of the consumer as its methods do them, on the events that a source delivers, and the proof
 * that every such run is a run of module Pipeline.  Columns come with the events and with the cells
 * of their rows, in any order and with any kinds; the pipeline's buffer has those of the schema.
 */
module Replication {
  import opened Values
  import opened Texts
  import opened Sql
  import opened ColumnLists
  import opened Dml
  import opened MergeMeaning
  import opened MergePrograms
  import opened MergeLaws
  import opened Replay
  import opened Buffers
  import opened Compaction
  import opened BatchMerge
  import opened TableConfigs
  import opened Events
  import opened Pipeline
  import opened IdempotentKeys
  import opened CommitSafety
  import opened ExactlyOnce
  import opened PrimaryKeys

  // ---------------------------------------------------------------------------------------------
  // What the methods do

  /** What Save reads of an event. */
  datatype SourceEvent = SourceEvent(keys: map<string, string>, columns: seq<Column>, data: Row, deleted: bool)

  /** The state that outlives a call: the table, the committed offsets and the buffer, if there is one. */
  datatype Held = Held(destination: Table, committed: map<Partition, nat>, buffer: Option<Buffer>)

  /** A save with its witnesses: the buffer it starts from and the change it inserts. */
  ghost predicate SavesAs(softDelete: bool, buffer: Option<Buffer>, e: SourceEvent, message: Message, after: Buffer,
      start: Buffer, change: Change)
  {
    && (if buffer.Some? then start == WithColumns(buffer.value, e.columns)
      else IsNew(start, false, softDelete, e.keys.Keys, e.columns))
    && SanitizedRow(e.data, change.row) && change.deleted == e.deleted
    && (forall keys :: Lists(keys, e.keys.Keys) ==> change.pk == KeyText(keys, e.keys))
    && SavedTo(start, e.data, change, message, after)
  }

  ghost predicate Saves(softDelete: bool, buffer: Option<Buffer>, e: SourceEvent, message: Message, after: Buffer) {
    exists start, change :: SavesAs(softDelete, buffer, e, message, after, start, change)
  }

  /** A flush that fails to merge (None), or merges and commits some partitions; it wipes once all are committed. */
  ghost predicate Flushed(cfg: Config, before: Held, commits: Option<set<Partition>>, after: Held) {
    && before.buffer.Some?
    && var b := before.buffer.value;
       var staged := AtMerge(b, cfg.schema);
       match commits
       case None =>
         after == before || after == before.(buffer := Some(staged))
       case Some(done) =>
         && done <= b.lastMessages.Keys && Program(Argument(cfg, staged)).Ok?
         && after == Held(MergeBuffer(cfg, staged, before.destination),
              AfterCommits(before.committed, b.lastMessages, done),
              if done == b.lastMessages.Keys then None else Some(staged))
  }

  // ---------------------------------------------------------------------------------------------
  // Runs

  /** A message is ignored (invalid, or an operation to skip) or brings an event to save. */
  datatype Delivery = Ignored | Delivered(event: SourceEvent)

  type Source = map<Partition, seq<Delivery>>

  datatype Live = Live(held: Held, position: map<Partition, nat>)

  datatype LiveStep =
    | Deliver(partition: Partition)
    | Flush(commits: Option<set<Partition>>)
    | Restart

  ghost predicate LiveNext(cfg: Config, source: Source, before: Live, step: LiveStep, after: Live) {
    match step
    case Deliver(p) =>
      && p in source && p in before.position && before.position[p] < |source[p]|
      && after.position == before.position[p := before.position[p] + 1]
      && (match source[p][before.position[p]]
          case Ignored => after.held == before.held
          case Delivered(e) =>
            && after.held.buffer.Some? && after.held == before.held.(buffer := after.held.buffer)
            && Saves(cfg.softDelete, before.held.buffer, e, Kafka(p, before.position[p]), after.held.buffer.value))
    case Flush(commits) => Flushed(cfg, before.held, commits, after.held) && after.position == before.position
    case Restart => after == Live(before.held.(buffer := None), before.held.committed)
  }

  function LiveStart(source: Source, initial: Table): Live {
    var zero := map p | p in source :: 0;
    Live(Held(initial, zero, None), zero)
  }

  ghost predicate LiveRun(cfg: Config, source: Source, initial: Table, states: seq<Live>, steps: seq<LiveStep>) {
    && |states| == |steps| + 1 && states[0] == LiveStart(source, initial)
    && forall i :: 0 <= i < |steps| ==> LiveNext(cfg, source, states[i], steps[i], states[i + 1])
  }

  // ---------------------------------------------------------------------------------------------
  // The log that a source amounts to

  /** The row as Save normalises it. */
  function Normalised(data: Row): Row
    requires InjectiveNames(data)
  {
    map key | key in data :: EscapeName(key) := Sanitized(data[key])
  }

  lemma NormalisedAt(data: Row, key: string)
    requires InjectiveNames(data) && key in data
    ensures EscapeName(key) in Normalised(data) && Normalised(data)[EscapeName(key)] == Sanitized(data[key])
  {}

  /** For injective names there is only one row that a save can leave. */
  lemma OnlyOneRow(data: Row, row: Row)
    requires InjectiveNames(data) && SanitizedRow(data, row)
    ensures row == Normalised(data)
  {
    forall name | name in row ensures name in Normalised(data) && row[name] == Normalised(data)[name] {
      var key :| key in data && EscapeName(key) == name && row[name] == Sanitized(data[key]);
      NormalisedAt(data, key);
    }
    assert forall key :: key in data ==> EscapeName(key) in row;
  }

  /** The columns of the event, none of them flagged, and the cells of its row together make up the schema. */
  ghost predicate GoodEvent(cfg: Config, e: SourceEvent) {
    && Lists(cfg.primaryKeys, e.keys.Keys)
    && InjectiveNames(e.data)
    && Distinct(e.columns) && FlaggedNames(e.columns) == {}
    && Names(cfg.schema) == Names(e.columns) + Normalised(e.data).Keys
  }

  ghost predicate GoodEvents(cfg: Config, source: Source) {
    forall p, i :: p in source && 0 <= i < |source[p]| && source[p][i].Delivered? ==> GoodEvent(cfg, source[p][i].event)
  }

  function ChangeOf(cfg: Config, e: SourceEvent): Change
    requires Lists(cfg.primaryKeys, e.keys.Keys) && InjectiveNames(e.data)
  {
    Change(KeyText(cfg.primaryKeys, e.keys), Normalised(e.data), e.deleted)
  }

  ghost function EntryOf(cfg: Config, d: Delivery): Entry
    requires d.Delivered? ==> GoodEvent(cfg, d.event)
  {
    if d.Ignored? then Skipped else Accepted(ChangeOf(cfg, d.event))
  }

  ghost function LogOf(cfg: Config, source: Source): Log
    requires GoodEvents(cfg, source)
  {
    map p | p in source :: seq(|source[p]|, i requires 0 <= i < |source[p]| => EntryOf(cfg, source[p][i]))
  }

  // ---------------------------------------------------------------------------------------------
  // The live buffer and the pipeline's

  /**
   * The two buffers differ in their columns only: the same names, flagged alike.  The pipeline's are
   * those of the schema, with flags.
   */
  ghost predicate Mirrors(cfg: Config, live: Buffer, b: Buffer) {
    && live.(columns := b.columns) == b
    && Distinct(live.columns) && Distinct(b.columns)
    && Shape(b.columns) == Shape(cfg.schema)
    && Names(live.columns) == Names(b.columns) && FlaggedNames(live.columns) == FlaggedNames(b.columns)
  }

  /** The columns without their flags. */
  function Shape(cols: seq<Column>): seq<Column> {
    seq(|cols|, i requires 0 <= i < |cols| => cols[i].(toast := false))
  }

  lemma ShapeNames(a: seq<Column>, b: seq<Column>)
    requires Shape(a) == Shape(b)
    ensures |a| == |b| && (forall i :: 0 <= i < |a| ==> a[i].name == b[i].name && a[i].kind == b[i].kind)
    ensures Names(a) == Names(b) && (Distinct(a) <==> Distinct(b))
  {
    assert |a| == |Shape(a)| == |Shape(b)| == |b|;
    forall i | 0 <= i < |a| ensures a[i].name == b[i].name && a[i].kind == b[i].kind {
      assert Shape(a)[i] == Shape(b)[i];
    }
  }

  lemma FlaggingMarks(cols: seq<Column>, row: Row)
    requires Distinct(cols)
    ensures var after := FlagToasts(cols, row);
      && Shape(after) == Shape(cols) && Distinct(after) && Names(after) == Names(cols)
      && FlaggedNames(after) == FlaggedNames(cols) + (Names(cols) * Unavailable(row))
  {
    var after := FlagToasts(cols, row);
    assert Shape(after) == Shape(cols);
    ShapeNames(after, cols);
    forall x
      ensures x in FlaggedNames(after) <==> x in FlaggedNames(cols) || (x in Names(cols) && x in Unavailable(row))
    {
      if i :| 0 <= i < |cols| && cols[i].name == x {
        assert after[i].name == x && (after[i].toast <==> cols[i].toast || Cell(row, x) == Toast);
      }
    }
  }

  lemma {:induction false} AddingNothingNew(cols: seq<Column>, more: seq<Column>)
    requires Names(more) <= Names(cols)
    ensures AddedAll(cols, more) == cols
  {
    if more != [] {
      var n := |more| - 1;
      NamesOfOneMore(more, n);
      assert more[..n + 1] == more;
      AddingNothingNew(cols, more[..n]);
      var i :| 0 <= i < |cols| && cols[i].name == more[n].name;
    }
  }

  lemma SavedChange(cfg: Config, e: SourceEvent, change: Change)
    requires GoodEvent(cfg, e) && SanitizedRow(e.data, change.row) && change.deleted == e.deleted
    requires forall keys :: Lists(keys, e.keys.Keys) ==> change.pk == KeyText(keys, e.keys)
    ensures change == ChangeOf(cfg, e)
  {
    OnlyOneRow(e.data, change.row);
  }

  /** Of two buffers that differ in their columns only, so do the ones after a save. */
  lemma SavedMirrors(cfg: Config, start: Buffer, b: Buffer, data: Row, message: Message, after: Buffer, change: Change)
    requires start.(columns := b.columns) == b && Distinct(b.columns) && Shape(b.columns) == Shape(cfg.schema)
    requires SavedTo(start, data, change, message, after) && InjectiveNames(data)
    requires FlaggedNames(start.columns) == FlaggedNames(b.columns)
    requires Names(start.columns) + change.row.Keys == Names(b.columns) && "" !in change.row
    ensures Mirrors(cfg, after, AfterSave(b, change).(lastMessages := Remembered(b.lastMessages, message)))
  {
    FlaggingMarks(b.columns, change.row);
    InsertIgnoresColumns(start, after.columns, b.columns, change);
    InsertIgnoresColumns(b, FlagToasts(b.columns, change.row), b.columns, change);
    MarkedAlike(start.columns, change.row, after.columns, b.columns);
  }

  lemma InsertIgnoresColumns(b: Buffer, some: seq<Column>, other: seq<Column>, e: Change)
    ensures AfterInsert(b.(columns := some), e.pk, e.row, e.deleted).(columns := other)
      == AfterInsert(b.(columns := other), e.pk, e.row, e.deleted)
  {}

  lemma MarkedAlike(start: seq<Column>, row: Row, after: seq<Column>, cols: seq<Column>)
    requires MarksRow(start, row, after) && Distinct(cols)
    requires FlaggedNames(start) == FlaggedNames(cols) && Names(start) + row.Keys == Names(cols) && "" !in row
    ensures Names(after) == Names(FlagToasts(cols, row)) && FlaggedNames(after) == FlaggedNames(FlagToasts(cols, row))
  {
    FlaggingMarks(cols, row);
    assert row.Keys - {""} == row.Keys;
    assert Unavailable(row) <= Names(cols);
    assert Names(cols) * Unavailable(row) == Unavailable(row);
  }

  lemma NewIsFresh(cfg: Config, start: Buffer, e: SourceEvent)
    requires IsNew(start, false, cfg.softDelete, e.keys.Keys, e.columns) && Lists(cfg.primaryKeys, e.keys.Keys)
    ensures start.(columns := cfg.schema) == FreshBuffer(cfg) && start.columns == e.columns
  {
    ListingIsUnique(start.primaryKeys, cfg.primaryKeys, e.keys.Keys);
  }

  /** The save that opens a buffer mirrors the pipeline's first Fetch. */
  lemma OpeningMirrors(cfg: Config, e: SourceEvent, message: Message, after: Buffer, start: Buffer, change: Change)
    requires Distinct(cfg.schema) && FlaggedNames(cfg.schema) == {} && GoodEvent(cfg, e)
    requires SavesAs(cfg.softDelete, None, e, message, after, start, change)
    ensures change == ChangeOf(cfg, e) && Mirrors(cfg, after, Saved(cfg, None, change, message))
  {
    SavedChange(cfg, e, change);
    NewIsFresh(cfg, start, e);
    OpenedMirrors(cfg, e, message, after, start, change);
  }

  lemma OpenedMirrors(cfg: Config, e: SourceEvent, message: Message, after: Buffer, start: Buffer, change: Change)
    requires Distinct(cfg.schema) && FlaggedNames(cfg.schema) == {} && FlaggedNames(e.columns) == {}
    requires start.(columns := cfg.schema) == FreshBuffer(cfg) && start.columns == e.columns
    requires InjectiveNames(e.data) && Names(e.columns) + change.row.Keys == Names(cfg.schema)
    requires SavedTo(start, e.data, change, message, after)
    ensures Mirrors(cfg, after, Saved(cfg, None, change, message))
  {
    SavedMirrors(cfg, start, FreshBuffer(cfg), e.data, message, after, change);
  }

  /** A save into a buffer that mirrors the pipeline's mirrors its Fetch. */
  lemma ContinuingMirrors(cfg: Config, live: Buffer, b: Buffer, e: SourceEvent, message: Message, after: Buffer,
      start: Buffer, change: Change)
    requires Distinct(cfg.schema) && GoodEvent(cfg, e) && Mirrors(cfg, live, b)
    requires SavesAs(cfg.softDelete, Some(live), e, message, after, start, change)
    ensures change == ChangeOf(cfg, e) && Mirrors(cfg, after, Saved(cfg, Some(b), change, message))
  {
    SavedChange(cfg, e, change);
    ShapeNames(b.columns, cfg.schema);
    AddingNothingNew(live.columns, e.columns);
    SavedMirrors(cfg, live, b, e.data, message, after, change);
  }

  // ---------------------------------------------------------------------------------------------
  // Merges depend on names, flags and known kinds only

  function KnownNames(cols: seq<Column>): set<string> {
    set i | 0 <= i < |cols| && cols[i].kind != Invalid :: cols[i].name
  }

  lemma {:induction false} WritableNames(cols: seq<Column>, skip: bool)
    ensures Writable(cols, skip) == KnownNames(cols) - if skip then {DELETE_MARKER} else {}
  {
    if cols != [] {
      var n := |cols| - 1;
      WritableNames(cols[..n], skip);
      assert cols == cols[..n] + [cols[n]];
      KnownOneMore(cols[..n], cols[n]);
    }
  }

  lemma KnownOneMore(cols: seq<Column>, last: Column)
    ensures KnownNames(cols + [last]) == KnownNames(cols) + if last.kind != Invalid then {last.name} else {}
  {
    var more := cols + [last];
    assert more[|cols|] == last && forall i :: 0 <= i < |cols| ==> more[i] == cols[i];
  }

  lemma FlaggedIsNamed(cols: seq<Column>, x: string)
    requires Distinct(cols)
    ensures Flagged(cols, x) <==> x in FlaggedNames(cols)
  {
    FlaggedIsHasFlag(cols, x);
    if i :| 0 <= i < |cols| && cols[i].toast && cols[i].name == x { PositionIs(cols, i); }
  }

  /** The destination decides which kinds are known; names and flags stay. */
  lemma ReconciledNames(cols: seq<Column>, destination: seq<Column>)
    requires Distinct(cols) && Distinct(destination) && LowerCased(destination) && Names(cols) == Names(destination)
    ensures var all := ReconciledAll(cols, destination);
      && Distinct(all) && Names(all) == Names(cols) && FlaggedNames(all) == FlaggedNames(cols)
      && KnownNames(all) == KnownNames(destination)
  {
    var all := ReconciledAll(cols, destination);
    assert forall i :: 0 <= i < |cols| ==> all[i].name == cols[i].name && all[i].toast == cols[i].toast;
    forall x ensures x in KnownNames(all) <==> x in KnownNames(destination) {
      if x in Names(cols) { ReconciledKind(cols, destination, x); }
    }
  }

  lemma ReconciledKind(cols: seq<Column>, destination: seq<Column>, x: string)
    requires Distinct(cols) && Distinct(destination) && LowerCased(destination)
    requires x in Names(cols) && x in Names(destination)
    ensures x in KnownNames(ReconciledAll(cols, destination)) <==> x in KnownNames(destination)
  {
    var all := ReconciledAll(cols, destination);
    var i :| 0 <= i < |cols| && cols[i].name == x;
    var j :| 0 <= j < |destination| && destination[j].name == x;
    PositionIs(destination, j);
    assert forall k :: 0 <= k < |cols| ==> all[k].name == cols[k].name;
    assert Find(destination, ToLower(x)) == Some(destination[j]);
    assert all[i].kind != Invalid <==> destination[j].kind != Invalid;
  }

  /** Arguments whose columns have the same names known and flagged have the same programs, in effect. */
  lemma SameNamesSameEffect(m: MergeArgument, other: MergeArgument, target: Table, staging: Table)
    requires Runnable(m) && Runnable(other) && other == m.(columns := other.columns)
    requires KnownNames(m.columns) == KnownNames(other.columns)
    requires FlaggedNames(m.columns) == FlaggedNames(other.columns)
    requires Keyed(target, m.primaryKeys) && Keyed(staging, m.primaryKeys) && TypedMarkers(staging)
    ensures Program(m).Ok? && Program(other).Ok?
    ensures forall s :: s in Program(m).value + Program(other).value ==> WellFormed(s)
    ensures ExecAll(Program(m).value, target, staging) == ExecAll(Program(other).value, target, staging)
  {
    RunnableHasProgram(m);
    RunnableHasProgram(other);
    var a, b := ExecAll(Program(m).value, target, staging), ExecAll(Program(other).value, target, staging);
    forall k ensures Lookup(a, k) == Lookup(b, k) {
      ProgramLookup(m, target, staging, k);
      ProgramLookup(other, target, staging, k);
      SameRows(m, other, target, staging, k);
    }
    SameLookups(a, b);
  }

  lemma SameRows(m: MergeArgument, other: MergeArgument, target: Table, staging: Table, k: Key)
    requires Runnable(m) && Runnable(other) && other == m.(columns := other.columns)
    requires KnownNames(m.columns) == KnownNames(other.columns)
    requires FlaggedNames(m.columns) == FlaggedNames(other.columns)
    ensures ProgramAt(m, target, staging, k) == ProgramAt(other, target, staging, k)
  {
    if k in staging { SameRow(RulesOf(m), RulesOf(other), Lookup(target, k), staging[k]); }
  }

  lemma SameRow(a: Rules, b: Rules, d: Option<Row>, cc: Row)
    requires b == a.(columns := b.columns) && Distinct(a.columns) && Distinct(b.columns)
    requires KnownNames(a.columns) == KnownNames(b.columns) && FlaggedNames(a.columns) == FlaggedNames(b.columns)
    ensures InsertedRow(a, cc) == InsertedRow(b, cc) && Outcome(a, d, cc) == Outcome(b, d, cc)
  {
    WritableNames(a.columns, !a.softDelete);
    WritableNames(b.columns, !a.softDelete);
    assert InsertedRow(a, cc) == InsertedRow(b, cc);
    if d.Some? { SameMergedRow(a, b, d.value, cc); }
  }

  lemma SameMergedRow(a: Rules, b: Rules, d: Row, cc: Row)
    requires Distinct(a.columns) && Distinct(b.columns) && FlaggedNames(a.columns) == FlaggedNames(b.columns)
    requires Written(a) == Written(b)
    ensures MergedRow(a, d, cc) == MergedRow(b, d, cc)
  {
    forall x | x in Written(a) ensures MergedCell(a.columns, d, cc, x) == MergedCell(b.columns, d, cc, x) {
      FlaggedIsNamed(a.columns, x);
      FlaggedIsNamed(b.columns, x);
    }
  }

  /** A live buffer merges like the pipeline's buffer that it mirrors. */
  lemma MirrorsMerge(cfg: Config, live: Buffer, b: Buffer, target: Table)
    requires Mirrors(cfg, live, b) && LowerCased(cfg.schema) && Runnable(Argument(cfg, b))
    requires Keyed(target, b.primaryKeys) && Keyed(Staging(b.rowsData, b.primaryKeys), b.primaryKeys)
    requires TypedMarkers(Staging(b.rowsData, b.primaryKeys))
    ensures var staged := AtMerge(live, cfg.schema);
      && Program(Argument(cfg, b)).Ok? && Program(Argument(cfg, staged)).Ok?
      && MergeBuffer(cfg, staged, target) == MergeBuffer(cfg, b, target) && Mirrors(cfg, staged, b)
  {
    var staged := AtMerge(live, cfg.schema);
    ShapeNames(b.columns, cfg.schema);
    ReconciledNames(live.columns, cfg.schema);
    assert KnownNames(b.columns) == KnownNames(cfg.schema);
    StagedIsRunnable(cfg, staged, b);
    SameNamesSameEffect(Argument(cfg, b), Argument(cfg, staged), target, Staging(b.rowsData, b.primaryKeys));
  }

  lemma StagedIsRunnable(cfg: Config, staged: Buffer, b: Buffer)
    requires staged.(columns := b.columns) == b && Runnable(Argument(cfg, b)) && Distinct(staged.columns)
    requires KnownNames(staged.columns) == KnownNames(b.columns)
    ensures Runnable(Argument(cfg, staged))
  {
    var m, other := Argument(cfg, b), Argument(cfg, staged);
    WritableNames(b.columns, false);
    WritableNames(staged.columns, false);
    forall x ensures x in Updatable(b.columns) <==> x in Updatable(staged.columns) {
      UpdatableNames(b.columns, x);
      UpdatableNames(staged.columns, x);
    }
    assert m.primaryKeys != [] && m.primaryKeys[0] in m.primaryKeys;
    assert m.primaryKeys[0] in Updatable(staged.columns);
  }

  // ---------------------------------------------------------------------------------------------
  // Every live run is a run of the pipeline

  predicate GoodConfig(cfg: Config) {
    Mergeable(cfg) && LowerCased(cfg.schema)
  }

  ghost predicate GoodSource(cfg: Config, source: Source) {
    GoodEvents(cfg, source) && GoodLog(cfg, LogOf(cfg, source))
  }

  ghost predicate Matches(cfg: Config, a: Live, s: State) {
    && a.held.destination == s.destination && a.held.committed == s.committed && a.position == s.position
    && a.held.buffer.Some? == s.buffer.Some?
    && (s.buffer.Some? ==> Mirrors(cfg, a.held.buffer.value, s.buffer.value))
  }

  /** Where a step leaves the furthest position ever merged. */
  function Further(furthest: map<Partition, nat>, a: Live, step: LiveStep): map<Partition, nat> {
    if step.Flush? && step.commits.Some?
    then map p | p in furthest :: if p in a.position && furthest[p] < a.position[p] then a.position[p] else furthest[p]
    else furthest
  }

  /** The furthest position that a run ever merged. */
  function FurthestMerged(source: Source, states: seq<Live>, steps: seq<LiveStep>): map<Partition, nat>
    requires |steps| <= |states|
  {
    if steps == [] then map p | p in source :: 0
    else Further(FurthestMerged(source, states, steps[..|steps| - 1]), states[|steps| - 1], steps[|steps| - 1])
  }

  lemma SaveSimulated(cfg: Config, live: Option<Buffer>, b: Option<Buffer>, e: SourceEvent, message: Message,
      after: Buffer)
    requires Sound(cfg) && GoodEvent(cfg, e) && Saves(cfg.softDelete, live, e, message, after)
    requires live.Some? == b.Some? && (b.Some? ==> Mirrors(cfg, live.value, b.value))
    ensures Mirrors(cfg, after, Saved(cfg, b, ChangeOf(cfg, e), message))
  {
    var start, change :| SavesAs(cfg.softDelete, live, e, message, after, start, change);
    Unflagged(cfg);
    match b
    case None => OpeningMirrors(cfg, e, message, after, start, change);
    case Some(buffer) => ContinuingMirrors(cfg, live.value, buffer, e, message, after, start, change);
  }

  lemma DeliverySimulated(cfg: Config, source: Source, log: Log, a: Live, p: Partition, b: Live, s: State)
    requires GoodConfig(cfg) && GoodEvents(cfg, source) && log == LogOf(cfg, source) && Matches(cfg, a, s)
    requires LiveNext(cfg, source, a, Deliver(p), b)
    ensures Enabled(cfg, log, s, Fetch(p)) && Matches(cfg, b, NextFetch(cfg, log, s, p))
  {
    var offset := a.position[p];
    var delivery := source[p][offset];
    assert log[p][offset] == EntryOf(cfg, delivery);
    if delivery.Delivered? {
      SaveSimulated(cfg, a.held.buffer, s.buffer, delivery.event, Kafka(p, offset), b.held.buffer.value);
    }
    FetchMatches(cfg, log, a, p, b, s);
  }

  lemma FetchMatches(cfg: Config, log: Log, a: Live, p: Partition, b: Live, s: State)
    requires Matches(cfg, a, s) && Enabled(cfg, log, s, Fetch(p))
    requires b.position == a.position[p := a.position[p] + 1] && b.held == a.held.(buffer := b.held.buffer)
    requires match log[p][a.position[p]]
      case Skipped => b.held == a.held
      case Accepted(change) =>
        b.held.buffer.Some? && Mirrors(cfg, b.held.buffer.value, Saved(cfg, s.buffer, change, Kafka(p, a.position[p])))
    ensures Matches(cfg, b, NextFetch(cfg, log, s, p))
  {}

  lemma Unflagged(cfg: Config)
    requires Sound(cfg)
    ensures FlaggedNames(cfg.schema) == {} && Distinct(cfg.schema)
  {}

  /** What a merge asks of the pipeline's buffer holds in every reachable state. */
  lemma BufferIsMergeable(cfg: Config, log: Log, initial: Table, s: State)
    requires Mergeable(cfg) && GoodLog(cfg, log) && Inv(cfg, log, initial, s) && s.buffer.Some?
    ensures var b := s.buffer.value;
      && Runnable(Argument(cfg, b)) && Keyed(s.destination, b.primaryKeys)
      && Keyed(Staging(b.rowsData, b.primaryKeys), b.primaryKeys) && TypedMarkers(Staging(b.rowsData, b.primaryKeys))
  {
    var es := Pipeline.Events(log, s.arrivals);
    BufferedLogIsWellFormed(cfg, log, s);
    SavedArgumentIsRunnable(cfg, es);
    SavedRows(FreshBuffer(cfg), es);
    StagingIsKeyed(es, cfg.primaryKeys);
    assert Argument(cfg, s.buffer.value) == Argument(cfg, BufferOf(cfg, es));
  }

  lemma FlushSimulated(cfg: Config, log: Log, initial: Table, a: Live, done: set<Partition>, b: Live, s: State)
    requires GoodConfig(cfg) && GoodLog(cfg, log) && Matches(cfg, a, s) && Inv(cfg, log, initial, s)
    requires Flushed(cfg, a.held, Some(done), b.held) && b.position == a.position
    ensures Enabled(cfg, log, s, MergeSucceeds(done)) && Matches(cfg, b, NextMerge(cfg, s, done))
  {
    BufferIsMergeable(cfg, log, initial, s);
    MirrorsMerge(cfg, a.held.buffer.value, s.buffer.value, s.destination);
    MergedMatches(cfg, a, done, b, s);
  }

  lemma MergedMatches(cfg: Config, a: Live, done: set<Partition>, b: Live, s: State)
    requires Matches(cfg, a, s) && Flushed(cfg, a.held, Some(done), b.held) && b.position == a.position
    requires s.frontier.Keys == s.position.Keys
    requires var staged := AtMerge(a.held.buffer.value, cfg.schema);
      MergeBuffer(cfg, staged, s.destination) == MergeBuffer(cfg, s.buffer.value, s.destination)
        && Mirrors(cfg, staged, s.buffer.value)
    ensures Matches(cfg, b, NextMerge(cfg, s, done))
  {
    assert a.held.buffer.value.lastMessages == s.buffer.value.lastMessages;
  }

  /** A failed flush may have taken over the destination's kinds; the pipeline does not see it. */
  lemma FailureSimulated(cfg: Config, log: Log, initial: Table, a: Live, b: Live, s: State)
    requires GoodConfig(cfg) && GoodLog(cfg, log) && Matches(cfg, a, s) && Inv(cfg, log, initial, s)
    requires Flushed(cfg, a.held, None, b.held) && b.position == a.position
    ensures Matches(cfg, b, s)
  {
    BufferIsMergeable(cfg, log, initial, s);
    MirrorsMerge(cfg, a.held.buffer.value, s.buffer.value, s.destination);
  }

  lemma FrontierMoves(cfg: Config, a: Live, done: set<Partition>, s: State)
    requires s.position == a.position && s.buffer.Some? && s.frontier.Keys == s.position.Keys
    ensures NextMerge(cfg, s, done).frontier == Further(s.frontier, a, Flush(Some(done)))
  {}

  lemma Extended(cfg: Config, log: Log, initial: Table, run: seq<Step>, s: State, step: Step)
    returns (next: seq<Step>, t: State)
    requires Reaches(cfg, log, initial, run, s) && Enabled(cfg, log, s, step) && s.frontier.Keys == s.position.Keys
    ensures Reaches(cfg, log, initial, next, t) && t == Next(cfg, log, s, step)
  {
    ReachesNext(cfg, log, initial, run, s, step);
    next, t := run + [step], Next(cfg, log, s, step);
  }

  lemma DeliveryExtends(cfg: Config, source: Source, log: Log, initial: Table, run: seq<Step>, s: State, a: Live,
      p: Partition, b: Live)
    returns (next: seq<Step>, t: State)
    requires GoodConfig(cfg) && GoodEvents(cfg, source) && log == LogOf(cfg, source)
    requires Reaches(cfg, log, initial, run, s) && Matches(cfg, a, s) && LiveNext(cfg, source, a, Deliver(p), b)
    ensures Reaches(cfg, log, initial, next, t) && Matches(cfg, b, t) && t.frontier == s.frontier
  {
    RunIsSafe(cfg, log, initial, run, s);
    DeliverySimulated(cfg, source, log, a, p, b, s);
    next, t := Extended(cfg, log, initial, run, s, Fetch(p));
  }

  lemma FlushExtends(cfg: Config, log: Log, initial: Table, run: seq<Step>, s: State, a: Live, done: set<Partition>,
      b: Live)
    returns (next: seq<Step>, t: State)
    requires GoodConfig(cfg) && GoodLog(cfg, log) && AscendingLog(cfg, log, initial) && Settled(cfg, initial)
    requires Reaches(cfg, log, initial, run, s) && Matches(cfg, a, s)
    requires Flushed(cfg, a.held, Some(done), b.held) && b.position == a.position
    ensures Reaches(cfg, log, initial, next, t) && Matches(cfg, b, t)
    ensures t.frontier == Further(s.frontier, a, Flush(Some(done)))
  {
    RunKeepsInv(cfg, log, initial, run, s);
    FlushSimulated(cfg, log, initial, a, done, b, s);
    FrontierMoves(cfg, a, done, s);
    next, t := Extended(cfg, log, initial, run, s, MergeSucceeds(done));
  }

  lemma RestartExtends(cfg: Config, log: Log, initial: Table, run: seq<Step>, s: State, a: Live)
    returns (next: seq<Step>, t: State)
    requires Reaches(cfg, log, initial, run, s) && Matches(cfg, a, s)
    ensures Reaches(cfg, log, initial, next, t) && Matches(cfg, Live(a.held.(buffer := None), a.held.committed), t)
    ensures t.frontier == s.frontier
  {
    RunIsSafe(cfg, log, initial, run, s);
    next, t := Extended(cfg, log, initial, run, s, Crash);
  }

  lemma StepSimulated(cfg: Config, source: Source, log: Log, initial: Table, run: seq<Step>, s: State, a: Live,
      step: LiveStep, b: Live)
    returns (next: seq<Step>, t: State)
    requires GoodConfig(cfg) && GoodSource(cfg, source) && log == LogOf(cfg, source)
    requires AscendingLog(cfg, log, initial) && Settled(cfg, initial)
    requires Reaches(cfg, log, initial, run, s) && Matches(cfg, a, s) && LiveNext(cfg, source, a, step, b)
    ensures Reaches(cfg, log, initial, next, t) && Matches(cfg, b, t)
    ensures t.frontier == Further(s.frontier, a, step)
  {
    match step
    case Deliver(p) => next, t := DeliveryExtends(cfg, source, log, initial, run, s, a, p, b);
    case Restart => next, t := RestartExtends(cfg, log, initial, run, s, a);
    case Flush(None) =>
      RunKeepsInv(cfg, log, initial, run, s);
      FailureSimulated(cfg, log, initial, a, b, s);
      next, t := run, s;
    case Flush(Some(done)) => next, t := FlushExtends(cfg, log, initial, run, s, a, done, b);
  }

  /**
   * Every run of the consumer, from the empty buffer on, is matched by a run of the pipeline over the
   * log that its source amounts to.
   */
  lemma {:induction false} RunSimulated(cfg: Config, source: Source, initial: Table, states: seq<Live>,
      steps: seq<LiveStep>)
    returns (run: seq<Step>, s: State)
    requires GoodConfig(cfg) && GoodSource(cfg, source) && AscendingLog(cfg, LogOf(cfg, source), initial)
    requires Settled(cfg, initial) && LiveRun(cfg, source, initial, states, steps)
    ensures Reaches(cfg, LogOf(cfg, source), initial, run, s) && Matches(cfg, states[|steps|], s)
    ensures s.frontier == FurthestMerged(source, states, steps)
    decreases |steps|
  {
    if steps == [] {
      run, s := [], Start(LogOf(cfg, source), initial);
    } else {
      var n := |steps| - 1;
      ShorterRun(cfg, source, initial, states, steps);
      var before, t;
      before, t := RunSimulated(cfg, source, initial, states[..n + 1], steps[..n]);
      run, s := StepSimulated(cfg, source, LogOf(cfg, source), initial, before, t, states[n], steps[n], states[n + 1]);
      FurthestOfPrefix(source, states, states[..n + 1], steps[..n]);
    }
  }

  lemma ShorterRun(cfg: Config, source: Source, initial: Table, states: seq<Live>, steps: seq<LiveStep>)
    requires steps != [] && LiveRun(cfg, source, initial, states, steps)
    ensures var n := |steps| - 1;
      && LiveRun(cfg, source, initial, states[..n + 1], steps[..n])
      && LiveNext(cfg, source, states[n], steps[n], states[n + 1])
  {
    var n := |steps| - 1;
    forall i | 0 <= i < n ensures LiveNext(cfg, source, states[..n + 1][i], steps[..n][i], states[..n + 1][i + 1]) {
      assert LiveNext(cfg, source, states[i], steps[i], states[i + 1]);
    }
  }

  lemma {:induction false} FurthestOfPrefix(source: Source, states: seq<Live>, shorter: seq<Live>, steps: seq<LiveStep>)
    requires |steps| <= |shorter| && shorter <= states
    ensures FurthestMerged(source, states, steps) == FurthestMerged(source, shorter, steps)
  {
    if steps != [] { FurthestOfPrefix(source, states, shorter, steps[..|steps| - 1]); }
  }

  /** The run has read as far as it ever merged, in every partition. */
  ghost predicate CaughtUp(source: Source, states: seq<Live>, steps: seq<LiveStep>)
    requires |steps| < |states|
  {
    var position, furthest := states[|steps|].position, FurthestMerged(source, states, steps);
    && position.Keys == furthest.Keys == source.Keys
    && forall p :: p in source ==> furthest[p] <= position[p] <= |source[p]|
  }

  /**
   * Exactly once, end to end: whatever failed, was replayed or restarted on the way, the flush that
   * takes the consumer past everything merged before it leaves the table that merging every accepted
   * event once, in order and by itself, gives.
   */
  lemma ReplicatedExactlyOnce(cfg: Config, source: Source, initial: Table, states: seq<Live>, steps: seq<LiveStep>,
      commits: set<Partition>, last: Live, once: seq<Change>)
    requires GoodConfig(cfg) && GoodSource(cfg, source) && AscendingLog(cfg, LogOf(cfg, source), initial)
    requires Settled(cfg, initial) && LiveRun(cfg, source, initial, states, steps)
    requires LiveNext(cfg, source, states[|steps|], Flush(Some(commits)), last)
    requires CaughtUp(source, states, steps) && Interleaves(cfg, LogOf(cfg, source), states[|steps|].position, once)
    ensures last.held.destination == OneByOne(cfg, initial, once)
  {
    var log := LogOf(cfg, source);
    var run, s := RunSimulated(cfg, source, initial, states, steps);
    RunKeepsInv(cfg, log, initial, run, s);
    FlushSimulated(cfg, log, initial, states[|steps|], commits, last, s);
    ReplayRestores(cfg, log, initial, run, s, commits, once);
  }

  // ---------------------------------------------------------------------------------------------
  // Placeholders over whole runs

  /** The event's own columns are uniquely named, and no cell is normalised to the empty name. */
  ghost predicate Named(e: SourceEvent) {
    Distinct(e.columns) && forall key :: key in e.data ==> EscapeName(key) != ""
  }

  ghost predicate AllNamed(source: Source) {
    forall p, i :: p in source && 0 <= i < |source[p]| && source[p][i].Delivered? ==> Named(source[p][i].event)
  }

  /** Every buffered placeholder sits in a column flagged as unavailable. */
  ghost predicate CoveredBuffer(b: Buffer) {
    !b.history && Distinct(b.columns) && forall text :: text in b.rowsData ==> Covered(b.columns, b.rowsData[text])
  }

  lemma SaveKeepsCover(softDelete: bool, buffer: Option<Buffer>, e: SourceEvent, message: Message, after: Buffer)
    requires Saves(softDelete, buffer, e, message, after) && Named(e) && (buffer.Some? ==> CoveredBuffer(buffer.value))
    ensures CoveredBuffer(after)
  {
    var start, change :| SavesAs(softDelete, buffer, e, message, after, start, change);
    if buffer.Some? {
      forall text, x | text in start.rowsData && x in start.rowsData[text] && start.rowsData[text][x] == Toast
        ensures Flagged(start.columns, x)
      {
        TakingOverKeepsFlags(buffer.value.columns, e.columns, x);
      }
    }
    SaveKeepsPlaceholdersFlagged(start, e.data, change, message, after);
  }

  lemma AtMergeKeepsCover(b: Buffer, destination: seq<Column>)
    requires CoveredBuffer(b)
    ensures CoveredBuffer(AtMerge(b, destination))
  {
    var staged := AtMerge(b, destination);
    assert forall i :: 0 <= i < |b.columns| ==> staged.columns[i].name == b.columns[i].name;
    forall text, x | text in staged.rowsData && x in staged.rowsData[text] && staged.rowsData[text][x] == Toast
      ensures Flagged(staged.columns, x)
    {
      ReconcilingKeepsFlags(b.columns, destination, x);
    }
  }

  lemma StepKeepsCover(cfg: Config, source: Source, a: Live, step: LiveStep, b: Live)
    requires AllNamed(source) && LiveNext(cfg, source, a, step, b)
    requires a.held.buffer.Some? ==> CoveredBuffer(a.held.buffer.value)
    ensures b.held.buffer.Some? ==> CoveredBuffer(b.held.buffer.value)
  {
    match step
    case Deliver(p) =>
      var offset := a.position[p];
      if source[p][offset].Delivered? {
        SaveKeepsCover(cfg.softDelete, a.held.buffer, source[p][offset].event, Kafka(p, offset), b.held.buffer.value);
      }
    case Flush(commits) => AtMergeKeepsCover(a.held.buffer.value, cfg.schema);
    case Restart =>
  }

  /**
   * Over any run, whatever columns come and go and whatever the destination overrides, buffered placeholders are
   * flagged.
   */
  lemma {:induction false} PlaceholdersStayFlagged(cfg: Config, source: Source, initial: Table, states: seq<Live>,
      steps: seq<LiveStep>)
    requires AllNamed(source) && LiveRun(cfg, source, initial, states, steps)
    ensures states[|steps|].held.buffer.Some? ==> CoveredBuffer(states[|steps|].held.buffer.value)
    decreases |steps|
  {
    if steps != [] {
      var n := |steps| - 1;
      ShorterRun(cfg, source, initial, states, steps);
      PlaceholdersStayFlagged(cfg, source, initial, states[..n + 1], steps[..n]);
      StepKeepsCover(cfg, source, states[n], steps[n], states[n + 1]);
    }
  }

  /** So no flush of any run replaces a stored value with the placeholder. */
  lemma FlushKeepsValues(cfg: Config, source: Source, initial: Table, states: seq<Live>, steps: seq<LiveStep>,
      commits: set<Partition>, last: Live)
    requires AllNamed(source) && LiveRun(cfg, source, initial, states, steps)
    requires LiveNext(cfg, source, states[|steps|], Flush(Some(commits)), last)
    requires var b := AtMerge(states[|steps|].held.buffer.value, cfg.schema);
      var staging := Staging(b.rowsData, b.primaryKeys);
      && Runnable(Argument(cfg, b)) && Keyed(states[|steps|].held.destination, b.primaryKeys)
      && Keyed(staging, b.primaryKeys) && TypedMarkers(staging)
    ensures var before, after := states[|steps|].held.destination, last.held.destination;
      forall k, x :: k in before && k in after && Cell(after[k], x) == Toast ==> Cell(before[k], x) == Toast
  {
    var live := states[|steps|].held.buffer.value;
    var b := AtMerge(live, cfg.schema);
    PlaceholdersStayFlagged(cfg, source, initial, states, steps);
    AtMergeKeepsCover(live, cfg.schema);
    var staging := Staging(b.rowsData, b.primaryKeys);
    forall k | k in staging ensures Covered(b.columns, staging[k]) {
      var text :| text in b.rowsData && KeyOf(b.rowsData[text], b.primaryKeys) == k && staging[k] == b.rowsData[text];
    }
    ProgramKeepsValues(Argument(cfg, b), states[|steps|].held.destination, staging);
  }
}
