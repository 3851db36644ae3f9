/**
 * No accepted event is lost, whatever the events are and whatever fails: a committed offset only
 * ever covers messages that have been through a successful merge.
 */
module CommitSafety {
  import opened Values
  import opened Sql
  import opened Replay
  import opened Buffers
  import opened Compaction
  import opened BatchMerge
  import opened Pipeline

  // ---------------------------------------------------------------------------------------------
  // Fetches

  lemma SavedMessages(cfg: Config, buffer: Option<Buffer>, e: Change, message: Message)
    ensures Saved(cfg, buffer, e, message).lastMessages ==
      Remembered(if buffer.Some? then buffer.value.lastMessages else map[], message)
  {}

  lemma FetchKeepsOffsets(cfg: Config, log: Log, s: State, p: Partition)
    requires Offsets(log, s) && Enabled(cfg, log, s, Fetch(p))
    ensures Offsets(log, NextFetch(cfg, log, s, p))
  {}

  lemma FetchKeepsArrived(cfg: Config, log: Log, s: State, p: Partition)
    requires Offsets(log, s) && Arrived(log, s) && Enabled(cfg, log, s, Fetch(p))
    ensures Offsets(log, NextFetch(cfg, log, s, p)) && Arrived(log, NextFetch(cfg, log, s, p))
  {
    FetchKeepsOffsets(cfg, log, s, p);
    var t, offset := NextFetch(cfg, log, s, p), s.position[p];
    forall q, i | q in log && t.base[q] <= i < t.position[q] && log[q][i].Accepted? ensures Id(q, i) in t.arrivals {
      assert i < s.position[q] || (q == p && i == offset);
    }
  }

  lemma SavedExtendsBuffer(cfg: Config, buffer: Option<Buffer>, es: seq<Change>, e: Change, message: Message)
    requires buffer.None? ==> es == []
    requires buffer.Some? ==> buffer.value.(lastMessages := map[]) == BufferOf(cfg, es)
    ensures Saved(cfg, buffer, e, message).(lastMessages := map[]) == BufferOf(cfg, es + [e])
  {
    assert (es + [e])[..|es|] == es;
    var b := if buffer.Some? then buffer.value else FreshBuffer(cfg);
    assert b.(lastMessages := map[]) == BufferOf(cfg, es);
    assert AfterSave(b, e).(lastMessages := map[]) == AfterSave(b.(lastMessages := map[]), e);
  }

  lemma EventsOfOneMore(log: Log, ids: seq<Id>, id: Id)
    requires IsAccepted(log, id) && forall i :: i in ids ==> IsAccepted(log, i)
    ensures forall i :: i in ids + [id] ==> IsAccepted(log, i)
    ensures Events(log, ids + [id]) == Events(log, ids) + [log[id.partition][id.offset].change]
  {
    assert (ids + [id])[..|ids|] == ids;
  }

  lemma FetchKeepsBuffering(cfg: Config, log: Log, s: State, p: Partition)
    requires Offsets(log, s) && Arrived(log, s) && Buffering(cfg, log, s) && Enabled(cfg, log, s, Fetch(p))
    requires Offsets(log, NextFetch(cfg, log, s, p)) && Arrived(log, NextFetch(cfg, log, s, p))
    ensures Buffering(cfg, log, NextFetch(cfg, log, s, p))
  {
    var offset := s.position[p];
    if log[p][offset].Accepted? {
      EventsOfOneMore(log, s.arrivals, Id(p, offset));
      SavedExtendsBuffer(cfg, s.buffer, Events(log, s.arrivals), log[p][offset].change, Kafka(p, offset));
    }
  }

  lemma SkippedKeepsLast(entries: seq<Entry>, p: Partition, base: nat, committed: nat, position: nat,
      buffer: Option<Buffer>)
    requires position < |entries| && entries[position].Skipped?
    requires RemembersLast(entries, p, base, committed, position, buffer)
    ensures RemembersLast(entries, p, base, committed, position + 1, buffer)
  {
    if buffer.Some? && p in buffer.value.lastMessages {
      var o :| base <= o < position && committed <= o + 1 && buffer.value.lastMessages[p] == [Kafka(p, o)]
        && forall i :: o < i < position ==> entries[i].Skipped?;
      assert forall i :: o < i < position + 1 ==> entries[i].Skipped?;
    }
  }

  lemma OtherKeepsLast(entries: seq<Entry>, p: Partition, base: nat, committed: nat, position: nat,
      before: Option<Buffer>, after: Option<Buffer>)
    requires position <= |entries| && RemembersLast(entries, p, base, committed, position, before)
    requires after.Some?
    requires Lookup(after.value.lastMessages, p) == if before.Some? then Lookup(before.value.lastMessages, p) else None
    ensures RemembersLast(entries, p, base, committed, position, after)
  {
    assert p in after.value.lastMessages <==> before.Some? && p in before.value.lastMessages;
  }

  lemma FetchKeepsLast(cfg: Config, log: Log, s: State, p: Partition, q: Partition)
    requires Safe(cfg, log, s) && Enabled(cfg, log, s, Fetch(p))
    requires Offsets(log, NextFetch(cfg, log, s, p)) && q in log
    ensures var t := NextFetch(cfg, log, s, p);
      RemembersLast(log[q], q, t.base[q], t.committed[q], t.position[q], t.buffer)
  {
    var t, offset := NextFetch(cfg, log, s, p), s.position[p];
    assert RemembersLast(log[q], q, s.base[q], s.committed[q], s.position[q], s.buffer);
    if log[p][offset].Skipped? {
      if q == p { SkippedKeepsLast(log[p], p, s.base[p], s.committed[p], offset, s.buffer); }
    } else {
      SavedMessages(cfg, s.buffer, log[p][offset].change, Kafka(p, offset));
      if q != p { OtherKeepsLast(log[q], q, s.base[q], s.committed[q], s.position[q], s.buffer, t.buffer); }
    }
  }

  lemma FetchKeepsRemembering(cfg: Config, log: Log, s: State, p: Partition)
    requires Safe(cfg, log, s) && Enabled(cfg, log, s, Fetch(p))
    requires Offsets(log, NextFetch(cfg, log, s, p))
    ensures Remembering(log, NextFetch(cfg, log, s, p))
  {
    var t := NextFetch(cfg, log, s, p);
    forall q | q in log ensures RemembersLast(log[q], q, t.base[q], t.committed[q], t.position[q], t.buffer) {
      FetchKeepsLast(cfg, log, s, p, q);
    }
  }

  // ---------------------------------------------------------------------------------------------
  // Merges

  /** The offset a commit leaves lies between the base and the position; only skipped messages follow it. */
  lemma CommitOffsets(cfg: Config, log: Log, s: State, commits: set<Partition>, p: Partition)
    requires Safe(cfg, log, s) && Enabled(cfg, log, s, MergeSucceeds(commits)) && p in log
    ensures var committed := AfterCommits(s.committed, s.buffer.value.lastMessages, commits);
      && committed.Keys == log.Keys
      && s.committed[p] <= committed[p] <= s.position[p] && s.base[p] <= committed[p]
      && (p in commits || p !in s.buffer.value.lastMessages ==>
            forall i :: committed[p] <= i < s.position[p] ==> log[p][i].Skipped?)
  {
    var b := s.buffer.value;
    assert RemembersLast(log[p], p, s.base[p], s.committed[p], s.position[p], s.buffer);
  }

  lemma MergeKeepsOffsets(cfg: Config, log: Log, s: State, commits: set<Partition>)
    requires Safe(cfg, log, s) && Enabled(cfg, log, s, MergeSucceeds(commits))
    ensures Offsets(log, NextMerge(cfg, s, commits))
  {
    var t := NextMerge(cfg, s, commits);
    forall p | p in log ensures t.base[p] <= t.committed[p] <= t.position[p] <= |log[p]| {
      CommitOffsets(cfg, log, s, commits, p);
    }
  }

  /** Committing a partition leaves its remembered message as the last one before the position. */
  lemma LastAfterCommit(log: Log, s: State, commits: set<Partition>, p: Partition)
    requires Offsets(log, s) && p in log && s.buffer.Some? && commits <= s.buffer.value.lastMessages.Keys
    requires RemembersLast(log[p], p, s.base[p], s.committed[p], s.position[p], s.buffer)
    ensures var committed := AfterCommits(s.committed, s.buffer.value.lastMessages, commits);
      && p in committed
      && RemembersLast(log[p], p, s.base[p], committed[p], s.position[p], s.buffer)
      && (p in commits || p !in s.buffer.value.lastMessages ==>
            RemembersLast(log[p], p, committed[p], committed[p], s.position[p], None))
  {}

  lemma MergeKeepsRemembering(cfg: Config, log: Log, s: State, commits: set<Partition>)
    requires Safe(cfg, log, s) && Enabled(cfg, log, s, MergeSucceeds(commits))
    requires Offsets(log, NextMerge(cfg, s, commits))
    ensures Remembering(log, NextMerge(cfg, s, commits))
  {
    var t := NextMerge(cfg, s, commits);
    forall p | p in log ensures RemembersLast(log[p], p, t.base[p], t.committed[p], t.position[p], t.buffer) {
      LastAfterCommit(log, s, commits, p);
    }
  }

  /** A wiped buffer leaves only skipped messages between its base and the position. */
  lemma WipedIsSkipped(cfg: Config, log: Log, s: State, commits: set<Partition>, p: Partition)
    requires Safe(cfg, log, s) && Enabled(cfg, log, s, MergeSucceeds(commits))
    requires NextMerge(cfg, s, commits).buffer.None? && p in log
    ensures var t := NextMerge(cfg, s, commits);
      p in t.base && p in t.position && t.position[p] <= |log[p]|
      && forall i :: t.base[p] <= i < t.position[p] ==> log[p][i].Skipped?
  {
    CommitOffsets(cfg, log, s, commits, p);
  }

  lemma MergeKeepsArrived(cfg: Config, log: Log, s: State, commits: set<Partition>)
    requires Safe(cfg, log, s) && Enabled(cfg, log, s, MergeSucceeds(commits))
    requires Offsets(log, NextMerge(cfg, s, commits))
    ensures Arrived(log, NextMerge(cfg, s, commits))
  {
    if NextMerge(cfg, s, commits).buffer.None? {
      forall p | p in log { WipedIsSkipped(cfg, log, s, commits, p); }
    }
  }

  lemma MergeLosesNothing(cfg: Config, log: Log, s: State, commits: set<Partition>)
    requires Safe(cfg, log, s) && Enabled(cfg, log, s, MergeSucceeds(commits))
    requires Offsets(log, NextMerge(cfg, s, commits))
    ensures NothingLost(log, NextMerge(cfg, s, commits))
  {
    var t := NextMerge(cfg, s, commits);
    forall p, i | p in log && 0 <= i < t.committed[p] && log[p][i].Accepted? ensures Id(p, i) in t.merged {
      CommitOffsets(cfg, log, s, commits, p);
      if s.base[p] <= i { assert Id(p, i) in s.arrivals; }
    }
  }

  // ---------------------------------------------------------------------------------------------
  // Runs

  lemma FetchIsSafe(cfg: Config, log: Log, s: State, p: Partition)
    requires Safe(cfg, log, s) && Enabled(cfg, log, s, Fetch(p))
    ensures Safe(cfg, log, NextFetch(cfg, log, s, p))
  {
    FetchKeepsArrived(cfg, log, s, p);
    FetchKeepsBuffering(cfg, log, s, p);
    FetchKeepsRemembering(cfg, log, s, p);
  }

  lemma MergeIsSafe(cfg: Config, log: Log, s: State, commits: set<Partition>)
    requires Safe(cfg, log, s) && Enabled(cfg, log, s, MergeSucceeds(commits))
    ensures Safe(cfg, log, NextMerge(cfg, s, commits))
  {
    MergeKeepsOffsets(cfg, log, s, commits);
    MergeKeepsArrived(cfg, log, s, commits);
    MergeKeepsRemembering(cfg, log, s, commits);
    MergeLosesNothing(cfg, log, s, commits);
  }

  lemma StepIsSafe(cfg: Config, log: Log, s: State, step: Step)
    requires Safe(cfg, log, s) && Enabled(cfg, log, s, step)
    ensures Safe(cfg, log, Next(cfg, log, s, step))
  {
    match step
    case Fetch(p) => FetchIsSafe(cfg, log, s, p);
    case MergeFails =>
    case MergeSucceeds(commits) => MergeIsSafe(cfg, log, s, commits);
    case Crash =>
  }

  /** The states that some run from the start reaches. */
  ghost predicate Reaches(cfg: Config, log: Log, initial: Table, steps: seq<Step>, s: State) {
    if steps == [] then s == Start(log, initial)
    else exists before ::
      && Reaches(cfg, log, initial, steps[..|steps| - 1], before)
      && Enabled(cfg, log, before, steps[|steps| - 1]) && before.frontier.Keys == before.position.Keys
      && s == Next(cfg, log, before, steps[|steps| - 1])
  }

  lemma ReachesNext(cfg: Config, log: Log, initial: Table, steps: seq<Step>, s: State, step: Step)
    requires Reaches(cfg, log, initial, steps, s)
    requires Enabled(cfg, log, s, step) && s.frontier.Keys == s.position.Keys
    ensures Reaches(cfg, log, initial, steps + [step], Next(cfg, log, s, step))
  {
    assert (steps + [step])[..|steps|] == steps;
  }

  lemma LastStep(cfg: Config, log: Log, initial: Table, steps: seq<Step>, s: State) returns (before: State)
    requires Reaches(cfg, log, initial, steps, s) && steps != []
    ensures Reaches(cfg, log, initial, steps[..|steps| - 1], before) && Enabled(cfg, log, before, steps[|steps| - 1])
    ensures before.frontier.Keys == before.position.Keys && s == Next(cfg, log, before, steps[|steps| - 1])
  {
    before :| Reaches(cfg, log, initial, steps[..|steps| - 1], before) && Enabled(cfg, log, before, steps[|steps| - 1])
      && before.frontier.Keys == before.position.Keys && s == Next(cfg, log, before, steps[|steps| - 1]);
  }

  lemma {:induction false} RunIsSafe(cfg: Config, log: Log, initial: Table, steps: seq<Step>, s: State)
    requires Reaches(cfg, log, initial, steps, s)
    ensures Safe(cfg, log, s)
  {
    if steps != [] {
      var front, last := steps[..|steps| - 1], steps[|steps| - 1];
      var before := LastStep(cfg, log, initial, steps, s);
      RunIsSafe(cfg, log, initial, front, before);
      StepIsSafe(cfg, log, before, last);
    }
  }

  /** Before step `n` of the run the message was in the buffer that this step merged. */
  ghost predicate MergedAt(cfg: Config, log: Log, initial: Table, steps: seq<Step>, n: nat, id: Id) {
    n < |steps| && steps[n].MergeSucceeds? &&
      exists before :: MergedFrom(cfg, log, initial, steps[..n], before, steps[n], id)
  }

  ghost predicate MergedFrom(cfg: Config, log: Log, initial: Table, steps: seq<Step>, before: State, step: Step, id: Id)
  {
    Reaches(cfg, log, initial, steps, before) && Enabled(cfg, log, before, step) && Holds(cfg, log, before, id)
  }

  /** The buffer is the fold of the arrivals, and the message is one of them. */
  ghost predicate Holds(cfg: Config, log: Log, s: State, id: Id) {
    && (forall i :: i in s.arrivals ==> IsAccepted(log, i))
    && id in s.arrivals && s.buffer.Some?
    && s.buffer.value.(lastMessages := map[]) == BufferOf(cfg, Events(log, s.arrivals))
  }

  lemma MergedNow(cfg: Config, log: Log, s: State, step: Step, id: Id)
    requires Safe(cfg, log, s) && Enabled(cfg, log, s, step) && id !in s.merged && id in Next(cfg, log, s, step).merged
    ensures step.MergeSucceeds? && Holds(cfg, log, s, id)
  {}

  lemma MergedEarlier(cfg: Config, log: Log, initial: Table, steps: seq<Step>, n: nat, id: Id)
    requires steps != [] && MergedAt(cfg, log, initial, steps[..|steps| - 1], n, id)
    ensures MergedAt(cfg, log, initial, steps, n, id)
  {
    var front := steps[..|steps| - 1];
    assert front[..n] == steps[..n] && front[n] == steps[n];
    var before :| MergedFrom(cfg, log, initial, front[..n], before, front[n], id);
    assert MergedFrom(cfg, log, initial, steps[..n], before, steps[n], id);
  }

  lemma MergedLast(cfg: Config, log: Log, initial: Table, steps: seq<Step>, before: State, id: Id)
    requires steps != [] && Reaches(cfg, log, initial, steps[..|steps| - 1], before)
    requires Enabled(cfg, log, before, steps[|steps| - 1]) && before.frontier.Keys == before.position.Keys
    requires id !in before.merged && id in Next(cfg, log, before, steps[|steps| - 1]).merged
    ensures MergedAt(cfg, log, initial, steps, |steps| - 1, id)
  {
    var n := |steps| - 1;
    RunIsSafe(cfg, log, initial, steps[..n], before);
    MergedNow(cfg, log, before, steps[n], id);
    assert MergedFrom(cfg, log, initial, steps[..n], before, steps[n], id);
  }

  /** Being merged means having been in the buffer of a successful merge of this run. */
  lemma {:induction false} MergedWasBuffered(cfg: Config, log: Log, initial: Table, steps: seq<Step>, s: State, id: Id)
    returns (n: nat)
    requires Reaches(cfg, log, initial, steps, s) && id in s.merged
    ensures MergedAt(cfg, log, initial, steps, n, id)
    decreases |steps|
  {
    assert steps != [];
    var before := LastStep(cfg, log, initial, steps, s);
    if id in before.merged {
      n := MergedWasBuffered(cfg, log, initial, steps[..|steps| - 1], before, id);
      MergedEarlier(cfg, log, initial, steps, n, id);
    } else {
      n := |steps| - 1;
      MergedLast(cfg, log, initial, steps, before, id);
    }
  }

  /**
   * Whatever failed on the way, every accepted message below a committed offset was in the buffer of
   * a merge that succeeded.
   */
  lemma NoLostEvent(cfg: Config, log: Log, initial: Table, steps: seq<Step>, s: State, p: Partition, offset: nat)
    requires Reaches(cfg, log, initial, steps, s)
    requires p in log && p in s.committed && offset < s.committed[p] && offset < |log[p]| && log[p][offset].Accepted?
    ensures exists n :: MergedAt(cfg, log, initial, steps, n, Id(p, offset))
  {
    RunIsSafe(cfg, log, initial, steps, s);
    var n := MergedWasBuffered(cfg, log, initial, steps, s, Id(p, offset));
  }

  /** A committed offset never moves back, in any step of any run. */
  lemma CommitsNeverMoveBack(cfg: Config, log: Log, initial: Table, steps: seq<Step>, s: State, step: Step,
      p: Partition)
    requires Reaches(cfg, log, initial, steps, s)
    requires Enabled(cfg, log, s, step) && p in log
    ensures s.frontier.Keys == s.position.Keys && p in s.committed && p in Next(cfg, log, s, step).committed
    ensures s.committed[p] <= Next(cfg, log, s, step).committed[p] <= |log[p]|
  {
    RunIsSafe(cfg, log, initial, steps, s);
    if step.MergeSucceeds? { CommitOffsets(cfg, log, s, step.commits, p); }
  }
}
