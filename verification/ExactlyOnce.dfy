/**
 * The effect of every run over a well-formed log: once the replay has passed the furthest position
 * ever merged, the destination is what applying the log once gives.
 */
module ExactlyOnce {
  import opened Values
  import opened Sql
  import opened Replay
  import opened Buffers
  import opened Compaction
  import opened MergePrograms
  import opened BatchMerge
  import opened IdempotentKeys
  import opened Pipeline
  import opened CommitSafety

  // ---------------------------------------------------------------------------------------------
  // One key of one partition

  /**
   * A merge of the changes in [base, position) onto a row that converges from `base` gives a row
   * that converges from every offset in [base, position], for the frontier moved up to `position`.
   */
  lemma ConvergesAfterMerge(cfg: Config, entries: seq<Entry>, k: Key, initial: Option<Row>, before: Option<Row>,
      after: Option<Row>,
      base: nat, frontier: nat, position: nat, from: nat)
    requires base <= from <= position <= |entries|
    requires Converges(cfg, entries, k, initial, before, base, frontier)
    requires after == Replayed(PolicyOf(cfg), before, History(cfg, entries, k, base, position))
    ensures Converges(cfg, entries, k, initial, after, from, if frontier < position then position else frontier)
  {
    if position <= frontier {
      ConvergesWithin(cfg, entries, k, initial, before, after, base, frontier, position, from);
    } else {
      MovedFrontier(cfg, entries, k, initial, before, base, frontier, position);
      ConvergesWithin(cfg, entries, k, initial, before, after, base, position, position, from);
    }
  }

  lemma AbsorbsFront(p: Policy, d: Option<Row>, part: seq<Change>, rest: seq<Change>)
    ensures Replayed(p, Replayed(p, d, part), part + rest) == Replayed(p, d, part + rest)
  {
    ReplayAbsorbs(p, d, [], part, rest);
    assert [] + part + rest == part + rest;
  }

  lemma ConvergesWithin(cfg: Config, entries: seq<Entry>, k: Key, initial: Option<Row>, before: Option<Row>,
      after: Option<Row>,
      base: nat, frontier: nat, position: nat, from: nat)
    requires base <= from <= position <= frontier
    requires Converges(cfg, entries, k, initial, before, base, frontier)
    requires after == Replayed(PolicyOf(cfg), before, History(cfg, entries, k, base, position))
    ensures Converges(cfg, entries, k, initial, after, from, frontier)
  {
    var p := PolicyOf(cfg);
    var lead, part := History(cfg, entries, k, base, from), History(cfg, entries, k, from, position);
    var rest := History(cfg, entries, k, position, frontier);
    HistorySplit(cfg, entries, k, base, from, position);
    ReplayedConcat(p, before, lead, part);
    AbsorbsFront(p, Replayed(p, before, lead), part, rest);
    HistorySplit(cfg, entries, k, from, position, frontier);
    HistorySplit(cfg, entries, k, base, from, frontier);
    ReplayedConcat(p, before, lead, part + rest);
  }

  /** Convergence up to the frontier carries over to any later position. */
  lemma MovedFrontier(cfg: Config, entries: seq<Entry>, k: Key, initial: Option<Row>, now: Option<Row>, base: nat,
      frontier: nat, position: nat)
    requires Converges(cfg, entries, k, initial, now, base, frontier) && frontier <= position <= |entries|
    ensures Converges(cfg, entries, k, initial, now, base, position)
  {
    var p, more := PolicyOf(cfg), History(cfg, entries, k, frontier, position);
    HistorySplit(cfg, entries, k, base, frontier, position);
    ReplayedConcat(p, now, History(cfg, entries, k, base, frontier), more);
    HistorySplit(cfg, entries, k, 0, frontier, position);
    ReplayedConcat(p, initial, History(cfg, entries, k, 0, frontier), more);
  }

  /** A merge that passes the gate reaches up to its position. */
  lemma PassedMerge(cfg: Config, entries: seq<Entry>, k: Key, initial: Option<Row>, before: Option<Row>,
      base: nat, reach: nat, frontier: nat, position: nat)
    requires Reaching(cfg, entries, k, initial, before, base, reach, frontier) && base <= position <= |entries|
    requires cfg.idempotentKey != "" ==> cfg.idempotentKey in PolicyOf(cfg).columns
    requires Ascending(PolicyOf(cfg), cfg.idempotentKey, initial, History(cfg, entries, k, 0, |entries|))
    requires History(cfg, entries, k, base, position) != []
    ensures var after := Replayed(PolicyOf(cfg), before, History(cfg, entries, k, base, position));
      Reaching(cfg, entries, k, initial, after, base, position, if frontier < position then position else frontier)
  {
    var p, g, es := PolicyOf(cfg), cfg.idempotentKey, History(cfg, entries, k, base, position);
    var later, lead := History(cfg, entries, k, position, |entries|), History(cfg, entries, k, 0, base);
    var after := Replayed(p, before, es);
    var further := if frontier < position then position else frontier;
    forall from | base <= from <= position ensures Converges(cfg, entries, k, initial, after, from, further) {
      ConvergesAfterMerge(cfg, entries, k, initial, before, after, base, frontier, position, from);
    }
    HistorySplit(cfg, entries, k, 0, base, position);
    HistorySplit(cfg, entries, k, 0, position, |entries|);
    AscendingSlice(p, g, initial, lead, es, later);
    if !Removes(p, es[|es| - 1].row) { LaterAreNotOlder(p, g, initial, lead, es, later); }
    NoneOlderAfter(p, g, before, es, later);
  }

  lemma AscendingSlice(p: Policy, g: string, d: Option<Row>, lead: seq<Change>, es: seq<Change>, later: seq<Change>)
    requires Ascending(p, g, d, lead + es + later)
    ensures AllVersioned(p, g, es)
  {
    var all := lead + es + later;
    forall e | e in es ensures e in all {
      var i :| 0 <= i < |es| && es[i] == e;
      assert all[|lead| + i] == e;
    }
  }

  lemma NothingBetween(cfg: Config, entries: seq<Entry>, k: Key, a: nat, b: nat, c: nat, d: nat)
    requires a <= b <= c <= d <= |entries| && History(cfg, entries, k, a, c) == []
    ensures History(cfg, entries, k, b, d) == History(cfg, entries, k, a, d)
  {
    HistorySplit(cfg, entries, k, a, b, c);
    assert |History(cfg, entries, k, a, b)| == 0;
    HistorySplit(cfg, entries, k, a, b, d);
  }

  /** A merge that brings nothing new past the reach and leaves the row keeps the reach, or extends it over nothing. */
  lemma HeldMerge(cfg: Config, entries: seq<Entry>, k: Key, initial: Option<Row>, now: Option<Row>,
      base: nat, reach: nat, frontier: nat, position: nat)
    requires Reaching(cfg, entries, k, initial, now, base, reach, frontier) && position <= |entries|
    requires reach < position ==> History(cfg, entries, k, reach, position) == []
    ensures Reaching(cfg, entries, k, initial, now, base, if reach < position then position else reach,
      if frontier < position then position else frontier)
  {
    if reach < position {
      var further := if frontier < position then position else frontier;
      forall from | base <= from <= position ensures Converges(cfg, entries, k, initial, now, from, further) {
        if from <= reach {
          MovedFrontier(cfg, entries, k, initial, now, from, frontier, further);
        } else {
          MovedFrontier(cfg, entries, k, initial, now, reach, frontier, further);
          NothingBetween(cfg, entries, k, reach, from, position, further);
        }
      }
      HistorySplit(cfg, entries, k, reach, position, |entries|);
    }
  }

  /** The gate lets a batch through that goes beyond the reach. */
  lemma NewsPasses(cfg: Config, entries: seq<Entry>, k: Key, now: Option<Row>, base: nat, reach: nat, position: nat)
    requires base <= reach < position <= |entries| && History(cfg, entries, k, reach, position) != []
    requires NoneOlder(PolicyOf(cfg), cfg.idempotentKey, now, History(cfg, entries, k, reach, |entries|))
    ensures History(cfg, entries, k, base, position) != []
    ensures Passes(PolicyOf(cfg), cfg.idempotentKey, now, History(cfg, entries, k, base, position))
  {
    var es, part := History(cfg, entries, k, base, position), History(cfg, entries, k, reach, position);
    HistorySplit(cfg, entries, k, base, reach, position);
    HistorySplit(cfg, entries, k, reach, position, |entries|);
    var last := part[|part| - 1];
    assert es[|es| - 1] == last && last in part;
    assert last in History(cfg, entries, k, reach, |entries|);
  }

  /**
   * Merging the changes in [base, position), whether or not the gate lets them through, keeps the key
   * convergent, and reaches at least to `position`.
   */
  lemma ReachAfterMerge(cfg: Config, entries: seq<Entry>, k: Key, initial: Option<Row>, before: Option<Row>,
      base: nat, reach: nat, frontier: nat, position: nat) returns (further: nat)
    requires Reaching(cfg, entries, k, initial, before, base, reach, frontier) && base <= position <= |entries|
    requires cfg.idempotentKey != "" ==> cfg.idempotentKey in PolicyOf(cfg).columns
    requires Ascending(PolicyOf(cfg), cfg.idempotentKey, initial, History(cfg, entries, k, 0, |entries|))
    requires var es := History(cfg, entries, k, base, position);
      Marked(es) && Chained(PolicyOf(cfg), es) && Shaped(PolicyOf(cfg), before)
    ensures var after := MergedOnto(PolicyOf(cfg), cfg.idempotentKey, before, History(cfg, entries, k, base, position));
      && position <= further
      && Reaching(cfg, entries, k, initial, after, base, further, if frontier < position then position else frontier)
  {
    var p, g, es := PolicyOf(cfg), cfg.idempotentKey, History(cfg, entries, k, base, position);
    HistorySplit(cfg, entries, k, 0, base, position);
    HistorySplit(cfg, entries, k, 0, position, |entries|);
    AscendingSlice(p, g, initial, History(cfg, entries, k, 0, base), es, History(cfg, entries, k, position, |entries|));
    if es != [] { MergedOrHeld(p, g, before, es); }
    if reach < position && History(cfg, entries, k, reach, position) != [] {
      NewsPasses(cfg, entries, k, before, base, reach, position);
    }
    if es != [] && Passes(p, g, before, es) {
      PassedMerge(cfg, entries, k, initial, before, base, reach, frontier, position);
      further := position;
    } else {
      HeldMerge(cfg, entries, k, initial, before, base, reach, frontier, position);
      further := if reach < position then position else reach;
    }
  }

  // ---------------------------------------------------------------------------------------------
  // The buffered changes form a well-formed log

  lemma {:induction false} EventsAreCarried(log: Log, ids: seq<Id>)
    requires forall id :: id in ids ==> IsAccepted(log, id)
    ensures |Events(log, ids)| == |ids|
    ensures forall e :: e in Events(log, ids) ==> exists p :: Carries(log, p, e)
  {
    if ids != [] {
      var front, last := ids[..|ids| - 1], ids[|ids| - 1];
      EventsAreCarried(log, front);
      assert last in ids;
      assert log[last.partition][last.offset] == Accepted(log[last.partition][last.offset].change);
      assert Carries(log, last.partition, log[last.partition][last.offset].change);
    }
  }

  lemma ChainedSlice(p: Policy, es: seq<Change>, a: seq<Change>, b: seq<Change>, c: seq<Change>)
    requires es == a + b + c && Chained(p, es)
    ensures Chained(p, b)
  {
    forall i | 0 < i < |b| ensures Follows(p, b[i - 1].row, b[i].row) {
      assert b[i - 1] == es[|a| + i - 1] && b[i] == es[|a| + i];
    }
  }

  lemma HistorySliceChained(cfg: Config, log: Log, p: Partition, k: Key, a: nat, b: nat)
    requires GoodLog(cfg, log) && p in log && a <= b <= |log[p]|
    ensures Chained(PolicyOf(cfg), History(cfg, log[p], k, a, b))
  {
    SliceChained(cfg, log[p], k, a, b);
  }

  lemma SliceChained(cfg: Config, entries: seq<Entry>, k: Key, a: nat, b: nat)
    requires a <= b <= |entries| && Chained(PolicyOf(cfg), History(cfg, entries, k, 0, |entries|))
    ensures Chained(PolicyOf(cfg), History(cfg, entries, k, a, b))
  {
    var n := |entries|;
    var lead, rest := History(cfg, entries, k, 0, a), History(cfg, entries, k, b, n);
    var part := History(cfg, entries, k, a, b);
    HistorySplit(cfg, entries, k, 0, a, n);
    HistorySplit(cfg, entries, k, a, b, n);
    assert lead + (part + rest) == lead + part + rest;
    ChainedSlice(PolicyOf(cfg), History(cfg, entries, k, 0, n), lead, part, rest);
  }

  lemma BufferedLogIsWellFormed(cfg: Config, log: Log, s: State)
    requires GoodLog(cfg, log) && Offsets(log, s) && Arrived(log, s) && InOrder(cfg, log, s)
    ensures WellFormedLog(cfg, Events(log, s.arrivals))
  {
    var es := Events(log, s.arrivals);
    EventsAreCarried(log, s.arrivals);
    forall k ensures Chained(PolicyOf(cfg), KeyChanges(es, cfg.primaryKeys, k)) {
      var changes := KeyChanges(es, cfg.primaryKeys, k);
      if changes != [] {
        KeyChangesAreFromList(es, cfg.primaryKeys, k);
        assert changes[0] in changes;
        var p :| Carries(log, p, changes[0]);
        assert OwnedBy(cfg, log, p, k);
        HistorySliceChained(cfg, log, p, k, s.base[p], s.position[p]);
      }
    }
  }

  // ---------------------------------------------------------------------------------------------
  // Every step keeps the invariant

  lemma StartIsFine(cfg: Config, log: Log, initial: Table)
    requires Mergeable(cfg) && AscendingLog(cfg, log, initial) && Settled(cfg, initial)
    ensures Inv(cfg, log, initial, Start(log, initial))
  {
    forall p, k | OwnedBy(cfg, log, p, k)
      ensures Convergence(cfg, log[p], k, Lookup(initial, k), Lookup(initial, k), 0, 0, 0, 0)
    {
      assert AcceptedIn(log[p], 0, 0) == [];
      assert Ascending(PolicyOf(cfg), cfg.idempotentKey, Lookup(initial, k), History(cfg, log[p], k, 0, |log[p]|));
      assert Reaching(cfg, log[p], k, Lookup(initial, k), Lookup(initial, k), 0, 0, 0);
    }
  }

  lemma OneStepHistory(cfg: Config, entries: seq<Entry>, k: Key, base: nat, offset: nat)
    requires base <= offset < |entries|
    ensures History(cfg, entries, k, base, offset + 1) == History(cfg, entries, k, base, offset) +
      if entries[offset].Accepted? && KeyOf(entries[offset].change.row, cfg.primaryKeys) == k
        then [entries[offset].change] else []
  {
    KeyChangesConcat(AcceptedIn(entries, base, offset),
      if entries[offset].Accepted? then [entries[offset].change] else [], cfg.primaryKeys, k);
    if entries[offset].Accepted? { OneKeyChange(entries[offset].change, cfg.primaryKeys, k); }
  }

  lemma OneKeyChange(e: Change, pks: seq<string>, k: Key)
    ensures KeyChanges([e], pks, k) == if KeyOf(e.row, pks) == k then [e] else []
  {
    assert [e][..0] == [] && KeyChanges([], pks, k) == [];
  }

  /** Appending a fetched change to the arrivals adds it to the history of its own key only. */
  lemma ArrivalExtendsHistory(cfg: Config, log: Log, ids: seq<Id>, p: Partition, offset: nat, q: Partition, k: Key,
      base: nat)
    requires IsAccepted(log, Id(p, offset)) && forall id :: id in ids ==> IsAccepted(log, id)
    requires OwnedBy(cfg, log, q, k)
    ensures forall id :: id in ids + [Id(p, offset)] ==> IsAccepted(log, id)
    ensures q != p ==>
      KeyChanges(Events(log, ids + [Id(p, offset)]), cfg.primaryKeys, k) ==
        KeyChanges(Events(log, ids), cfg.primaryKeys, k)
    ensures q == p && base <= offset && InOrderFor(cfg, log, ids, p, k, base, offset) ==>
      InOrderFor(cfg, log, ids + [Id(p, offset)], p, k, base, offset + 1)
  {
    var e := log[p][offset].change;
    EventsOfOneMore(log, ids, Id(p, offset));
    KeyChangesConcat(Events(log, ids), [e], cfg.primaryKeys, k);
    OneKeyChange(e, cfg.primaryKeys, k);
    assert Carries(log, p, e);
    if q == p && base <= offset { OneStepHistory(cfg, log[p], k, base, offset); }
  }

  lemma FetchFacts(cfg: Config, log: Log, s: State, p: Partition)
    requires Offsets(log, s) && Enabled(cfg, log, s, Fetch(p))
    ensures IsFetched(log, s, p, NextFetch(cfg, log, s, p))
  {}

  lemma FetchKeepsOrder(cfg: Config, log: Log, s: State, p: Partition)
    requires Offsets(log, s) && Arrived(log, s) && InOrder(cfg, log, s) && Enabled(cfg, log, s, Fetch(p))
    requires Offsets(log, NextFetch(cfg, log, s, p)) && Arrived(log, NextFetch(cfg, log, s, p))
    ensures InOrder(cfg, log, NextFetch(cfg, log, s, p))
  {
    FetchFacts(cfg, log, s, p);
    OrderAfterFetch(cfg, log, s, p, NextFetch(cfg, log, s, p));
  }

  ghost predicate IsFetched(log: Log, s: State, p: Partition, t: State)
    requires Offsets(log, s)
  {
    && p in log && s.position[p] < |log[p]| && t.base == s.base && t.position == s.position[p := s.position[p] + 1]
    && t.arrivals == if log[p][s.position[p]].Accepted? then s.arrivals + [Id(p, s.position[p])] else s.arrivals
  }

  lemma OrderAfterFetch(cfg: Config, log: Log, s: State, p: Partition, t: State)
    requires Offsets(log, s) && Arrived(log, s) && InOrder(cfg, log, s) && Offsets(log, t) && Arrived(log, t)
    requires IsFetched(log, s, p, t)
    ensures InOrder(cfg, log, t)
  {
    forall q, k | OwnedBy(cfg, log, q, k)
      ensures InOrderFor(cfg, log, t.arrivals, q, k, t.base[q], t.position[q])
    {
      KeyOrderAfterFetch(cfg, log, s, p, t, q, k);
    }
  }

  lemma KeyOrderAfterFetch(cfg: Config, log: Log, s: State, p: Partition, t: State, q: Partition, k: Key)
    requires Offsets(log, s) && IsFetched(log, s, p, t) && OwnedBy(cfg, log, q, k)
    requires forall id :: id in s.arrivals ==> IsAccepted(log, id)
    requires InOrderFor(cfg, log, s.arrivals, q, k, s.base[q], s.position[q])
    ensures q in t.base && q in t.position && t.position[q] <= |log[q]|
    ensures forall id :: id in t.arrivals ==> IsAccepted(log, id)
    ensures InOrderFor(cfg, log, t.arrivals, q, k, t.base[q], t.position[q])
  {
    FetchedHistory(cfg, log, s.arrivals, p, s.position[p], q, k, s.base[q], s.position[q]);
  }

  /** Reading one more entry of `p` keeps the arrivals in line with the history of every key. */
  lemma FetchedHistory(cfg: Config, log: Log, ids: seq<Id>, p: Partition, offset: nat, q: Partition, k: Key, base: nat,
      position: nat)
    requires p in log && offset < |log[p]| && OwnedBy(cfg, log, q, k) && position <= |log[q]|
    requires base <= position && (q == p ==> position == offset)
    requires forall id :: id in ids ==> IsAccepted(log, id)
    requires InOrderFor(cfg, log, ids, q, k, base, position)
    ensures var later := if log[p][offset].Accepted? then ids + [Id(p, offset)] else ids;
      && (forall id :: id in later ==> IsAccepted(log, id))
      && InOrderFor(cfg, log, later, q, k, base, if q == p then position + 1 else position)
  {
    if log[p][offset].Accepted? {
      ArrivalExtendsHistory(cfg, log, ids, p, offset, q, k, base);
    } else if q == p {
      OneStepHistory(cfg, log[p], k, base, offset);
    }
  }

  /** A merge applies to every key the buffered part of its history, if the gate lets it through. */
  lemma MergedRowOf(cfg: Config, log: Log, initial: Table, s: State, p: Partition, k: Key)
    requires Mergeable(cfg) && GoodLog(cfg, log) && Inv(cfg, log, initial, s) && s.buffer.Some?
    requires OwnedBy(cfg, log, p, k)
    ensures var es := History(cfg, log[p], k, s.base[p], s.position[p]);
      && Marked(es) && Chained(PolicyOf(cfg), es)
      && Lookup(MergeBuffer(cfg, s.buffer.value, s.destination), k) ==
           MergedOnto(PolicyOf(cfg), cfg.idempotentKey, Lookup(s.destination, k), es)
  {
    BufferedLogIsWellFormed(cfg, log, s);
    BufferWithoutMessages(cfg, s.buffer.value, s.destination);
    GatedMergeAt(cfg, Events(log, s.arrivals), s.destination, k);
    KeyChangesAreFromList(Events(log, s.arrivals), cfg.primaryKeys, k);
    HistorySliceChained(cfg, log, p, k, s.base[p], s.position[p]);
  }

  lemma BufferWithoutMessages(cfg: Config, b: Buffer, target: Table)
    ensures MergeBuffer(cfg, b, target) == MergeBuffer(cfg, b.(lastMessages := map[]), target)
  {
    assert Argument(cfg, b) == Argument(cfg, b.(lastMessages := map[]));
  }

  /** Convergence from `base` gives, after a merge, convergence from any base up to the position. */
  lemma ConvergenceAfterMerge(cfg: Config, entries: seq<Entry>, k: Key, initial: Option<Row>, before: Option<Row>,
      base: nat, committed: nat, applied: nat, frontier: nat, position: nat, newBase: nat, newCommitted: nat)
    requires Convergence(cfg, entries, k, initial, before, base, committed, applied, frontier)
    requires base <= newBase <= position <= |entries| && newCommitted <= position
    requires cfg.idempotentKey != "" ==> cfg.idempotentKey in PolicyOf(cfg).columns
    requires Ascending(PolicyOf(cfg), cfg.idempotentKey, initial, History(cfg, entries, k, 0, |entries|))
    requires var es := History(cfg, entries, k, base, position);
      Marked(es) && Chained(PolicyOf(cfg), es) && Shaped(PolicyOf(cfg), before)
    ensures var after := MergedOnto(PolicyOf(cfg), cfg.idempotentKey, before, History(cfg, entries, k, base, position));
      Convergence(cfg, entries, k, initial, after, newBase, newCommitted, position,
        if frontier < position then position else frontier)
  {
    var reach :| committed <= reach && applied <= reach
      && Reaching(cfg, entries, k, initial, before, base, reach, frontier);
    var after := MergedOnto(PolicyOf(cfg), cfg.idempotentKey, before, History(cfg, entries, k, base, position));
    var further := ReachAfterMerge(cfg, entries, k, initial, before, base, reach, frontier, position);
    assert Reaching(cfg, entries, k, initial, after, newBase, further,
      if frontier < position then position else frontier);
  }

  /** Where a merge leaves the offsets of one partition. */
  lemma MergedOffsets(cfg: Config, log: Log, s: State, commits: set<Partition>, p: Partition)
    requires Safe(cfg, log, s) && Enabled(cfg, log, s, MergeSucceeds(commits)) && p in log
    ensures var t := NextMerge(cfg, s, commits);
      && p in t.base && p in t.committed && p in t.applied && p in t.frontier
      && s.base[p] <= t.base[p] <= s.position[p] && t.committed[p] <= s.position[p] && t.applied[p] == s.position[p]
      && t.frontier[p] == (if s.frontier[p] < s.position[p] then s.position[p] else s.frontier[p])
  {
    CommitOffsets(cfg, log, s, commits, p);
  }

  lemma MergedKeyConverges(cfg: Config, log: Log, initial: Table, s: State, commits: set<Partition>, p: Partition,
      k: Key)
    requires Mergeable(cfg) && GoodLog(cfg, log) && AscendingLog(cfg, log, initial)
    requires Inv(cfg, log, initial, s) && Enabled(cfg, log, s, MergeSucceeds(commits))
    requires OwnedBy(cfg, log, p, k) && Offsets(log, NextMerge(cfg, s, commits))
    ensures var t := NextMerge(cfg, s, commits);
      Convergence(cfg, log[p], k, Lookup(initial, k), Lookup(t.destination, k),
        t.base[p], t.committed[p], t.applied[p], t.frontier[p])
  {
    var t := NextMerge(cfg, s, commits);
    MergedOffsets(cfg, log, s, commits, p);
    MergedRowOf(cfg, log, initial, s, p, k);
    assert Shaped(PolicyOf(cfg), Lookup(s.destination, k));
    ConvergenceAfterMerge(cfg, log[p], k, Lookup(initial, k), Lookup(s.destination, k),
      s.base[p], s.committed[p], s.applied[p], s.frontier[p], s.position[p], t.base[p], t.committed[p]);
  }

  lemma MergeKeepsConvergence(cfg: Config, log: Log, initial: Table, s: State, commits: set<Partition>)
    requires Mergeable(cfg) && GoodLog(cfg, log) && AscendingLog(cfg, log, initial)
    requires Inv(cfg, log, initial, s) && Enabled(cfg, log, s, MergeSucceeds(commits))
    ensures Offsets(log, NextMerge(cfg, s, commits)) && Convergent(cfg, log, initial, NextMerge(cfg, s, commits))
  {
    var t := NextMerge(cfg, s, commits);
    assert s.arrivals[0] in s.arrivals && IsAccepted(log, s.arrivals[0]);
    MergeKeepsOffsets(cfg, log, s, commits);
    BufferedLogIsWellFormed(cfg, log, s);
    BufferWithoutMessages(cfg, s.buffer.value, s.destination);
    GatedMergeSettled(cfg, Events(log, s.arrivals), s.destination);
    forall p, k | OwnedBy(cfg, log, p, k)
      ensures Convergence(cfg, log[p], k, Lookup(initial, k), Lookup(t.destination, k),
        t.base[p], t.committed[p], t.applied[p], t.frontier[p])
    {
      MergedKeyConverges(cfg, log, initial, s, commits, p, k);
    }
  }

  lemma ConvergenceFromCommitted(cfg: Config, entries: seq<Entry>, k: Key, initial: Option<Row>, now: Option<Row>,
      base: nat, committed: nat, applied: nat, frontier: nat)
    requires base <= committed && Convergence(cfg, entries, k, initial, now, base, committed, applied, frontier)
    ensures Convergence(cfg, entries, k, initial, now, committed, committed, applied, frontier)
  {
    var reach :| committed <= reach && applied <= reach
      && Reaching(cfg, entries, k, initial, now, base, reach, frontier);
    assert Reaching(cfg, entries, k, initial, now, committed, reach, frontier);
  }

  lemma CrashKeepsInv(cfg: Config, log: Log, initial: Table, s: State)
    requires Inv(cfg, log, initial, s) && Safe(cfg, log, NextCrash(s))
    ensures Inv(cfg, log, initial, NextCrash(s))
  {
    var t := NextCrash(s);
    forall p, k | OwnedBy(cfg, log, p, k)
      ensures Convergence(cfg, log[p], k, Lookup(initial, k), Lookup(t.destination, k),
        t.base[p], t.committed[p], t.applied[p], t.frontier[p])
      ensures InOrderFor(cfg, log, t.arrivals, p, k, t.base[p], t.position[p])
    {
      ConvergenceFromCommitted(cfg, log[p], k, Lookup(initial, k), Lookup(s.destination, k),
        s.base[p], s.committed[p], s.applied[p], s.frontier[p]);
      assert AcceptedIn(log[p], t.base[p], t.position[p]) == [];
    }
  }

  lemma MergeKeepsOrder(cfg: Config, log: Log, initial: Table, s: State, commits: set<Partition>)
    requires Inv(cfg, log, initial, s) && Enabled(cfg, log, s, MergeSucceeds(commits))
    requires Safe(cfg, log, NextMerge(cfg, s, commits))
    ensures InOrder(cfg, log, NextMerge(cfg, s, commits))
  {
    var t := NextMerge(cfg, s, commits);
    if t.buffer.None? {
      forall p, k | OwnedBy(cfg, log, p, k)
        ensures InOrderFor(cfg, log, t.arrivals, p, k, t.base[p], t.position[p])
      {
        WipedIsSkipped(cfg, log, s, commits, p);
        SkippedHistory(cfg, log[p], k, t.base[p], t.position[p]);
      }
    }
  }

  lemma StepKeepsInv(cfg: Config, log: Log, initial: Table, s: State, step: Step)
    requires Mergeable(cfg) && GoodLog(cfg, log) && AscendingLog(cfg, log, initial)
    requires Inv(cfg, log, initial, s) && Enabled(cfg, log, s, step)
    ensures Inv(cfg, log, initial, Next(cfg, log, s, step))
  {
    StepIsSafe(cfg, log, s, step);
    match step
    case Fetch(p) => FetchKeepsInv(cfg, log, initial, s, p);
    case MergeSucceeds(commits) =>
      MergeKeepsConvergence(cfg, log, initial, s, commits);
      MergeKeepsOrder(cfg, log, initial, s, commits);
    case Crash => CrashKeepsInv(cfg, log, initial, s);
    case MergeFails =>
  }

  lemma FetchKeepsInv(cfg: Config, log: Log, initial: Table, s: State, p: Partition)
    requires Inv(cfg, log, initial, s) && Enabled(cfg, log, s, Fetch(p))
    requires Safe(cfg, log, NextFetch(cfg, log, s, p))
    ensures Inv(cfg, log, initial, NextFetch(cfg, log, s, p))
  {
    FetchKeepsOrder(cfg, log, s, p);
  }

  // ---------------------------------------------------------------------------------------------
  // Runs

  lemma {:induction false} RunKeepsInv(cfg: Config, log: Log, initial: Table, steps: seq<Step>, s: State)
    requires Mergeable(cfg) && GoodLog(cfg, log) && AscendingLog(cfg, log, initial)
    requires Settled(cfg, initial) && Reaches(cfg, log, initial, steps, s)
    ensures Inv(cfg, log, initial, s)
  {
    if steps == [] {
      StartIsFine(cfg, log, initial);
    } else {
      var front, last := steps[..|steps| - 1], steps[|steps| - 1];
      var before := LastStep(cfg, log, initial, steps, s);
      RunKeepsInv(cfg, log, initial, front, before);
      StepKeepsInv(cfg, log, initial, before, last);
    }
  }

  /** Per key: once the latest merge or the commit is at the frontier, the row is the log applied once. */
  lemma RowIsLogAppliedOnce(cfg: Config, log: Log, initial: Table, s: State, p: Partition, k: Key)
    requires Inv(cfg, log, initial, s) && OwnedBy(cfg, log, p, k)
    requires s.applied[p] == s.frontier[p] || s.committed[p] == s.frontier[p]
    ensures Lookup(s.destination, k) ==
      Replayed(PolicyOf(cfg), Lookup(initial, k), History(cfg, log[p], k, 0, s.frontier[p]))
  {
    var i, now, f := Lookup(initial, k), Lookup(s.destination, k), s.frontier[p];
    assert Convergence(cfg, log[p], k, i, now, s.base[p], s.committed[p], s.applied[p], f);
    var reach :| s.committed[p] <= reach && s.applied[p] <= reach
      && Reaching(cfg, log[p], k, i, now, s.base[p], reach, f);
    assert Converges(cfg, log[p], k, i, now, f, f);
    assert AcceptedIn(log[p], f, f) == [];
  }

  /** Merging a listing of what was accepted, one by one, is never held back by the gate. */
  lemma OnceAt(cfg: Config, log: Log, initial: Table, upTo: map<Partition, nat>, once: seq<Change>, p: Partition,
      k: Key)
    requires Mergeable(cfg) && GoodLog(cfg, log) && AscendingLog(cfg, log, initial) && Settled(cfg, initial)
    requires upTo.Keys == log.Keys && forall q :: q in log ==> upTo[q] <= |log[q]|
    requires Interleaves(cfg, log, upTo, once) && OwnedBy(cfg, log, p, k)
    ensures Lookup(OneByOne(cfg, initial, once), k) ==
      Replayed(PolicyOf(cfg), Lookup(initial, k), History(cfg, log[p], k, 0, upTo[p]))
  {
    var rules, g, d := PolicyOf(cfg), cfg.idempotentKey, Lookup(initial, k);
    var es, rest := History(cfg, log[p], k, 0, upTo[p]), History(cfg, log[p], k, upTo[p], |log[p]|);
    OnceIsProper(cfg, log, once);
    GatedOneByOneAt(cfg, initial, once, k);
    HistorySplit(cfg, log[p], k, 0, upTo[p], |log[p]|);
    AscendingRises(rules, g, d, es, rest);
    RisingIsNotGated(rules, g, d, es);
  }

  lemma OnceIsProper(cfg: Config, log: Log, once: seq<Change>)
    requires GoodLog(cfg, log) && forall e :: e in once ==> exists p :: Carries(log, p, e)
    ensures AllProper(once, cfg.primaryKeys) && WithinColumns(once, cfg.schema)
  {}

  /** `once` lists the accepted messages below `upTo`, each partition in its own order. */
  ghost predicate Interleaves(cfg: Config, log: Log, upTo: map<Partition, nat>, once: seq<Change>)
    requires upTo.Keys == log.Keys && forall p :: p in log ==> upTo[p] <= |log[p]|
  {
    && (forall e :: e in once ==> exists p :: Carries(log, p, e))
    && (forall p, k :: OwnedBy(cfg, log, p, k) ==>
      KeyChanges(once, cfg.primaryKeys, k) == History(cfg, log[p], k, 0, upTo[p]))
  }

  /** Every key is owned by some partition, unless there is none. */
  lemma SomeOwner(cfg: Config, log: Log, k: Key) returns (p: Partition)
    requires GoodLog(cfg, log) && log != map[]
    ensures OwnedBy(cfg, log, p, k)
  {
    if q, e :| Carries(log, q, e) && KeyOf(e.row, cfg.primaryKeys) == k {
      p := q;
    } else {
      p :| p in log.Keys;
    }
  }

  /**
   * Exactly once: in any reachable state where every partition's latest merge (or commit) is at the
   * furthest position ever merged, the destination is the table that merging the accepted messages
   * one by one, each exactly once and in order, gives.
   */
  lemma ExactlyOnce(cfg: Config, log: Log, initial: Table, steps: seq<Step>, s: State, once: seq<Change>)
    requires Mergeable(cfg) && GoodLog(cfg, log) && AscendingLog(cfg, log, initial)
    requires Settled(cfg, initial) && Reaches(cfg, log, initial, steps, s)
    requires s.frontier.Keys == s.applied.Keys == s.committed.Keys == log.Keys
    requires forall p :: p in log ==> s.frontier[p] <= |log[p]|
    requires forall p :: p in log ==> s.applied[p] == s.frontier[p] || s.committed[p] == s.frontier[p]
    requires Interleaves(cfg, log, s.frontier, once)
    ensures s.destination == OneByOne(cfg, initial, once)
  {
    RunKeepsInv(cfg, log, initial, steps, s);
    if log == map[] { NothingInEmpty(once); }
    forall k | log != map[] ensures Lookup(s.destination, k) == Lookup(OneByOne(cfg, initial, once), k) {
      var p := SomeOwner(cfg, log, k);
      RowIsLogAppliedOnce(cfg, log, initial, s, p, k);
      OnceAt(cfg, log, initial, s.frontier, once, p, k);
    }
    if log != map[] { SameLookups(s.destination, OneByOne(cfg, initial, once)); }
  }

  lemma MergeMovesFrontier(cfg: Config, s: State, commits: set<Partition>)
    requires s.buffer.Some? && s.frontier.Keys == s.position.Keys == s.committed.Keys
    requires forall p :: p in s.frontier ==> s.frontier[p] <= s.position[p]
    ensures var t := NextMerge(cfg, s, commits);
      t.frontier == s.position && t.applied == s.position && t.committed.Keys == s.committed.Keys
  {
    assert Furthest(s.frontier, s.position) == s.position;
  }

  /** The merge that takes a replay past everything merged before it restores the table. */
  lemma ReplayRestores(cfg: Config, log: Log, initial: Table, steps: seq<Step>, s: State, commits: set<Partition>,
      once: seq<Change>)
    requires Mergeable(cfg) && GoodLog(cfg, log) && AscendingLog(cfg, log, initial)
    requires Settled(cfg, initial) && Reaches(cfg, log, initial, steps, s)
    requires Enabled(cfg, log, s, MergeSucceeds(commits))
    requires s.frontier.Keys == s.position.Keys == log.Keys
    requires forall p :: p in log ==> s.frontier[p] <= s.position[p] <= |log[p]|
    requires Interleaves(cfg, log, s.position, once)
    ensures Next(cfg, log, s, MergeSucceeds(commits)).destination == OneByOne(cfg, initial, once)
  {
    var t := NextMerge(cfg, s, commits);
    assert s.committed.Keys == log.Keys by { RunKeepsInv(cfg, log, initial, steps, s); }
    MergeMovesFrontier(cfg, s, commits);
    ReachesNext(cfg, log, initial, steps, s, MergeSucceeds(commits));
    ExactlyOnce(cfg, log, initial, steps + [MergeSucceeds(commits)], t, once);
  }

  // ---------------------------------------------------------------------------------------------
  // Such a listing always exists: one partition after the other

  function Sequential(log: Log, order: seq<Partition>, upTo: map<Partition, nat>): seq<Change>
    requires forall p :: p in order ==> p in log && p in upTo && upTo[p] <= |log[p]|
  {
    if order == [] then []
    else
      var last := order[|order| - 1];
      assert last in order;
      Sequential(log, order[..|order| - 1], upTo) + AcceptedIn(log[last], 0, upTo[last])
  }

  lemma {:induction false} NoForeignChanges(cfg: Config, log: Log, p: Partition, q: Partition, k: Key, n: nat)
    requires OwnedBy(cfg, log, p, k) && q in log && q != p && n <= |log[q]|
    ensures History(cfg, log[q], k, 0, n) == []
  {
    AcceptedFromLog(log, q, 0, n);
    KeyChangesAreFromList(AcceptedIn(log[q], 0, n), cfg.primaryKeys, k);
    NothingInEmpty(History(cfg, log[q], k, 0, n));
  }

  lemma {:induction false} SequentialAt(cfg: Config, log: Log, order: seq<Partition>, upTo: map<Partition, nat>,
      p: Partition, k: Key)
    requires forall q :: q in order ==> q in log && q in upTo && upTo[q] <= |log[q]|
    requires forall i, j :: 0 <= i < j < |order| ==> order[i] != order[j]
    requires OwnedBy(cfg, log, p, k)
    ensures KeyChanges(Sequential(log, order, upTo), cfg.primaryKeys, k) ==
      if p in order then History(cfg, log[p], k, 0, upTo[p]) else []
  {
    if order != [] {
      var front, last := order[..|order| - 1], order[|order| - 1];
      assert last in order && forall q :: q in front ==> q in order;
      assert p in order <==> p in front || p == last by { assert order == front + [last]; }
      SequentialAt(cfg, log, front, upTo, p, k);
      KeyChangesConcat(Sequential(log, front, upTo), AcceptedIn(log[last], 0, upTo[last]), cfg.primaryKeys, k);
      if last != p { NoForeignChanges(cfg, log, p, last, k, upTo[last]); }
    }
  }

  lemma {:induction false} SequentialIsCarried(log: Log, order: seq<Partition>, upTo: map<Partition, nat>)
    requires forall q :: q in order ==> q in log && q in upTo && upTo[q] <= |log[q]|
    ensures forall e :: e in Sequential(log, order, upTo) ==> exists q :: Carries(log, q, e)
  {
    if order != [] {
      var front, last := order[..|order| - 1], order[|order| - 1];
      assert last in order && forall q :: q in front ==> q in order;
      SequentialIsCarried(log, front, upTo);
      AcceptedFromLog(log, last, 0, upTo[last]);
    }
  }

  /** Reading the partitions one after the other lists every accepted message exactly once. */
  lemma SequentialInterleaves(cfg: Config, log: Log, order: seq<Partition>, upTo: map<Partition, nat>)
    requires upTo.Keys == log.Keys && forall p :: p in log ==> upTo[p] <= |log[p]|
    requires forall p :: p in order <==> p in log
    requires forall i, j :: 0 <= i < j < |order| ==> order[i] != order[j]
    requires GoodLog(cfg, log)
    ensures Interleaves(cfg, log, upTo, Sequential(log, order, upTo))
  {
    forall p, k | OwnedBy(cfg, log, p, k)
      ensures KeyChanges(Sequential(log, order, upTo), cfg.primaryKeys, k) == History(cfg, log[p], k, 0, upTo[p])
    {
      SequentialAt(cfg, log, order, upTo, p, k);
    }
    SequentialIsCarried(log, order, upTo);
    if log == map[] { NothingInEmpty(order); }
  }
}
