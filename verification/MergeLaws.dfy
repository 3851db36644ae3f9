/** Laws of the merge programs: idempotence, idempotent-key order and placeholder safety. */
module MergeLaws {
  import opened Values
  import opened Texts
  import opened Sql
  import opened ColumnLists
  import opened Dml
  import opened MergeMeaning
  import opened MergePrograms

  // ---------------------------------------------------------------------------------------------
  // Idempotence

  lemma MergedTwice(r: Rules, c: Row, cc: Row)
    ensures MergedRow(r, MergedRow(r, c, cc), cc) == MergedRow(r, c, cc)
  {}

  lemma OutcomeIdempotent(r: Rules, d: Option<Row>, cc: Row)
    ensures Outcome(r, Outcome(r, d, cc), cc) == Outcome(r, d, cc)
  {
    if d.Some? { MergedTwice(r, d.value, cc); }
    MergedOntoInserted(r, cc);
  }

  /** What a destination's program leaves under a key, whether or not its DELETE part is there. */
  function ProgramAt(m: MergeArgument, target: Table, staging: Table, k: Key): Option<Row>
    requires Runnable(m)
  {
    if m.destKind == Redshift && !m.softDelete then HardPartsAt(m, target, staging, k)
    else OutcomeAt(RulesOf(m), target, staging, k)
  }

  lemma ProgramLookup(m: MergeArgument, target: Table, staging: Table, k: Key)
    requires Runnable(m)
    requires Keyed(target, m.primaryKeys) && Keyed(staging, m.primaryKeys) && TypedMarkers(staging)
    ensures Program(m).Ok? && forall s :: s in Program(m).value ==> WellFormed(s)
    ensures Lookup(ExecAll(Program(m).value, target, staging), k) == ProgramAt(m, target, staging, k)
  {
    RunnableHasProgram(m);
    if m.destKind == Redshift && !m.softDelete {
      HardPartsMeaning(m, target, staging, k);
    } else {
      ProgramMeaning(m, target, staging);
      MergeTableAt(RulesOf(m), target, staging, k);
    }
  }

  /** Running a program keeps the primary key of the target. */
  lemma ProgramKeyed(m: MergeArgument, target: Table, staging: Table)
    requires Runnable(m)
    requires Keyed(target, m.primaryKeys) && Keyed(staging, m.primaryKeys) && TypedMarkers(staging)
    ensures Program(m).Ok? && forall s :: s in Program(m).value ==> WellFormed(s)
    ensures Keyed(ExecAll(Program(m).value, target, staging), m.primaryKeys)
  {
    RunnableHasProgram(m);
    var result := ExecAll(Program(m).value, target, staging);
    forall k | k in result ensures KeyOf(result[k], m.primaryKeys) == k && Nil !in k {
      ProgramLookup(m, target, staging, k);
      if k in staging {
        OutcomeKey(m, Lookup(target, k), staging[k]);
        InsertedKey(m, staging[k]);
      }
    }
  }

  /** Merging the same batch twice is merging it once, for every destination, mode and key setting. */
  lemma ProgramIdempotent(m: MergeArgument, target: Table, staging: Table)
    requires Runnable(m)
    requires Keyed(target, m.primaryKeys) && Keyed(staging, m.primaryKeys) && TypedMarkers(staging)
    ensures Program(m).Ok? && forall s :: s in Program(m).value ==> WellFormed(s)
    ensures var once := ExecAll(Program(m).value, target, staging);
      ExecAll(Program(m).value, once, staging) == once
  {
    RunnableHasProgram(m);
    var once := ExecAll(Program(m).value, target, staging);
    var twice := ExecAll(Program(m).value, once, staging);
    ProgramKeyed(m, target, staging);
    forall k ensures Lookup(twice, k) == Lookup(once, k) {
      ProgramLookup(m, target, staging, k);
      ProgramLookup(m, once, staging, k);
      if k in staging { OutcomeIdempotent(RulesOf(m), Lookup(target, k), staging[k]); }
    }
    SameLookups(twice, once);
  }

  // ---------------------------------------------------------------------------------------------
  // Idempotent key

  /** The value did not go down: it is the same, or it compares as greater or equal. */
  predicate NotBelow(after: Value, before: Value) {
    after == before || AtLeast(after, before) == Bool(true)
  }

  lemma NotBelowTransitive(a: Value, b: Value, c: Value)
    requires NotBelow(a, b) && NotBelow(b, c)
    ensures NotBelow(a, c)
  {
    if TextOf(a).Some? && TextOf(b).Some? && TextOf(c).Some? && a != b && b != c {
      LexTransitive(TextOf(c).value, TextOf(b).value, TextOf(a).value);
    }
  }

  /** One merge of a sequence: every buffer brings its own columns and flags. */
  datatype Batch = Batch(columns: seq<Column>, staging: Table)

  function MergeNext(r: Rules, target: Table, batch: Batch): Table {
    MergeTable(r.(columns := batch.columns), target, batch.staging)
  }

  function MergeAll(r: Rules, target: Table, batches: seq<Batch>): Table
    decreases |batches|
  {
    if batches == [] then target else MergeAll(r, MergeNext(r, target, batches[0]), batches[1..])
  }

  /** The key is present before and after every one of the merges. */
  predicate Survives(r: Rules, target: Table, batches: seq<Batch>, k: Key)
    decreases |batches|
  {
    k in target && (batches == [] || Survives(r, MergeNext(r, target, batches[0]), batches[1..], k))
  }

  lemma MergedKeyNotBelow(r: Rules, target: Table, batch: Batch, k: Key)
    requires r.idempotentKey != "" && k in target && k in MergeNext(r, target, batch)
    ensures NotBelow(Cell(MergeNext(r, target, batch)[k], r.idempotentKey), Cell(target[k], r.idempotentKey))
  {
    MergeTableAt(r.(columns := batch.columns), target, batch.staging, k);
  }

  /**
   * Over any run of merges, each with columns and flags of its own, the idempotent key of a row that
   * survives never goes down.
   */
  lemma {:induction false} IdempotentKeyNeverDecreases(r: Rules, target: Table, batches: seq<Batch>, k: Key)
    requires r.idempotentKey != "" && Survives(r, target, batches, k)
    ensures k in MergeAll(r, target, batches)
    ensures NotBelow(Cell(MergeAll(r, target, batches)[k], r.idempotentKey), Cell(target[k], r.idempotentKey))
    decreases |batches|
  {
    if batches != [] {
      var next := MergeNext(r, target, batches[0]);
      IdempotentKeyNeverDecreases(r, next, batches[1..], k);
      MergedKeyNotBelow(r, target, batches[0], k);
      var last := MergeAll(r, target, batches);
      NotBelowTransitive(Cell(last[k], r.idempotentKey), Cell(next[k], r.idempotentKey),
        Cell(target[k], r.idempotentKey));
    }
  }

  /** For numbers and texts that is their own order, and a value never turns into NULL. */
  lemma OrderedKeyNeverDecreases(r: Rules, target: Table, batches: seq<Batch>, k: Key)
    requires r.idempotentKey != "" && Survives(r, target, batches, k)
    ensures k in MergeAll(r, target, batches)
    ensures var before := Cell(target[k], r.idempotentKey);
      var after := Cell(MergeAll(r, target, batches)[k], r.idempotentKey);
      && (before.Num? ==> after.Num? && after.n >= before.n)
      && (before.Text? && after.Text? ==> LexLeq(before.s, after.s))
      && (before != Nil ==> after != Nil)
  {
    IdempotentKeyNeverDecreases(r, target, batches, k);
    AtLeastIs();
    var before := Cell(target[k], r.idempotentKey);
    if before.Text? { LexReflexive(before.s); }
  }

  /** A staged row whose key value is not at least the target's leaves a live row as it was. */
  lemma LateRowIgnored(r: Rules, target: Table, staging: Table, k: Key)
    requires r.idempotentKey != "" && k in target && k in staging
    requires r.softDelete || !MarkedDeleted(staging[k])
    ensures var after := Lookup(MergeTable(r, target, staging), k);
      if AtLeast(Cell(staging[k], r.idempotentKey), Cell(target[k], r.idempotentKey)) == Bool(true)
      then after == Some(MergedRow(r, target[k], staging[k]))
      else after == Some(target[k])
  {
    MergeTableAt(r, target, staging, k);
  }

  // ---------------------------------------------------------------------------------------------
  // Placeholders

  /** Every placeholder of the row sits in a column flagged as unavailable. */
  predicate Covered(cols: seq<Column>, row: Row) {
    forall x :: x in row && row[x] == Toast ==> Flagged(cols, x)
  }

  /** A row with covered placeholders never overwrites a stored value with the placeholder. */
  lemma OutcomeKeepsValues(r: Rules, c: Row, cc: Row, x: string)
    requires Covered(r.columns, cc)
    requires Outcome(r, Some(c), cc).Some?
    ensures Cell(Outcome(r, Some(c), cc).value, x) == Toast ==> Cell(c, x) == Toast
  {}

  /** No program replaces an existing value of the target with the placeholder. */
  lemma ProgramKeepsValues(m: MergeArgument, target: Table, staging: Table)
    requires Runnable(m)
    requires Keyed(target, m.primaryKeys) && Keyed(staging, m.primaryKeys) && TypedMarkers(staging)
    requires forall k :: k in staging ==> Covered(m.columns, staging[k])
    ensures Program(m).Ok? && forall s :: s in Program(m).value ==> WellFormed(s)
    ensures var after := ExecAll(Program(m).value, target, staging);
      forall k, x :: k in target && k in after && Cell(after[k], x) == Toast ==> Cell(target[k], x) == Toast
  {
    RunnableHasProgram(m);
    var after := ExecAll(Program(m).value, target, staging);
    forall k, x | k in target && k in after && Cell(after[k], x) == Toast ensures Cell(target[k], x) == Toast {
      ProgramLookup(m, target, staging, k);
      if k in staging && Outcome(RulesOf(m), Some(target[k]), staging[k]).Some? {
        OutcomeKeepsValues(RulesOf(m), target[k], staging[k], x);
      }
    }
  }
}
