/** Opening a scan, running it to the end, and what a whole run guarantees. */
module Runs {
  import opened Wrappers
  import opened Types
  import opened Layouts
  import opened Plans
  import opened Zones
  import opened ZoneTruth
  import opened PlanBuilder
  import opened Cursors
  import opened Scan

  // ---------------------------------------------------------------- opening

  /** Predicates on columns that are not signed integers are dropped. */
  function Kept(f: File, preds: seq<(nat, Predicate)>): (r: seq<(nat, Predicate)>)
    requires forall j | 0 <= j < |preds| :: preds[j].0 < |f.dtype.fields|
    ensures forall j | 0 <= j < |r| :: r[j].0 < |f.dtype.fields|
  {
    if preds == [] then []
    else
      var last := |preds| - 1;
      Kept(f, preds[..last]) + if f.dtype.fields[preds[last].0].IsSigned() then [preds[last]] else []
  }

  /** The field exists and its layouts can be streamed. */
  ghost predicate Plannable(f: File, k: nat) {
    k < |f.dtype.fields| && FieldPlan(f, f.root, f.dtype, k, 0).Ok?
  }

  /** A column cursor over the plan of field `k`. */
  ghost predicate CursorOf(f: File, c: ColumnCursor, k: nat) {
    && Plannable(f, k)
    && c.pieces == FieldPlan(f, f.root, f.dtype, k, 0).value.pieces
    && c.dtype == f.dtype.fields[k]
  }

  /** Zone references made from the plan of field `k`. */
  ghost predicate ZonesOf(f: File, zones: seq<ZoneRef>, k: nat) {
    && Plannable(f, k)
    && var specs := FieldPlan(f, f.root, f.dtype, k, 0).value.zones;
       |zones| == |specs| && forall i | 0 <= i < |zones| :: zones[i].spec == specs[i]
  }

  /** A plan object built for field `k`. */
  ghost predicate PlanOf(f: File, plan: ColumnPlan, k: nat)
    requires f.Valid()
    reads plan, plan.zones
  {
    && Plannable(f, k)
    && var spec := FieldPlan(f, f.root, f.dtype, k, 0).value;
       && plan.pieces == spec.pieces
       && Pristine(plan.zones, spec.zones)
  }

  lemma {:induction false} PlanFacts(f: File, plan: ColumnPlan, k: nat)
    requires f.Valid() && PlanOf(f, plan, k)
    ensures Tiles(plan.pieces, 0, f.root.rows) && Typed(plan.pieces, f.dtype.fields[k])
    ensures k < |f.dtype.fields| && ZonesOf(f, plan.zones, k) && ZonesReady(f, plan.zones)
    ensures FieldPlan(f, f.root, f.dtype, k, 0).Ok? && plan.pieces == FieldPlan(f, f.root, f.dtype, k, 0).value.pieces
  {
    hide FieldPlan, Statistics;
    FieldPlanTiles(f, f.root, f.dtype, k, 0);
  }

  /** The zone references of all plans are among `known`. */
  ghost predicate ZonesKnown(plans: map<nat, ColumnPlan>, known: set<ZoneRef>)
    reads plans.Values
  {
    forall k, i | k in plans && 0 <= i < |plans[k].zones| :: plans[k].zones[i] in known
  }

  /** `getPlan`: the plan of a field, built once. */
  method GetPlan(f: File, plans: map<nat, ColumnPlan>, k: nat, ghost known: set<ZoneRef>)
    returns (plan: ColumnPlan, next: map<nat, ColumnPlan>, err: Option<Error>, ghost more: set<ZoneRef>)
    requires f.Valid() && (forall i | i in plans :: PlanOf(f, plans[i], i)) && ZonesKnown(plans, known)
    ensures err.None? ==> PlanOf(f, plan, k) && k in next && next[k] == plan
    ensures err.None? <==> Plannable(f, k)
    ensures forall i | i in next :: PlanOf(f, next[i], i)
    ensures ZonesKnown(next, more) && forall z | z in more :: z in known || fresh(z)
  {
    hide FieldPlan;
    plan := new ColumnPlan();
    next, err, more := plans, None, known;
    if k >= |f.dtype.fields| { err := Some(Invalid); return; }
    if k in plans { plan := plans[k]; return; }
    err := BuildFieldPlan(f, f.root, f.dtype, k, 0, plan);
    if err.Some? { return; }
    ghost var spec := FieldPlan(f, f.root, f.dtype, k, 0).value;
    assert [] + spec.pieces == spec.pieces;
    assert plan.zones[0..] == plan.zones;
    next := plans[k := plan];
    more := known + set i | 0 <= i < |plan.zones| :: plan.zones[i];
  }

  /** A cursor at the start of a valid plan. */
  ghost predicate CursorReady(f: File, c: ColumnCursor)
    requires f.Valid()
    reads c
  {
    c.Valid(f) && Tiles(c.pieces, 0, f.root.rows) && c.index == 0
  }

  method OpenColumns(f: File, fields: seq<nat>)
    returns (columns: seq<ColumnCursor>, plans: map<nat, ColumnPlan>, err: Option<Error>, ghost known: set<ZoneRef>)
    requires f.Valid()
    ensures forall i | i in plans :: PlanOf(f, plans[i], i)
    ensures ZonesKnown(plans, known) && forall z | z in known :: fresh(z)
    ensures err.None? <==> forall k | k in fields :: Plannable(f, k)
    ensures err.None? ==> |columns| == |fields|
    ensures err.None? ==> forall i | 0 <= i < |columns| ::
              fresh(columns[i]) && CursorOf(f, columns[i], fields[i]) && CursorReady(f, columns[i])
    ensures err.None? ==> forall i, j | 0 <= i < j < |columns| :: columns[i] != columns[j]
  {
    hide FieldPlan, Statistics, PlanOf, Tiles, Typed, ZonesOf, ZonesReady, Plannable;
    columns, plans, known, err := [], map[], {}, None;
    for i := 0 to |fields|
      invariant forall k | k in plans :: PlanOf(f, plans[k], k)
      invariant ZonesKnown(plans, known) && forall z | z in known :: fresh(z)
      invariant |columns| == i && err.None? && forall k | 0 <= k < i :: Plannable(f, fields[k])
      invariant forall k | 0 <= k < i ::
                  fresh(columns[k]) && CursorOf(f, columns[k], fields[k]) && CursorReady(f, columns[k])
      invariant forall k, j | 0 <= k < j < i :: columns[k] != columns[j]
    {
      var plan;
      plan, plans, err, known := GetPlan(f, plans, fields[i], known);
      if err.Some? { return; }
      PlanFacts(f, plan, fields[i]);
      var c := new ColumnCursor(plan.pieces, f.dtype.fields[fields[i]]);
      columns := columns + [c];
    }
  }

  /** The zone references of a predicate, loaded with nothing yet. */
  ghost predicate ZonesReady(f: File, zones: seq<ZoneRef>)
    requires f.Valid()
    reads zones
  {
    forall i | 0 <= i < |zones| ::
      zones[i].Valid(f) && zones[i].spec.end <= f.root.rows && !zones[i].Released()
  }

  method OpenPredicates(f: File, preds: seq<(nat, Predicate)>, given: map<nat, ColumnPlan>, ghost known: set<ZoneRef>)
    returns (predicates: seq<ScanPredicate>, err: Option<Error>)
    requires f.Valid() && (forall i | i in given :: PlanOf(f, given[i], i)) && ZonesKnown(given, known)
    ensures err.None? <==> forall j | 0 <= j < |preds| :: Plannable(f, preds[j].0)
    ensures err.None? ==> forall j | 0 <= j < |preds| :: preds[j].0 < |f.dtype.fields|
    ensures err.None? ==> |predicates| == |Kept(f, preds)|
    ensures err.None? ==> forall j | 0 <= j < |predicates| ::
              && predicates[j].predicate_ == Kept(f, preds)[j].1
              && ZonesOf(f, predicates[j].zones, Kept(f, preds)[j].0)
              && ZonesReady(f, predicates[j].zones)
              && forall z | z in predicates[j].zones :: z in known || fresh(z)
  {
    hide FieldPlan, Statistics, PlanOf, ZonesOf, ZonesReady, Kept;
    var plans := given;
    ghost var all := known;
    predicates, err := [], None;
    assert preds[..0] == [];
    KeptNothing(f);
    for j := 0 to |preds|
      invariant forall k | k in plans :: PlanOf(f, plans[k], k)
      invariant ZonesKnown(plans, all) && forall z | z in all :: z in known || fresh(z)
      invariant err.None? && forall i | 0 <= i < j :: Plannable(f, preds[i].0)
      invariant forall i | 0 <= i < j :: preds[i].0 < |f.dtype.fields|
      invariant |predicates| == |Kept(f, preds[..j])|
      invariant forall i | 0 <= i < |predicates| ::
                  && predicates[i].predicate_ == Kept(f, preds[..j])[i].1
                  && ZonesOf(f, predicates[i].zones, Kept(f, preds[..j])[i].0)
                  && ZonesReady(f, predicates[i].zones)
                  && forall z | z in predicates[i].zones :: z in known || fresh(z)
    {
      var plan;
      plan, plans, err, all := GetPlan(f, plans, preds[j].0, all);
      if err.Some? { return; }
      PlanFacts(f, plan, preds[j].0);
      KeptNext(f, preds, j);
      if !f.dtype.fields[preds[j].0].IsSigned() { continue; }
      predicates := predicates + [ScanPredicate(preds[j].1, plan.zones)];
    }
    assert preds[..|preds|] == preds;
  }

  /** Exactly the predicates on signed integers are kept, as often as they are given. */
  lemma {:induction false} KeptExactly(f: File, preds: seq<(nat, Predicate)>, p: (nat, Predicate))
    requires forall j | 0 <= j < |preds| :: preds[j].0 < |f.dtype.fields|
    requires p.0 < |f.dtype.fields|
    ensures multiset(Kept(f, preds))[p] == if f.dtype.fields[p.0].IsSigned() then multiset(preds)[p] else 0
  {
    if preds != [] {
      var last := |preds| - 1;
      KeptExactly(f, preds[..last], p);
      assert preds == preds[..last] + [preds[last]];
    }
  }

  lemma {:induction false} KeptNothing(f: File)
    ensures Kept(f, []) == []
  {
  }

  lemma {:induction false} KeptNext(f: File, preds: seq<(nat, Predicate)>, j: nat)
    requires j < |preds| && forall i | 0 <= i <= j :: preds[i].0 < |f.dtype.fields|
    ensures Kept(f, preds[..j + 1])
         == Kept(f, preds[..j]) + (if f.dtype.fields[preds[j].0].IsSigned() then [preds[j]] else [])
  {
    assert preds[..j + 1][..j] == preds[..j];
  }

  const DEFAULT_BATCH: nat := 65536

  /** `NewRecordReader`: plans for the selected columns and for the columns of
      the predicates, each built once. A batch size of 0 means the default. */
  method NewRecordReader(f: File, fields: seq<nat>, preds: seq<(nat, Predicate)>, batchSize: int)
    returns (r: RecordReader?, err: Option<Error>)
    requires f.Valid()
    ensures r == null <==> err.Some?
    ensures err.Some? <==> batchSize < 0 || !((forall k | k in fields :: Plannable(f, k))
                                              && (forall j | 0 <= j < |preds| :: Plannable(f, preds[j].0)))
    ensures r != null ==>
      && fresh(r) && fresh(r.Cursors()) && fresh(r.ZoneRefs())
      && r.file == f && r.Valid() && r.pos == 0 && r.err.None? && r.rows == f.root.rows
      && r.batchSize == (if batchSize == 0 then DEFAULT_BATCH else batchSize)
      && |r.columns| == |fields| && (forall i | 0 <= i < |fields| :: CursorOf(f, r.columns[i], fields[i]))
      && (forall j | 0 <= j < |preds| :: preds[j].0 < |f.dtype.fields|)
      && var kept := Kept(f, preds);
         |r.predicates| == |kept| && forall j | 0 <= j < |kept| ::
           r.predicates[j].predicate_ == kept[j].1 && ZonesOf(f, r.predicates[j].zones, kept[j].0)
  {
    hide FieldPlan, Statistics, Kept, Plannable;
    if batchSize < 0 { return null, Some(Invalid); }
    var size := if batchSize == 0 then DEFAULT_BATCH else batchSize;
    var columns, plans, failed, known := OpenColumns(f, fields);
    if failed.Some? { return null, failed; }
    var predicates, failed2 := OpenPredicates(f, preds, plans, known);
    if failed2.Some? { return null, failed2; }
    r := new RecordReader(f, size, columns, predicates);
    err := None;
    forall z | z in r.ZoneRefs() ensures fresh(z) {
      var j, k :| 0 <= j < |predicates| && 0 <= k < |predicates[j].zones| && z == predicates[j].zones[k];
      assert z in predicates[j].zones;
    }
  }

  // --------------------------------------------------------------- whole runs

  /** A batch: the rows it covers and one array per column. */
  datatype Batch = Batch(start: nat, end: nat, columns: seq<Array>)

  ghost predicate BatchOk(r: RecordReader, b: Batch)
    requires r.file.Valid()
  {
    && b.start < b.end <= r.rows && b.end - b.start <= r.batchSize && r.Ends(b.start, b.end)
    && |b.columns| == |r.columns|
    && (forall row | b.start <= row < b.end :: !r.Excluded(row))
    && forall i | 0 <= i < |r.columns| :: r.Holds(b.columns[i], i, b.start, b.end)
  }

  /** The batches emitted so far: in row order, without overlap, and every row
      below `upto` that is in no batch is excluded by a predicate. */
  ghost predicate Chain(r: RecordReader, batches: seq<Batch>, upto: nat)
    requires r.file.Valid()
    decreases |batches|
  {
    if batches == [] then forall row: nat | row < upto :: r.Excluded(row)
    else
      var last := batches[|batches| - 1];
      && BatchOk(r, last) && last.end <= upto
      && (forall row | last.end <= row < upto :: r.Excluded(row))
      && Chain(r, batches[..|batches| - 1], last.start)
  }

  /** Calls `Next` until it returns false. */
  method ReadAll(r: RecordReader) returns (batches: seq<Batch>)
    requires r.Valid() && r.err.None? && r.pos == 0
    modifies r, r.Cursors(), r.ZoneRefs()
    ensures r.Valid() && Chain(r, batches, r.pos)
    ensures r.err.None? ==> r.pos == r.rows
    ensures r.err.Some? ==> r.Stopped(r.err.value, r.pos)
    ensures r.err.None? <==> forall row: nat | row < r.rows && !r.Excluded(row) :: r.Readable(row)
  {
    batches := [];
    var ok := true;
    while ok
      invariant r.Valid() && Chain(r, batches, r.pos)
      invariant !ok && r.err.None? ==> r.pos == r.rows
      decreases r.rows - r.pos, ok
    {
      ghost var was := r.pos;
      ok := r.Next();
      if ok {
        ChainExtend(r, batches, was, r.offset);
        var b := Batch(r.offset, r.pos, r.current.value);
        assert (batches + [b])[..|batches|] == batches;
        batches := batches + [b];
      } else {
        ChainExtend(r, batches, was, r.pos);
      }
    }
    if r.err.None? {
      forall row: nat | row < r.rows && !r.Excluded(row) ensures r.Readable(row) {
        FinishedReadable(r, batches, row);
      }
    }
  }

  /** Every row of a batch is readable in all columns. */
  lemma {:induction false} FinishedReadable(r: RecordReader, batches: seq<Batch>, row: nat)
    requires r.file.Valid() && Chain(r, batches, r.rows) && row < r.rows && !r.Excluded(row)
    requires forall c | c in r.Cursors() :: Tiles(c.pieces, 0, r.rows)
    ensures r.Readable(row)
  {
    ChainCovers(r, batches, r.rows, row);
    var n :| 0 <= n < |batches| && InBatch(batches[n], row);
    ChainBelow(r, batches, r.rows, n);
    var b := batches[n];
    forall i, x | 0 <= i < |r.columns| ensures !PieceFails(r.file, r.columns[i].pieces, row, x) {
      assert r.columns[i] in r.Cursors();
      assert r.Holds(b.columns[i], i, b.start, b.end);
      assert RowValue(r.file, r.columns[i].pieces, b.start + (row - b.start)) == Some(b.columns[i][row - b.start]);
      ValueReadable(r.file, r.columns[i].pieces, 0, r.rows, row, x);
    }
  }

  /** A scan of columns that decode, each on its own, cannot stop with an error. */
  lemma {:induction false} DecodableColumnsReadable(r: RecordReader, fields: seq<nat>, row: nat)
    requires r.file.Valid() && |r.columns| == |fields|
    requires forall i | 0 <= i < |fields| ::
               CursorOf(r.file, r.columns[i], fields[i])
               && ColumnValue(r.file, r.file.root, r.file.dtype, fields[i]).Ok?
    ensures r.Readable(row)
  {
    hide FieldPlan, ColumnValue;
    forall i, x | 0 <= i < |fields| ensures !PieceFails(r.file, r.columns[i].pieces, row, x) {
      FieldPlanRefines(r.file, r.file.root, r.file.dtype, fields[i], 0);
      PlanReadable(r.file, r.columns[i].pieces, row, x);
    }
  }

  lemma {:induction false} ChainExtend(r: RecordReader, batches: seq<Batch>, was: nat, upto: nat)
    requires r.file.Valid() && Chain(r, batches, was) && was <= upto
    requires forall row | was <= row < upto :: r.Excluded(row)
    ensures Chain(r, batches, upto)
  {
  }

  predicate InBatch(b: Batch, row: nat) { b.start <= row < b.end }

  /** Every row below `upto` is in a batch or excluded. */
  lemma {:induction false} ChainCovers(r: RecordReader, batches: seq<Batch>, upto: nat, row: nat)
    requires r.file.Valid() && Chain(r, batches, upto) && row < upto && !r.Excluded(row)
    ensures exists i | 0 <= i < |batches| :: InBatch(batches[i], row)
    decreases |batches|
  {
    if batches != [] {
      var n := |batches| - 1;
      if row < batches[n].start {
        ChainCovers(r, batches[..n], batches[n].start, row);
        var i :| 0 <= i < n && InBatch(batches[..n][i], row);
        assert InBatch(batches[i], row);
      } else {
        assert InBatch(batches[n], row);
      }
    }
  }

  /** Batches are in strictly increasing row order, so a row is emitted at most once. */
  lemma {:induction false} ChainOrdered(r: RecordReader, batches: seq<Batch>, upto: nat, i: nat, j: nat)
    requires r.file.Valid() && Chain(r, batches, upto) && i < j < |batches|
    ensures BatchOk(r, batches[i]) && BatchOk(r, batches[j])
    ensures batches[i].start < batches[i].end <= batches[j].start
    decreases |batches|
  {
    var n := |batches| - 1;
    if j < n {
      ChainOrdered(r, batches[..n], batches[n].start, i, j);
    } else {
      ChainBelow(r, batches[..n], batches[n].start, i);
    }
  }

  lemma {:induction false} ChainBelow(r: RecordReader, batches: seq<Batch>, upto: nat, i: nat)
    requires r.file.Valid() && Chain(r, batches, upto) && i < |batches|
    ensures BatchOk(r, batches[i]) && batches[i].end <= upto
    decreases |batches|
  {
    var n := |batches| - 1;
    if i < n { ChainBelow(r, batches[..n], batches[n].start, i); }
  }

  /** The emitted rows are exactly the rows that no zone map excludes. */
  lemma {:induction false} EmittedUnlessExcluded(r: RecordReader, batches: seq<Batch>, row: nat)
    requires r.file.Valid() && Chain(r, batches, r.rows) && row < r.rows
    ensures (exists i | 0 <= i < |batches| :: InBatch(batches[i], row)) <==> !r.Excluded(row)
  {
    if i :| 0 <= i < |batches| && InBatch(batches[i], row) {
      ChainBelow(r, batches, r.rows, i);
    }
    if !r.Excluded(row) { ChainCovers(r, batches, r.rows, row); }
  }

  /** Predicate `j` is about column `cols[j]` of the file, which holds `data[j]`: integers
      and nulls, about which the file's zone maps tell the truth. */
  ghost predicate TruthfulFile(r: RecordReader, cols: seq<nat>, data: seq<Array>)
    requires r.file.Valid()
  {
    && |cols| == |data| == |r.predicates| && r.rows == r.file.root.rows
    && forall j | 0 <= j < |data| ::
      && ZonesOf(r.file, r.predicates[j].zones, cols[j])
      && |data[j]| == r.rows && IsIntColumn(data[j])
      && ColumnTrue(r.file, r.file.root, r.file.dtype, cols[j], 0, data[j])
  }

  /** What that says of one zone map of the scan. */
  lemma {:induction false} ZoneMapTruthful(r: RecordReader, cols: seq<nat>, data: seq<Array>, j: nat, k: nat)
    requires r.file.Valid() && TruthfulFile(r, cols, data)
    requires j < |r.predicates| && k < |r.predicates[j].zones|
    ensures var z := r.predicates[j].zones[k].spec;
            z.end <= r.rows && (Statistics(r.file, z).Some? ==> Truthful(z, Statistics(r.file, z).value, data[j]))
  {
    hide Statistics, Truthful, FieldPlan, ColumnTrue, Tiles;
    var f := r.file;
    FieldPlanInherits(f, f.root, f.dtype, cols[j], 0, data[j]);
    FieldPlanTiles(f, f.root, f.dtype, cols[j], 0);
  }

  /** Pruning is sound over whole runs: if the file's zone maps tell the truth, every row
      that satisfies all predicates is in exactly one batch, with all its columns. */
  lemma {:induction false} MatchingRowsSurvive(r: RecordReader, batches: seq<Batch>, cols: seq<nat>, data: seq<Array>,
                                               row: nat)
    requires r.file.Valid() && Chain(r, batches, r.rows) && TruthfulFile(r, cols, data) && row < r.rows
    requires forall j | 0 <= j < |data| :: Matches(r.predicates[j].predicate_, data[j][row])
    ensures exists i | 0 <= i < |batches| ::
              && InBatch(batches[i], row) && BatchOk(r, batches[i])
              && forall k | 0 <= k < |batches| && InBatch(batches[k], row) :: k == i
  {
    hide Matches, Statistics, Truthful, BatchOk, ZonesOf, ColumnTrue;
    if r.Excluded(row) {
      var j, k :| 0 <= j < |r.predicates| && 0 <= k < |r.predicates[j].zones| &&
        SkippedBy(r.file, r.predicates[j].zones[k].spec, r.predicates[j].predicate_, row);
      ZoneMapTruthful(r, cols, data, j, k);
      SkippedRowFails(r.file, r.predicates[j].zones[k].spec, r.predicates[j].predicate_, data[j], row);
      assert false;
    }
    ChainCovers(r, batches, r.rows, row);
    var i :| 0 <= i < |batches| && InBatch(batches[i], row);
    ChainBelow(r, batches, r.rows, i);
    forall k: nat | k < |batches| && InBatch(batches[k], row) ensures k == i {
      if k < i { ChainOrdered(r, batches, r.rows, k, i); }
      if i < k { ChainOrdered(r, batches, r.rows, i, k); }
    }
  }

  // ------------------------------------------------ scans without predicates

  /** The slices of column `i`, one after the other. */
  function Emitted(batches: seq<Batch>, i: nat): Array
    requires forall b | b in batches :: i < |b.columns|
    decreases |batches|
  {
    if batches == [] then [] else Emitted(batches[..|batches| - 1], i) + batches[|batches| - 1].columns[i]
  }

  lemma {:induction false} ColumnsPresent(r: RecordReader, batches: seq<Batch>, upto: nat)
    requires r.file.Valid() && Chain(r, batches, upto)
    ensures forall b | b in batches :: |b.columns| == |r.columns|
  {
    forall b | b in batches ensures |b.columns| == |r.columns| {
      var i :| 0 <= i < |batches| && batches[i] == b;
      ChainBelow(r, batches, upto, i);
    }
  }

  lemma {:induction false} NothingExcluded(r: RecordReader, row: nat)
    requires r.file.Valid() && r.predicates == []
    ensures !r.Excluded(row)
  {
  }

  lemma {:induction false} EmittedPrefix(r: RecordReader, batches: seq<Batch>, upto: nat, i: nat, a: Array)
    requires r.file.Valid() && r.predicates == [] && Chain(r, batches, upto) && upto <= r.rows
    requires i < |r.columns| && Tiles(r.columns[i].pieces, 0, r.rows)
    requires PlanValue(r.file, r.columns[i].pieces) == Ok(a)
    ensures forall b | b in batches :: i < |b.columns|
    ensures |a| == r.rows && Emitted(batches, i) == a[..upto]
    decreases |batches|
  {
    hide RecordReader.Ends, RecordReader.Excluded, Tiles;
    ColumnsPresent(r, batches, upto);
    PlanLength(r.file, r.columns[i].pieces, 0, r.rows);
    if batches == [] {
      if upto > 0 { NothingExcluded(r, 0); }
    } else {
      var n := |batches| - 1;
      var last := batches[n];
      if last.end < upto { NothingExcluded(r, last.end); }
      EmittedPrefix(r, batches[..n], last.start, i, a);
      SliceIs(r, last, i, a);
      assert a[..last.start] + a[last.start..last.end] == a[..last.end];
    }
  }

  lemma {:induction false} SliceIs(r: RecordReader, b: Batch, i: nat, a: Array)
    requires r.file.Valid() && BatchOk(r, b) && i < |r.columns| && Tiles(r.columns[i].pieces, 0, r.rows)
    requires PlanValue(r.file, r.columns[i].pieces) == Ok(a) && |a| == r.rows
    ensures b.columns[i] == a[b.start..b.end]
  {
    assert r.Holds(b.columns[i], i, b.start, b.end);
    forall k: nat | k < b.end - b.start ensures b.columns[i][k] == a[b.start + k] {
      RowOfPlan(r.file, r.columns[i].pieces, 0, r.rows, b.start + k);
    }
  }

  /** Streaming refines the recursive reader: without predicates, whatever the batch
      size and the chunking, the emitted slices of a column concatenate to that column
      as decoded on its own, even if other columns of the file do not decode. */
  lemma {:induction false} StreamingRefinesColumn(r: RecordReader, batches: seq<Batch>, i: nat, k: nat)
    requires r.file.Valid() && r.predicates == [] && r.rows == r.file.root.rows && Chain(r, batches, r.rows)
    requires i < |r.columns| && CursorOf(r.file, r.columns[i], k)
    requires ColumnValue(r.file, r.file.root, r.file.dtype, k).Ok?
    ensures forall b | b in batches :: i < |b.columns|
    ensures Emitted(batches, i) == ColumnValue(r.file, r.file.root, r.file.dtype, k).value
  {
    hide FieldPlan, ColumnValue, PlanValue;
    FieldPlanTiles(r.file, r.file.root, r.file.dtype, k, 0);
    FieldPlanRefines(r.file, r.file.root, r.file.dtype, k, 0);
    var a := ColumnValue(r.file, r.file.root, r.file.dtype, k).value;
    EmittedPrefix(r, batches, r.rows, i, a);
    assert a[..r.rows] == a;
  }

  /** In a struct file the column is what the recursive reader makes of child `k`. */
  lemma {:induction false} StreamingRefinesChild(r: RecordReader, batches: seq<Batch>, i: nat, k: nat)
    requires r.file.Valid() && r.predicates == [] && r.rows == r.file.root.rows && Chain(r, batches, r.rows)
    requires i < |r.columns| && CursorOf(r.file, r.columns[i], k) && r.file.root.id == Struct
    requires |r.file.root.children| == |r.file.dtype.fields|
    requires DecodeLayout(r.file, r.file.root.children[k], r.file.dtype.fields[k]).Ok?
    ensures forall b | b in batches :: i < |b.columns|
    ensures Ok(Emitted(batches, i)) == DecodeLayout(r.file, r.file.root.children[k], r.file.dtype.fields[k])
  {
    StreamingRefinesColumn(r, batches, i, k);
  }

  /** If the whole file decodes, it is that column of the recursively decoded file. */
  lemma {:induction false} StreamingRefinesDecoding(r: RecordReader, batches: seq<Batch>, i: nat, k: nat)
    requires r.file.Valid() && r.predicates == [] && r.rows == r.file.root.rows && Chain(r, batches, r.rows)
    requires i < |r.columns| && CursorOf(r.file, r.columns[i], k)
    requires DecodeLayout(r.file, r.file.root, r.file.dtype).Ok?
    requires Project(DecodeLayout(r.file, r.file.root, r.file.dtype).value, k).Some?
    ensures forall b | b in batches :: i < |b.columns|
    ensures Emitted(batches, i) == Project(DecodeLayout(r.file, r.file.root, r.file.dtype).value, k).value
  {
    ColumnOfWhole(r.file, r.file.root, r.file.dtype, k, 0);
    StreamingRefinesColumn(r, batches, i, k);
  }
}
