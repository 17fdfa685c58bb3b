/** Truthful statistics as a property of the file: what its zoned layouts say about the
    rows of a column, in terms of the metadata and the statistics tables alone. */
module ZoneTruth {
  import opened Wrappers
  import opened Words
  import opened Types
  import opened Layouts
  import opened Plans
  import opened Zones

  /** The cell of the last column with a name. */
  function Statistic(s: ZoneSchema, cells: seq<Cell>, named: string -> bool): Cell {
    var column := LastNamed(s.names, named);
    if column.Some? && column.value < |cells| then cells[column.value] else Null
  }

  /** A bound is unflagged if there is no truncation flag for it or the flag says false. */
  predicate Unflagged(s: ZoneSchema, cells: seq<Cell>, named: string -> bool) {
    LastNamed(s.names, named).None? || Statistic(s, cells, named) == Bool(false)
  }

  /** The columns that the names say hold the number of nulls, a lower bound and an upper
      bound of the zone's rows. */
  ghost predicate StatisticsTrue(s: ZoneSchema, cells: seq<Cell>, zone: Array) {
    var nulls, min, max := Statistic(s, cells, IsNullCount), Statistic(s, cells, IsMin), Statistic(s, cells, IsMax);
    && (nulls.UInt? ==> nulls.number == multiset(zone)[Null])
    && (min.Int? && Unflagged(s, cells, IsMinFlag) ==> forall x | x in zone && x.Int? :: min.value <= x.value)
    && (max.Int? && Unflagged(s, cells, IsMaxFlag) ==> forall x | x in zone && x.Int? :: x.value <= max.value)
  }

  /** Row `k` of the statistics table describes `zoneLen` rows, the last one the rest. */
  ghost predicate TableTrue(s: ZoneSchema, stats: Array, start: nat, end: nat, data: Array)
    requires end <= |data|
  {
    forall k: nat | k < |stats| && start + k * s.zoneLen <= end && stats[k].Row? ::
      StatisticsTrue(s, stats[k].cells,
                     data[start + k * s.zoneLen..Min(start + k * s.zoneLen + s.zoneLen, end)])
  }

  /** The zone map of a zoned layout over rows [start, start + l.rows) tells the truth, if
      its metadata can be understood and its table can be read. */
  ghost predicate ZoneMapTrue(f: File, l: Layout, t: Type, start: nat, data: Array)
    requires f.Valid() && |l.children| == 2 && start + l.rows <= |data|
  {
    match f.zoneSchema(l, t)
    case None => true
    case Some(s) =>
      match DecodeLayout(f, l.children[1], s.dtype)
      case Err(_) => true
      case Ok(stats) => TableTrue(s, stats, start, start + l.rows, data)
  }

  /** So do all zone maps of a column's layout from row `start` on. */
  ghost predicate LayoutTrue(f: File, l: Layout, t: Type, start: nat, data: Array)
    requires f.Valid() && start + l.rows <= |data|
    decreases l, 1
  {
    match l.id
    case Zoned => ZonedTrue(f, l, t, start, data)
    case Stats => ZonedTrue(f, l, t, start, data)
    case Chunked => ChunksTrue(f, l.children, t, start, l.rows, data)
    case _ => true
  }

  ghost predicate ZonedTrue(f: File, l: Layout, t: Type, start: nat, data: Array)
    requires f.Valid() && start + l.rows <= |data|
    decreases l, 0
  {
    |l.children| == 2 && l.children[0].rows == l.rows ==>
      ZoneMapTrue(f, l, t, start, data) && LayoutTrue(f, l.children[0], t, start, data)
  }

  ghost predicate ChunksTrue(f: File, chunks: seq<Layout>, t: Type, start: nat, rows: nat, data: Array)
    requires f.Valid() && start + rows <= |data|
    decreases chunks, 0
  {
    chunks != [] && chunks[0].rows <= rows ==>
      && LayoutTrue(f, chunks[0], t, start, data)
      && ChunksTrue(f, chunks[1..], t, start + chunks[0].rows, rows - chunks[0].rows, data)
  }

  /** The zone maps of column `field` of the file's layout tell the truth. */
  ghost predicate ColumnTrue(f: File, l: Layout, t: Type, field: nat, start: nat, data: Array)
    requires f.Valid() && field < |t.fields| && start + l.rows <= |data|
    decreases l, 1
  {
    match l.id
    case Struct =>
      field < |l.children| && l.children[field].rows == l.rows ==>
        LayoutTrue(f, l.children[field], t.fields[field], start, data)
    case Chunked => ColumnChunksTrue(f, l.children, t, field, start, l.rows, data)
    case _ => true
  }

  ghost predicate ColumnChunksTrue(f: File, chunks: seq<Layout>, t: Type, field: nat, start: nat, rows: nat,
                                   data: Array)
    requires f.Valid() && field < |t.fields| && start + rows <= |data|
    decreases chunks, 0
  {
    chunks != [] && chunks[0].rows <= rows ==>
      && ColumnTrue(f, chunks[0], t, field, start, data)
      && ColumnChunksTrue(f, chunks[1..], t, field, start + chunks[0].rows, rows - chunks[0].rows, data)
  }

  // --------------------------------------------------- what the planned zones inherit

  ghost predicate AllTruthful(f: File, zones: seq<ZoneSpec>, data: Array)
    requires f.Valid()
  {
    forall i | 0 <= i < |zones| ::
      Statistics(f, zones[i]).Some? ==> Truthful(zones[i], Statistics(f, zones[i]).value, data)
  }

  /** The columns of a zone map are those that the names of its schema say. */
  predicate OfSchema(z: ZoneSpec, s: ZoneSchema) {
    && z.min == LastNamed(s.names, IsMin) && z.max == LastNamed(s.names, IsMax)
    && z.nulls == LastNamed(s.names, IsNullCount)
    && z.minTruncated == LastNamed(s.names, IsMinFlag) && z.maxTruncated == LastNamed(s.names, IsMaxFlag)
  }

  /** Names as files have them. */
  lemma {:induction false} StatisticNames()
    ensures IsMin("min") && IsMin("vortex.min()") && IsMin("vortex.min(skip_nans=false)")
    ensures IsMax("max") && IsMax("vortex.max()") && IsMax("vortex.max(skip_nans=false)")
    ensures IsNullCount("null_count") && IsNullCount("vortex.null_count()")
    ensures IsMinFlag("min_is_truncated") && IsMaxFlag("max_is_truncated")
  {
    assert "vortex.min(skip_nans=false)"[..11] == "vortex.min(" && "vortex.max(skip_nans=false)"[..11] == "vortex.max(";
  }

  lemma {:induction false} NullsCounted(zone: Array)
    ensures NullsIn(zone) == multiset(zone)[Null]
  {
    if zone != [] {
      assert zone == [zone[0]] + zone[1..];
      NullsCounted(zone[1..]);
    }
  }

  lemma {:induction false} RowInherits(z: ZoneSpec, s: ZoneSchema, row: Cell, zone: Array)
    requires OfSchema(z, s)
    requires row.Row? ==> StatisticsTrue(s, row.cells, zone)
    ensures RowTruthful(z, row, zone)
  {
    hide LastNamed, IsMin, IsMax, IsNullCount, IsMinFlag, IsMaxFlag;
    NullsCounted(zone);
    forall i | 0 <= i < |zone| && zone[i].Int? && Bounds(z, row).Some?
      ensures Bounds(z, row).value.0 <= zone[i].value <= Bounds(z, row).value.1
    {
      assert zone[i] in zone;
    }
  }

  /** The zone map that the plan keeps of a zoned layout. */
  lemma {:induction false} ZoneInherits(f: File, l: Layout, t: Type, start: nat, data: Array)
    requires f.Valid() && |l.children| == 2 && start + l.rows <= |data| && ZoneMapTrue(f, l, t, start, data)
    ensures AllTruthful(f, [NewZone(f, l, t, start)], data)
  {
    hide Bounds, NullCount, RowTruthful, StatisticsTrue, DecodeLayout, ZoneCount, LastNamed, IsMin, IsMax, IsNullCount,
      IsMinFlag, IsMaxFlag;
    var z := NewZone(f, l, t, start);
    if Statistics(f, z).Some? {
      var s, stats := f.zoneSchema(l, t).value, Statistics(f, z).value;
      forall k: nat | k < |stats| && z.start <= ZoneStart(z, k) <= z.end <= |data|
        ensures RowTruthful(z, stats[k], data[ZoneStart(z, k)..Min(ZoneStart(z, k) + z.zoneLen, z.end)])
      {
        RowInherits(z, s, stats[k], data[ZoneStart(z, k)..Min(ZoneStart(z, k) + z.zoneLen, z.end)]);
      }
    }
  }

  lemma {:induction false} AllTruthfulConcat(f: File, a: seq<ZoneSpec>, b: seq<ZoneSpec>, data: Array)
    requires f.Valid() && AllTruthful(f, a, data) && AllTruthful(f, b, data)
    ensures AllTruthful(f, a + b, data)
  {
    hide Statistics, Truthful;
  }

  lemma {:induction false} ScalarPlanInherits(f: File, l: Layout, t: Type, start: nat, data: Array)
    requires f.Valid() && start + l.rows <= |data| && LayoutTrue(f, l, t, start, data)
    requires ScalarPlan(f, l, t, start).Ok?
    ensures AllTruthful(f, ScalarPlan(f, l, t, start).value.zones, data)
    decreases l, 1
  {
    hide Statistics, Truthful, NewZone, ZoneMapTrue;
    match l.id
    case Zoned => ZonedPlanInherits(f, l, t, start, data);
    case Stats => ZonedPlanInherits(f, l, t, start, data);
    case Chunked => ChunkPlansInherit(f, l.children, t, start, l.rows, data);
    case _ =>
  }

  lemma {:induction false} ZonedPlanInherits(f: File, l: Layout, t: Type, start: nat, data: Array)
    requires f.Valid() && start + l.rows <= |data| && ZonedTrue(f, l, t, start, data) && ZonedPlan(f, l, t, start).Ok?
    ensures AllTruthful(f, ZonedPlan(f, l, t, start).value.zones, data)
    decreases l, 0
  {
    hide Statistics, Truthful, NewZone, ZoneMapTrue, ScalarPlan, LayoutTrue, AllTruthful;
    ZoneInherits(f, l, t, start, data);
    ScalarPlanInherits(f, l.children[0], t, start, data);
    AllTruthfulConcat(f, [NewZone(f, l, t, start)], ScalarPlan(f, l.children[0], t, start).value.zones, data);
  }

  lemma {:induction false} ChunkPlansInherit(f: File, chunks: seq<Layout>, t: Type, start: nat, rows: nat, data: Array)
    requires f.Valid() && start + rows <= |data| && ChunksTrue(f, chunks, t, start, rows, data)
    requires ChunkPlans(f, chunks, t, start, rows).Ok?
    ensures AllTruthful(f, ChunkPlans(f, chunks, t, start, rows).value.zones, data)
    decreases chunks, 0
  {
    hide Statistics, Truthful, ScalarPlan, LayoutTrue;
    if chunks != [] {
      ScalarPlanInherits(f, chunks[0], t, start, data);
      ChunkPlansInherit(f, chunks[1..], t, start + chunks[0].rows, rows - chunks[0].rows, data);
      AllTruthfulConcat(f, ScalarPlan(f, chunks[0], t, start).value.zones,
                        ChunkPlans(f, chunks[1..], t, start + chunks[0].rows, rows - chunks[0].rows).value.zones, data);
    }
  }

  /** Every zone map that the plan of a column keeps is truthful, if the file's zone maps
      of that column are. */
  lemma {:induction false} FieldPlanInherits(f: File, l: Layout, t: Type, field: nat, start: nat, data: Array)
    requires f.Valid() && field < |t.fields| && start + l.rows <= |data| && ColumnTrue(f, l, t, field, start, data)
    requires FieldPlan(f, l, t, field, start).Ok?
    ensures AllTruthful(f, FieldPlan(f, l, t, field, start).value.zones, data)
    decreases l, 1
  {
    hide Statistics, Truthful, ScalarPlan, LayoutTrue;
    match l.id
    case Struct => ScalarPlanInherits(f, l.children[field], t.fields[field], start, data);
    case Chunked => FieldChunksInherit(f, l.children, t, field, start, l.rows, data);
    case _ =>
  }

  lemma {:induction false} FieldChunksInherit(f: File, chunks: seq<Layout>, t: Type, field: nat, start: nat, rows: nat,
                                              data: Array)
    requires f.Valid() && field < |t.fields| && start + rows <= |data|
    requires ColumnChunksTrue(f, chunks, t, field, start, rows, data)
    requires FieldChunkPlans(f, chunks, t, field, start, rows).Ok?
    ensures AllTruthful(f, FieldChunkPlans(f, chunks, t, field, start, rows).value.zones, data)
    decreases chunks, 0
  {
    hide Statistics, Truthful, FieldPlan, ColumnTrue;
    if chunks != [] {
      var middle, left := start + chunks[0].rows, rows - chunks[0].rows;
      FieldPlanInherits(f, chunks[0], t, field, start, data);
      FieldChunksInherit(f, chunks[1..], t, field, middle, left, data);
      AllTruthfulConcat(f, FieldPlan(f, chunks[0], t, field, start).value.zones,
                        FieldChunkPlans(f, chunks[1..], t, field, middle, left).value.zones, data);
    }
  }

  // --------------------------------------------------------------- which can be skipped

  /** Both bounds are there, unflagged and in order, and the null count, if there is one, is
      possible. */
  predicate Usable(s: ZoneSchema, cells: seq<Cell>, rows: nat) {
    var nulls, min, max := Statistic(s, cells, IsNullCount), Statistic(s, cells, IsMin), Statistic(s, cells, IsMax);
    && min.Int? && max.Int? && min.value <= max.value && (nulls.UInt? ==> nulls.number <= rows)
    && Unflagged(s, cells, IsMinFlag) && Unflagged(s, cells, IsMaxFlag)
  }

  lemma {:induction false} RowsAgree(z: ZoneSpec, s: ZoneSchema, cells: seq<Cell>, zone: Array)
    requires OfSchema(z, s) && Usable(s, cells, |zone|)
    ensures StatisticsTrue(s, cells, zone) <==> RowTruthful(z, Row(cells), zone)
    ensures Bounds(z, Row(cells)).Some? && !Overcounted(z, Row(cells), |zone|)
  {
    hide LastNamed, IsMin, IsMax, IsNullCount, IsMinFlag, IsMaxFlag;
    NullsCounted(zone);
    if RowTruthful(z, Row(cells), zone) {
      forall x | x in zone && x.Int?
        ensures Statistic(s, cells, IsMin).value <= x.value <= Statistic(s, cells, IsMax).value
      {
        var i :| 0 <= i < |zone| && zone[i] == x;
      }
    }
  }

  /** Pruning is as sharp as the statistics: with usable bounds a zone is skipped exactly
      when no content of which the statistics are true has a matching row. */
  lemma {:induction false} SkipsAllItCan(z: ZoneSpec, s: ZoneSchema, cells: seq<Cell>, rows: nat, p: Predicate)
    requires OfSchema(z, s) && Usable(s, cells, rows) && rows > 0
    ensures Decide(z, Row(cells), rows, p)
            <==> forall zone: Array, i: nat | |zone| == rows && IsIntColumn(zone) && StatisticsTrue(s, cells, zone)
                                              && i < rows :: !Matches(p, zone[i])
  {
    hide Matches, StatisticsTrue, RowTruthful, Decide, Bounds, Overcounted;
    var row := Row(cells);
    forall zone: Array, i: nat
      | |zone| == rows && IsIntColumn(zone) && StatisticsTrue(s, cells, zone) && i < rows && Decide(z, row, rows, p)
      ensures !Matches(p, zone[i])
    {
      RowsAgree(z, s, cells, zone);
      DecideSound(z, row, zone, p, i);
    }
    if !Decide(z, row, rows, p) {
      RowsAgree(z, s, cells, seq(rows, _ => Null));
      var zone, i := HopefulSample(z, row, rows, p);
      RowsAgree(z, s, cells, zone);
    }
  }

  // ------------------------------------------------------------------ which are kept

  /** A zone map is kept, with the columns that its metadata names, exactly when it has a
      zone length and its table has the rows to cover the layout, the last one included. */
  lemma {:induction false} ZoneKept(f: File, l: Layout, t: Type, start: nat)
    requires |l.children| == 2
    ensures var z, count := NewZone(f, l, t, start), l.children[1].rows;
            match f.zoneSchema(l, t)
            case None => z.zoneLen == 0
            case Some(s) =>
              if s.zoneLen > 0 && l.rows <= count * s.zoneLen < l.rows + s.zoneLen
              then z.zoneLen == s.zoneLen && z.start == start && z.end == start + l.rows && z.node == l.children[1]
                   && z.dtype == s.dtype && OfSchema(z, s)
              else z.zoneLen == 0
  {
    hide ZoneCount;
    if f.zoneSchema(l, t).Some? && f.zoneSchema(l, t).value.zoneLen > 0 {
      CountIs(l.rows, f.zoneSchema(l, t).value.zoneLen, l.children[1].rows);
    }
  }

  lemma {:induction false} CountIs(rows: nat, m: nat, count: nat)
    requires m > 0
    ensures count == ZoneCount(rows, m) <==> rows <= count * m < rows + m
  {
    DivMod(rows, m);
    var c := ZoneCount(rows, m);
    Distribute(rows / m, 1, m);
    if count < c { MulMono(count + 1, c, m); Distribute(count, 1, m); }
    if count > c { MulMono(c + 1, count, m); Distribute(c, 1, m); }
  }
}
