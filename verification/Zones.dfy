/** Zone maps: lazily loaded statistics that may prove a predicate false for all
    rows of a zone. */
module Zones {
  import opened Wrappers
  import opened Words
  import opened Types
  import opened Layouts
  import opened Plans

  datatype Op = EQ | NEQ | GT | GTE | LT | LTE

  datatype Predicate = Predicate(op: Op, value: int64)

  /** Whether a row with this value must be returned; null matches only NEQ. */
  predicate Matches(p: Predicate, cell: Cell) {
    match cell
    case Int(v) => (match p.op
                    case EQ => v == p.value
                    case NEQ => v != p.value
                    case GT => v > p.value
                    case GTE => v >= p.value
                    case LT => v < p.value
                    case LTE => v <= p.value)
    case _ => p.op == NEQ
  }

  // ------------------------------------------------------- zone arithmetic

  /** The usable statistics: one struct row per zone. */
  function Statistics(f: File, z: ZoneSpec): (r: Option<Array>)
    requires f.Valid()
    ensures r.Some? ==> z.zoneLen > 0 && |r.value| == z.node.rows
  {
    if z.zoneLen == 0 then None
    else match DecodeLayout(f, z.node, z.dtype)
         case Err(_) => None
         case Ok(a) => if z.dtype.kind == KStruct then Some(a) else None
  }

  function ZoneIndex(z: ZoneSpec, pos: nat): nat
    requires z.zoneLen > 0 && z.start <= pos
  {
    (pos - z.start) / z.zoneLen
  }

  /** The first row of zone `k`. */
  function ZoneStart(z: ZoneSpec, k: nat): nat {
    z.start + k * z.zoneLen
  }

  /** The row after the last row of the zone of `pos`. */
  function ZoneEnd(z: ZoneSpec, pos: nat): (end: nat)
    requires z.zoneLen > 0 && z.start <= pos < z.end
    ensures pos < end <= z.end
  {
    pos + Min(z.zoneLen - (pos - z.start) % z.zoneLen, z.end - pos)
  }

  lemma {:induction false} ZoneBounds(z: ZoneSpec, pos: nat)
    requires z.zoneLen > 0 && z.start <= pos < z.end
    ensures ZoneIndex(z, pos) < ZoneCount(z.end - z.start, z.zoneLen)
    ensures ZoneStart(z, ZoneIndex(z, pos)) <= pos
    ensures ZoneEnd(z, pos) == Min(ZoneStart(z, ZoneIndex(z, pos)) + z.zoneLen, z.end)
  {
    DivMod(pos - z.start, z.zoneLen);
    CountCovers(pos - z.start, z.end - z.start, z.zoneLen);
  }

  lemma {:induction false} CountCovers(x: nat, rows: nat, m: nat)
    requires m > 0 && x < rows
    ensures x / m < ZoneCount(rows, m)
  {
    DivMod(x, m);
    DivMod(rows, m);
    if rows / m + 1 <= x / m { MulMono(rows / m + 1, x / m, m); Distribute(rows / m, 1, m); }
    if rows % m == 0 && rows / m == x / m { }
  }

  // ------------------------------------------------------ the skip decision

  function CellAt(row: Cell, k: nat): Cell {
    if row.Row? && k < |row.cells| then row.cells[k] else Null
  }

  /** A truncation flag forbids using the bounds unless it is present and false. */
  predicate Exact(row: Cell, flag: Option<nat>) {
    flag.None? || CellAt(row, flag.value) == Bool(false)
  }

  /** The usable bounds of a zone, in order. */
  function Bounds(z: ZoneSpec, row: Cell): (r: Option<(int64, int64)>)
    ensures r.Some? ==> r.value.0 <= r.value.1
  {
    if z.min.None? || z.max.None? || !Exact(row, z.minTruncated) || !Exact(row, z.maxTruncated) then None
    else match (CellAt(row, z.min.value), CellAt(row, z.max.value))
         case (Int(lo), Int(hi)) => if lo <= hi then Some((lo, hi)) else None
         case _ => None
  }

  function NullCount(z: ZoneSpec, row: Cell): Option<nat> {
    if z.nulls.None? then None
    else match CellAt(row, z.nulls.value)
         case UInt(n) => Some(n)
         case _ => None
  }

  /** The decision of `evaluate` from the statistics row of a zone of `rows` rows. */
  predicate Decide(z: ZoneSpec, row: Cell, rows: nat, p: Predicate) {
    var nulls := NullCount(z, row);
    if !row.Row? || (nulls.Some? && nulls.value > rows) then false
    else if nulls == Some(rows) && p.op != NEQ then true
    else match Bounds(z, row)
         case None => false
         case Some((lo, hi)) =>
           match p.op
           case EQ => p.value < lo || p.value > hi
           case NEQ => nulls == Some(0) && lo == hi == p.value
           case GT => hi <= p.value
           case GTE => hi < p.value
           case LT => lo >= p.value
           case LTE => lo > p.value
  }

  function RowsOf(z: ZoneSpec, k: nat): int {
    var left := z.end - ZoneStart(z, k);
    if left < z.zoneLen then left else z.zoneLen
  }

  /** The end of the row range that `pos` shares a decision with, and whether to
      skip that range. Without a statistics table nothing is skipped. */
  function Evaluation(f: File, z: ZoneSpec, pos: nat, p: Predicate): (r: (nat, bool))
    requires f.Valid() && z.start <= pos < z.end
    requires z.zoneLen > 0 ==> z.node.rows == ZoneCount(z.end - z.start, z.zoneLen)
    ensures pos < r.0 <= z.end
    ensures Statistics(f, z).None? ==> r == (z.end, false)
  {
    match Statistics(f, z)
    case None => (z.end, false)
    case Some(rows) =>
      ZoneBounds(z, pos);
      var k := ZoneIndex(z, pos);
      (ZoneEnd(z, pos), Decide(z, rows[k], RowsOf(z, k), p))
  }

  /** A decision reaches to the next zone, or to the end of the zone map, and is that of the
      statistics row of the zone, for the rows that the zone has. */
  lemma {:induction false} DecisionEnds(f: File, z: ZoneSpec, pos: nat, p: Predicate)
    requires f.Valid() && z.start <= pos < z.end && Statistics(f, z).Some?
    requires z.zoneLen > 0 ==> z.node.rows == ZoneCount(z.end - z.start, z.zoneLen)
    ensures var end := Evaluation(f, z, pos, p).0;
            && pos < end <= pos + z.zoneLen
            && (end == z.end || (end - z.start) % z.zoneLen == 0)
            && (pos - z.start) / z.zoneLen == (end - 1 - z.start) / z.zoneLen
    ensures var k := (pos - z.start) / z.zoneLen;
            && k < |Statistics(f, z).value|
            && Evaluation(f, z, pos, p).1
               == Decide(z, Statistics(f, z).value[k], Min(z.zoneLen, z.end - z.start - k * z.zoneLen), p)
  {
    hide Statistics, Decide, ZoneCount;
    var x, m := pos - z.start, z.zoneLen;
    ZoneBounds(z, pos);
    DivMod(x, m);
    DivModUnique(x + (m - x % m), m, x / m + 1, 0);
    Distribute(x / m, 1, m);
    SameZone(x, Evaluation(f, z, pos, p).0 - 1 - z.start, m);
  }

  /** The statistics row that decides at `pos`. */
  function StatisticsAt(f: File, z: ZoneSpec, pos: nat): Cell
    requires f.Valid() && z.start <= pos < z.end && Statistics(f, z).Some?
    requires z.zoneLen > 0 ==> z.node.rows == ZoneCount(z.end - z.start, z.zoneLen)
  {
    ZoneBounds(z, pos);
    Statistics(f, z).value[ZoneIndex(z, pos)]
  }

  /** Every row of the zone is counted as null, and null does not match. */
  predicate CountedOut(z: ZoneSpec, row: Cell, rows: int, p: Predicate) {
    row.Row? && NullCount(z, row).Some? && NullCount(z, row).value == rows && p.op != NEQ
  }

  /** Missing, malformed, reversed or truncated bounds do not prevent a skip: they leave
      the decision to the null count. */
  lemma {:induction false} SkipWithoutBounds(f: File, z: ZoneSpec, pos: nat, p: Predicate)
    requires f.Valid() && z.start <= pos < z.end && Statistics(f, z).Some?
    requires z.zoneLen > 0 ==> z.node.rows == ZoneCount(z.end - z.start, z.zoneLen)
    requires Bounds(z, StatisticsAt(f, z, pos)).None?
    ensures Evaluation(f, z, pos, p).1
            <==> CountedOut(z, StatisticsAt(f, z, pos), RowsOf(z, ZoneIndex(z, pos)), p)
  {
    ZoneBounds(z, pos);
  }

  /** A statistics row whose bounds are missing and flagged as truncated skips its zone. */
  lemma {:induction false} TruncatedRowSkips(node: Layout, dtype: Type, p: Predicate)
    requires p.op != NEQ
    ensures var z := ZoneSpec(0, 5, 5, node, dtype, Some(3), Some(4), Some(0), Some(1), Some(2));
            var row := Row([UInt(5), Bool(true), Bool(true), Null, Null]);
            Bounds(z, row).None? && Decide(z, row, 5, p)
  {
  }

  /** All rows that share a decision get the same one. */
  lemma {:induction false} SameDecision(f: File, z: ZoneSpec, pos: nat, p: Predicate, row: nat)
    requires f.Valid() && z.start <= pos < z.end
    requires z.zoneLen > 0 ==> z.node.rows == ZoneCount(z.end - z.start, z.zoneLen)
    requires pos <= row < Evaluation(f, z, pos, p).0
    ensures row < z.end && Evaluation(f, z, row, p) == Evaluation(f, z, pos, p)
  {
    if Statistics(f, z).Some? {
      hide Statistics, Decide, ZoneCount;
      ZoneBounds(z, pos);
      ZoneBounds(z, row);
      SameZone(pos - z.start, row - z.start, z.zoneLen);
    }
  }

  lemma {:induction false} SameZone(x: nat, y: nat, m: nat)
    requires m > 0 && x <= y < x + m - x % m
    ensures x / m == y / m
  {
    DivMod(x, m);
    DivModUnique(y, m, x / m, x % m + y - x);
  }

  // --------------------------------------------------------------- soundness

  /** Integer columns hold integers and nulls. */
  predicate IsIntColumn(data: Array) {
    forall i | 0 <= i < |data| :: data[i].Int? || data[i] == Null
  }

  function NullsIn(data: Array): nat {
    if data == [] then 0 else NullsIn(data[1..]) + if data[0] == Null then 1 else 0
  }

  /** A statistics row tells the truth about the rows of its zone: the null count
      is exact, and bounds that are not truncated bound every non-null value. */
  predicate RowTruthful(z: ZoneSpec, row: Cell, zone: Array) {
    && (NullCount(z, row).Some? ==> NullCount(z, row).value == NullsIn(zone))
    && (Bounds(z, row).Some? ==>
          forall i | 0 <= i < |zone| && zone[i].Int? ::
            Bounds(z, row).value.0 <= zone[i].value <= Bounds(z, row).value.1)
  }

  predicate Truthful(z: ZoneSpec, stats: Array, data: Array) {
    forall k: nat | k < |stats| && z.start <= ZoneStart(z, k) <= z.end <= |data| ::
      RowTruthful(z, stats[k], data[ZoneStart(z, k)..Min(ZoneStart(z, k) + z.zoneLen, z.end)])
  }

  lemma {:induction false} AllNull(data: Array, i: nat)
    requires NullsIn(data) == |data| && i < |data|
    ensures data[i] == Null
  {
    NullsAtMost(data[1..]);
    if i > 0 { AllNull(data[1..], i - 1); }
  }

  lemma {:induction false} NullsAtMost(data: Array)
    ensures NullsIn(data) <= |data|
  {
    if data != [] { NullsAtMost(data[1..]); }
  }

  lemma {:induction false} NoneNull(data: Array, i: nat)
    requires NullsIn(data) == 0 && i < |data|
    ensures data[i] != Null
  {
    if i > 0 { NoneNull(data[1..], i - 1); }
  }

  lemma {:induction false} DecideSound(z: ZoneSpec, row: Cell, zone: Array, p: Predicate, i: nat)
    requires RowTruthful(z, row, zone) && IsIntColumn(zone) && i < |zone|
    requires Decide(z, row, |zone|, p)
    ensures !Matches(p, zone[i])
  {
    if NullCount(z, row) == Some(|zone|) { AllNull(zone, i); }
    if NullCount(z, row) == Some(0) { NoneNull(zone, i); }
  }

  /** A zone with `nulls` nulls followed by the value `v`. */
  function Sample(rows: nat, nulls: nat, v: int64): (zone: Array)
    requires nulls <= rows
    ensures |zone| == rows
  {
    seq(rows, i requires 0 <= i < rows => if i < nulls then Null else Int(v))
  }

  lemma {:induction false} SampleNulls(rows: nat, nulls: nat, v: int64)
    requires nulls <= rows
    ensures NullsIn(Sample(rows, nulls, v)) == nulls
    decreases rows
  {
    if rows > 0 {
      var less := if nulls == 0 then 0 else nulls - 1;
      assert Sample(rows, nulls, v)[1..] == Sample(rows - 1, less, v);
      SampleNulls(rows - 1, less, v);
    }
  }

  /** Zone data that the statistics allow. */
  predicate Allowed(z: ZoneSpec, row: Cell, zone: Array, rows: nat) {
    |zone| == rows && IsIntColumn(zone) && RowTruthful(z, row, zone)
  }

  /** A value in [lo, hi], the one that satisfies the predicate if any does. */
  function Candidate(lo: int64, hi: int64, p: Predicate): (v: int64)
    requires lo <= hi
    ensures lo <= v <= hi
    ensures Matches(p, Int(v)) <==> exists x: int64 :: lo <= x <= hi && Matches(p, Int(x))
  {
    match p.op
    case EQ => if lo <= p.value <= hi then p.value else lo
    case NEQ => if lo == p.value then hi else lo
    case GT => hi
    case GTE => hi
    case LT => lo
    case LTE => lo
  }

  /** No column value at all is above the largest or below the smallest one. */
  predicate Unsatisfiable(p: Predicate) {
    (p.op == GT && p.value == MAX_INT64) || (p.op == LT && p.value == MIN_INT64)
  }

  /** More nulls are counted than the zone has rows. */
  predicate Overcounted(z: ZoneSpec, row: Cell, rows: nat) {
    NullCount(z, row).Some? && NullCount(z, row).value > rows
  }

  /** No data can make the zone worth reading: it is skipped, or its null count is
      impossible, or there are no bounds and no value ever matches. */
  predicate Hopeless(z: ZoneSpec, row: Cell, rows: nat, p: Predicate) {
    || Decide(z, row, rows, p) || Overcounted(z, row, rows)
    || (Bounds(z, row).None? && Unsatisfiable(p))
  }

  lemma {:induction false} HopelessSound(z: ZoneSpec, row: Cell, zone: Array, p: Predicate, i: nat)
    requires Allowed(z, row, zone, |zone|) && i < |zone| && Hopeless(z, row, |zone|, p)
    ensures !Matches(p, zone[i])
  {
    if Decide(z, row, |zone|, p) { DecideSound(z, row, zone, p, i); }
    NullsAtMost(zone);
  }

  /** Otherwise some data that agree with the statistics have a matching row. */
  lemma {:induction false} HopefulSample(z: ZoneSpec, row: Cell, rows: nat, p: Predicate)
    returns (zone: Array, i: nat)
    requires rows > 0 && !Hopeless(z, row, rows, p)
    ensures Allowed(z, row, zone, rows) && i < rows && Matches(p, zone[i])
  {
    hide NullsIn;
    var nulls := NullCount(z, row);
    var count := if nulls.Some? then nulls.value else if p.op == NEQ then 1 else 0;
    var (lo, hi) := if Bounds(z, row).Some? then Bounds(z, row).value else (MIN_INT64, MAX_INT64);
    var v := Candidate(lo, hi, p);
    zone := Sample(rows, count, v);
    SampleNulls(rows, count, v);
    i := if p.op == NEQ && count > 0 then 0 else rows - 1;
    assert zone[i] == if i < count then Null else Int(v);
  }

  /** The decision is as sharp as the statistics allow. For any statistics row: no data
      that agree with it contain a matching row if and only if the zone is skipped, the
      null count is impossible, or there are no bounds and no value ever matches. */
  lemma {:induction false} DecideExact(z: ZoneSpec, row: Cell, rows: nat, p: Predicate)
    requires rows > 0
    ensures (forall zone: Array, i: nat | Allowed(z, row, zone, rows) && i < rows :: !Matches(p, zone[i]))
            <==> Decide(z, row, rows, p) || Overcounted(z, row, rows)
                 || (Bounds(z, row).None? && Unsatisfiable(p))
  {
    hide Decide, Bounds, Matches, RowTruthful, IsIntColumn, NullCount;
    if Hopeless(z, row, rows, p) {
      forall zone: Array, i: nat | Allowed(z, row, zone, rows) && i < rows ensures !Matches(p, zone[i]) {
        HopelessSound(z, row, zone, p, i);
      }
    } else {
      var zone, i := HopefulSample(z, row, rows, p);
    }
  }

  /** Truthful statistics never skip a row that satisfies the predicate. */
  lemma {:induction false} SkipSound(f: File, z: ZoneSpec, pos: nat, p: Predicate, data: Array, row: nat)
    requires f.Valid() && z.start <= pos < z.end <= |data| && IsIntColumn(data)
    requires z.zoneLen > 0 ==> z.node.rows == ZoneCount(z.end - z.start, z.zoneLen)
    requires Statistics(f, z).Some? ==> Truthful(z, Statistics(f, z).value, data)
    requires Evaluation(f, z, pos, p).1 && pos <= row < Evaluation(f, z, pos, p).0
    ensures !Matches(p, data[row])
  {
    hide Statistics, Decide, Matches, ZoneCount, RowTruthful, DecodeLayout, NullsIn;
    ZoneBounds(z, pos);
    var stats, k := Statistics(f, z).value, ZoneIndex(z, pos);
    var first := ZoneStart(z, k);
    var zone := data[first..Min(first + z.zoneLen, z.end)];
    assert RowTruthful(z, stats[k], zone);
    assert zone[row - first] == data[row];
    DecideSound(z, stats[k], zone, p, row - first);
  }

  // --------------------------------------------------------------- zoneRef

  class ZoneRef {
    const spec: ZoneSpec
    var zoneLen: nat
    var loaded: bool
    var values: Option<Array>

    constructor (spec: ZoneSpec)
      ensures this.spec == spec && zoneLen == spec.zoneLen && !loaded && values.None?
    {
      this.spec := spec;
      zoneLen := spec.zoneLen;
      loaded := false;
      values := None;
    }

    ghost predicate Valid(f: File)
      requires f.Valid()
      reads this
    {
      && (spec.start <= spec.end)
      && (spec.zoneLen > 0 ==> spec.node.rows == ZoneCount(spec.end - spec.start, spec.zoneLen))
      && (!loaded ==> zoneLen == spec.zoneLen && values.None?)
      && (loaded ==> match Statistics(f, spec)
                     case None => zoneLen == 0 && values.None?
                     case Some(rows) => zoneLen == spec.zoneLen && (values.None? || values == Some(rows)))
    }

    /** The statistics were loaded and then dropped at the end of the scan. */
    predicate Released()
      reads this
    {
      loaded && zoneLen > 0 && values.None?
    }

    method Release()
      modifies this
      ensures values.None? && zoneLen == old(zoneLen) && loaded == old(loaded)
    {
      values := None;
    }

    /** `evaluate`, at a row inside the zone map's range. */
    method Evaluate(f: File, pos: nat, p: Predicate) returns (end: nat, skip: bool)
      requires f.Valid() && Valid(f) && spec.start <= pos < spec.end
      modifies this
      ensures Valid(f) && (old(Released()) <==> Released())
      ensures old(Released()) ==> !skip && pos < end <= spec.end
      ensures !old(Released()) ==> (end, skip) == Evaluation(f, spec, pos, p)
      ensures skip ==> Statistics(f, spec).Some?
                       && (Bounds(spec, StatisticsAt(f, spec, pos)).Some?
                           || CountedOut(spec, StatisticsAt(f, spec, pos), RowsOf(spec, ZoneIndex(spec, pos)), p))
    {
      if zoneLen == 0 { return spec.end, false; }
      ZoneBounds(spec, pos);
      end := ZoneEnd(spec, pos);
      skip := false;
      if !loaded {
        loaded := true;
        var a := DecodeLayout(f, spec.node, spec.dtype);
        if a.Err? || spec.dtype.kind != KStruct || |a.value| != spec.node.rows {
          zoneLen := 0;
          return spec.end, false;
        }
        values := Some(a.value);
      }
      if values.None? { return; }
      var k := (pos - spec.start) / zoneLen;
      skip := DecideLoop(spec, values.value[k], RowsOf(spec, k), p);
    }
  }

  /** The statement sequence of `evaluate` after the statistics are loaded. */
  method DecideLoop(z: ZoneSpec, row: Cell, rows: nat, p: Predicate) returns (skip: bool)
    ensures skip == Decide(z, row, rows, p)
  {
    if !row.Row? { return false; }
    var knownNonNull := false;
    if z.nulls.Some? {
      var cell := CellAt(row, z.nulls.value);
      if cell.UInt? {
        if cell.number > rows { return false; }
        knownNonNull := cell.number == 0;
        if cell.number == rows && p.op != NEQ { return true; }
      }
    }
    if z.min.None? || z.max.None? { return false; }
    var flags := [z.minTruncated, z.maxTruncated];
    for i := 0 to 2
      invariant forall j | 0 <= j < i :: Exact(row, flags[j])
    {
      if flags[i].Some? {
        var cell := CellAt(row, flags[i].value);
        if !cell.Bool? || cell.flag {
          return false;
        }
      }
    }
    assert Exact(row, flags[0]) && Exact(row, flags[1]);
    var lo, hi := CellAt(row, z.min.value), CellAt(row, z.max.value);
    if !lo.Int? || !hi.Int? || lo.value > hi.value { return false; }
    match p.op {
      case EQ => skip := p.value < lo.value || p.value > hi.value;
      case NEQ => skip := knownNonNull && lo.value == hi.value && lo.value == p.value;
      case GT => skip := hi.value <= p.value;
      case GTE => skip := hi.value < p.value;
      case LT => skip := lo.value >= p.value;
      case LTE => skip := lo.value > p.value;
    }
  }
}
