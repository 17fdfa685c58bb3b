/** The record reader: a state machine that steps through the rows of a file,
    aligning the pieces of its columns and skipping zones that cannot match. */
module Scan {
  import opened Wrappers
  import opened Types
  import opened Layouts
  import opened Plans
  import opened Zones
  import opened Cursors

  /** A predicate with the zone maps of its column. */
  datatype ScanPredicate = ScanPredicate(predicate_: Predicate, zones: seq<ZoneRef>)

  /** Errors of a scan; the last two report broken plans. */
  datatype ScanError = DecodeError(error: Error) | RowGap | NoAdvance

  /** The zone map proves the predicate false for this row. */
  ghost predicate SkippedBy(f: File, z: ZoneSpec, p: Predicate, row: nat)
    requires f.Valid()
  {
    && z.start <= z.end && (z.zoneLen > 0 ==> z.node.rows == ZoneCount(z.end - z.start, z.zoneLen))
    && exists pos: nat :: z.start <= pos < z.end && SkipsFrom(f, z, p, pos, row)
  }

  ghost predicate SkipsFrom(f: File, z: ZoneSpec, p: Predicate, pos: nat, row: nat)
    requires f.Valid() && z.start <= pos < z.end
    requires z.zoneLen > 0 ==> z.node.rows == ZoneCount(z.end - z.start, z.zoneLen)
  {
    Evaluation(f, z, pos, p).1 && pos <= row < Evaluation(f, z, pos, p).0
  }

  /** With truthful statistics a skipped row does not satisfy the predicate. */
  lemma {:induction false} SkippedRowFails(f: File, z: ZoneSpec, p: Predicate, data: Array, row: nat)
    requires f.Valid() && SkippedBy(f, z, p, row) && z.end <= |data| && IsIntColumn(data)
    requires Statistics(f, z).Some? ==> Truthful(z, Statistics(f, z).value, data)
    ensures row < |data| && !Matches(p, data[row])
  {
    var pos: nat :| z.start <= pos < z.end && SkipsFrom(f, z, p, pos, row);
    SkipSound(f, z, pos, p, data, row);
  }

  /** Whether a zone map skips a row is decided at any position whose decision
      covers the row. */
  lemma {:induction false} SkipIsDecidedHere(f: File, z: ZoneSpec, p: Predicate, pos: nat, row: nat)
    requires f.Valid() && z.start <= pos < z.end
    requires z.zoneLen > 0 ==> z.node.rows == ZoneCount(z.end - z.start, z.zoneLen)
    requires pos <= row < Evaluation(f, z, pos, p).0
    ensures SkippedBy(f, z, p, row) <==> Evaluation(f, z, pos, p).1
  {
    hide Evaluation, ZoneCount;
    SameDecision(f, z, pos, p, row);
    if SkippedBy(f, z, p, row) {
      var from: nat :| z.start <= from < z.end && SkipsFrom(f, z, p, from, row);
      SameDecision(f, z, from, p, row);
    }
    if Evaluation(f, z, pos, p).1 { assert SkipsFrom(f, z, p, pos, row); }
  }

  /** A zone map begins at `end`, or its decision at `at` ends there. */
  ghost predicate ZoneEdge(f: File, z: ZoneSpec, p: Predicate, at: nat, end: nat)
    requires f.Valid()
  {
    || at < end == z.start
    || (&& z.start <= at < z.end && (z.zoneLen > 0 ==> z.node.rows == ZoneCount(z.end - z.start, z.zoneLen))
        && end == Evaluation(f, z, at, p).0)
  }

  lemma {:induction false} SkippedInside(f: File, z: ZoneSpec, p: Predicate, row: nat)
    requires f.Valid() && SkippedBy(f, z, p, row)
    ensures z.start <= row < z.end
  {
  }

  class RecordReader {
    const file: File
    const batchSize: nat
    const rows: nat
    const columns: seq<ColumnCursor>
    const predicates: seq<ScanPredicate>
    var pos: nat
    var offset: nat
    var current: Option<seq<Array>>
    var err: Option<ScanError>

    constructor (file: File, batchSize: nat, columns: seq<ColumnCursor>, predicates: seq<ScanPredicate>)
      ensures this.file == file && this.batchSize == batchSize && rows == file.root.rows
      ensures this.columns == columns && this.predicates == predicates
      ensures pos == 0 && offset == 0 && current.None? && err.None?
    {
      this.file := file;
      this.batchSize := batchSize;
      this.rows := file.root.rows;
      this.columns := columns;
      this.predicates := predicates;
      pos, offset, current, err := 0, 0, None, None;
    }

    ghost function ZoneRefs(): set<ZoneRef> {
      set j, k | 0 <= j < |predicates| && 0 <= k < |predicates[j].zones| :: predicates[j].zones[k]
    }

    ghost function Cursors(): set<ColumnCursor> {
      set i | 0 <= i < |columns| :: columns[i]
    }

    ghost predicate ZonesValid()
      requires file.Valid()
      reads ZoneRefs()
    {
      forall z | z in ZoneRefs() :: z.Valid(file) && z.spec.end <= rows
    }

    /** No zone map has been dropped yet. */
    ghost predicate ZonesLive()
      reads ZoneRefs()
    {
      forall z | z in ZoneRefs() :: !z.Released()
    }

    ghost predicate CursorValid(c: ColumnCursor, at: nat)
      requires file.Valid()
      reads c
    {
      c.Valid(file) && Tiles(c.pieces, 0, rows) && c.Passed(at)
    }

    /** Column `i` fails with this error at the row, and it is the first one that does. */
    ghost predicate FirstFailure(i: nat, row: nat, e: Error)
      requires file.Valid()
    {
      && i < |columns| && PieceFails(file, columns[i].pieces, row, e)
      && forall j, x | 0 <= j < i :: !PieceFails(file, columns[j].pieces, row, x)
    }

    /** No column fails at the row. */
    ghost predicate Readable(row: nat)
      requires file.Valid()
    {
      forall i, x | 0 <= i < |columns| :: !PieceFails(file, columns[i].pieces, row, x)
    }

    /** The scan stopped at a row that no zone map excludes, with the error of its
        first broken column. */
    ghost predicate Stopped(e: ScanError, row: nat)
      requires file.Valid()
    {
      && e.DecodeError? && row < rows && !Excluded(row)
      && exists i: nat :: FirstFailure(i, row, e.error)
    }

    /** Plans tile the rows, cursors have not moved past the position, and caches
        and loaded statistics agree with the file. */
    ghost predicate Valid()
      reads this, Cursors(), ZoneRefs()
    {
      && file.Valid() && batchSize > 0
      && offset <= pos <= rows
      && (forall i, j | 0 <= i < j < |columns| :: columns[i] != columns[j])
      && (forall c | c in Cursors() :: CursorValid(c, pos))
      && ZonesValid()
      && (err.None? && pos < rows ==> ZonesLive())
      && (err.Some? ==> Stopped(err.value, pos))
    }

    /** No zone map before map `k` of predicate `j` excludes the row. */
    ghost predicate Spared(row: nat, j: nat, k: nat)
      requires file.Valid()
    {
      forall a, b | 0 <= a < |predicates| && 0 <= b < |predicates[a].zones| && (a < j || (a == j && b < k)) ::
        !SkippedBy(file, predicates[a].zones[b].spec, predicates[a].predicate_, row)
    }

    /** Some predicate's zone map proves that the row cannot match. */
    ghost predicate Excluded(row: nat)
      requires file.Valid()
    {
      exists j, k | 0 <= j < |predicates| && 0 <= k < |predicates[j].zones| ::
        SkippedBy(file, predicates[j].zones[k].spec, predicates[j].predicate_, row)
    }

    /** Some zone map has an edge at `end`, seen from `at`. */
    ghost predicate ZoneStop(at: nat, end: nat)
      requires file.Valid()
    {
      exists j, k | 0 <= j < |predicates| && 0 <= k < |predicates[j].zones| ::
        ZoneEdge(file, predicates[j].zones[k].spec, predicates[j].predicate_, at, end)
    }

    /** The piece of some column at `at` ends at `end`. */
    ghost predicate PieceStop(at: nat, end: nat) {
      exists i, k | 0 <= i < |columns| && 0 <= k < |columns[i].pieces| ::
        columns[i].pieces[k].start <= at < end == columns[i].pieces[k].end
    }

    /** A batch from `at` on ends at `end`: at the batch size, at the last row, or at the
        edge of a zone or of a piece. */
    ghost predicate Ends(at: nat, end: nat)
      requires file.Valid()
    {
      end == at + batchSize || end == rows || ZoneStop(at, end) || PieceStop(at, end)
    }

    /** The zone loops of `Next`: how far a batch may extend, and the row up to
        which everything is skipped. If nothing is skipped, no row up to the end
        is excluded. */
    method Prune() returns (end: nat, skipUntil: nat)
      requires Valid() && pos < rows && err.None?
      modifies ZoneRefs()
      ensures ZonesValid() && ZonesLive()
      ensures pos < end <= rows && end - pos <= batchSize
      ensures pos <= skipUntil <= rows
      ensures forall row | pos <= row < skipUntil :: Excluded(row)
      ensures skipUntil == pos ==> forall row | pos <= row < end :: !Excluded(row)
      ensures end == pos + batchSize || end == rows || ZoneStop(pos, end)
    {
      hide SkippedBy, Spared, Excluded, ZonesValid, ZonesLive, ZoneEdge;
      end := pos + Min(batchSize, rows - pos);
      skipUntil := pos;
      SparedStart(end);
      for j := 0 to |predicates|
        invariant ZonesValid() && ZonesLive() && pos < end <= rows && end - pos <= batchSize
        invariant pos <= skipUntil <= rows
        invariant forall row | pos <= row < skipUntil :: Excluded(row)
        invariant skipUntil == pos ==> AllSpared(end, j, 0)
        invariant end == pos + batchSize || end == rows || ZoneStop(pos, end)
      {
        for k := 0 to |predicates[j].zones|
          invariant ZonesValid() && ZonesLive() && pos < end <= rows && end - pos <= batchSize
          invariant pos <= skipUntil <= rows
          invariant forall row | pos <= row < skipUntil :: Excluded(row)
          invariant skipUntil == pos ==> AllSpared(end, j, k)
          invariant end == pos + batchSize || end == rows || ZoneStop(pos, end)
        {
          var zoneEnd, skip := VisitZone(predicates[j].zones[k], predicates[j].predicate_, j, k);
          ghost var before := end;
          end := Min(end, zoneEnd);
          if skip { skipUntil := if skipUntil < zoneEnd then zoneEnd else skipUntil; }
          else if skipUntil == pos { SparedNext(before, end, j, k); }
        }
        if skipUntil == pos { SparedPredicate(end, j); }
      }
      if skipUntil == pos { SparedByAll(end); }
    }

    ghost predicate AllSpared(end: nat, j: nat, k: nat)
      requires file.Valid()
      reads this`pos
    {
      forall row | pos <= row < end :: Spared(row, j, k)
    }

    lemma {:induction false} SparedStart(end: nat)
      requires file.Valid()
      ensures AllSpared(end, 0, 0)
    {
    }

    lemma {:induction false} SparedNext(before: nat, end: nat, j: nat, k: nat)
      requires file.Valid() && AllSpared(before, j, k) && end <= before
      requires j < |predicates| && k < |predicates[j].zones|
      requires forall row | pos <= row < end ::
                 !SkippedBy(file, predicates[j].zones[k].spec, predicates[j].predicate_, row)
      ensures AllSpared(end, j, k + 1)
    {
      hide SkippedBy;
      var next := k + 1;
      forall row: nat | pos <= row < end ensures Spared(row, j, next) { assert Spared(row, j, k); }
    }

    lemma {:induction false} SparedPredicate(end: nat, j: nat)
      requires file.Valid() && j < |predicates| && AllSpared(end, j, |predicates[j].zones|)
      ensures AllSpared(end, j + 1, 0)
    {
      hide SkippedBy;
      var next := j + 1;
      forall row: nat | pos <= row < end ensures Spared(row, next, 0) { assert Spared(row, j, |predicates[j].zones|); }
    }

    lemma {:induction false} SparedByAll(end: nat)
      requires file.Valid() && AllSpared(end, |predicates|, 0)
      ensures forall row | pos <= row < end :: !Excluded(row)
    {
      hide SkippedBy;
      forall row: nat | pos <= row < end ensures !Excluded(row) {
        assert Spared(row, |predicates|, 0);
      }
    }

    /** One iteration of the zone loops: the row where the zone's decision ends
        (or the zone map begins), and whether the rows before it are skipped. */
    method VisitZone(z: ZoneRef, p: Predicate, ghost j: nat, ghost k: nat) returns (zoneEnd: nat, skip: bool)
      requires file.Valid() && ZonesValid() && ZonesLive() && pos < rows
      requires j < |predicates| && k < |predicates[j].zones|
      requires z == predicates[j].zones[k] && p == predicates[j].predicate_
      modifies z
      ensures ZonesValid() && ZonesLive() && pos < zoneEnd <= rows
      ensures zoneEnd == rows || ZoneEdge(file, z.spec, p, pos, zoneEnd)
      ensures skip ==> forall row | pos <= row < zoneEnd :: Excluded(row)
      ensures !skip ==> forall row | pos <= row < zoneEnd :: !SkippedBy(file, z.spec, p, row)
    {
      hide Evaluation, SkippedBy, Statistics;
      assert z in ZoneRefs();
      if pos < z.spec.start {
        zoneEnd, skip := Min(rows, z.spec.start), false;
        forall row: nat | pos <= row < zoneEnd && SkippedBy(file, z.spec, p, row) ensures false {
          SkippedInside(file, z.spec, p, row);
        }
        return;
      }
      if pos >= z.spec.end {
        zoneEnd, skip := rows, false;
        forall row: nat | pos <= row < zoneEnd && SkippedBy(file, z.spec, p, row) ensures false {
          SkippedInside(file, z.spec, p, row);
        }
        return;
      }
      zoneEnd, skip := z.Evaluate(file, pos, p);
      forall row: nat | pos <= row < zoneEnd ensures SkippedBy(file, z.spec, p, row) <==> skip {
        SkipIsDecidedHere(file, z.spec, p, pos, row);
      }
    }

    /** Column `i` of a batch holds rows [start, end) of the column. */
    ghost predicate Holds(column: Array, i: nat, start: nat, end: nat)
      requires file.Valid() && i < |columns| && start <= end
    {
      && |column| == end - start
      && forall k: nat | k < |column| ::
        RowValue(file, columns[i].pieces, start + k) == Some(column[k])
    }

    /** Every cursor's piece at the position, and the row where the first ends. */
    method FindPieces(limit: nat) returns (pieces: seq<Piece>, end: nat, ghost last: nat)
      requires Valid() && pos < rows && pos < limit
      modifies Cursors()`index
      ensures Valid()
      ensures |pieces| == |columns| && pos < end <= limit
      ensures end == limit || (last < |pieces| && end == pieces[last].end)
      ensures forall i | 0 <= i < |pieces| ::
                pieces[i] in columns[i].pieces && pieces[i].start <= pos < end <= pieces[i].end
    {
      hide Excluded, Stopped, PieceFails;
      pieces, end, last := [], limit, 0;
      for i := 0 to |columns|
        invariant Valid() && |pieces| == i && pos < end <= limit
        invariant end == limit || (last < |pieces| && end == pieces[last].end)
        invariant forall k | 0 <= k < i ::
                    pieces[k] in columns[k].pieces && pieces[k].start <= pos < end <= pieces[k].end
      {
        var c := columns[i];
        assert c in Cursors();
        var p := c.At(rows, pos);
        pieces := pieces + [p.value];
        if p.value.end < end { end, last := p.value.end, i; }
      }
    }

    /** One column of the batch. */
    method ReadColumn(c: ColumnCursor, ghost i: nat, p: Piece, end: nat) returns (r: Result<Array, Error>)
      requires Valid() && i < |columns| && c == columns[i] && p in columns[i].pieces && p.start <= pos < end <= p.end
      modifies c`cached, c`values, c`dictionary, c`dictValues
      ensures r.Ok? ==> Valid() && Holds(r.value, i, pos, end)
      ensures r.Ok? ==> forall x :: !PieceFails(file, c.pieces, pos, x)
      ensures r.Err? ==> PieceFails(file, c.pieces, pos, r.error)
    {
      hide Excluded, Readable, FirstFailure, Stopped, RowValue;
      assert c in Cursors();
      ghost var k :| 0 <= k < |c.pieces| && c.pieces[k] == p;
      TilesAt(c.pieces, 0, rows, k);
      r := c.Read(file, p, pos, end);
      assert Contains(c.pieces, k, pos);
      if r.Ok? {
        forall x ensures !PieceFails(file, c.pieces, pos, x) {
          if PieceFails(file, c.pieces, pos, x) {
            var j: nat :| j < |c.pieces| && Contains(c.pieces, j, pos) && PieceValue(file, c.pieces[j]) == Err(x);
            OnePiece(c.pieces, 0, rows, j, k, pos);
          }
        }
        forall m: nat | m < end - pos ensures RowValue(file, c.pieces, pos + m) == Some(r.value[m]) {
          RowOfPiece(file, c.pieces, 0, rows, k, pos + m);
        }
      }
    }

    method ReadColumns(pieces: seq<Piece>, end: nat) returns (r: Result<seq<Array>, Error>)
      requires Valid() && |pieces| == |columns| && pos < end
      requires forall i | 0 <= i < |pieces| ::
                 pieces[i] in columns[i].pieces && pieces[i].start <= pos < end <= pieces[i].end
      modifies Cursors()`cached, Cursors()`values, Cursors()`dictionary, Cursors()`dictValues
      ensures r.Ok? ==> Valid() && |r.value| == |columns|
      ensures r.Ok? ==> forall i | 0 <= i < |columns| :: Holds(r.value[i], i, pos, end)
      ensures r.Ok? <==> Readable(pos)
      ensures r.Err? ==> exists i: nat :: FirstFailure(i, pos, r.error)
    {
      var cols: seq<Array> := [];
      for i := 0 to |columns|
        invariant Valid() && |cols| == i
        invariant forall k | 0 <= k < i :: Holds(cols[k], k, pos, end)
        invariant forall k, x | 0 <= k < i :: !PieceFails(file, columns[k].pieces, pos, x)
      {
        assert columns[i] in Cursors();
        var a := ReadColumn(columns[i], i, pieces[i], end);
        if a.Err? {
          assert FirstFailure(i, pos, a.error);
          return Err(a.error);
        }
        cols := cols + [a.value];
      }
      return Ok(cols);
    }

    /** Drops all caches and statistics, when the scan has ended. */
    method Cleanup()
      requires file.Valid() && ZonesValid()
      requires forall c | c in Cursors() :: Typed(c.pieces, c.dtype) && Tiles(c.pieces, 0, rows) && c.Passed(pos)
      modifies Cursors()`cached, Cursors()`values, Cursors()`dictionary, Cursors()`dictValues, ZoneRefs()
      ensures ZonesValid() && forall c | c in Cursors() :: CursorValid(c, pos)
    {
      ReleaseCursors();
      ReleaseZones();
    }

    method ReleaseCursors()
      requires file.Valid()
      requires forall c | c in Cursors() :: Typed(c.pieces, c.dtype) && Tiles(c.pieces, 0, rows) && c.Passed(pos)
      modifies Cursors()`cached, Cursors()`values, Cursors()`dictionary, Cursors()`dictValues
      ensures forall c | c in Cursors() :: CursorValid(c, pos)
    {
      for i := 0 to |columns|
        invariant forall k | 0 <= k < i :: CursorValid(columns[k], pos)
        invariant forall c | c in Cursors() :: Typed(c.pieces, c.dtype) && Tiles(c.pieces, 0, rows) && c.Passed(pos)
      {
        assert columns[i] in Cursors();
        columns[i].Release();
      }
    }

    method ReleaseZones()
      requires file.Valid() && ZonesValid()
      modifies ZoneRefs()
      ensures ZonesValid()
    {
      for j := 0 to |predicates|
        invariant ZonesValid()
      {
        for k := 0 to |predicates[j].zones|
          invariant ZonesValid()
        {
          assert predicates[j].zones[k] in ZoneRefs();
          predicates[j].zones[k].Release();
        }
      }
    }

    /** Ends the scan with the error of the first broken column. */
    method Fail(e: Error)
      requires file.Valid() && batchSize > 0 && offset <= pos < rows && !Excluded(pos) && ZonesValid()
      requires forall i, j | 0 <= i < j < |columns| :: columns[i] != columns[j]
      requires forall c | c in Cursors() :: Typed(c.pieces, c.dtype) && Tiles(c.pieces, 0, rows) && c.Passed(pos)
      requires exists i: nat :: FirstFailure(i, pos, e)
      modifies this`err, Cursors()`cached, Cursors()`values, Cursors()`dictionary, Cursors()`dictValues, ZoneRefs()
      ensures Valid() && err == Some(DecodeError(e)) && Stopped(err.value, pos)
    {
      hide Excluded, FirstFailure, Tiles, Typed, ZonesLive;
      err := Some(DecodeError(e));
      Cleanup();
    }

    /** The second half of a step: reads the batch at the position, at most up to
        `limit`, and advances. */
    method Emit(limit: nat) returns (ok: bool)
      requires Valid() && err.None? && current.None? && pos < limit <= rows && limit - pos <= batchSize
      requires !Excluded(pos)
      modifies this`pos, this`offset, this`current, this`err, Cursors(), ZoneRefs()
      ensures Valid()
      ensures ok ==> err.None? && offset == old(pos) < pos <= limit
      ensures ok ==> pos == limit || PieceStop(offset, pos)
      ensures ok ==> current.Some? && |current.value| == |columns|
      ensures ok ==> forall i | 0 <= i < |columns| :: Holds(current.value[i], i, offset, pos)
      ensures ok <==> Readable(old(pos))
      ensures !ok ==> pos == old(pos) && current.None? && err.Some? && Stopped(err.value, pos)
    {
      hide PieceFails, Excluded, Holds, Tiles, Typed, ZoneRef.Valid, Readable, FirstFailure, Stopped, PieceStop;
      var pieces, end, last := FindPieces(limit);
      if end <= pos {
        assert false;  // "scan failed to advance" cannot be reached
      }
      var cols := ReadColumns(pieces, end);
      if cols.Err? {
        Fail(cols.error);
        return false;
      }
      if end != limit { PieceEnds(pieces[last], last, end); }
      CursorsAdvance(end);
      current := Some(cols.value);
      offset := pos;
      pos := end;
      return true;
    }

    lemma {:induction false} PieceEnds(p: Piece, i: nat, end: nat)
      requires i < |columns| && p in columns[i].pieces && p.start <= pos < end == p.end
      ensures PieceStop(pos, end)
    {
      var k :| 0 <= k < |columns[i].pieces| && columns[i].pieces[k] == p;
    }

    lemma {:induction false} CursorsAdvance(end: nat)
      requires Valid() && pos <= end
      ensures forall c | c in Cursors() :: CursorValid(c, end)
    {
    }

    /** What one call of `Next` establishes, from the previous position `was`. */
    ghost predicate Stepped(was: nat, ok: bool)
      requires file.Valid()
      reads this
    {
      && (ok ==>
            && err.None? && was <= offset < pos <= rows && pos - offset <= batchSize && Ends(offset, pos)
            && current.Some? && |current.value| == |columns|
            && (forall row | offset <= row < pos :: !Excluded(row))
            && forall i | 0 <= i < |columns| :: Holds(current.value[i], i, offset, pos))
      && (!ok ==> current.None? && was <= pos <= rows)
      && (!ok && err.None? ==> pos == rows)
      && (forall row | was <= row < (if ok then offset else pos) :: Excluded(row))
      && (err.Some? ==> Stopped(err.value, pos))
    }

    /** `Next`: the next batch, or the end of the scan. The only error is that of the
        first column that does not decode at the position: a row gap or a scan that
        does not advance cannot happen. */
    method Next() returns (ok: bool)
      requires Valid()
      modifies this`pos, this`offset, this`current, this`err, Cursors(), ZoneRefs()
      ensures Valid() && Stepped(old(pos), ok)
      ensures old(err).Some? ==> !ok && pos == old(pos) && err == old(err)
    {
      hide Excluded, Holds, ZoneStop, PieceStop, Readable, FirstFailure, Tiles, Typed;
      current := None;
      if err.Some? { return false; }
      ghost var was := pos;
      while pos < rows
        invariant Valid() && was <= pos && current.None? && err.None?
        invariant forall row | was <= row < pos :: Excluded(row)
      {
        var limit, skipUntil := Prune();
        if skipUntil > pos {
          pos := skipUntil;
          continue;
        }
        ok := Emit(limit);
        return ok;
      }
      Cleanup();
      return false;
    }
  }
}
