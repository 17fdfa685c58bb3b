/** A column cursor walks the pieces of a plan, caching the decoded piece and
    the decoded dictionary. */
module Cursors {
  import opened Wrappers
  import opened Types
  import opened Layouts
  import opened Plans

  // ------------------------------------------------------- rows of a plan

  lemma {:induction false} TilesAt(pieces: seq<Piece>, start: nat, end: nat, k: nat)
    requires Tiles(pieces, start, end) && k < |pieces|
    ensures pieces[k].start == if k == 0 then start else pieces[k - 1].end
    ensures start <= pieces[k].start <= pieces[k].end <= end
    ensures pieces[k].end == pieces[k].start + pieces[k].node.rows
    ensures k == |pieces| - 1 ==> pieces[k].end == end
    decreases k
  {
    TilesOrder(pieces[1..], pieces[0].end, end);
    if k > 0 { TilesAt(pieces[1..], pieces[0].end, end, k - 1); }
  }

  /** Piece `k` contains the row. */
  predicate Contains(pieces: seq<Piece>, k: nat, row: nat)
    requires k < |pieces|
  {
    pieces[k].start <= row < pieces[k].end
  }

  /** No row is in two pieces. */
  lemma {:induction false} OnePiece(pieces: seq<Piece>, start: nat, end: nat, j: nat, k: nat, row: nat)
    requires Tiles(pieces, start, end) && j < |pieces| && k < |pieces|
    requires Contains(pieces, j, row) && Contains(pieces, k, row)
    ensures j == k
    decreases j
  {
    if j > 0 && k > 0 {
      OnePiece(pieces[1..], pieces[0].end, end, j - 1, k - 1, row);
    } else {
      if j > 0 { TilesAt(pieces[1..], pieces[0].end, end, j - 1); }
      if k > 0 { TilesAt(pieces[1..], pieces[0].end, end, k - 1); }
    }
  }

  /** The piece that contains the row fails to decode, with this error. */
  ghost predicate PieceFails(f: File, pieces: seq<Piece>, row: nat, e: Error)
    requires f.Valid()
  {
    exists k: nat :: k < |pieces| && Contains(pieces, k, row) && PieceValue(f, pieces[k]) == Err(e)
  }

  /** The value of one row of the column, if its piece decodes. */
  function RowValue(f: File, pieces: seq<Piece>, row: nat): Option<Cell>
    requires f.Valid()
    decreases |pieces|
  {
    if pieces == [] then None
    else if pieces[0].start <= row < pieces[0].end && pieces[0].end == pieces[0].start + pieces[0].node.rows then
      match PieceValue(f, pieces[0])
      case Err(_) => None
      case Ok(a) => Some(a[row - pieces[0].start])
    else RowValue(f, pieces[1..], row)
  }

  /** The row's value comes from the one piece that contains the row. */
  lemma {:induction false} RowOfPiece(f: File, pieces: seq<Piece>, start: nat, end: nat, k: nat, row: nat)
    requires f.Valid() && Tiles(pieces, start, end) && k < |pieces|
    requires pieces[k].start <= row < pieces[k].end && PieceValue(f, pieces[k]).Ok?
    ensures pieces[k].end == pieces[k].start + pieces[k].node.rows
    ensures RowValue(f, pieces, row) == Some(PieceValue(f, pieces[k]).value[row - pieces[k].start])
    decreases k
  {
    if k > 0 {
      TilesAt(pieces[1..], pieces[0].end, end, k - 1);
      RowOfPiece(f, pieces[1..], pieces[0].end, end, k - 1, row);
    }
  }

  /** A row has a value only if its piece decodes. */
  lemma {:induction false} ValueReadable(f: File, pieces: seq<Piece>, start: nat, end: nat, row: nat, e: Error)
    requires f.Valid() && Tiles(pieces, start, end) && RowValue(f, pieces, row).Some?
    ensures !PieceFails(f, pieces, row, e)
    decreases |pieces|
  {
    if PieceFails(f, pieces, row, e) {
      var k: nat :| k < |pieces| && Contains(pieces, k, row) && PieceValue(f, pieces[k]) == Err(e);
      if Contains(pieces, 0, row) {
        OnePiece(pieces, start, end, 0, k, row);
      } else {
        assert Contains(pieces[1..], k - 1, row);
        ValueReadable(f, pieces[1..], pieces[0].end, end, row, e);
      }
    }
  }

  /** If the whole plan decodes, no row of it fails. */
  lemma {:induction false} PlanReadable(f: File, pieces: seq<Piece>, row: nat, e: Error)
    requires f.Valid() && PlanValue(f, pieces).Ok?
    ensures !PieceFails(f, pieces, row, e)
    decreases |pieces|
  {
    if PieceFails(f, pieces, row, e) {
      var k: nat :| k < |pieces| && Contains(pieces, k, row) && PieceValue(f, pieces[k]) == Err(e);
      if k > 0 {
        assert Contains(pieces[1..], k - 1, row);
        PlanReadable(f, pieces[1..], row, e);
      }
    }
  }

  /** If the whole plan decodes, its rows are the decoded column. */
  lemma {:induction false} RowOfPlan(f: File, pieces: seq<Piece>, start: nat, end: nat, row: nat)
    requires f.Valid() && Tiles(pieces, start, end) && PlanValue(f, pieces).Ok? && start <= row < end
    ensures |PlanValue(f, pieces).value| == end - start
    ensures RowValue(f, pieces, row) == Some(PlanValue(f, pieces).value[row - start])
    decreases |pieces|
  {
    PlanLength(f, pieces, start, end);
    if row >= pieces[0].end { RowOfPlan(f, pieces[1..], pieces[0].end, end, row); }
  }

  lemma {:induction false} PlanLength(f: File, pieces: seq<Piece>, start: nat, end: nat)
    requires f.Valid() && Tiles(pieces, start, end) && PlanValue(f, pieces).Ok?
    ensures |PlanValue(f, pieces).value| == end - start
    decreases |pieces|
  {
    if pieces != [] { PlanLength(f, pieces[1..], pieces[0].end, end); }
  }

  // ------------------------------------------------------------- the cursor

  class ColumnCursor {
    const pieces: seq<Piece>
    const dtype: Type
    var index: nat
    var cached: Option<Piece>
    var values: Option<Array>
    var dictionary: Option<Layout>
    var dictValues: Option<Array>

    constructor (pieces: seq<Piece>, dtype: Type)
      ensures this.pieces == pieces && this.dtype == dtype && index == 0
      ensures cached.None? && values.None? && dictionary.None? && dictValues.None?
    {
      this.pieces := pieces;
      this.dtype := dtype;
      index := 0;
      cached, values, dictionary, dictValues := None, None, None, None;
    }

    /** The caches hold what their keys decode to. */
    ghost predicate Valid(f: File)
      requires f.Valid()
      reads this
    {
      && index <= |pieces| && Typed(pieces, dtype)
      && (cached.Some? ==> values.Some? && PieceValue(f, cached.value) == Ok(values.value))
      && (dictionary.Some? ==> dictValues.Some? && DecodeLayout(f, dictionary.value, dtype) == Ok(dictValues.value))
    }

    /** The pieces before the index end at or before `pos`. */
    ghost predicate Passed(pos: nat)
      reads this
    {
      index <= |pieces| && forall k | 0 <= k < index :: pieces[k].end <= pos
    }

    method Release()
      modifies this`cached, this`values, this`dictionary, this`dictValues
      ensures cached.None? && values.None? && dictionary.None? && dictValues.None?
    {
      cached, values, dictionary, dictValues := None, None, None, None;
    }

    /** `at`: the piece that contains row `pos`; None would be a row gap. A plan
        that tiles the rows has no gap. */
    method At(rows: nat, pos: nat) returns (p: Option<Piece>)
      requires Tiles(pieces, 0, rows) && pos < rows && Passed(pos)
      modifies this`index
      ensures Passed(pos) && index < |pieces| && p == Some(pieces[index])
      ensures p.value.start <= pos < p.value.end <= rows
    {
      while index < |pieces| && pieces[index].end <= pos
        invariant Passed(pos)
      {
        index := index + 1;
      }
      if index > 0 { TilesAt(pieces, 0, rows, index - 1); }
      if index < |pieces| { TilesAt(pieces, 0, rows, index); }
      if index >= |pieces| || pieces[index].start > pos {
        assert false;  // "column layout has a row gap" cannot be reached
      }
      return Some(pieces[index]);
    }

    /** `read`: rows [start, end) of a piece, decoding it unless it is cached. */
    method Read(f: File, p: Piece, start: nat, end: nat) returns (r: Result<Array, Error>)
      requires f.Valid() && Valid(f) && p in pieces
      requires p.start <= start <= end <= p.end == p.start + p.node.rows
      modifies this`cached, this`values, this`dictionary, this`dictValues
      ensures match PieceValue(f, p)
              case Err(e) => r == Err(e)
              case Ok(a) => Valid(f) && r == Ok(a[start - p.start..end - p.start])
    {
      if cached != Some(p) {
        values := None;
        var a := f.flat(p.node, p.dtype);
        if a.Err? { return a; }
        var column := a.value;
        if p.field.Some? {
          var projected := Project(column, p.field.value);
          if projected.None? { return Err(Invalid); }
          column := projected.value;
        }
        if p.dictionary.None? && dictValues.Some? {
          dictValues, dictionary := None, None;
        }
        if p.dictionary.Some? {
          var taken := Take(f, p, column);
          if taken.Err? { return taken; }
          column := taken.value;
        }
        values := Some(column);
        cached := Some(p);
      }
      return Ok(values.value[start - p.start..end - p.start]);
    }

    /** The dictionary branch of `read`, with its own cache. */
    method Take(f: File, p: Piece, codes: Array) returns (r: Result<Array, Error>)
      requires f.Valid() && p.dictionary.Some? && p.dictType == dtype
      requires dictionary.Some? ==> dictValues.Some? && DecodeLayout(f, dictionary.value, dtype) == Ok(dictValues.value)
      modifies this`dictionary, this`dictValues
      ensures match DecodeLayout(f, p.dictionary.value, p.dictType)
              case Err(e) => r == Err(e)
              case Ok(values) =>
                && r == TakeDictionary(values, codes, p.dictType)
                && dictionary == p.dictionary && dictValues == Some(values)
    {
      if dictionary != p.dictionary {
        dictValues := None;
        var values := DecodeLayout(f, p.dictionary.value, p.dictType);
        if values.Err? { return values; }
        dictValues := Some(values.value);
        dictionary := p.dictionary;
      }
      return TakeDictionary(dictValues.value, codes, p.dictType);
    }
  }
}
