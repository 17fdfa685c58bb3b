/** Written nodes over the rows of other nodes read back as those rows: dictionaries,
    run-length chunks, structs, masks and extensions, over any encoding of the children. */
module RowNodes {
  import opened Wrappers
  import opened Words
  import opened Types
  import opened Proto
  import opened Arrays
  import opened Readings
  import opened NodeRoundTrips
  import opened StoredNodes
  import NumberColumns
  import RowCopies

  lemma {:induction false} RowsBackToWords(mask: seq<bool>, codes: seq<nat>)
    requires |codes| == |mask|
    ensures forall i: nat | i < |mask| ::
              WordRows(mask, codes)[i].valid == mask[i] && WordOfCell(WordRows(mask, codes)[i]) == codes[i]
  {
  }

  // -------------------------------------------------------------------- dictionary

  /** Row by row, the codes of valid rows name the row's value; a null code is a null. */
  predicate Names(codes: seq<nat>, mask: seq<bool>, dict: seq<Cell>, x: seq<Cell>, blank: Datum) {
    && |codes| == |mask| == |x|
    && (forall i: nat | i < |x| && mask[i] :: codes[i] < |dict| && x[i] == dict[codes[i]])
    && (forall i: nat | i < |x| && !mask[i] :: x[i] == Cell(false, blank))
  }

  /** Dictionary, end to end: over any children that read as the codes and as the values,
      the node reads as the rows that the codes name. */
  lemma {:induction false} DictionaryNodeReads(lib: Libraries, node: Node, m: seq<Field>, t: Type, codes: seq<nat>,
                                               mask: seq<bool>, dict: seq<Cell>, x: seq<Cell>)
    requires node.encoding == Dictionary && |node.children| == 2 && Parse(node.metadata, 0) == Some(m)
    requires Num(m, 1) == |dict| && |x| <= MAX_ROWS && Supported(t) && (t.nullable || AllValid(x))
    requires Names(codes, mask, dict, x, Blank(t).data)
    requires var nullable := if Has(m, 3) then Num(m, 3) != 0 else t.nullable;
             && IntegerType(Num(m, 2), nullable).Some?
             && ChildReading(lib, node, 0, IntegerType(Num(m, 2), nullable).value, |x|) == Some(WordRows(mask, codes))
    requires ChildReading(lib, node, 1, t, |dict|) == Some(dict)
    ensures Reading(lib, node, t, |x|) == Some(x)
  {
    hide Parse, Num, Has, Encoded, Reading, ChildReading, WordRows, AllValid, Supported, Blank, RowCopies.CodesNamed,
      RowCopies.LookedUp, Names;
    NamesCount(codes, mask, dict, x, Blank(t).data);
    NamedRowsAre(codes, mask, dict, x, Blank(t));
    assert DictionaryReading(lib, node, m, t, |x|) == Some(x);
    EncodedIs(lib, node, m, t, |x|);
    ReadingIs(lib, node, m, t, |x|);
  }

  lemma {:induction false} NamesCount(codes: seq<nat>, mask: seq<bool>, dict: seq<Cell>, x: seq<Cell>, blank: Datum)
    requires Names(codes, mask, dict, x, blank)
    ensures |codes| == |mask| == |x|
  {
  }

  lemma {:induction false} NamedRowsAre(codes: seq<nat>, mask: seq<bool>, dict: seq<Cell>, x: seq<Cell>, blank: Cell)
    requires Names(codes, mask, dict, x, blank.data)
    ensures RowCopies.CodesNamed(WordRows(mask, codes), |dict|)
    ensures RowCopies.LookedUp(WordRows(mask, codes), dict, blank) == x
  {
    hide WordRows;
    RowsBackToWords(mask, codes);
    var cells := WordRows(mask, codes);
    assert RowCopies.LookedUp(cells, dict, blank) == x;
  }

  // -------------------------------------------------------------------- run length

  /** The values of 1024 rows at a time: chunk `c` has the values from `offsets[c]` on, up to
      those of the next chunk, and every valid row has the index of its value among them. */
  predicate Chunked(vals: seq<nat>, idx: seq<nat>, mask: seq<bool>, offsets: seq<nat>, x: seq<nat>) {
    && |idx| == |mask| == |x| == 1024 * |offsets|
    && forall i: nat | i < |x| :: RowInChunk(vals, idx, mask, offsets, x, i)
  }

  predicate RowInChunk(vals: seq<nat>, idx: seq<nat>, mask: seq<bool>, offsets: seq<nat>, x: seq<nat>, i: nat)
    requires i < |idx| == |mask| == |x| == 1024 * |offsets|
  {
    var from := offsets[i / 1024];
    var to := if i / 1024 + 1 == |offsets| then |vals| else offsets[i / 1024 + 1];
    if mask[i] then from < to <= |vals| && idx[i] < to - from && x[i] == vals[from + idx[i]] else x[i] == 0
  }

  lemma {:induction false} ChunksDecode(vals: seq<nat>, idx: seq<nat>, mask: seq<bool>, offsets: seq<nat>, x: seq<nat>,
                                        off: nat, n: nat)
    requires Chunked(vals, idx, mask, offsets, x) && off < 1024 && off + n <= |x|
    ensures var a := NumberColumns.Rle(vals, idx, Some(mask), offsets);
            a.Decodes(off, n) && a.Words(off, n) == x[off..off + n] && a.Valids(off, n) == mask[off..off + n]
  {
    var a := NumberColumns.Rle(vals, idx, Some(mask), offsets);
    forall i: nat | i < n ensures a.RowDecodes(off, n, i) { assert RowInChunk(vals, idx, mask, offsets, x, off + i); }
    forall i: nat | i < n ensures a.WordAt(off, n, i) == x[off + i] {
      assert RowInChunk(vals, idx, mask, offsets, x, off + i);
    }
    assert a.Words(off, n) == x[off..off + n];
    forall i: nat | i < n ensures a.Valids(off, n)[i] == mask[off..off + n][i] {
      assert a.RowDecodes(off, n, i);
    }
  }

  /** The children of a run-length node: values, indices with the nulls, chunk offsets. */
  ghost predicate RunLengthStored(lib: Libraries, node: Node, m: seq<Field>, t: Type, vals: seq<nat>, idx: seq<nat>,
                                  mask: seq<bool>, offsets: seq<nat>)
  {
    && |node.children| == 3 && Num(m, 1) == |vals| && Num(m, 2) == |idx| == |mask| && Num(m, 4) == |offsets|
    && Num(m, 3) <= 1 && UnsignedType(Num(m, 5), false).Some?
    && WordsReading(lib, node, 0, t.(nullable := false), |vals|) == Some(vals)
    && ChildReading(lib, node, 1, Plain(if Num(m, 3) == 0 then KU8 else KU16, t.nullable), |idx|)
       == Some(WordRows(mask, idx))
    && WordsReading(lib, node, 2, UnsignedType(Num(m, 5), false).value, |offsets|) == Some(offsets)
  }

  /** Run length, end to end: over any children that read as the values, the indices with
      the nulls, and the chunk offsets, every slice of the node reads as the rows. */
  lemma {:induction false} RunLengthNodeReads(lib: Libraries, node: Node, m: seq<Field>, t: Type, vals: seq<nat>,
                                              idx: seq<nat>, mask: seq<bool>, offsets: seq<nat>, x: seq<nat>,
                                              off: nat, n: nat)
    requires node.encoding == RunLength && Parse(node.metadata, 0) == Some(m) && Num(m, 6) == off < 1024
    requires RunLengthStored(lib, node, m, t, vals, idx, mask, offsets) && Chunked(vals, idx, mask, offsets, x)
    requires t.Width() > 0 && off + n <= |x| == |mask| && n <= MAX_ROWS && Allows(t, mask)
    ensures Reading(lib, node, t, n) == Some(WordRows(mask[off..off + n], x[off..off + n]))
  {
    hide Parse, Num, Encoded, Reading, WordRows, Chunked, RunLengthReading, RunLengthStored;
    RunLengthRows(lib, node, m, t, vals, idx, mask, offsets, x, off, n);
    AllowedSlice(t, mask, off, n);
    EncodedIs(lib, node, m, t, n);
    AllowedReading(lib, node, m, t, n, mask[off..off + n], x[off..off + n]);
  }

  lemma {:induction false} RunLengthRows(lib: Libraries, node: Node, m: seq<Field>, t: Type, vals: seq<nat>,
                                         idx: seq<nat>, mask: seq<bool>, offsets: seq<nat>, x: seq<nat>, off: nat,
                                         n: nat)
    requires RunLengthStored(lib, node, m, t, vals, idx, mask, offsets) && Chunked(vals, idx, mask, offsets, x)
    requires Num(m, 6) == off < 1024 && t.Width() > 0 && off + n <= |x| == |mask|
    ensures RunLengthReading(lib, node, m, t, n) == Some(WordRows(mask[off..off + n], x[off..off + n]))
  {
    hide Num, ChildReading, WordsReading, WordRows, Chunked, NumberColumns.Rle.Decodes, NumberColumns.Rle.Words,
      NumberColumns.Rle.Valids, UnsignedType;
    ChunksDecode(vals, idx, mask, offsets, x, off, n);
    RowsBack(mask, idx);
    IndexType(Num(m, 3), t.nullable);
  }

  lemma {:induction false} IndexType(p: nat, nullable: bool)
    requires p <= 1
    ensures PrimitiveType(p, nullable) == Some(Plain(if p == 0 then KU8 else KU16, nullable))
  {
  }

  // ---------------------------------------------------------------- structs and masks

  /** Rows that are made of columns. */
  predicate MadeOf(x: seq<Cell>, mask: seq<bool>, columns: seq<seq<Cell>>) {
    && |x| == |mask|
    && forall i: nat | i < |x| ::
      && x[i].valid == mask[i] && x[i].data.Record? && |x[i].data.cells| == |columns|
      && forall k: nat | k < |columns| :: i < |columns[k]| && x[i].data.cells[k] == columns[k][i]
  }

  /** Structs, end to end: over any children that read as the columns, after a child for
      the validity of the rows if there is one, the node reads as the rows. */
  lemma {:induction false} StructNodeReads(lib: Libraries, node: Node, m: seq<Field>, t: Type,
                                           columns: seq<seq<Cell>>, mask: seq<bool>, x: seq<Cell>)
    requires node.encoding == StructArray && t.kind == KStruct && Parse(node.metadata, 0) == Some(m)
    requires |x| <= MAX_ROWS && |columns| == |t.fields| && MadeOf(x, mask, columns) && Allows(t, mask)
    requires |columns| <= |node.children| <= |columns| + 1
    requires if |node.children| == |columns| then forall b | b in mask :: b
             else BitsReading(lib, node, 0, |x|) == Some(mask)
    requires forall k: nat | k < |columns| ::
               ChildReading(lib, node, k + |node.children| - |columns|, t.fields[k], |x|) == Some(columns[k])
    ensures Reading(lib, node, t, |x|) == Some(x)
  {
    hide Parse, Encoded, Reading, ChildReading, BitsReading, MadeOf;
    MadeOfCount(x, mask, columns);
    StructRows(lib, node, t, columns, mask, x);
    EncodedIs(lib, node, m, t, |x|);
    ReadingIs(lib, node, m, t, |x|);
  }

  lemma {:induction false} MadeOfCount(x: seq<Cell>, mask: seq<bool>, columns: seq<seq<Cell>>)
    requires MadeOf(x, mask, columns)
    ensures |x| == |mask| && forall i: nat | i < |x| :: x[i].valid == mask[i]
  {
  }

  lemma {:induction false} StructRows(lib: Libraries, node: Node, t: Type, columns: seq<seq<Cell>>, mask: seq<bool>,
                                      x: seq<Cell>)
    requires t.kind == KStruct && |columns| == |t.fields| && MadeOf(x, mask, columns)
    requires |columns| <= |node.children| <= |columns| + 1
    requires if |node.children| == |columns| then forall b | b in mask :: b
             else BitsReading(lib, node, 0, |x|) == Some(mask)
    requires forall k: nat | k < |columns| ::
               ChildReading(lib, node, k + |node.children| - |columns|, t.fields[k], |x|) == Some(columns[k])
    ensures StructReading(lib, node, t, |x|) == Some(x)
  {
    hide ChildReading, BitsReading;
    var off, n := |node.children| - |t.fields|, |x|;
    forall k | 0 <= k < |t.fields| ensures ChildReading(lib, node, k + off, t.fields[k], n) == Some(columns[k]) {
      var c: nat := k;
      assert ChildReading(lib, node, c + |node.children| - |columns|, t.fields[c], |x|) == Some(columns[c]);
    }
    var rows := StructReading(lib, node, t, n).value;
    forall i: nat | i < n ensures rows[i] == x[i] {
      assert mask[i] in mask;
      assert rows[i].data.Record? && |rows[i].data.cells| == |columns|;
      assert rows[i].valid == mask[i] == x[i].valid;
      forall k: nat | k < |columns| ensures rows[i].data.cells[k] == x[i].data.cells[k] {
        assert ChildReading(lib, node, k + off, t.fields[k], n) == Some(columns[k]);
      }
      assert rows[i].data.cells == x[i].data.cells;
    }
    assert rows == x;
  }

  /** Masks, end to end: over a child that reads as values without nulls, the node reads as
      the values under the flags of the second child. */
  lemma {:induction false} MaskedNodeReads(lib: Libraries, node: Node, m: seq<Field>, t: Type, vals: seq<Cell>,
                                           mask: seq<bool>, x: seq<Cell>)
    requires node.encoding == Masked && Parse(node.metadata, 0) == Some(m) && |vals| == |mask| == |x| <= MAX_ROWS
    requires ChildReading(lib, node, 0, t.(nullable := false), |x|) == Some(vals)
    requires MaskReading(lib, node, 1, |x|) == Some(mask) && Allows(t, mask)
    requires forall i: nat | i < |x| :: x[i].valid == mask[i] && x[i].data == vals[i].data
    ensures Reading(lib, node, t, |x|) == Some(x)
  {
    hide Parse, Encoded, Reading, ChildReading, MaskReading;
    assert Remasked(vals, mask) == x;
    assert MaskedReading(lib, node, t, |x|) == Some(x);
    EncodedIs(lib, node, m, t, |x|);
    ReadingIs(lib, node, m, t, |x|);
  }

  /** Extensions and the null type, end to end: the rows of the storage, and nothing but
      nulls. */
  lemma {:induction false} StorageReads(lib: Libraries, node: Node, m: seq<Field>, t: Type, x: seq<Cell>)
    requires Parse(node.metadata, 0) == Some(m) && |x| <= MAX_ROWS
    requires node.encoding == Extension ==>
               && t.kind == KExtension && t.storage.Some? && lib.arrow(t) && |node.children| == 1
               && ChildReading(lib, node, 0, t.storage.value, |x|) == Some(x) && (t.nullable || AllValid(x))
    requires node.encoding == NullArray ==> t.kind == KNull && forall c | c in x :: c == Cell(false, Nothing)
    requires node.encoding == Extension || node.encoding == NullArray
    ensures Reading(lib, node, t, |x|) == Some(x)
  {
    hide Parse, ChildReading, AllValid;
    if node.encoding == NullArray {
      forall i: nat | i < |x| ensures x[i] == Cell(false, Nothing) { assert x[i] in x; }
      assert x == seq(|x|, _ => Cell(false, Nothing));
    }
  }
}
