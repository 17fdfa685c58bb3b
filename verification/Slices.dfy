/** Slicing by an offset in the metadata: changing the offset of a node from 0 to `off`
    keeps it readable, and its rows are the rows of the whole from `off` on. */
module Slices {
  import opened Wrappers
  import opened Words
  import opened Types
  import opened Proto
  import opened Arrays
  import opened Readings
  import opened NodeRoundTrips
  import BitPacking
  import FastLanes
  import LaneDelta
  import NumberColumns
  import RowCopies

  /** The metadata field that holds the slice offset. */
  function OffsetTag(e: Encoding): nat
    requires e in {BitPacked, Delta, RunLength, RunEnd}
  {
    if e == RunLength then 6 else if e == RunEnd then 3 else 2
  }

  /** The same node, but for an offset in place of 0. */
  ghost predicate Shifted(node: Node, m: seq<Field>, sliced: Node, s: seq<Field>, tag: nat, off: nat) {
    && sliced == node.(metadata := sliced.metadata)
    && Parse(node.metadata, 0) == Some(m) && Parse(sliced.metadata, 0) == Some(s)
    && Num(m, tag) == 0 && Num(s, tag) == off
    && forall k | k != tag :: Get(s, k) == Get(m, k)
  }

  lemma {:induction false} OtherFields(node: Node, m: seq<Field>, sliced: Node, s: seq<Field>, tag: nat, off: nat)
    requires Shifted(node, m, sliced, s, tag, off)
    ensures forall k | k != tag :: Num(s, k) == Num(m, k) && Has(s, k) == Has(m, k) && Data(s, k) == Data(m, k)
    ensures Num(m, tag) == 0 && Num(s, tag) == off
  {
    hide Parse, Get;
  }

  lemma {:induction false} SameChild(lib: Libraries, node: Node, sliced: Node, i: nat, t: Type, n: nat)
    requires sliced.children == node.children
    ensures ChildReading(lib, sliced, i, t, n) == ChildReading(lib, node, i, t, n)
    ensures WordsReading(lib, sliced, i, t, n) == WordsReading(lib, node, i, t, n)
  {
    hide Reading;
  }

  lemma {:induction false} DeltaSlice(lib: Libraries, node: Node, m: seq<Field>, sliced: Node, s: seq<Field>, t: Type,
                                      off: nat, n: nat)
    requires Shifted(node, m, sliced, s, 2, off) && off < 1024 && DeltaReading(lib, node, m, t, off + n).Some?
    ensures DeltaReading(lib, sliced, s, t, n) == Some(DeltaReading(lib, node, m, t, off + n).value[off..])
  {
    hide Parse, Num, ChildReading, WordsReading, FastLanes.Lanes, LaneDelta.Encoded.Value, LaneDelta.Encoded.IsValid,
      LaneDelta.Encoded.Valid;
    OtherFields(node, m, sliced, s, 2, off);
    var bits, count := 8 * t.Width(), Num(m, 1);
    SameChild(lib, node, sliced, 0, t, BasesOf(bits, count));
    SameChild(lib, node, sliced, 1, t, count);
    var deltas := ChildReading(lib, node, 1, t, count).value;
    var e := LaneDelta.Encoded(bits, WordsReading(lib, node, 0, t, BasesOf(bits, count)).value, WordsOf(deltas),
                               Some(ValidsOf(deltas)));
    e.SliceLaw(off, n);
    SlicedWords(e.Validity(0, off + n).value, e.Values(0, off + n), off);
  }

  lemma {:induction false} SlicedWords(mask: seq<bool>, words: seq<nat>, off: nat)
    requires |words| == |mask| && off <= |mask|
    ensures WordRows(mask[off..], words[off..]) == WordRows(mask, words)[off..]
  {
  }

  lemma {:induction false} RunLengthSlice(lib: Libraries, node: Node, m: seq<Field>, sliced: Node, s: seq<Field>,
                                          t: Type, off: nat, n: nat)
    requires Shifted(node, m, sliced, s, 6, off) && off < 1024 && RunLengthReading(lib, node, m, t, off + n).Some?
    ensures RunLengthReading(lib, sliced, s, t, n) == Some(RunLengthReading(lib, node, m, t, off + n).value[off..])
  {
    hide Parse, Num, ChildReading, WordsReading, NumberColumns.Rle.Decodes, NumberColumns.Rle.Words,
      NumberColumns.Rle.Valids;
    OtherFields(node, m, sliced, s, 6, off);
    var it, ot := PrimitiveType(Num(m, 3), t.nullable), UnsignedType(Num(m, 5), false);
    SameChild(lib, node, sliced, 0, t.(nullable := false), Num(m, 1));
    SameChild(lib, node, sliced, 1, it.value, Num(m, 2));
    SameChild(lib, node, sliced, 2, ot.value, Num(m, 4));
    var idx := ChildReading(lib, node, 1, it.value, Num(m, 2)).value;
    var a := NumberColumns.Rle(WordsReading(lib, node, 0, t.(nullable := false), Num(m, 1)).value, WordsOf(idx),
                               Some(ValidsOf(idx)), WordsReading(lib, node, 2, ot.value, Num(m, 4)).value);
    a.SliceLaw(off, n);
    RleShape(a, off, n);
    SlicedWords(a.Valids(0, off + n), a.Words(0, off + n), off);
  }

  lemma {:induction false} RleShape(a: NumberColumns.Rle, off: nat, n: nat)
    requires a.Decodes(0, off + n) && a.Decodes(off, n)
    ensures a.Valid() && a.Accepts(0, off + n) && a.Accepts(off, n)
  {
  }

  lemma {:induction false} RunEndSlice(lib: Libraries, node: Node, m: seq<Field>, sliced: Node, s: seq<Field>,
                                       t: Type, off: nat, n: nat)
    requires Shifted(node, m, sliced, s, 3, off) && RunEndReading(lib, node, m, t, off + n).Some?
    ensures RunEndReading(lib, sliced, s, t, n) == Some(RunEndReading(lib, node, m, t, off + n).value[off..])
  {
    hide Parse, Num, ChildReading, WordsReading, RowCopies.RunAt, RowCopies.Increasing, Pow2;
    OtherFields(node, m, sliced, s, 3, off);
    var ct := IntegerType(Num(m, 1), false);
    SameChild(lib, node, sliced, 0, ct.value, Num(m, 2));
    SameChild(lib, node, sliced, 1, t, Num(m, 2));
    var ends := WordsReading(lib, node, 0, ct.value, Num(m, 2)).value;
    var vals := ChildReading(lib, node, 1, t, Num(m, 2)).value;
    assert RowCopies.RunsCover(ends, off, n);
    assert RowCopies.RunRows(ends, vals, off, n) == RowCopies.RunRows(ends, vals, 0, off + n)[off..];
  }

  /** Without patches and validity, whose children would be sliced themselves. */
  lemma {:induction false} BitPackedSlice(lib: Libraries, node: Node, m: seq<Field>, sliced: Node, s: seq<Field>,
                                          t: Type, off: nat, n: nat)
    requires Shifted(node, m, sliced, s, 2, off) && off < 1024 && BitPackedReading(lib, node, m, t, off + n).Some?
    requires node.children == [] && Data(m, 3) == None
    ensures BitPackedReading(lib, sliced, s, t, n) == Some(BitPackedReading(lib, node, m, t, off + n).value[off..])
  {
    hide Parse, Num, Data, BitPacking.ValueAt, BitPackedReading, BitPacking.Packed.Accepts;
    OtherFields(node, m, sliced, s, 2, off);
    BitPackedChecks(lib, node, m, t, off + n);
    Unpatched(lib, node, m, t, off + n);
    Unpatched(lib, sliced, s, t, n);
    var p := BitPacking.Packed(8 * t.Width(), Num(m, 1), node.buffers[0]);
    BitPacking.SliceLaw(p, off, n);
    var all := seq(off + n, _ => true);
    SlicedWords(all, BitPacking.Values(p, 0, off + n), off);
    assert all[off..] == seq(n, _ => true);
  }

  lemma {:induction false} BitPackedChecks(lib: Libraries, node: Node, m: seq<Field>, t: Type, n: nat)
    requires BitPackedReading(lib, node, m, t, n).Some?
    ensures t.IsInteger() && |node.buffers| == 1
  {
    hide PatchesReading, MaskReading, BitPacking.Values, Num;
  }

  /** Slice law of whole nodes: for delta, run-length and run-end encodings and plain
      bit-packing, whenever rows [0, off + n) can be read, the node with the offset in its
      metadata can be read for `n` rows, and they are rows [off, off + n). */
  lemma {:induction false} SliceReads(lib: Libraries, node: Node, m: seq<Field>, sliced: Node, s: seq<Field>, t: Type,
                                      off: nat, n: nat)
    requires node.encoding in {BitPacked, Delta, RunLength, RunEnd}
    requires Shifted(node, m, sliced, s, OffsetTag(node.encoding), off) && (node.encoding != RunEnd ==> off < 1024)
    requires node.encoding == BitPacked ==> node.children == [] && Data(m, 3) == None
    requires Reading(lib, node, t, off + n).Some?
    ensures Reading(lib, sliced, t, n) == Some(Reading(lib, node, t, off + n).value[off..])
  {
    hide Parse, Data, BitPackedReading, DeltaReading, RunLengthReading, RunEndReading, PrimitiveReading,
      BooleanReading, ByteBoolReading, ConstantReading, StructReading, VarBinReading, ViewReading, DictionaryReading,
      MaskedReading, ReferenceReading, ZigZagReading, SequenceReading, SparseReading, AlpReading, AlpRdReading,
      FsstReading, OnPairReading, ZstdReading, PcoReading, ChildReading;
    match node.encoding
    case BitPacked => BitPackedSlice(lib, node, m, sliced, s, t, off, n);
    case Delta => DeltaSlice(lib, node, m, sliced, s, t, off, n);
    case RunLength => RunLengthSlice(lib, node, m, sliced, s, t, off, n);
    case RunEnd => RunEndSlice(lib, node, m, sliced, s, t, off, n);
    SlicedValid(Reading(lib, node, t, off + n).value, off);
  }

  lemma {:induction false} SlicedValid(rows: seq<Cell>, off: nat)
    requires off <= |rows|
    ensures AllValid(rows) ==> AllValid(rows[off..])
  {
  }
}
