/** Decoded words stay within the width of their type. The one exception is the split of
    32-bit floats: its left part is taken with 16 bits however wide the right part is. */
module WordRanges {
  import opened Wrappers
  import opened Words
  import opened Types
  import opened Proto
  import opened Arrays
  import opened Readings
  import BitStrings
  import BitPacking
  import LaneDelta
  import NullExpansion
  import NumberColumns
  import Overrides
  import PcoDelta
  import PcoStream
  import RowCopies
  import Sequences
  import Tokens

  /** Every word of a row, at every nested field, fits into the bytes of its type. */
  predicate InRange(c: Cell, t: Type)
    decreases t
  {
    if t.kind == KExtension then t.storage.Some? ==> InRange(c, t.storage.value)
    else
      match c.data
      case Word(x) => x < Pow2(8 * t.Width())
      case Record(cells) =>
        |cells| == |t.fields| && forall k | 0 <= k < |t.fields| :: InRange(cells[k], t.fields[k])
      case _ => true
  }

  predicate AllInRange(rows: seq<Cell>, t: Type) { forall i: nat | i < |rows| :: InRange(rows[i], t) }

  /** No 32-bit float at any depth of a type. */
  predicate NoFloat32(t: Type) {
    && t.kind != KF32 && (t.storage.Some? ==> NoFloat32(t.storage.value))
    && forall k | 0 <= k < |t.fields| :: NoFloat32(t.fields[k])
  }

  /** No split floats at any depth of a tree of encodings. */
  predicate NoSplit(node: Node) { node.encoding != AlpRd && forall c | c in node.children :: NoSplit(c) }

  predicate Tame(node: Node, t: Type) { NoFloat32(t) || NoSplit(node) }

  /** The ALP multiplications give words of their kind, as a conversion to bits does. */
  ghost predicate FloatWords(lib: Libraries) {
    forall x, e, f, kind | kind == KF32 || kind == KF64 ::
      lib.alp(x, e, f, kind) < Pow2(8 * Plain(kind, false).Width())
  }

  /** What induction gives for the children of a node. */
  ghost predicate ChildrenInRange(lib: Libraries, node: Node) {
    forall i: nat, t: Type, n: nat | Tame(node, t) && ChildReading(lib, node, i, t, n).Some? ::
      AllInRange(ChildReading(lib, node, i, t, n).value, t)
  }

  // ----------------------------------------------------------------- shared steps

  /** The nullability of the outermost type does not matter. */
  lemma {:induction false} NullabilityAside(rows: seq<Cell>, t: Type, nullable: bool)
    ensures AllInRange(rows, t.(nullable := nullable)) == AllInRange(rows, t)
    ensures NoFloat32(t.(nullable := nullable)) == NoFloat32(t)
  {
    hide Pow2, InRange;
    forall i: nat | i < |rows| ensures InRange(rows[i], t.(nullable := nullable)) == InRange(rows[i], t) {
      CellAside(rows[i], t, nullable);
    }
  }

  lemma {:induction false} CellAside(c: Cell, t: Type, nullable: bool)
    ensures InRange(c, t.(nullable := nullable)) == InRange(c, t)
  {
    hide Pow2;
  }

  lemma {:induction false} WordsInRange(mask: seq<bool>, words: seq<nat>, t: Type)
    requires |words| == |mask| && t.kind != KExtension && PcoDelta.AllBelow(words, Pow2(8 * t.Width()))
    ensures AllInRange(WordRows(mask, words), t)
  {
    hide Pow2;
  }

  /** The words of a child in range. */
  lemma {:induction false} WordsBelow(cells: seq<Cell>, t: Type)
    requires t.kind != KExtension && AllInRange(cells, t)
    ensures PcoDelta.AllBelow(WordsOf(cells), Pow2(8 * t.Width()))
  {
    hide Pow2;
    forall i | 0 <= i < |cells| ensures WordsOf(cells)[i] < Pow2(8 * t.Width()) { assert InRange(cells[i], t); }
  }

  lemma {:induction false} RemaskedInRange(cells: seq<Cell>, mask: seq<bool>, t: Type)
    requires |mask| == |cells| && AllInRange(cells, t)
    ensures AllInRange(Remasked(cells, mask), t)
  {
    hide InRange;
    forall i: nat | i < |cells| ensures InRange(Remasked(cells, mask)[i], t) {
      SameData(cells[i], mask[i], t);
    }
  }

  lemma {:induction false} SameData(c: Cell, valid: bool, t: Type)
    ensures InRange(Cell(valid, c.data), t) == InRange(c, t)
    decreases t
  {
    hide Pow2;
    if t.kind == KExtension && t.storage.Some? { SameData(c, valid, t.storage.value); }
  }

  lemma {:induction false} MappedInRange(cells: seq<Cell>, f: nat -> nat, t: Type)
    requires t.kind != KExtension && forall x :: f(x) < Pow2(8 * t.Width())
    ensures AllInRange(Mapped(cells, f), t)
  {
    hide Pow2;
    forall i: nat | i < |cells| ensures InRange(Mapped(cells, f)[i], t) {
      assert f(WordOfCell(cells[i])) < Pow2(8 * t.Width());
    }
  }

  lemma {:induction false} OverrideInRange(was: seq<Cell>, idx: seq<nat>, vals: seq<Cell>, off: nat, t: Type)
    requires |vals| == |idx| && AllInRange(was, t) && AllInRange(vals, t)
    ensures AllInRange(Overrides.Override(was, idx, vals, off), t)
  {
    hide InRange, Overrides.Hit;
  }

  lemma {:induction false} PatchesInRange(lib: Libraries, node: Node, start: nat, raw: Option<seq<byte>>, t: Type,
                                          was: seq<Cell>)
    requires ChildrenInRange(lib, node) && Tame(node, t) && AllInRange(was, t)
    requires PatchesReading(lib, node, start, raw, t, was).Some?
    ensures AllInRange(PatchesReading(lib, node, start, raw, t, was).value.0, t)
  {
    hide AllInRange, ChildReading, WordsReading, ChunkOffsetsOk, Overrides.Override, Parse, Num;
    if raw.Some? {
      var m := Parse(raw.value, 0).value;
      var (idx, vals, next) := PatchCells(lib, node, start, m, t).value;
      assert ChildReading(lib, node, start + 1, t, Num(m, 1)) == Some(vals);
      OverrideInRange(was, idx, vals, Num(m, 2), t);
    }
  }

  // ------------------------------------------------------------------ the encodings

  lemma {:induction false} BlankInRange(t: Type)
    requires Supported(t)
    ensures InRange(Blank(t), t)
    decreases t
  {
    hide Pow2;
    if t.kind == KExtension {
      BlankInRange(t.storage.value);
    } else if t.kind == KStruct {
      forall k | 0 <= k < |t.fields| ensures InRange(Blank(t.fields[k]), t.fields[k]) { BlankInRange(t.fields[k]); }
    }
  }

  lemma {:induction false} NumberInRange(m: seq<Field>, t: Type)
    requires NumberScalar(m, t).Some?
    ensures NumberScalar(m, t).value < Pow2(8 * t.Width())
  {
    hide Pow2, Num, Has, Low, Sequences.WordOf, Sequences.Denote, Sequences.ZigZag;
    Powers();
  }

  lemma {:induction false} ScalarInRange(lib: Libraries, t: Type, b: seq<byte>)
    requires Scalar(lib, t, b).Some?
    ensures InRange(Scalar(lib, t, b).value, t)
    decreases t
  {
    hide Pow2, Parse, Num, Has, NumberScalar, NullScalar;
    if t.kind == KExtension {
      ScalarInRange(lib, t.storage.value, b);
    } else {
      var m := Parse(b, 0).value;
      if NullScalar(m) {
        BlankInRange(t);
        SameData(Blank(t), false, t);
      } else if t.kind == KStruct {
        var list := Parse(DataOr(m, 9), 0).value;
        forall k | 0 <= k < |t.fields|
          ensures InRange(Scalar(lib, t.fields[k], ScalarOf(list[k])).value, t.fields[k])
        {
          ScalarInRange(lib, t.fields[k], ScalarOf(list[k]));
        }
      } else if !IsString(t) {
        NumberInRange(m, t);
      }
    }
  }

  lemma {:induction false} PrimitiveInRange(lib: Libraries, node: Node, t: Type, n: nat)
    requires PrimitiveReading(lib, node, t, n).Some?
    ensures AllInRange(PrimitiveReading(lib, node, t, n).value, t)
  {
    hide Pow2, MaskReading, AllInRange, BitStrings.LittleEndian, WordRows;
    WordsInRange(MaskReading(lib, node, 0, n).value, BufferWords(node.buffers[0], t.Width(), n), t);
  }

  lemma {:induction false} BitsSmall(b: seq<byte>, off: nat, n: nat)
    ensures PcoDelta.AllBelow(BufferBits(b, off, n), 256)
  {
    var words := BufferBits(b, off, n);
    forall i: nat | i < n ensures words[i] < 256 { assert words[i] == BufferBit(b, i + off); }
  }

  lemma {:induction false} BooleanInRange(lib: Libraries, node: Node, m: seq<Field>, t: Type, n: nat)
    requires BooleanReading(lib, node, m, t, n).Some?
    ensures AllInRange(BooleanReading(lib, node, m, t, n).value, t)
  {
    hide Pow2, MaskReading, AllInRange, BitStrings.Bit, WordRows, Num;
    Powers();
    assert 8 * t.Width() == 8;
    var words := BufferBits(node.buffers[0], Num(m, 1), n);
    BitsSmall(node.buffers[0], Num(m, 1), n);
    WordsInRange(MaskReading(lib, node, 0, n).value, words, t);
  }

  lemma {:induction false} ByteBoolInRange(lib: Libraries, node: Node, m: seq<Field>, t: Type, n: nat)
    requires ByteBoolReading(lib, node, m, t, n).Some?
    ensures AllInRange(ByteBoolReading(lib, node, m, t, n).value, t)
  {
    hide Pow2, MaskReading, AllInRange, WordRows, Num;
    Powers();
    WordsInRange(MaskReading(lib, node, 0, n).value, ByteWords(node.buffers[0]), t);
  }

  lemma {:induction false} ConstantInRange(lib: Libraries, t: Type, b: seq<byte>, n: nat)
    requires ConstantReading(lib, t, b, n).Some?
    ensures AllInRange(ConstantReading(lib, t, b, n).value, t)
  {
    hide Scalar, InRange;
    ScalarInRange(lib, t, b);
  }

  lemma {:induction false} StructInRange(lib: Libraries, node: Node, t: Type, n: nat)
    requires ChildrenInRange(lib, node) && Tame(node, t) && StructReading(lib, node, t, n).Some?
    ensures AllInRange(StructReading(lib, node, t, n).value, t)
  {
    hide ChildReading, BitsReading, NoSplit, Pow2;
    var rows, off := StructReading(lib, node, t, n).value, |node.children| - |t.fields|;
    forall i: nat, k | i < n && 0 <= k < |t.fields| ensures InRange(rows[i].data.cells[k], t.fields[k]) {
      var column := ChildReading(lib, node, k + off, t.fields[k], n);
      assert column.Some? && AllInRange(column.value, t.fields[k]);
      assert rows[i].data.cells[k] == column.value[i];
    }
  }

  lemma {:induction false} DictionaryInRange(lib: Libraries, node: Node, m: seq<Field>, t: Type, n: nat)
    requires ChildrenInRange(lib, node) && Tame(node, t) && DictionaryReading(lib, node, m, t, n).Some?
    ensures AllInRange(DictionaryReading(lib, node, m, t, n).value, t)
  {
    hide ChildReading, InRange, Num, Has, Supported, Blank, Tame;
    BlankInRange(t);
    SameData(Blank(t), false, t);
  }

  lemma {:induction false} MaskedInRange(lib: Libraries, node: Node, t: Type, n: nat)
    requires ChildrenInRange(lib, node) && Tame(node, t) && MaskedReading(lib, node, t, n).Some?
    ensures AllInRange(MaskedReading(lib, node, t, n).value, t)
  {
    hide ChildReading, MaskReading, AllInRange, NoSplit, NoFloat32;
    var cells := ChildReading(lib, node, 0, t.(nullable := false), n).value;
    NullabilityAside(cells, t, false);
    RemaskedInRange(cells, MaskReading(lib, node, 1, n).value, t);
  }

  lemma {:induction false} BitPackedInRange(lib: Libraries, node: Node, m: seq<Field>, t: Type, n: nat)
    requires ChildrenInRange(lib, node) && Tame(node, t) && BitPackedReading(lib, node, m, t, n).Some?
    ensures AllInRange(BitPackedReading(lib, node, m, t, n).value, t)
  {
    hide MaskReading, AllInRange, Pow2, Num, Data, BitPacking.Values, WordRows, Remasked, PatchesReading, Tame,
      ChildrenInRange, BitPacking.Packed.Accepts;
    var p, off := BitPacking.Packed(8 * t.Width(), Num(m, 1), node.buffers[0]), Num(m, 2);
    UnpackedBelow(p, off, n);
    var was := WordRows(seq(n, _ => true), BitPacking.Values(p, off, n));
    WordsInRange(seq(n, _ => true), BitPacking.Values(p, off, n), t);
    PatchesInRange(lib, node, 0, Data(m, 3), t, was);
    var (patched, next) := PatchesReading(lib, node, 0, Data(m, 3), t, was).value;
    RemaskedInRange(patched, MaskReading(lib, node, next, n).value, t);
  }

  /** An unpacked value has at most `bw` bits. */
  lemma {:induction false} UnpackedBelow(p: BitPacking.Packed, off: nat, n: nat)
    requires p.Accepts(off, n)
    ensures PcoDelta.AllBelow(BitPacking.Values(p, off, n), Pow2(p.bits))
  {
    hide Pow2, BitPacking.Packed.Stream, BitPacking.Packed.HasChunk;
    Pow2Mono(p.bw, p.bits);
    forall i: nat | i < n ensures BitPacking.Values(p, off, n)[i] < Pow2(p.bits) {
      BitPacking.ChunkAvailable(p, off, n, i);
      p.ValueBelow((off + i) / 1024, (off + i) % 1024);
    }
  }

  lemma {:induction false} ReferenceInRange(lib: Libraries, node: Node, t: Type, n: nat)
    requires ReferenceReading(lib, node, t, n).Some?
    ensures AllInRange(ReferenceReading(lib, node, t, n).value, t)
  {
    hide ChildReading, AllInRange, Pow2, Low, Mapped, Reference;
    var base := Reference(node.metadata, t).value;
    var f := (x: nat) => Low(x + base, 8 * t.Width());
    forall x: nat ensures f(x) < Pow2(8 * t.Width()) { assert f(x) == Low(x + base, 8 * t.Width()); }
    MappedInRange(ChildReading(lib, node, 0, t, n).value, f, t);
  }

  lemma {:induction false} ZigZagInRange(lib: Libraries, node: Node, t: Type, n: nat)
    requires ZigZagReading(lib, node, t, n).Some?
    ensures AllInRange(ZigZagReading(lib, node, t, n).value, t)
  {
    hide ChildReading, AllInRange, Pow2, Sequences.WordOf, Sequences.ZigZag, Mapped;
    MappedInRange(ChildReading(lib, node, 0, Unsigned(t), n).value,
                  (x: nat) => Sequences.WordOf(Sequences.ZigZag(x), 8 * t.Width()), t);
  }

  lemma {:induction false} SequenceInRange(node: Node, m: seq<Field>, t: Type, n: nat)
    requires SequenceReading(node, m, t, n).Some?
    ensures AllInRange(SequenceReading(node, m, t, n).value, t)
  {
    hide Pow2, Sequences.WordOf, Sequences.Elements, AllFit;
    var rows := SequenceReading(node, m, t, n).value;
    forall i: nat | i < n ensures InRange(rows[i], t) { assert rows[i].data.Word?; }
  }

  lemma {:induction false} RunRowsAmong(ends: seq<nat>, vals: seq<Cell>, off: nat, n: nat)
    requires |vals| == |ends| && RowCopies.RunsCover(ends, off, n)
    ensures forall i: nat | i < n :: RowCopies.RunRows(ends, vals, off, n)[i] in vals
  {
    hide RowCopies.RunAt, RowCopies.Increasing;
    forall i: nat | i < n ensures RowCopies.RunRows(ends, vals, off, n)[i] in vals {
      RowCopies.RunInside(ends, off + i, RowCopies.RunAt(ends, off + i));
    }
  }

  lemma {:induction false} RunEndInRange(lib: Libraries, node: Node, m: seq<Field>, t: Type, n: nat)
    requires ChildrenInRange(lib, node) && Tame(node, t) && RunEndReading(lib, node, m, t, n).Some?
    ensures AllInRange(RunEndReading(lib, node, m, t, n).value, t)
  {
    hide ChildReading, WordsReading, InRange, Num, Pow2, RowCopies.RunAt, Tame;
    var rows, vals := RunEndReading(lib, node, m, t, n).value, ChildReading(lib, node, 1, t, Num(m, 2)).value;
    RunRowsAmong(WordsReading(lib, node, 0, IntegerType(Num(m, 1), false).value, Num(m, 2)).value, vals, Num(m, 3), n);
    forall i: nat | i < n ensures InRange(rows[i], t) { assert rows[i] in vals; }
  }

  lemma {:induction false} RunLengthInRange(lib: Libraries, node: Node, m: seq<Field>, t: Type, n: nat)
    requires ChildrenInRange(lib, node) && Tame(node, t) && RunLengthReading(lib, node, m, t, n).Some?
    ensures AllInRange(RunLengthReading(lib, node, m, t, n).value, t)
  {
    hide ChildReading, AllInRange, Num, Pow2, WordRows, NoSplit, NoFloat32,
      NumberColumns.Rle.Words, NumberColumns.Rle.Valids;
    var it, ot := PrimitiveType(Num(m, 3), t.nullable), UnsignedType(Num(m, 5), false);
    var vals := ChildReading(lib, node, 0, t.(nullable := false), Num(m, 1)).value;
    NullabilityAside(vals, t, false);
    WordsBelow(vals, t);
    var idx := ChildReading(lib, node, 1, it.value, Num(m, 2)).value;
    var a := NumberColumns.Rle(WordsOf(vals), WordsOf(idx), Some(ValidsOf(idx)),
                               WordsReading(lib, node, 2, ot.value, Num(m, 4)).value);
    RleBelow(a, Num(m, 6), n, Pow2(8 * t.Width()));
    WordsInRange(a.Valids(Num(m, 6), n), a.Words(Num(m, 6), n), t);
  }

  lemma {:induction false} RleBelow(a: NumberColumns.Rle, off: nat, n: nat, bound: nat)
    requires a.Decodes(off, n) && bound > 0 && PcoDelta.AllBelow(a.vals, bound)
    ensures PcoDelta.AllBelow(a.Words(off, n), bound)
  {
    hide NumberColumns.Rle.Start, NumberColumns.Rle.End, NumberColumns.Rle.Code;
    forall i: nat | i < n ensures a.Words(off, n)[i] < bound { assert a.RowDecodes(off, n, i); }
  }

  lemma {:induction false} SparseInRange(lib: Libraries, node: Node, m: seq<Field>, t: Type, n: nat)
    requires ChildrenInRange(lib, node) && Tame(node, t) && SparseReading(lib, node, m, t, n).Some?
    ensures AllInRange(SparseReading(lib, node, m, t, n).value, t)
  {
    hide ChildrenInRange, Tame, AllInRange, ConstantReading, PatchesReading, Data;
    var was := ConstantReading(lib, t, node.buffers[0], n).value;
    ConstantInRange(lib, t, node.buffers[0], n);
    PatchesInRange(lib, node, 0, Data(m, 1), t, was);
  }

  lemma {:induction false} AlpInRange(lib: Libraries, node: Node, m: seq<Field>, t: Type, n: nat)
    requires FloatWords(lib) && ChildrenInRange(lib, node) && Tame(node, t) && AlpReading(lib, node, m, t, n).Some?
    ensures AllInRange(AlpReading(lib, node, m, t, n).value, t)
  {
    hide ChildrenInRange, Tame, AllInRange, ChildReading, Mapped, PatchesReading, Data, Num, Pow2;
    var cells := ChildReading(lib, node, 0, Plain(if t.kind == KF32 then KI32 else KI64, t.nullable), n).value;
    var image := (x: nat) => lib.alp(x, Num(m, 1), Num(m, 2), t.kind);
    MappedInRange(cells, image, t);
    PatchesInRange(lib, node, 1, Data(m, 3), t, Mapped(cells, image));
  }

  lemma {:induction false} ZstdInRange(lib: Libraries, node: Node, m: seq<Field>, t: Type, n: nat)
    requires ZstdReading(lib, node, m, t, n).Some?
    ensures AllInRange(ZstdReading(lib, node, m, t, n).value, t)
  {
    hide MaskReading, FramesOf, Num, NullExpansion.Stored, NullExpansion.Count, SpreadRows, AllInRange, Pow2;
    var mask := MaskReading(lib, node, 0, n).value;
    var frames := if Num(m, 1) != 0 then FramesOf(lib, m, node.buffers[0], node.buffers[1..])
                  else FramesOf(lib, m, [], node.buffers);
    var layout := LayoutOf(lib, t);
    StoredBelow(layout, frames.value);
    SpreadInRange(NullExpansion.Stored(layout, frames.value).value, mask, BlankItem(layout), t);
  }

  /** A stored number fits into `w` bytes. */
  predicate NumberFits(item: NullExpansion.Item, w: nat) { item.Number? ==> item.word < Pow2(8 * w) }

  lemma {:induction false} SpreadInRange(items: seq<NullExpansion.Item>, mask: seq<bool>, blank: NullExpansion.Item,
                                         t: Type)
    requires t.kind != KExtension && NumberFits(blank, t.Width()) && forall x | x in items :: NumberFits(x, t.Width())
    ensures AllInRange(SpreadRows(items, mask, blank), t)
  {
    hide NullExpansion.Count, Pow2;
    var before := seq(|mask|, _ => blank);
    var all := NullExpansion.Spread(items, Some(mask), before);
    forall i: nat | i < |mask| ensures InRange(SpreadRows(items, mask, blank)[i], t) {
      assert all[i] in items || all[i] == blank;
      assert NumberFits(all[i], t.Width());
    }
  }

  lemma {:induction false} ItemsBelow(layout: NullExpansion.Layout, raw: seq<byte>)
    requires layout.Valid() && layout.Items(raw).Some?
    ensures forall x | x in layout.Items(raw).value :: layout.Fixed? ==> NumberFits(x, layout.w)
    ensures layout.Prefixed? ==> forall x | x in layout.Items(raw).value :: x.Text?
    decreases |raw|
  {
    hide Pow2, BitStrings.LittleEndian;
    if raw != [] { ItemsBelow(layout, raw[layout.First(raw).value.1..]); }
  }

  lemma {:induction false} StoredBelow(layout: NullExpansion.Layout, frames: seq<NullExpansion.Frame>)
    requires layout.Valid() && NullExpansion.Stored(layout, frames).Some?
    ensures forall x | x in NullExpansion.Stored(layout, frames).value :: layout.Fixed? ==> NumberFits(x, layout.w)
    ensures layout.Prefixed? ==> forall x | x in NullExpansion.Stored(layout, frames).value :: x.Text?
  {
    hide NullExpansion.Layout.Items, NumberFits;
    if frames != [] {
      ItemsBelow(layout, frames[0].raw);
      StoredBelow(layout, frames[1..]);
    }
  }

  lemma {:induction false} DeltaInRange(lib: Libraries, node: Node, m: seq<Field>, t: Type, n: nat)
    requires DeltaReading(lib, node, m, t, n).Some?
    ensures AllInRange(DeltaReading(lib, node, m, t, n).value, t)
  {
    hide ChildReading, WordsReading, AllInRange, Num, Pow2, WordRows, BasesOf, LaneDelta.Encoded.Valid,
      LaneDelta.Encoded.Values;
    var bits, count, off := 8 * t.Width(), Num(m, 1), Num(m, 2);
    var bases, deltas := WordsReading(lib, node, 0, t, BasesOf(bits, count)).value,
                         ChildReading(lib, node, 1, t, count).value;
    var e := LaneDelta.Encoded(bits, bases, WordsOf(deltas), Some(ValidsOf(deltas)));
    RunningBelow(e, off, n);
    WordsInRange(e.Validity(off, n).value, e.Values(off, n), t);
  }

  lemma {:induction false} RunningBelow(e: LaneDelta.Encoded, off: nat, n: nat)
    requires e.Valid() && off + n <= |e.deltas|
    ensures PcoDelta.AllBelow(e.Values(off, n), Pow2(e.bits))
  {
    hide Pow2, LaneDelta.Encoded.Valid, LaneDelta.Encoded.Value;
    forall i: nat | i < n ensures e.Values(off, n)[i] < Pow2(e.bits) { e.ValueBelow(off + i); }
  }

  lemma {:induction false} PcoInRange(lib: Libraries, node: Node, m: seq<Field>, t: Type, n: nat)
    requires PcoReading(lib, node, m, t, n).Some?
    ensures AllInRange(PcoReading(lib, node, m, t, n).value, t)
  {
    hide MaskReading, PageCounts, DataOr, PcoStream.Column, PcoStream.Total, NullExpansion.Count, SpreadRows,
      AllInRange, Pow2;
    var counts := PageCounts(m).value;
    var k := |counts|;
    var words := PcoStream.Column(lib.floats, DataOr(m, 1), node.buffers[..k], node.buffers[k..], counts, t.kind);
    SpreadInRange(NumberItems(words.value), MaskReading(lib, node, 0, n).value, NullExpansion.Number(0), t);
  }

  // ---------------------------------------------------------------------- split floats

  /** A left part of at most 16 bits above `bw` right bits fits into `w` bits exactly when
      the left part fits into `w - bw`; 64 bits always suffice, since the shift drops what
      does not fit. */
  lemma {:induction false} CombineFits(left: nat, right: nat, bw: nat, w: nat)
    requires left <= 65535 && right < Pow2(bw) && bw < w <= bw + 16 && (w == 32 || w == 64)
    ensures NumberColumns.Combine(left, right, bw) < Pow2(w) <==> left < Pow2(w - bw) || w == 64
  {
    hide Pow2, Shl, Low;
    Powers();
    if bw + 16 <= 64 {
      SplitFits(left, right, bw, w);
      ShlMono(left + 1, Pow2(16), bw);
      ShlPow2(16, bw);
      ShlSucc(left, bw);
      Pow2Mono(bw + 16, 64);
      LowSmall(Shl(left, bw), 64);
    }
    if w == 64 {
      Pow2Mono(bw, 64);
      LowShifted(left, bw, 64);
      SplitFits(Low(left, 64 - bw), right, bw, 64);
    }
  }

  lemma {:induction false} SplitFits(left: nat, right: nat, bw: nat, w: nat)
    requires right < Pow2(bw) && bw <= w
    ensures right + Shl(left, bw) < Pow2(w) <==> left < Pow2(w - bw)
  {
    hide Pow2, Shl;
    ShlPow2(w - bw, bw);
    ShlSucc(left, bw);
    if left < Pow2(w - bw) { ShlMono(left + 1, Pow2(w - bw), bw); } else { ShlMono(Pow2(w - bw), left, bw); }
  }

  lemma {:induction false} LowShifted(x: nat, k: nat, w: nat)
    requires k <= w
    ensures Low(Shl(x, k), w) == Shl(Low(x, w - k), k)
    decreases k
  {
    if k > 0 { LowShifted(x, k - 1, w - 1); }
  }

  /** The patched left parts that an ALPRD node combines with its right parts. */
  ghost function LeftReading(lib: Libraries, node: Node, m: seq<Field>, t: Type, n: nat): (left: seq<nat>)
    requires AlpRdReading(lib, node, m, t, n).Some?
    ensures |left| == n
  {
    var lt := UnsignedType(Num(m, 4), t.nullable).value;
    NumbersPatched(lib, node, 2, Data(m, 5), lt.(nullable := false),
                   LeftParts(ChildReading(lib, node, 0, lt, n).value, LeftDictionary(m).value)).value.0
  }

  /** Every valid row's left part leaves room for `bw` right bits in 32 bits. */
  predicate LeftsFit(rows: seq<Cell>, left: seq<nat>, bw: nat)
    requires |left| == |rows|
  {
    forall i: nat | i < |rows| && rows[i].valid :: bw <= 32 && left[i] < Pow2(32 - bw)
  }

  /** The combined parts as rows. */
  function SplitRows(codes: seq<Cell>, left: seq<nat>, right: seq<nat>, bw: nat): (rows: seq<Cell>)
    requires |left| == |right| == |codes|
    ensures |rows| == |codes|
  {
    WordRows(ValidsOf(codes), Combined(codes, left, right, bw))
  }

  lemma {:induction false} SplitRowsInRange(codes: seq<Cell>, left: seq<nat>, right: seq<nat>, bw: nat, t: Type)
    requires |left| == |right| == |codes| && PartsFit(codes, left, right, bw)
    requires (t.kind == KF32 || t.kind == KF64) && bw < 8 * t.Width() <= bw + 16
    requires PcoDelta.AllBelow(right, Pow2(8 * t.Width()))
    ensures AllInRange(SplitRows(codes, left, right, bw), t)
            <==> t.kind == KF64 || LeftsFit(SplitRows(codes, left, right, bw), left, bw)
  {
    hide Pow2, NumberColumns.Combine;
    var rows := SplitRows(codes, left, right, bw);
    forall i: nat | i < |rows|
      ensures InRange(rows[i], t) <==> !rows[i].valid || t.kind == KF64 || (bw <= 32 && left[i] < Pow2(32 - bw))
    {
      if rows[i].valid { CombineFits(left[i], right[i], bw, 8 * t.Width()); }
    }
  }

  /** Split floats stay in range exactly when the left parts of 32-bit floats, dictionary
      entries or patches, fit; 64-bit floats always do. */
  lemma {:induction false} SplitInRange(lib: Libraries, node: Node, m: seq<Field>, t: Type, n: nat, rows: seq<Cell>)
    requires ChildrenInRange(lib, node) && AlpRdReading(lib, node, m, t, n) == Some(rows)
    ensures AllInRange(rows, t) <==> t.kind == KF64 || LeftsFit(rows, LeftReading(lib, node, m, t, n), Num(m, 1))
  {
    hide ChildReading, Pow2, Num, Data, LeftDictionary, NumbersPatched, LeftParts, Combined, NoSplit, PartsFit,
      RowCopies.CodesNamed, LeftsFit, AllInRange;
    var bw, lt := Num(m, 1), UnsignedType(Num(m, 4), t.nullable).value;
    var rt := Plain(if t.kind == KF32 then KU32 else KU64, false);
    var right := ChildReading(lib, node, 1, rt, n).value;
    WordsBelow(right, rt);
    SplitRowsInRange(ChildReading(lib, node, 0, lt, n).value, LeftReading(lib, node, m, t, n), WordsOf(right), bw, t);
  }

  /** Rows without words. */
  lemma {:induction false} NoWords(rows: seq<Cell>, t: Type)
    requires t.kind != KExtension && forall i: nat | i < |rows| :: rows[i].data.Nothing? || rows[i].data.Text?
    ensures AllInRange(rows, t)
  {
  }

  lemma {:induction false} NullInRange(t: Type, n: nat)
    requires t.kind == KNull
    ensures AllInRange(seq(n, _ => Cell(false, Nothing)), t)
  {
  }

  lemma {:induction false} VarBinInRange(lib: Libraries, node: Node, m: seq<Field>, t: Type, n: nat)
    requires VarBinReading(lib, node, m, t, n).Some?
    ensures AllInRange(VarBinReading(lib, node, m, t, n).value, t)
  {
    hide RangesReading, TextsAllowed, AllInRange, Num;
    NoWords(VarBinReading(lib, node, m, t, n).value, t);
  }

  lemma {:induction false} ViewInRange(lib: Libraries, node: Node, t: Type, n: nat)
    requires ViewReading(lib, node, t, n).Some?
    ensures AllInRange(ViewReading(lib, node, t, n).value, t)
  {
    hide MaskReading, TextsAllowed, AllInRange, ViewAt;
    NoWords(ViewReading(lib, node, t, n).value, t);
  }

  lemma {:induction false} FsstInRange(lib: Libraries, node: Node, m: seq<Field>, t: Type, n: nat)
    requires FsstReading(lib, node, m, t, n).Some?
    ensures AllInRange(FsstReading(lib, node, m, t, n).value, t)
  {
    hide FsstCells, AllInRange, Tokens.AllExpand, Tokens.Table.Expand, Tokens.Table.Valid;
    NoWords(FsstReading(lib, node, m, t, n).value, t);
  }

  lemma {:induction false} OnPairInRange(lib: Libraries, node: Node, m: seq<Field>, t: Type, n: nat)
    requires OnPairReading(lib, node, m, t, n).Some?
    ensures AllInRange(OnPairReading(lib, node, m, t, n).value, t)
  {
    hide OnPairColumns, MaskReading, TokensOf, AllInRange, Tokens.AllName, Tokens.RowText, Num;
    NoWords(OnPairReading(lib, node, m, t, n).value, t);
  }

  lemma {:induction false} StorageInRange(lib: Libraries, node: Node, t: Type, n: nat)
    requires ChildrenInRange(lib, node) && Tame(node, t) && t.kind == KExtension && t.storage.Some?
    requires ChildReading(lib, node, 0, t.storage.value, n).Some?
    ensures AllInRange(ChildReading(lib, node, 0, t.storage.value, n).value, t)
  {
    hide ChildReading, NoSplit;
    var rows := ChildReading(lib, node, 0, t.storage.value, n).value;
    assert AllInRange(rows, t.storage.value);
  }

  lemma {:induction false} WideSplitInRange(lib: Libraries, node: Node, m: seq<Field>, t: Type, n: nat)
    requires ChildrenInRange(lib, node) && Tame(node, t) && node.encoding == AlpRd
    requires AlpRdReading(lib, node, m, t, n).Some?
    ensures AllInRange(AlpRdReading(lib, node, m, t, n).value, t)
  {
    hide AllInRange, ChildrenInRange, ChildReading, NumbersPatched, LeftDictionary, Num;
    SplitInRange(lib, node, m, t, n, AlpRdReading(lib, node, m, t, n).value);
  }

  // ------------------------------------------------------------------------ all trees

  /** Word soundness: whatever a tree of encodings holds, the words it decodes to fit into
      the bytes of their type, unless it splits 32-bit floats. */
  lemma {:induction false} ReadingInRange(lib: Libraries, node: Node, t: Type, n: nat)
    requires FloatWords(lib) && Tame(node, t) && Reading(lib, node, t, n).Some?
    ensures AllInRange(Reading(lib, node, t, n).value, t)
    decreases node
  {
    hide AllInRange, Tame, Encoded, Parse;
    forall i: nat, ct: Type, k: nat | Tame(node, ct) && ChildReading(lib, node, i, ct, k).Some?
      ensures AllInRange(ChildReading(lib, node, i, ct, k).value, ct)
    {
      TameChild(node, i, ct);
      ReadingInRange(lib, node.children[i], ct, k);
    }
    EncodedInRange(lib, node, Parse(node.metadata, 0).value, t, n);
  }

  lemma {:induction false} TameChild(node: Node, i: nat, t: Type)
    requires i < |node.children| && Tame(node, t)
    ensures Tame(node.children[i], t)
  {
    hide NoFloat32;
  }

  lemma {:induction false} EncodedInRange(lib: Libraries, node: Node, m: seq<Field>, t: Type, n: nat)
    requires FloatWords(lib) && ChildrenInRange(lib, node) && Tame(node, t) && Encoded(lib, node, m, t, n).Some?
    ensures AllInRange(Encoded(lib, node, m, t, n).value, t)
  {
    hide PrimitiveReading, BooleanReading, ByteBoolReading, ConstantReading, StructReading, VarBinReading, ViewReading,
      DictionaryReading, MaskedReading, BitPackedReading, ReferenceReading, ZigZagReading, SequenceReading,
      RunEndReading, RunLengthReading, SparseReading, AlpReading, AlpRdReading, FsstReading, OnPairReading,
      ZstdReading, DeltaReading, PcoReading, ChildReading, ChildrenInRange, FloatWords, Tame, AllInRange;
    match node.encoding
    case NullArray => NullInRange(t, n);
    case Primitive => PrimitiveInRange(lib, node, t, n);
    case Boolean => BooleanInRange(lib, node, m, t, n);
    case ByteBool => ByteBoolInRange(lib, node, m, t, n);
    case Constant => ConstantInRange(lib, t, node.buffers[0], n);
    case StructArray => StructInRange(lib, node, t, n);
    case VarBin => VarBinInRange(lib, node, m, t, n);
    case VarBinView => ViewInRange(lib, node, t, n);
    case Dictionary => DictionaryInRange(lib, node, m, t, n);
    case Masked => MaskedInRange(lib, node, t, n);
    case Extension => StorageInRange(lib, node, t, n);
    case BitPacked => BitPackedInRange(lib, node, m, t, n);
    case FrameOfReference => ReferenceInRange(lib, node, t, n);
    case ZigZag => ZigZagInRange(lib, node, t, n);
    case Sequence => SequenceInRange(node, m, t, n);
    case RunEnd => RunEndInRange(lib, node, m, t, n);
    case RunLength => RunLengthInRange(lib, node, m, t, n);
    case Sparse => SparseInRange(lib, node, m, t, n);
    case Alp => AlpInRange(lib, node, m, t, n);
    case AlpRd => WideSplitInRange(lib, node, m, t, n);
    case Fsst => FsstInRange(lib, node, m, t, n);
    case OnPair => OnPairInRange(lib, node, m, t, n);
    case Zstd => ZstdInRange(lib, node, m, t, n);
    case Delta => DeltaInRange(lib, node, m, t, n);
    case Pco => PcoInRange(lib, node, m, t, n);
  }
}
