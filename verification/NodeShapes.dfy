/** What every accepted node looks like: the types, children and buffers of its encoding and
    the limits on its metadata. */
module NodeShapes {
  import opened Wrappers
  import opened Words
  import opened Types
  import opened Proto
  import opened Arrays
  import opened Readings
  import opened NodeRoundTrips
  import BitPacking
  import LaneDelta
  import PcoStream
  import Sequences
  import Tokens

  predicate IsFloat(t: Type) { t.kind == KF16 || t.kind == KF32 || t.kind == KF64 }

  predicate IsNumber(t: Type) { t.IsInteger() || IsFloat(t) }

  /** A number of children, and one more for the validity of the rows. */
  predicate OptionalMask(node: Node, children: nat) {
    |node.children| == children || |node.children| == children + 1
  }

  lemma {:induction false} MaskShape(lib: Libraries, node: Node, index: nat, n: nat)
    requires MaskReading(lib, node, index, n).Some?
    ensures OptionalMask(node, index)
  {
    hide BitsReading;
  }

  /** Types, children, buffers and metadata of what is accepted, encoding by encoding. */
  predicate Shape(node: Node, m: seq<Field>, t: Type, n: nat) {
    match node.encoding
    case NullArray => t.kind == KNull
    case Primitive =>
      && IsNumber(t) && node.metadata == [] && OptionalMask(node, 0)
      && |node.buffers| == 1 && |node.buffers[0]| == n * t.Width()
    case Boolean =>
      && t.kind == KBool && OptionalMask(node, 0) && Num(m, 1) < 8
      && |node.buffers| == 1 && n + Num(m, 1) <= 8 * |node.buffers[0]|
    case ByteBool =>
      t.kind == KBool && OptionalMask(node, 0) && Num(m, 1) < 8 && |node.buffers| == 1 && |node.buffers[0]| == n
    case Constant => node.children == [] && |node.buffers| == 1
    case StructArray => t.kind == KStruct && OptionalMask(node, |t.fields|)
    case VarBin => IsString(t) && OptionalMask(node, 1) && |node.buffers| == 1
    case VarBinView =>
      IsString(t) && OptionalMask(node, 0) && node.buffers != [] && |node.buffers[|node.buffers| - 1]| == 16 * n
    case Dictionary => |node.children| == 2
    case Masked => OptionalMask(node, 1)
    case Extension => t.kind == KExtension && t.storage.Some? && |node.children| == 1
    case BitPacked =>
      && t.IsInteger() && |node.buffers| == 1 && Num(m, 1) <= 8 * t.Width() && Num(m, 2) < 1024
      && |node.buffers[0]| == (n + Num(m, 2) + 1023) / 1024 * Num(m, 1) * 128
    case FrameOfReference => t.IsInteger() && |node.children| == 1
    case ZigZag => t.IsSigned() && |node.children| == 1
    case Sequence => t.IsInteger() && node.children == []
    case RunEnd => |node.children| == 2 && Num(m, 3) + n < Pow2(64)
    case RunLength =>
      && t.Width() > 0 && |node.children| == 3 && Num(m, 3) <= 1 && Num(m, 6) < 1024
      && Num(m, 6) + n <= Num(m, 2) && Num(m, 2) % 1024 == 0 && Num(m, 4) == Num(m, 2) / 1024
    case Sparse => |node.buffers| == 1
    case Alp =>
      && (t.kind == KF32 ==> Num(m, 1) <= 10 && Num(m, 2) <= 10)
      && (t.kind == KF64 ==> Num(m, 1) <= 18 && Num(m, 2) <= 18) && (t.kind == KF32 || t.kind == KF64)
    case AlpRd => (t.kind == KF32 || t.kind == KF64) && Num(m, 1) < 8 * t.Width() <= Num(m, 1) + 16
    case Fsst =>
      && IsString(t) && (|node.buffers| == 2 || (|node.buffers| == 3 && OptionalMask(node, 2)))
      && |node.buffers[0]| == 8 * |node.buffers[1]| && |node.buffers[1]| <= 255
    case OnPair => IsString(t) && OptionalMask(node, 4) && |node.buffers| == 1 && Num(m, 3) <= MAX_ROWS
    case Zstd =>
      && (IsString(t) || IsNumber(t) || t.kind == KBool) && OptionalMask(node, 0)
      && (Num(m, 1) != 0 ==> node.buffers != [] && |node.buffers[0]| == Num(m, 1))
    case Delta => t.IsInteger() && |node.children| == 2 && Num(m, 2) < 1024 && Num(m, 2) + n <= Num(m, 1)
    case Pco => IsNumber(t) && OptionalMask(node, 0)
    case OtherEncoding => false
  }

  lemma {:induction false} PrimitiveShape(lib: Libraries, node: Node, m: seq<Field>, t: Type, n: nat)
    requires node.encoding == Primitive && PrimitiveReading(lib, node, t, n).Some?
    ensures Shape(node, m, t, n)
  {
    hide MaskReading, BufferWords;
    MaskShape(lib, node, 0, n);
  }

  lemma {:induction false} BooleanShape(lib: Libraries, node: Node, m: seq<Field>, t: Type, n: nat)
    requires node.encoding == Boolean && BooleanReading(lib, node, m, t, n).Some?
    ensures Shape(node, m, t, n)
  {
    hide MaskReading, BufferBits, Num;
    MaskShape(lib, node, 0, n);
  }

  lemma {:induction false} ByteBoolShape(lib: Libraries, node: Node, m: seq<Field>, t: Type, n: nat)
    requires node.encoding == ByteBool && ByteBoolReading(lib, node, m, t, n).Some?
    ensures Shape(node, m, t, n)
  {
    hide MaskReading, ByteWords, Num;
    MaskShape(lib, node, 0, n);
  }

  lemma {:induction false} StructArrayShape(lib: Libraries, node: Node, m: seq<Field>, t: Type, n: nat)
    requires node.encoding == StructArray && StructReading(lib, node, t, n).Some?
    ensures Shape(node, m, t, n)
  {
    hide BitsReading, ChildReading;
  }

  lemma {:induction false} VarBinShape(lib: Libraries, node: Node, m: seq<Field>, t: Type, n: nat)
    requires node.encoding == VarBin && VarBinReading(lib, node, m, t, n).Some?
    ensures Shape(node, m, t, n)
  {
    hide WordsReading, MaskReading, RangesOf, Num;
    MaskShape(lib, node, 1, n);
  }

  lemma {:induction false} VarBinViewShape(lib: Libraries, node: Node, m: seq<Field>, t: Type, n: nat)
    requires node.encoding == VarBinView && ViewReading(lib, node, t, n).Some?
    ensures Shape(node, m, t, n)
  {
    hide MaskReading, ViewAt;
    MaskShape(lib, node, 0, n);
  }

  lemma {:induction false} DictionaryShape(lib: Libraries, node: Node, m: seq<Field>, t: Type, n: nat)
    requires node.encoding == Dictionary && DictionaryReading(lib, node, m, t, n).Some?
    ensures Shape(node, m, t, n)
  {
    hide ChildReading, Num, Has;
  }

  lemma {:induction false} MaskedShape(lib: Libraries, node: Node, m: seq<Field>, t: Type, n: nat)
    requires node.encoding == Masked && MaskedReading(lib, node, t, n).Some?
    ensures Shape(node, m, t, n)
  {
    hide ChildReading, MaskReading;
    MaskShape(lib, node, 1, n);
  }

  lemma {:induction false} BitPackedShape(lib: Libraries, node: Node, m: seq<Field>, t: Type, n: nat)
    requires node.encoding == BitPacked && BitPackedReading(lib, node, m, t, n).Some?
    ensures Shape(node, m, t, n)
  {
    hide PatchedMasked, BitPacking.Values, Num, Data;
  }

  lemma {:induction false} FrameOfReferenceShape(lib: Libraries, node: Node, m: seq<Field>, t: Type, n: nat)
    requires node.encoding == FrameOfReference && ReferenceReading(lib, node, t, n).Some?
    ensures Shape(node, m, t, n)
  {
    hide ChildReading, Reference;
  }

  lemma {:induction false} ZigZagShape(lib: Libraries, node: Node, m: seq<Field>, t: Type, n: nat)
    requires node.encoding == ZigZag && ZigZagReading(lib, node, t, n).Some?
    ensures Shape(node, m, t, n)
  {
    hide ChildReading;
  }

  lemma {:induction false} SequenceShape(lib: Libraries, node: Node, m: seq<Field>, t: Type, n: nat)
    requires node.encoding == Sequence && SequenceReading(node, m, t, n).Some?
    ensures Shape(node, m, t, n)
  {
    hide Sequences.Elements, AllFit;
  }

  lemma {:induction false} RunEndShape(lib: Libraries, node: Node, m: seq<Field>, t: Type, n: nat)
    requires node.encoding == RunEnd && RunEndReading(lib, node, m, t, n).Some?
    ensures Shape(node, m, t, n)
  {
    hide WordsReading, ChildReading, Num, Pow2;
  }

  lemma {:induction false} RunLengthShape(lib: Libraries, node: Node, m: seq<Field>, t: Type, n: nat)
    requires node.encoding == RunLength && RunLengthReading(lib, node, m, t, n).Some?
    ensures Shape(node, m, t, n)
  {
    hide WordsReading, ChildReading, Num;
  }

  lemma {:induction false} SparseShape(lib: Libraries, node: Node, m: seq<Field>, t: Type, n: nat)
    requires node.encoding == Sparse && SparseReading(lib, node, m, t, n).Some?
    ensures Shape(node, m, t, n)
  {
    hide PatchesReading, ConstantReading, Data;
  }

  lemma {:induction false} AlpShape(lib: Libraries, node: Node, m: seq<Field>, t: Type, n: nat)
    requires node.encoding == Alp && AlpReading(lib, node, m, t, n).Some?
    ensures Shape(node, m, t, n)
  {
    hide PatchesReading, ChildReading, Num, Data;
  }

  lemma {:induction false} AlpRdShape(lib: Libraries, node: Node, m: seq<Field>, t: Type, n: nat)
    requires node.encoding == AlpRd && AlpRdReading(lib, node, m, t, n).Some?
    ensures Shape(node, m, t, n)
  {
    hide NumbersPatched, ChildReading, WordsReading, Num, Data, LeftDictionary;
  }

  lemma {:induction false} CellsShape(lib: Libraries, node: Node, m: seq<Field>, t: Type, n: nat)
    requires FsstCells(lib, node, m, t, n).Some?
    ensures |node.buffers| == 2 || (|node.buffers| == 3 && OptionalMask(node, 2))
  {
    hide ChildReading, WordsReading, MaskReading, RangesOf, Num;
    if |node.buffers| != 2 {
      var ot := IntegerType(Num(m, 2), false).value;
      assert RangesReading(lib, node, 1, ot, node.buffers[2], n).Some?;
      MaskShape(lib, node, 2, n);
    }
  }

  lemma {:induction false} FsstShape(lib: Libraries, node: Node, m: seq<Field>, t: Type, n: nat)
    requires node.encoding == Fsst && FsstReading(lib, node, m, t, n).Some?
    ensures Shape(node, m, t, n)
  {
    hide FsstCells, Expanded, Tokens.AllExpand;
    CellsShape(lib, node, m, t, n);
  }

  lemma {:induction false} OnPairShape(lib: Libraries, node: Node, m: seq<Field>, t: Type, n: nat)
    requires node.encoding == OnPair && OnPairReading(lib, node, m, t, n).Some?
    ensures Shape(node, m, t, n)
  {
    hide WordsReading, MaskReading, NamedReading, Num;
    MaskShape(lib, node, 4, n);
  }

  lemma {:induction false} ZstdShape(lib: Libraries, node: Node, m: seq<Field>, t: Type, n: nat)
    requires node.encoding == Zstd && ZstdReading(lib, node, m, t, n).Some?
    ensures Shape(node, m, t, n)
  {
    hide MaskReading, FramesOf, Scattered, Num;
    MaskShape(lib, node, 0, n);
  }

  lemma {:induction false} DeltaShape(lib: Libraries, node: Node, m: seq<Field>, t: Type, n: nat)
    requires node.encoding == Delta && DeltaReading(lib, node, m, t, n).Some?
    ensures Shape(node, m, t, n)
  {
    hide WordsReading, ChildReading, Num, LaneDelta.Encoded.Values, LaneDelta.Encoded.Validity;
  }

  lemma {:induction false} PcoShape(lib: Libraries, node: Node, m: seq<Field>, t: Type, n: nat)
    requires node.encoding == Pco && PcoReading(lib, node, m, t, n).Some?
    ensures Shape(node, m, t, n)
  {
    hide MaskReading, PageCounts, PcoStream.Column, PcoStream.Total, SpreadRows;
    MaskShape(lib, node, 0, n);
  }

  /** Whatever is accepted has the shape of its encoding, at most 2^25 rows, and no null where
      the type forbids it. */
  lemma {:induction false} AcceptedShape(lib: Libraries, node: Node, t: Type, n: nat)
    requires Reading(lib, node, t, n).Some?
    ensures n <= 0x200_0000 && Parse(node.metadata, 0).Some? && Shape(node, Parse(node.metadata, 0).value, t, n)
    ensures t.nullable || t.kind == KNull || forall c | c in Reading(lib, node, t, n).value :: c.valid
  {
    hide Parse, Encoded, Shape, PrimitiveReading, BooleanReading, ByteBoolReading, StructReading, VarBinReading,
      ViewReading, DictionaryReading, MaskedReading, BitPackedReading, ReferenceReading, ZigZagReading,
      SequenceReading, RunEndReading, RunLengthReading, SparseReading, AlpReading, AlpRdReading, FsstReading,
      OnPairReading, ZstdReading, DeltaReading, PcoReading, ChildReading;
    var m := Parse(node.metadata, 0).value;
    EncodedIs(lib, node, m, t, n);
    match node.encoding
    case Primitive => PrimitiveShape(lib, node, m, t, n);
    case Boolean => BooleanShape(lib, node, m, t, n);
    case ByteBool => ByteBoolShape(lib, node, m, t, n);
    case StructArray => StructArrayShape(lib, node, m, t, n);
    case VarBin => VarBinShape(lib, node, m, t, n);
    case VarBinView => VarBinViewShape(lib, node, m, t, n);
    case Dictionary => DictionaryShape(lib, node, m, t, n);
    case Masked => MaskedShape(lib, node, m, t, n);
    case BitPacked => BitPackedShape(lib, node, m, t, n);
    case FrameOfReference => FrameOfReferenceShape(lib, node, m, t, n);
    case ZigZag => ZigZagShape(lib, node, m, t, n);
    case Sequence => SequenceShape(lib, node, m, t, n);
    case RunEnd => RunEndShape(lib, node, m, t, n);
    case RunLength => RunLengthShape(lib, node, m, t, n);
    case Sparse => SparseShape(lib, node, m, t, n);
    case Alp => AlpShape(lib, node, m, t, n);
    case AlpRd => AlpRdShape(lib, node, m, t, n);
    case Fsst => FsstShape(lib, node, m, t, n);
    case OnPair => OnPairShape(lib, node, m, t, n);
    case Zstd => ZstdShape(lib, node, m, t, n);
    case Delta => DeltaShape(lib, node, m, t, n);
    case Pco => PcoShape(lib, node, m, t, n);
    case _ => OtherShape(lib, node, m, t, n);
  }

  lemma {:induction false} OtherShape(lib: Libraries, node: Node, m: seq<Field>, t: Type, n: nat)
    requires node.encoding in {NullArray, Constant, Extension, OtherEncoding} && Encoded(lib, node, m, t, n).Some?
    ensures Shape(node, m, t, n)
  {
    hide ConstantReading, ChildReading;
  }
}
