/** From a writer's values through a whole encoded node and back: the written node has a
    reading, and it is what was written. */
module NodeRoundTrips {
  import opened Wrappers
  import opened Words
  import opened Types
  import opened Proto
  import opened Arrays
  import opened Readings
  import BitPacking
  import BitPackRoundTrip
  import Sequences

  /** A node's reading is that of its encoding, if the type's nullability allows it. */
  lemma {:induction false} ReadingIs(lib: Libraries, node: Node, m: seq<Field>, t: Type, n: nat)
    requires Parse(node.metadata, 0) == Some(m) && n <= MAX_ROWS
    requires Encoded(lib, node, m, t, n).Some? ==> t.nullable || AllValid(Encoded(lib, node, m, t, n).value)
    ensures Reading(lib, node, t, n) == Encoded(lib, node, m, t, n)
  {
    hide Parse, Encoded;
  }

  lemma {:induction false} EncodedIs(lib: Libraries, node: Node, m: seq<Field>, t: Type, n: nat)
    ensures match node.encoding
            case Primitive => Encoded(lib, node, m, t, n) == PrimitiveReading(lib, node, t, n)
            case Boolean => Encoded(lib, node, m, t, n) == BooleanReading(lib, node, m, t, n)
            case ByteBool => Encoded(lib, node, m, t, n) == ByteBoolReading(lib, node, m, t, n)
            case StructArray => Encoded(lib, node, m, t, n) == StructReading(lib, node, t, n)
            case VarBin => Encoded(lib, node, m, t, n) == VarBinReading(lib, node, m, t, n)
            case VarBinView => Encoded(lib, node, m, t, n) == ViewReading(lib, node, t, n)
            case Dictionary => Encoded(lib, node, m, t, n) == DictionaryReading(lib, node, m, t, n)
            case Masked => Encoded(lib, node, m, t, n) == MaskedReading(lib, node, t, n)
            case BitPacked => Encoded(lib, node, m, t, n) == BitPackedReading(lib, node, m, t, n)
            case FrameOfReference => Encoded(lib, node, m, t, n) == ReferenceReading(lib, node, t, n)
            case ZigZag => Encoded(lib, node, m, t, n) == ZigZagReading(lib, node, t, n)
            case Sequence => Encoded(lib, node, m, t, n) == SequenceReading(node, m, t, n)
            case RunEnd => Encoded(lib, node, m, t, n) == RunEndReading(lib, node, m, t, n)
            case RunLength => Encoded(lib, node, m, t, n) == RunLengthReading(lib, node, m, t, n)
            case Sparse => Encoded(lib, node, m, t, n) == SparseReading(lib, node, m, t, n)
            case Alp => Encoded(lib, node, m, t, n) == AlpReading(lib, node, m, t, n)
            case AlpRd => Encoded(lib, node, m, t, n) == AlpRdReading(lib, node, m, t, n)
            case Fsst => Encoded(lib, node, m, t, n) == FsstReading(lib, node, m, t, n)
            case OnPair => Encoded(lib, node, m, t, n) == OnPairReading(lib, node, m, t, n)
            case Zstd => Encoded(lib, node, m, t, n) == ZstdReading(lib, node, m, t, n)
            case Delta => Encoded(lib, node, m, t, n) == DeltaReading(lib, node, m, t, n)
            case Pco => Encoded(lib, node, m, t, n) == PcoReading(lib, node, m, t, n)
            case _ => true
  {
    hide PrimitiveReading, BooleanReading, ByteBoolReading, ConstantReading, StructReading, VarBinReading, ViewReading,
      DictionaryReading, MaskedReading, BitPackedReading, ReferenceReading, ZigZagReading, SequenceReading,
      RunEndReading, RunLengthReading, SparseReading, AlpReading, AlpRdReading, FsstReading, OnPairReading,
      ZstdReading, DeltaReading, PcoReading, ChildReading;
  }

  // ------------------------------------------------------------------- bit-packing

  /** The metadata of a bit-packed node without patches, its bit width and slice offset,
      and of a delta node, its number of values and slice offset. */
  function TwoNumbers(x: nat, off: nat): seq<Field> {
    [Field(1, 0, x, None), Field(2, 0, off, None)]
  }

  lemma {:induction false} TwoNumbersRead(x: nat, off: nat)
    requires x <= MAX_ROWS && off < 1024
    ensures forall f | f in TwoNumbers(x, off) :: f.Valid()
    ensures Parse(Serialize(TwoNumbers(x, off)), 0) == Some(TwoNumbers(x, off))
    ensures Num(TwoNumbers(x, off), 1) == x && Num(TwoNumbers(x, off), 2) == off
    ensures Data(TwoNumbers(x, off), 3) == None
  {
    hide Parse, Serialize, Pow2;
    Pow2Mono(32, 64);
    Powers();
    var fields := TwoNumbers(x, off);
    RoundTrip(fields);
    LastTwo(fields[0], fields[1]);
  }

  lemma {:induction false} LastTwo(a: Field, b: Field)
    ensures forall tag :: Get([a, b], tag) == if b.tag == tag then Some(b) else if a.tag == tag then Some(a) else None
  {
    assert [a, b][..1] == [a];
  }

  /** The node that a writer makes of whole chunks of values, for a slice. */
  function BitPackedNode(a: BitPackRoundTrip.Plain, off: nat): Node
    requires a.Valid() && off < 1024
  {
    TwoNumbersRead(a.bw, off);
    Node(BitPacked, Serialize(TwoNumbers(a.bw, off)), [], [a.Encode().data])
  }

  /** Bit-packing, end to end: every slice of a written node reads as the packed values. */
  lemma {:induction false} BitPackedNodeReads(lib: Libraries, a: BitPackRoundTrip.Plain, off: nat, n: nat, t: Type)
    requires a.Valid() && t.IsInteger() && a.bits == 8 * t.Width() && n <= MAX_ROWS
    requires off < 1024 && (off + n + 1023) / 1024 == |a.x| / 1024
    ensures off + n <= |a.x|
    ensures Reading(lib, BitPackedNode(a, off), t, n) == Some(WordRows(seq(n, _ => true), a.x[off..off + n]))
  {
    hide Serialize, Parse, BitPackRoundTrip.Plain.Encode, BitPacking.Values, Encoded, BitPackedReading, WordRows,
      Reading;
    var node, m := BitPackedNode(a, off), TwoNumbers(a.bw, off);
    TwoNumbersRead(a.bw, off);
    UnpackedValues(a, off, n);
    Unpatched(lib, node, m, t, n);
    EncodedIs(lib, node, m, t, n);
    PlainRows(a.x[off..off + n]);
    ReadingIs(lib, node, m, t, n);
  }

  lemma {:induction false} PlainRows(words: seq<nat>)
    ensures AllValid(WordRows(seq(|words|, _ => true), words))
  {
  }

  lemma {:induction false} UnpackedValues(a: BitPackRoundTrip.Plain, off: nat, n: nat)
    requires a.Valid() && off < 1024 && (off + n + 1023) / 1024 == |a.x| / 1024
    ensures a.Encode().Accepts(off, n) && a.Encode().bits == a.bits && a.Encode().bw == a.bw
    ensures off + n <= |a.x| && BitPacking.Values(a.Encode(), off, n) == a.x[off..off + n]
  {
    hide BitPacking.Packed.Value, BitPacking.Packed.HasChunk, BitPacking.ValueAt;
    MulAssoc(|a.x| / 1024, a.bw, 128);
    forall i: nat | i < n ensures BitPacking.Values(a.Encode(), off, n)[i] == a.x[off + i] {
      BitPackRoundTrip.RoundTrip(a, off, n, i);
    }
  }

  /** Without patches and validity the rows are the unpacked values. */
  lemma {:induction false} Unpatched(lib: Libraries, node: Node, m: seq<Field>, t: Type, n: nat)
    requires t.IsInteger() && |node.buffers| == 1 && Data(m, 3) == None && node.children == []
    ensures var p := BitPacking.Packed(8 * t.Width(), Num(m, 1), node.buffers[0]);
            BitPackedReading(lib, node, m, t, n)
            == if !p.Accepts(Num(m, 2), n) then None
               else Some(WordRows(seq(n, _ => true), BitPacking.Values(p, Num(m, 2), n)))
  {
    hide BitPacking.Values, Num, BitsReading, PatchCells, WordRows, Remasked;
    var p := BitPacking.Packed(8 * t.Width(), Num(m, 1), node.buffers[0]);
    if p.Accepts(Num(m, 2), n) {
      var rows := WordRows(seq(n, _ => true), BitPacking.Values(p, Num(m, 2), n));
      assert PatchesReading(lib, node, 0, Data(m, 3), t, rows) == Some((rows, 0));
      PlainRows(BitPacking.Values(p, Num(m, 2), n));
      AllValidMask(lib, node, rows, n);
      assert PatchedMasked(lib, node, Data(m, 3), t, rows) == Some(rows);
    }
  }

  lemma {:induction false} AllValidMask(lib: Libraries, node: Node, rows: seq<Cell>, n: nat)
    requires node.children == [] && |rows| == n && AllValid(rows)
    ensures MaskReading(lib, node, 0, n).Some? && Remasked(rows, MaskReading(lib, node, 0, n).value) == rows
  {
    hide BitsReading;
    var mask := MaskReading(lib, node, 0, n).value;
    forall i: nat | i < n ensures Remasked(rows, mask)[i] == rows[i] { assert mask[i] && rows[i].valid; }
  }

  // -------------------------------------------------------------------- sequences

  lemma {:induction false} VarintLength(x: nat)
    ensures |Varint(x)| <= Len(x) + 1
  {
    if x >= 128 {
      VarintLength(x / 128);
      LenMono(x / 128, x / 2);
    }
  }

  lemma {:induction false} NumberFieldLength(f: Field)
    requires f.Valid() && f.wire == 0
    ensures |Serialize([f])| < Pow2(64)
  {
    hide Pow2, Varint, Len;
    assert Serialize([f][1..]) == [];
    VarintLength(f.tag * 8 + f.wire);
    VarintLength(f.num);
    LenLess(f.tag * 8 + f.wire, 64);
    LenLess(f.num, 64);
    Pow2Mono(8, 64);
    Powers();
  }

  lemma {:induction false} SequenceFields(base: int, step: int, stepSigned: bool, t: Type)
    requires t.IsInteger() && Sequences.InRange(base, 64, t.IsSigned()) && Sequences.InRange(step, 64, stepSigned)
    ensures forall f | f in Sequences.WriteSequence(base, step, stepSigned, t) :: f.Valid()
    ensures Parse(Serialize(Sequences.WriteSequence(base, step, stepSigned, t)), 0)
            == Some(Sequences.WriteSequence(base, step, stepSigned, t))
  {
    hide Parse, Serialize, Pow2, Sequences.WriteScalar, Sequences.InRange;
    WireZero(base, t.IsSigned());
    WireZero(step, stepSigned);
    NumberFieldLength(Sequences.WriteScalar(base, t.IsSigned()));
    NumberFieldLength(Sequences.WriteScalar(step, stepSigned));
    Sequences.KeySmall(1, 2);
    Sequences.KeySmall(2, 2);
    RoundTrip(Sequences.WriteSequence(base, step, stepSigned, t));
  }

  lemma {:induction false} WireZero(z: int, signed: bool)
    requires Sequences.InRange(z, 64, signed)
    ensures Sequences.WriteScalar(z, signed).wire == 0
  {
    hide Pow2;
  }

  /** The node that stores `base` and `step`. */
  function SequenceNode(base: int, step: int, stepSigned: bool, t: Type): Node
    requires t.IsInteger() && Sequences.InRange(base, 64, t.IsSigned()) && Sequences.InRange(step, 64, stepSigned)
  {
    SequenceFields(base, step, stepSigned, t);
    Node(Sequence, Serialize(Sequences.WriteSequence(base, step, stepSigned, t)), [], [])
  }

  /** Sequences, end to end: a node that stores `base` and `step`, in either form of the
      step, has a reading exactly when all its elements are in range, and then its rows
      are base, base + step, base + 2 step, ... */
  lemma {:induction false} SequenceNodeReads(lib: Libraries, base: int, step: int, stepSigned: bool, t: Type, n: nat)
    requires t.IsInteger() && n <= MAX_ROWS
    requires Sequences.InRange(base, 8 * t.Width(), t.IsSigned()) && Sequences.InRange(step, 64, stepSigned)
    ensures Sequences.InRange(base, 64, t.IsSigned())
    ensures var xs := seq(n, i requires 0 <= i < n => base + i * step);
            Reading(lib, SequenceNode(base, step, stepSigned, t), t, n)
            == if AllFit(xs, 8 * t.Width(), t.IsSigned()) then Some(IntegerRows(xs, 8 * t.Width())) else None
  {
    hide Parse, Serialize, Sequences.WriteSequence, Sequences.Element, Sequences.Elements, Sequences.InRange, Encoded,
      SequenceReading, AllFit, IntegerRows, Reading;
    Sequences.RoundTrip(base, step, stepSigned, t, n);
    SequenceFields(base, step, stepSigned, t);
    var node, m := SequenceNode(base, step, stepSigned, t), Sequences.WriteSequence(base, step, stepSigned, t);
    var xs := seq(n, i requires 0 <= i < n => base + i * step);
    forall i: nat | i < n ensures Sequences.Elements(m, t, n).value[i] == xs[i] { ElementIs(base, step, i); }
    assert Sequences.Elements(m, t, n).value == xs;
    ElementRows(node, m, t, n, xs);
    EncodedIs(lib, node, m, t, n);
    ReadingIs(lib, node, m, t, n);
  }

  lemma {:induction false} ElementIs(base: int, step: int, i: nat)
    ensures Sequences.Element(base, step, i) == base + i * step
  {
  }

  lemma {:induction false} ElementRows(node: Node, m: seq<Field>, t: Type, n: nat, xs: seq<int>)
    requires t.IsInteger() && node.children == [] && Sequences.Elements(m, t, n) == Some(xs)
    ensures SequenceReading(node, m, t, n)
            == if AllFit(xs, 8 * t.Width(), t.IsSigned()) then Some(IntegerRows(xs, 8 * t.Width())) else None
    ensures AllValid(IntegerRows(xs, 8 * t.Width()))
  {
    hide Sequences.Elements, AllFit;
  }
}
