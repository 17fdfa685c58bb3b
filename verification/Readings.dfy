/** What a tree of encodings says: for every encoding, the rows that its metadata, its
    buffers and the rows of its children stand for, or None if they stand for no array. */
module Readings {
  import opened Wrappers
  import opened Words
  import opened Types
  import opened Proto
  import opened Arrays
  import BitStrings
  import FastLanes
  import BitPacking
  import LaneDelta
  import Sequences
  import NumberColumns
  import RowCopies
  import Overrides
  import Tokens
  import NullExpansion
  import PcoChunks
  import PcoStream

  datatype Encoding =
    | NullArray | Primitive | Boolean | ByteBool | Constant | StructArray
    | VarBin | VarBinView | Dictionary | Masked | Extension
    | BitPacked | FrameOfReference | ZigZag | Sequence | RunEnd | RunLength | Sparse
    | Alp | AlpRd | Fsst | OnPair | Zstd | Delta | Pco | OtherEncoding

  /** `Node`: an encoded array. */
  datatype Node = Node(encoding: Encoding, metadata: seq<byte>, children: seq<Node>, buffers: seq<seq<byte>>)

  /** Code of other libraries: UTF-8 validation, the ALP multiplications of a word by
      powers of ten, the content size that a Zstd frame's header declares, if it is good and
      has one, Zstd decompression with a dictionary, the floating-point steps of Pco, and
      the types Arrow has a form for. */
  datatype Libraries = Libraries(
    utf8: seq<byte> -> bool,
    alp: (nat, nat, nat, Kind) -> nat,
    contentSize: seq<byte> -> Option<nat>,
    inflate: (seq<byte>, seq<byte>) -> Option<seq<byte>>,
    floats: PcoChunks.Floats,
    arrow: Type -> bool)

  // ------------------------------------------------------------ metadata and buffers

  const BOOL := Plain(KBool, false)

  /** `primitiveType`. */
  function PrimitiveType(p: nat, nullable: bool): (t: Option<Type>)
    ensures t.Some? ==> t.value.Width() > 0 && t.value.kind != KExtension && t.value.fields == []
                        && t.value.kind != KBool && t.value.storage == None && t.value.nullable == nullable
  {
    var kinds := [KU8, KU16, KU32, KU64, KI8, KI16, KI32, KI64, KF16, KF32, KF64];
    if p < |kinds| then Some(Plain(kinds[p], nullable)) else None
  }

  /** The numbers of the primitive types: four unsigned and four signed integers and three
      floats, each twice as wide as the one before. */
  lemma {:induction false} PrimitiveKinds(p: nat, nullable: bool)
    ensures PrimitiveType(p, nullable).Some? <==> p < 11
    ensures p < 8 ==>
              var t := PrimitiveType(p, nullable).value;
              t.IsInteger() && (t.IsSigned() <==> p >= 4) && t.Width() == Pow2(p % 4) && t.nullable == nullable
    ensures 8 <= p < 11 ==>
              var t := PrimitiveType(p, nullable).value;
              !t.IsInteger() && t.Width() == Pow2(p - 7) && t.nullable == nullable
  {
    assert Pow2(0) == 1 && Pow2(1) == 2 && Pow2(2) == 4 && Pow2(3) == 8;
  }

  /** An integer type for offsets, codes and lengths. */
  function IntegerType(p: nat, nullable: bool): (t: Option<Type>)
    ensures t.Some? ==> t.value.IsInteger() && t == PrimitiveType(p, nullable)
  {
    var t := PrimitiveType(p, nullable);
    if t.Some? && t.value.IsInteger() then t else None
  }

  function UnsignedType(p: nat, nullable: bool): (t: Option<Type>)
    ensures t.Some? ==> t.value.IsInteger() && !t.value.IsSigned() && t == PrimitiveType(p, nullable)
  {
    var t := IntegerType(p, nullable);
    if t.Some? && !t.value.IsSigned() then t else None
  }

  /** `unsigned`: the unsigned type of the same width. */
  function Unsigned(t: Type): Type {
    t.(kind := match t.kind case KI8 => KU8 case KI16 => KU16 case KI32 => KU32 case KI64 => KU64 case k => k)
  }

  lemma {:induction false} UnsignedIs(t: Type)
    requires t.IsSigned()
    ensures Unsigned(t) == t.(kind := Unsigned(t).kind) && Unsigned(t).Width() == t.Width()
    ensures Unsigned(t).IsInteger() && !Unsigned(t).IsSigned()
  {
  }

  /** Word `i` of a buffer of `w`-byte words. */
  function BufferWord(b: seq<byte>, w: nat, i: nat): nat {
    if i * w + w <= |b| then BitStrings.LittleEndian(b[i * w..], w) else 0
  }

  function BufferBit(b: seq<byte>, j: nat): nat {
    if j / 8 < |b| && BitStrings.Bit(b[j / 8], j % 8) then 1 else 0
  }

  /** `b[from..to]`, if the range lies inside. */
  function Range(b: seq<byte>, from: nat, to: nat): Option<seq<byte>> {
    if from <= to <= |b| then Some(b[from..to]) else None
  }

  /** The string of a 16-byte view: inline up to 12 bytes, or a range of a buffer that
      starts with the view's prefix. */
  function ViewText(buffers: seq<seq<byte>>, v: seq<byte>): Option<seq<byte>>
    requires |v| == 16 && |buffers| > 0
  {
    var size := BitStrings.LittleEndian(v, 4);
    if size <= 12 then Some(v[4..4 + size])
    else
      var buffer, offset := BitStrings.LittleEndian(v[8..], 4), BitStrings.LittleEndian(v[12..], 4);
      if buffer >= |buffers| - 1 then None
      else
        match Range(buffers[buffer], offset, offset + size)
        case None => None
        case Some(b) => if v[4..8] != b[..4] then None else Some(b)
  }

  function DataOr(fields: seq<Field>, tag: nat): seq<byte> {
    match Data(fields, tag) case None => [] case Some(b) => b
  }

  function CheckOf(lib: Libraries, t: Type): Tokens.Check {
    Tokens.Check(t.kind == KUtf8, lib.utf8)
  }

  predicate IsString(t: Type) { t.kind == KUtf8 || t.kind == KBinary }

  // ----------------------------------------------------------------------- scalars

  /** The word of a non-null scalar of a numeric type. */
  function NumberScalar(m: seq<Field>, t: Type): Option<nat> {
    match t.kind
    case KBool => if Has(m, 2) && Num(m, 2) <= 1 then Some(Num(m, 2)) else None
    case KF16 => if Has(m, 10) then Some(Low(Num(m, 10), 16)) else None
    case KF32 => if Has(m, 5) then Some(Low(Num(m, 5), 32)) else None
    case KF64 => if Has(m, 6) then Some(Low(Num(m, 6), 64)) else None
    case _ => if t.IsInteger() then Sequences.IntegerScalar(m, t) else None
  }

  /** A scalar that says null: it is empty or has field 1. */
  predicate NullScalar(m: seq<Field>) { m == [] || Has(m, 1) }

  /** The cell a scalar stands for; nothing else is under a null than in an empty array. */
  function Scalar(lib: Libraries, t: Type, b: seq<byte>): Option<Cell>
    decreases t
  {
    if t.kind == KExtension then if t.storage.None? then None else Scalar(lib, t.storage.value, b)
    else
      match Parse(b, 0)
      case None => None
      case Some(m) =>
        if !Supported(t) then None
        else if NullScalar(m) then
          if t.nullable || t.kind == KNull then Some(Cell(false, Blank(t).data)) else None
        else if t.kind == KStruct then
          match Parse(DataOr(m, 9), 0)
          case None => None
          case Some(list) =>
            if |list| != |t.fields| then None
            else if exists k | 0 <= k < |t.fields| :: Scalar(lib, t.fields[k], ScalarOf(list[k])).None? then None
            else
              Some(Cell(true, Record(seq(|t.fields|, k requires 0 <= k < |t.fields| =>
                Scalar(lib, t.fields[k], ScalarOf(list[k])).value))))
        else if IsString(t) then
          var tag := if t.kind == KUtf8 then 7 else 8;
          if Has(m, tag) && CheckOf(lib, t).Allows(DataOr(m, tag)) then Some(Cell(true, Text(DataOr(m, tag)))) else None
        else
          match NumberScalar(m, t)
          case None => None
          case Some(x) => Some(Cell(true, Word(x)))
  }

  function ScalarOf(f: Field): seq<byte> { if f.data.Some? then f.data.value else [] }

  // ------------------------------------------------------------------------ arrays

  predicate AllValid(rows: seq<Cell>) { forall i: nat | i < |rows| :: rows[i].valid }

  /** The rows of an encoded array; a type that is not nullable allows no null. */
  ghost function Reading(lib: Libraries, node: Node, t: Type, n: nat): (r: Option<seq<Cell>>)
    ensures r.Some? ==> |r.value| == n <= MAX_ROWS && (!t.nullable && t.kind != KNull ==> AllValid(r.value))
    decreases node, 9
  {
    if n > MAX_ROWS then None
    else
      match Parse(node.metadata, 0)
      case None => None
      case Some(m) =>
        var r := Encoded(lib, node, m, t, n);
        if r.Some? && !t.nullable && t.kind != KNull && !AllValid(r.value) then None else r
  }

  /** The rows by encoding. */
  ghost function Encoded(lib: Libraries, node: Node, m: seq<Field>, t: Type, n: nat): (r: Option<seq<Cell>>)
    ensures r.Some? ==> |r.value| == n
    decreases node, 8
  {
    match node.encoding
    case NullArray => if t.kind == KNull then Some(seq(n, _ => Cell(false, Nothing))) else None
    case Primitive => PrimitiveReading(lib, node, t, n)
    case Boolean => BooleanReading(lib, node, m, t, n)
    case ByteBool => ByteBoolReading(lib, node, m, t, n)
    case Constant =>
      if |node.buffers| == 1 && node.children == [] then ConstantReading(lib, t, node.buffers[0], n) else None
    case StructArray => StructReading(lib, node, t, n)
    case VarBin => VarBinReading(lib, node, m, t, n)
    case VarBinView => ViewReading(lib, node, t, n)
    case Dictionary => DictionaryReading(lib, node, m, t, n)
    case Masked => MaskedReading(lib, node, t, n)
    case Extension =>
      if t.kind == KExtension && t.storage.Some? && lib.arrow(t) && |node.children| == 1
      then ChildReading(lib, node, 0, t.storage.value, n) else None
    case BitPacked => BitPackedReading(lib, node, m, t, n)
    case FrameOfReference => ReferenceReading(lib, node, t, n)
    case ZigZag => ZigZagReading(lib, node, t, n)
    case Sequence => SequenceReading(node, m, t, n)
    case RunEnd => RunEndReading(lib, node, m, t, n)
    case RunLength => RunLengthReading(lib, node, m, t, n)
    case Sparse => SparseReading(lib, node, m, t, n)
    case Alp => AlpReading(lib, node, m, t, n)
    case AlpRd => AlpRdReading(lib, node, m, t, n)
    case Fsst => FsstReading(lib, node, m, t, n)
    case OnPair => OnPairReading(lib, node, m, t, n)
    case Zstd => ZstdReading(lib, node, m, t, n)
    case Delta => DeltaReading(lib, node, m, t, n)
    case Pco => PcoReading(lib, node, m, t, n)
    case OtherEncoding => None
  }

  ghost function ChildReading(lib: Libraries, node: Node, i: nat, t: Type, n: nat): (r: Option<seq<Cell>>)
    ensures r.Some? ==> |r.value| == n <= MAX_ROWS && (!t.nullable && t.kind != KNull ==> AllValid(r.value))
    decreases node, 1
  {
    if i < |node.children| then Reading(lib, node.children[i], t, n) else None
  }

  /** The words of a child, null or not. */
  ghost function WordsReading(lib: Libraries, node: Node, i: nat, t: Type, n: nat): (r: Option<seq<nat>>)
    ensures r.Some? ==> |r.value| == n
    decreases node, 2
  {
    match ChildReading(lib, node, i, t, n)
    case None => None
    case Some(cells) => Some(WordsOf(cells))
  }

  /** The flags of a child of bits. */
  ghost function BitsReading(lib: Libraries, node: Node, i: nat, n: nat): (r: Option<seq<bool>>)
    ensures r.Some? ==> |r.value| == n
    decreases node, 3
  {
    match WordsReading(lib, node, i, BOOL, n)
    case None => None
    case Some(words) => Some(seq(n, k requires 0 <= k < n => words[k] != 0))
  }

  /** The validity of every row: all valid, unless child `index` says otherwise. */
  ghost function MaskReading(lib: Libraries, node: Node, index: nat, n: nat): (r: Option<seq<bool>>)
    ensures r.Some? ==> |r.value| == n
    decreases node, 4
  {
    if |node.children| == index then Some(seq(n, _ => true))
    else if |node.children| == index + 1 then BitsReading(lib, node, index, n)
    else None
  }

  /** Words as rows with these flags. */
  function WordRows(mask: seq<bool>, words: seq<nat>): (rows: seq<Cell>)
    requires |words| == |mask|
    ensures |rows| == |mask|
  {
    seq(|mask|, i requires 0 <= i < |mask| => Cell(mask[i], Word(words[i])))
  }

  function StringRows(mask: seq<bool>, texts: seq<seq<byte>>): (rows: seq<Cell>)
    requires |texts| == |mask|
    ensures |rows| == |mask|
  {
    seq(|mask|, i requires 0 <= i < |mask| => Cell(mask[i], Text(texts[i])))
  }

  ghost function PrimitiveReading(lib: Libraries, node: Node, t: Type, n: nat): (r: Option<seq<Cell>>)
    ensures r.Some? ==> |r.value| == n
    decreases node, 5
  {
    if t.Width() == 0 || t.kind == KBool || node.metadata != [] || |node.buffers| != 1 then None
    else if |node.buffers[0]| != n * t.Width() then None
    else
      match MaskReading(lib, node, 0, n)
      case None => None
      case Some(mask) => Some(WordRows(mask, BufferWords(node.buffers[0], t.Width(), n)))
  }

  function BufferWords(b: seq<byte>, w: nat, n: nat): (words: seq<nat>)
    ensures |words| == n
  {
    seq<nat>(n, i requires 0 <= i < n => BufferWord(b, w, i))
  }

  ghost function BooleanReading(lib: Libraries, node: Node, m: seq<Field>, t: Type, n: nat): (r: Option<seq<Cell>>)
    ensures r.Some? ==> |r.value| == n
    decreases node, 5
  {
    if t.kind != KBool || |node.buffers| != 1 || Num(m, 1) >= 8 then None
    else if 8 * |node.buffers[0]| < n + Num(m, 1) then None
    else
      match MaskReading(lib, node, 0, n)
      case None => None
      case Some(mask) => Some(WordRows(mask, BufferBits(node.buffers[0], Num(m, 1), n)))
  }

  function BufferBits(b: seq<byte>, off: nat, n: nat): (words: seq<nat>)
    ensures |words| == n
  {
    seq<nat>(n, i requires 0 <= i < n => BufferBit(b, i + off))
  }

  ghost function ByteBoolReading(lib: Libraries, node: Node, m: seq<Field>, t: Type, n: nat): (r: Option<seq<Cell>>)
    ensures r.Some? ==> |r.value| == n
    decreases node, 5
  {
    if t.kind != KBool || |node.buffers| != 1 || Num(m, 1) >= 8 || |node.buffers[0]| != n then None
    else if exists x | x in node.buffers[0] :: x > 1 then None
    else
      match MaskReading(lib, node, 0, n)
      case None => None
      case Some(mask) => Some(WordRows(mask, ByteWords(node.buffers[0])))
  }

  function ByteWords(b: seq<byte>): (words: seq<nat>)
    ensures |words| == |b|
  {
    seq<nat>(|b|, i requires 0 <= i < |b| => b[i])
  }

  /** Every row is the scalar. */
  function ConstantReading(lib: Libraries, t: Type, b: seq<byte>, n: nat): (r: Option<seq<Cell>>)
    ensures r.Some? ==> |r.value| == n
  {
    match Scalar(lib, t, b)
    case None => None
    case Some(c) => Some(seq(n, _ => c))
  }

  /** Child columns, after an optional child for the validity of the rows. */
  ghost function StructReading(lib: Libraries, node: Node, t: Type, n: nat): (r: Option<seq<Cell>>)
    ensures r.Some? ==> |r.value| == n
    decreases node, 5
  {
    var off := |node.children| - |t.fields|;
    if t.kind != KStruct || off < 0 || off > 1 then None
    else
      match if off == 0 then Some(seq(n, _ => true)) else BitsReading(lib, node, 0, n)
      case None => None
      case Some(mask) =>
        if exists k | 0 <= k < |t.fields| :: ChildReading(lib, node, k + off, t.fields[k], n).None? then None
        else
          Some(seq(n, i requires 0 <= i < n =>
            Cell(mask[i], Record(seq(|t.fields|, k requires 0 <= k < |t.fields| =>
              ChildReading(lib, node, k + off, t.fields[k], n).value[i])))))
  }

  /** The ranges between consecutive offsets. */
  function RangesOf(b: seq<byte>, offsets: seq<nat>, n: nat): (r: Option<seq<seq<byte>>>)
    requires |offsets| == n + 1
    ensures r.Some? ==> |r.value| == n
  {
    if exists i: nat | i < n :: Range(b, offsets[i], offsets[i + 1]).None? then None
    else Some(seq(n, i requires 0 <= i < n => Range(b, offsets[i], offsets[i + 1]).value))
  }

  /** Strings as ranges of a buffer: a child of offsets, and the validity child after it. */
  ghost function RangesReading(lib: Libraries, node: Node, i: nat, ot: Type, b: seq<byte>, n: nat)
    : (r: Option<(seq<bool>, seq<seq<byte>>)>)
    ensures r.Some? ==> |r.value.0| == |r.value.1| == n
    decreases node, 5
  {
    match (WordsReading(lib, node, i, ot, n + 1), MaskReading(lib, node, i + 1, n))
    case (Some(offsets), Some(mask)) =>
      var texts := RangesOf(b, offsets, n);
      if texts.None? then None else Some((mask, texts.value))
    case _ => None
  }

  /** A valid row of a text column is valid UTF-8. */
  predicate TextsAllowed(lib: Libraries, t: Type, mask: seq<bool>, texts: seq<seq<byte>>)
    requires |texts| == |mask|
  {
    forall i: nat | i < |mask| && mask[i] :: CheckOf(lib, t).Allows(texts[i])
  }

  ghost function VarBinReading(lib: Libraries, node: Node, m: seq<Field>, t: Type, n: nat): (r: Option<seq<Cell>>)
    ensures r.Some? ==> |r.value| == n
    decreases node, 6
  {
    var ot := IntegerType(Num(m, 1), false);
    if !IsString(t) || |node.buffers| != 1 || ot.None? then None
    else
      match RangesReading(lib, node, 0, ot.value, node.buffers[0], n)
      case None => None
      case Some((mask, texts)) => if TextsAllowed(lib, t, mask, texts) then Some(StringRows(mask, texts)) else None
  }

  /** The string of row `i`, empty for a null row. */
  function ViewAt(buffers: seq<seq<byte>>, mask: seq<bool>, i: nat): Option<seq<byte>>
    requires |buffers| > 0 && |buffers[|buffers| - 1]| == |mask| * 16 && i < |mask|
  {
    if mask[i] then ViewText(buffers, buffers[|buffers| - 1][i * 16..i * 16 + 16]) else Some([])
  }

  ghost function ViewReading(lib: Libraries, node: Node, t: Type, n: nat): (r: Option<seq<Cell>>)
    ensures r.Some? ==> |r.value| == n
    decreases node, 5
  {
    if !IsString(t) || |node.buffers| == 0 || |node.buffers[|node.buffers| - 1]| != n * 16 then None
    else
      match MaskReading(lib, node, 0, n)
      case None => None
      case Some(mask) =>
        if exists i: nat | i < n :: ViewAt(node.buffers, mask, i).None? then None
        else
          var texts := seq(n, i requires 0 <= i < n => ViewAt(node.buffers, mask, i).value);
          if !TextsAllowed(lib, t, mask, texts) then None else Some(StringRows(mask, texts))
  }

  ghost function DictionaryReading(lib: Libraries, node: Node, m: seq<Field>, t: Type, n: nat): (r: Option<seq<Cell>>)
    ensures r.Some? ==> |r.value| == n
    decreases node, 5
  {
    var ct := IntegerType(Num(m, 2), if Has(m, 3) then Num(m, 3) != 0 else t.nullable);
    if |node.children| != 2 || ct.None? then None
    else
      match (ChildReading(lib, node, 0, ct.value, n), ChildReading(lib, node, 1, t, Num(m, 1)))
      case (Some(codes), Some(dict)) =>
        if !Supported(t) || !RowCopies.CodesNamed(codes, |dict|) then None
        else Some(RowCopies.LookedUp(codes, dict, Blank(t)))
      case _ => None
  }

  ghost function MaskedReading(lib: Libraries, node: Node, t: Type, n: nat): (r: Option<seq<Cell>>)
    ensures r.Some? ==> |r.value| == n
    decreases node, 5
  {
    match (ChildReading(lib, node, 0, t.(nullable := false), n), MaskReading(lib, node, 1, n))
    case (Some(cells), Some(mask)) => Some(Remasked(cells, mask))
    case _ => None
  }

  /** The values of some rows with other flags. */
  function Remasked(cells: seq<Cell>, mask: seq<bool>): (rows: seq<Cell>)
    requires |mask| == |cells|
    ensures |rows| == |cells|
  {
    seq(|cells|, i requires 0 <= i < |cells| => Cell(mask[i], cells[i].data))
  }

  /** The optional child of sorted chunk offsets. */
  ghost predicate ChunkOffsetsOk(lib: Libraries, node: Node, i: nat, m: seq<Field>)
    decreases node, 3
  {
    var ct := UnsignedType(Num(m, 5), false);
    && ct.Some?
    && var words := WordsReading(lib, node, i, ct.value, Num(m, 4));
       words.Some? && forall k: nat | 0 < k < |words.value| :: words.value[k - 1] <= words.value[k]
  }

  /** The indices and values of patches in two children from `start` on, an optional third
      child, and the child after them. */
  ghost function PatchCells(lib: Libraries, node: Node, start: nat, m: seq<Field>, t: Type)
    : (r: Option<(seq<nat>, seq<Cell>, nat)>)
    ensures r.Some? ==> |r.value.0| == |r.value.1| == Num(m, 1)
    decreases node, 4
  {
    var it := UnsignedType(Num(m, 3), false);
    if it.None? || (Has(m, 5) && !ChunkOffsetsOk(lib, node, start + 2, m)) then None
    else
      match (WordsReading(lib, node, start, it.value, Num(m, 1)), ChildReading(lib, node, start + 1, t, Num(m, 1)))
      case (Some(idx), Some(vals)) => Some((idx, vals, start + if Has(m, 5) then 3 else 2))
      case _ => None
  }

  /** Patched rows, and the child after the patches. */
  ghost function PatchesReading(lib: Libraries, node: Node, start: nat, raw: Option<seq<byte>>, t: Type,
                                was: seq<Cell>): (r: Option<(seq<Cell>, nat)>)
    ensures r.Some? ==> |r.value.0| == |was|
    decreases node, 5
  {
    if raw.None? then Some((was, start))
    else
      match Parse(raw.value, 0)
      case None => None
      case Some(m) =>
        match PatchCells(lib, node, start, m, t)
        case None => None
        case Some((idx, vals, next)) =>
          if Overrides.Placed(idx, Num(m, 2), |was|) then Some((Overrides.Override(was, idx, vals, Num(m, 2)), next))
          else None
  }

  /** Patched rows with the flags of the validity child after the patches. */
  ghost function PatchedMasked(lib: Libraries, node: Node, raw: Option<seq<byte>>, t: Type, was: seq<Cell>)
    : (r: Option<seq<Cell>>)
    ensures r.Some? ==> |r.value| == |was|
    decreases node, 6
  {
    match PatchesReading(lib, node, 0, raw, t, was)
    case None => None
    case Some((patched, next)) =>
      match MaskReading(lib, node, next, |was|)
      case None => None
      case Some(mask) => Some(Remasked(patched, mask))
  }

  ghost function BitPackedReading(lib: Libraries, node: Node, m: seq<Field>, t: Type, n: nat): (r: Option<seq<Cell>>)
    ensures r.Some? ==> |r.value| == n
    decreases node, 7
  {
    if !t.IsInteger() || |node.buffers| != 1 then None
    else
      var p, off := BitPacking.Packed(8 * t.Width(), Num(m, 1), node.buffers[0]), Num(m, 2);
      if !p.Accepts(off, n) then None
      else PatchedMasked(lib, node, Data(m, 3), t, WordRows(seq(n, _ => true), BitPacking.Values(p, off, n)))
  }

  ghost function ReferenceReading(lib: Libraries, node: Node, t: Type, n: nat): (r: Option<seq<Cell>>)
    ensures r.Some? ==> |r.value| == n
    decreases node, 5
  {
    if !t.IsInteger() || |node.children| != 1 then None
    else
      match (ChildReading(lib, node, 0, t, n), Reference(node.metadata, t))
      case (Some(cells), Some(base)) => Some(Mapped(cells, (x: nat) => Low(x + base, 8 * t.Width())))
      case _ => None
  }

  /** The word of a non-null integer scalar. */
  function Reference(b: seq<byte>, t: Type): Option<nat>
    requires t.IsInteger()
  {
    match Parse(b, 0) case None => None case Some(s) => Sequences.IntegerScalar(s, t)
  }

  /** Rows whose words are mapped. */
  function Mapped(cells: seq<Cell>, f: nat -> nat): (rows: seq<Cell>)
    ensures |rows| == |cells|
  {
    seq(|cells|, i requires 0 <= i < |cells| => Cell(cells[i].valid, Word(f(WordOfCell(cells[i])))))
  }

  ghost function ZigZagReading(lib: Libraries, node: Node, t: Type, n: nat): (r: Option<seq<Cell>>)
    ensures r.Some? ==> |r.value| == n
    decreases node, 5
  {
    if !t.IsSigned() || |node.children| != 1 then None
    else
      match ChildReading(lib, node, 0, Unsigned(t), n)
      case None => None
      case Some(cells) =>
        Some(Mapped(cells, (x: nat) => Sequences.WordOf(Sequences.ZigZag(x), 8 * t.Width())))
  }

  predicate AllFit(xs: seq<int>, bits: nat, signed: bool)
    requires bits > 0
  {
    forall x | x in xs :: Sequences.InRange(x, bits, signed)
  }

  /** The words of integers as rows. */
  function IntegerRows(xs: seq<int>, bits: nat): (rows: seq<Cell>)
    ensures |rows| == |xs|
  {
    seq(|xs|, i requires 0 <= i < |xs| => Cell(true, Word(Sequences.WordOf(xs[i], bits))))
  }

  /** The words of the elements over the unbounded integers, if all are in range. */
  ghost function SequenceReading(node: Node, m: seq<Field>, t: Type, n: nat): (r: Option<seq<Cell>>)
    ensures r.Some? ==> |r.value| == n
  {
    if !t.IsInteger() || node.children != [] then None
    else
      var elements := Sequences.Elements(m, t, n);
      if elements.None? || !AllFit(elements.value, 8 * t.Width(), t.IsSigned()) then None
      else Some(IntegerRows(elements.value, 8 * t.Width()))
  }

  ghost function RunEndReading(lib: Libraries, node: Node, m: seq<Field>, t: Type, n: nat): (r: Option<seq<Cell>>)
    ensures r.Some? ==> |r.value| == n
    decreases node, 5
  {
    hide Pow2, Num, RowCopies.RunsCover, RowCopies.RunRows, RowCopies.RunAt;
    var ct := IntegerType(Num(m, 1), false);
    if |node.children| != 2 || ct.None? || Num(m, 3) + n >= Pow2(64) then None
    else
      match (WordsReading(lib, node, 0, ct.value, Num(m, 2)), ChildReading(lib, node, 1, t, Num(m, 2)))
      case (Some(ends), Some(vals)) =>
        if RowCopies.RunsCover(ends, Num(m, 3), n) then Some(RowCopies.RunRows(ends, vals, Num(m, 3), n)) else None
      case _ => None
  }

  function ValidsOf(cells: seq<Cell>): (valid: seq<bool>)
    ensures |valid| == |cells|
  {
    seq(|cells|, i requires 0 <= i < |cells| => cells[i].valid)
  }

  ghost function RunLengthReading(lib: Libraries, node: Node, m: seq<Field>, t: Type, n: nat): (r: Option<seq<Cell>>)
    ensures r.Some? ==> |r.value| == n
    decreases node, 5
  {
    var it, ot := PrimitiveType(Num(m, 3), t.nullable), UnsignedType(Num(m, 5), false);
    if |node.children| != 3 || t.Width() == 0 || ot.None? || it.None? then None
    else if it.value.kind != KU8 && it.value.kind != KU16 then None
    else
      match (WordsReading(lib, node, 0, t.(nullable := false), Num(m, 1)),
             ChildReading(lib, node, 1, it.value, Num(m, 2)), WordsReading(lib, node, 2, ot.value, Num(m, 4)))
      case (Some(vals), Some(idx), Some(offsets)) =>
        var a := NumberColumns.Rle(vals, WordsOf(idx), Some(ValidsOf(idx)), offsets);
        if a.Decodes(Num(m, 6), n) then Some(WordRows(a.Valids(Num(m, 6), n), a.Words(Num(m, 6), n))) else None
      case _ => None
  }

  ghost function SparseReading(lib: Libraries, node: Node, m: seq<Field>, t: Type, n: nat): (r: Option<seq<Cell>>)
    ensures r.Some? ==> |r.value| == n
    decreases node, 6
  {
    if |node.buffers| != 1 then None
    else
      match ConstantReading(lib, t, node.buffers[0], n)
      case None => None
      case Some(was) =>
        match PatchesReading(lib, node, 0, Data(m, 1), t, was)
        case None => None
        case Some((rows, _)) => Some(rows)
  }

  ghost function AlpReading(lib: Libraries, node: Node, m: seq<Field>, t: Type, n: nat): (r: Option<seq<Cell>>)
    ensures r.Some? ==> |r.value| == n
    decreases node, 6
  {
    var limit := if t.kind == KF32 then 10 else 18;
    if (t.kind != KF32 && t.kind != KF64) || Num(m, 1) > limit || Num(m, 2) > limit then None
    else
      match ChildReading(lib, node, 0, Plain(if t.kind == KF32 then KI32 else KI64, t.nullable), n)
      case None => None
      case Some(cells) =>
        var was := Mapped(cells, (x: nat) => lib.alp(x, Num(m, 1), Num(m, 2), t.kind));
        match PatchesReading(lib, node, 1, Data(m, 3), t, was)
        case None => None
        case Some((rows, next)) => if next == |node.children| then Some(rows) else None
  }

  /** The left part of every valid row: a dictionary entry. */
  function LeftParts(codes: seq<Cell>, dict: seq<nat>): (left: seq<nat>)
    ensures |left| == |codes|
  {
    seq<nat>(|codes|, i requires 0 <= i < |codes| =>
      if codes[i].valid && WordOfCell(codes[i]) < |dict| then dict[WordOfCell(codes[i])] else WordOfCell(codes[i]))
  }

  /** Patches that correct words only. */
  ghost function NumbersPatched(lib: Libraries, node: Node, start: nat, raw: Option<seq<byte>>, t: Type,
                                was: seq<nat>): (r: Option<(seq<nat>, nat)>)
    ensures r.Some? ==> |r.value.0| == |was|
    decreases node, 5
  {
    if raw.None? then Some((was, start))
    else
      match Parse(raw.value, 0)
      case None => None
      case Some(m) =>
        match PatchCells(lib, node, start, m, t)
        case None => None
        case Some((idx, vals, next)) =>
          if !Overrides.Placed(idx, Num(m, 2), |was|) then None
          else Some((Overrides.Override(was, idx, WordsOf(vals), Num(m, 2)), next))
  }

  /** The dictionary of left parts: at most 2^16 entries of 16 bits. */
  function LeftDictionary(m: seq<Field>): Option<seq<nat>> {
    var all := Repeated(m, 3);
    if all.None? || Num(m, 2) > |all.value| || Num(m, 2) > 65536 then None
    else
      var dict := all.value[..Num(m, 2)];
      if exists x | x in dict :: x >= 65536 then None else Some(dict)
  }

  /** A valid row's parts fit. */
  predicate PartsFit(codes: seq<Cell>, left: seq<nat>, right: seq<nat>, bw: nat)
    requires |left| == |right| == |codes|
  {
    forall i: nat | i < |codes| && codes[i].valid :: left[i] <= 65535 && right[i] < Pow2(bw)
  }

  /** Valid rows combine their parts. */
  function Combined(codes: seq<Cell>, left: seq<nat>, right: seq<nat>, bw: nat): (words: seq<nat>)
    requires |left| == |right| == |codes|
    ensures |words| == |codes|
  {
    seq<nat>(|codes|, i requires 0 <= i < |codes| =>
      if codes[i].valid then NumberColumns.Combine(left[i], right[i], bw) else right[i])
  }

  ghost function AlpRdReading(lib: Libraries, node: Node, m: seq<Field>, t: Type, n: nat): (r: Option<seq<Cell>>)
    ensures r.Some? ==> |r.value| == n
    decreases node, 6
  {
    var bw, lt, dict := Num(m, 1), UnsignedType(Num(m, 4), t.nullable), LeftDictionary(m);
    if (t.kind != KF32 && t.kind != KF64) || bw >= 8 * t.Width() || bw + 16 < 8 * t.Width() then None
    else if lt.None? || dict.None? then None
    else
      match (ChildReading(lib, node, 0, lt.value, n),
             WordsReading(lib, node, 1, Plain(if t.kind == KF32 then KU32 else KU64, false), n))
      case (Some(codes), Some(right)) =>
        if !RowCopies.CodesNamed(codes, |dict.value|) then None
        else
          var left := NumbersPatched(lib, node, 2, Data(m, 5), lt.value.(nullable := false),
                                     LeftParts(codes, dict.value));
          if left.None? || left.value.1 != |node.children| || !PartsFit(codes, left.value.0, right, bw) then None
          else Some(WordRows(ValidsOf(codes), Combined(codes, left.value.0, right, bw)))
      case _ => None
  }

  /** Codes are a child of strings, or ranges of a third buffer; and the lengths. */
  ghost function FsstCells(lib: Libraries, node: Node, m: seq<Field>, t: Type, n: nat)
    : (r: Option<(seq<Cell>, seq<nat>)>)
    ensures r.Some? ==> |r.value.0| == |r.value.1| == n
    decreases node, 6
  {
    var lt := IntegerType(Num(m, 1), false);
    if lt.None? then None
    else if |node.buffers| == 2 then
      match (ChildReading(lib, node, 0, Plain(KBinary, t.nullable), n), WordsReading(lib, node, 1, lt.value, n))
      case (Some(codes), Some(lens)) => Some((codes, lens))
      case _ => None
    else
      var ot := IntegerType(Num(m, 2), false);
      if |node.buffers| != 3 || ot.None? then None
      else
        match (WordsReading(lib, node, 0, lt.value, n), RangesReading(lib, node, 1, ot.value, node.buffers[2], n))
        case (Some(lens), Some((mask, texts))) => Some((StringRows(mask, texts), lens))
        case _ => None
  }

  /** Valid rows expand their codes. */
  function Expanded(table: Tokens.Table, codes: seq<Cell>): (rows: seq<Cell>)
    requires table.Valid()
    ensures |rows| == |codes|
  {
    seq(|codes|, i requires 0 <= i < |codes| =>
      var text := table.Expand(TextOfCell(codes[i]));
      Cell(codes[i].valid, Text(if codes[i].valid && text.Some? then text.value else [])))
  }

  ghost function FsstReading(lib: Libraries, node: Node, m: seq<Field>, t: Type, n: nat): (r: Option<seq<Cell>>)
    ensures r.Some? ==> |r.value| == n
    decreases node, 7
  {
    if !IsString(t) || |node.buffers| < 2 then None
    else
      var table := Tokens.Table(node.buffers[0], node.buffers[1]);
      var cells := FsstCells(lib, node, m, t, n);
      if !table.Valid() || cells.None? then None
      else
        var (codes, lens) := cells.value;
        if Tokens.AllExpand(table, TextsOf(codes), lens, Some(ValidsOf(codes)), CheckOf(lib, t))
        then Some(Expanded(table, codes)) else None
  }

  /** Token offsets, the code stream, and the code bounds and lengths of the rows. */
  datatype OnPairCells = OnPairCells(offsets: seq<nat>, codes: seq<nat>, bounds: seq<nat>, lens: seq<nat>)

  ghost function OnPairColumns(lib: Libraries, node: Node, m: seq<Field>, n: nat): (r: Option<OnPairCells>)
    ensures r.Some? ==> |r.value.offsets| == Num(m, 3) + 1 && |r.value.bounds| == n + 1 && |r.value.lens| == n
    decreases node, 4
  {
    var ot, ct := UnsignedType(Num(m, 5), false), UnsignedType(Num(m, 6), false);
    var bt, lt := UnsignedType(Num(m, 7), false), UnsignedType(Num(m, 1), false);
    if ot.None? || ct.None? || bt.None? || lt.None? || Num(m, 3) > MAX_ROWS then None
    else
      match (WordsReading(lib, node, 0, ot.value, Num(m, 3) + 1), WordsReading(lib, node, 1, ct.value, Num(m, 4)),
             WordsReading(lib, node, 2, bt.value, n + 1), WordsReading(lib, node, 3, lt.value, n))
      case (Some(offsets), Some(codes), Some(bounds), Some(lens)) => Some(OnPairCells(offsets, codes, bounds, lens))
      case _ => None
  }

  /** The tokens between consecutive offsets, no more than the code width can address. */
  function TokensOf(dict: seq<byte>, m: seq<Field>, offsets: seq<nat>): (r: Option<seq<seq<byte>>>)
    requires |offsets| == Num(m, 3) + 1
  {
    var ct := UnsignedType(Num(m, 6), false);
    if ct.None? || (ct.value.Width() < 8 && Num(m, 3) > Pow2(8 * ct.value.Width())) then None
    else if !Tokens.Resolvable(dict, offsets) then None
    else
      Some(seq(Num(m, 3), i requires 0 <= i < Num(m, 3) =>
        assert Tokens.Ranges(dict, offsets, i);
        dict[offsets[i]..offsets[i + 1]]))
  }

  /** Valid rows name their tokens. */
  function NamedRows(tokens: seq<seq<byte>>, codes: seq<nat>, bounds: seq<nat>, mask: seq<bool>): (rows: seq<Cell>)
    requires |bounds| == |mask| + 1
    ensures |rows| == |mask|
  {
    seq(|mask|, i requires 0 <= i < |mask| =>
      var text := Tokens.RowText(tokens, codes, bounds[i], bounds[i + 1]);
      Cell(mask[i], Text(if mask[i] && text.Some? then text.value else [])))
  }

  /** The tokens that the codes of valid rows name. */
  function NamedReading(lib: Libraries, t: Type, dict: seq<byte>, m: seq<Field>, c: OnPairCells, mask: seq<bool>)
    : (r: Option<seq<Cell>>)
    requires |c.offsets| == Num(m, 3) + 1 && |c.bounds| == |mask| + 1 && |c.lens| == |mask|
    ensures r.Some? ==> |r.value| == |mask|
  {
    var tokens := TokensOf(dict, m, c.offsets);
    if tokens.None? then None
    else if Tokens.AllName(tokens.value, c.codes, c.bounds, c.lens, Some(mask), CheckOf(lib, t))
    then Some(NamedRows(tokens.value, c.codes, c.bounds, mask)) else None
  }

  ghost function OnPairReading(lib: Libraries, node: Node, m: seq<Field>, t: Type, n: nat): (r: Option<seq<Cell>>)
    ensures r.Some? ==> |r.value| == n
    decreases node, 5
  {
    if !IsString(t) || |node.buffers| != 1 then None
    else
      match (OnPairColumns(lib, node, m, n), MaskReading(lib, node, 4, n))
      case (Some(c), Some(mask)) => NamedReading(lib, t, node.buffers[0], m, c, mask)
      case _ => None
  }

  /** The payloads of all fields with a tag, parsed as messages. */
  function Payloads(m: seq<Field>, tag: nat): Option<seq<seq<Field>>> {
    if m == [] then Some([])
    else
      var last := m[|m| - 1];
      Append(Payloads(m[..|m| - 1], tag),
             if last.tag != tag then Some([])
             else
               match Parse(ScalarOf(last), 0)
               case None => None
               case Some(p) => Some([p]))
  }

  /** A frame has its size in its header and decompresses to it. */
  predicate FrameOk(lib: Libraries, dict: seq<byte>, b: seq<byte>, m: seq<Field>) {
    lib.contentSize(b) == Some(Num(m, 1)) && lib.inflate(dict, b).Some? && |lib.inflate(dict, b).value| == Num(m, 1)
  }

  /** The frames of a Zstd array: the decompressed bytes, of the declared size. */
  function FramesOf(lib: Libraries, m: seq<Field>, dict: seq<byte>, buffers: seq<seq<byte>>)
    : Option<seq<NullExpansion.Frame>>
  {
    match Payloads(m, 2)
    case None => None
    case Some(ps) =>
      if |ps| != |buffers| || exists i: nat | i < |buffers| :: !FrameOk(lib, dict, buffers[i], ps[i]) then None
      else
        Some(seq(|buffers|, i requires 0 <= i < |buffers| =>
          assert FrameOk(lib, dict, buffers[i], ps[i]);
          NullExpansion.Frame(lib.inflate(dict, buffers[i]).value, Num(ps[i], 2))))
  }

  /** A stored item as a row. */
  function CellOf(valid: bool, item: NullExpansion.Item): Cell {
    Cell(valid, match item case Number(x) => Word(x) case Text(b) => Text(b))
  }

  /** The stored items in the valid rows, in order, and blank items in the others. */
  function SpreadRows(items: seq<NullExpansion.Item>, mask: seq<bool>, blank: NullExpansion.Item): (rows: seq<Cell>)
    ensures |rows| == |mask|
  {
    var all := NullExpansion.Spread(items, Some(mask), seq(|mask|, _ => blank));
    seq(|mask|, i requires 0 <= i < |mask| => CellOf(mask[i], all[i]))
  }

  function LayoutOf(lib: Libraries, t: Type): NullExpansion.Layout {
    if t.Width() > 0 then NullExpansion.Fixed(t.Width()) else NullExpansion.Prefixed(CheckOf(lib, t))
  }

  function BlankItem(layout: NullExpansion.Layout): NullExpansion.Item {
    if layout.Fixed? then NullExpansion.Number(0) else NullExpansion.Text([])
  }

  ghost function ZstdReading(lib: Libraries, node: Node, m: seq<Field>, t: Type, n: nat): (r: Option<seq<Cell>>)
    ensures r.Some? ==> |r.value| == n
    decreases node, 5
  {
    var hasDict := Num(m, 1) != 0;
    if !IsString(t) && t.Width() == 0 then None
    else if hasDict && (node.buffers == [] || |node.buffers[0]| != Num(m, 1)) then None
    else
      var frames := if hasDict then FramesOf(lib, m, node.buffers[0], node.buffers[1..])
                    else FramesOf(lib, m, [], node.buffers);
      match (frames, MaskReading(lib, node, 0, n))
      case (Some(frames), Some(mask)) => Scattered(LayoutOf(lib, t), frames, mask)
      case _ => None
  }

  /** One stored value per valid row, in frames that hold as many as they declare. */
  ghost function Scattered(layout: NullExpansion.Layout, frames: seq<NullExpansion.Frame>, mask: seq<bool>)
    : (r: Option<seq<Cell>>)
    requires layout.Valid()
    ensures r.Some? ==> |r.value| == |mask|
  {
    var stored := NullExpansion.Stored(layout, frames);
    if stored.None? || |stored.value| != NullExpansion.Count(Some(mask), |mask|) then None
    else if exists f | f in frames :: !f.CountMatches(layout) then None
    else Some(SpreadRows(stored.value, mask, BlankItem(layout)))
  }

  ghost function DeltaReading(lib: Libraries, node: Node, m: seq<Field>, t: Type, n: nat): (r: Option<seq<Cell>>)
    ensures r.Some? ==> |r.value| == n
    decreases node, 5
  {
    if !t.IsInteger() || |node.children| != 2 then None
    else
      var bits, count, off := 8 * t.Width(), Num(m, 1), Num(m, 2);
      match (WordsReading(lib, node, 0, t, BasesOf(bits, count)), ChildReading(lib, node, 1, t, count))
      case (Some(bases), Some(deltas)) =>
        var e := LaneDelta.Encoded(bits, bases, WordsOf(deltas), Some(ValidsOf(deltas)));
        if e.Valid() && e.Accepts(off, n)
        then Some(WordRows(e.Validity(off, n).value, e.Values(off, n))) else None
      case _ => None
  }

  /** The number of bases: one a lane in every chunk, and one for the rest. */
  function BasesOf(bits: nat, count: nat): nat
    requires IsWidth(bits)
  {
    count / 1024 * FastLanes.Lanes(bits) + if count % 1024 != 0 then 1 else 0
  }

  /** The number of values of every page of every chunk, none over the page limit. */
  function PageCounts(m: seq<Field>): Option<seq<seq<nat>>> {
    match Payloads(m, 2)
    case None => None
    case Some(chunks) =>
      match ChunkCounts(chunks)
      case None => None
      case Some(counts) => if PcoStream.PagesSmall(counts) then Some(counts) else None
  }

  function ChunkCounts(chunks: seq<seq<Field>>): (r: Option<seq<seq<nat>>>)
    ensures r.Some? ==> |r.value| == |chunks|
  {
    if chunks == [] then Some([])
    else
      var pages := Payloads(chunks[|chunks| - 1], 1);
      Append(ChunkCounts(chunks[..|chunks| - 1]), if pages.None? then None else Some([Counts(pages.value)]))
  }

  function Counts(pages: seq<seq<Field>>): (counts: seq<nat>)
    ensures |counts| == |pages|
  {
    seq<nat>(|pages|, i requires 0 <= i < |pages| => Num(pages[i], 1))
  }

  function NumberItems(words: seq<nat>): (items: seq<NullExpansion.Item>)
    ensures |items| == |words|
  {
    seq(|words|, i requires 0 <= i < |words| => NullExpansion.Number(words[i]))
  }

  /** The words of the pages in the valid rows; the pages hold one value per valid row. */
  ghost function PcoReading(lib: Libraries, node: Node, m: seq<Field>, t: Type, n: nat): (r: Option<seq<Cell>>)
    ensures r.Some? ==> |r.value| == n
    decreases node, 5
  {
    var counts := PageCounts(m);
    if t.Width() == 0 || t.kind == KBool || counts.None? || |counts.value| > |node.buffers| then None
    else
      var k := |counts.value|;
      match (PcoStream.Column(lib.floats, DataOr(m, 1), node.buffers[..k], node.buffers[k..], counts.value, t.kind),
             MaskReading(lib, node, 0, n))
      case (Some(words), Some(mask)) =>
        if PcoStream.Total(counts.value) == NullExpansion.Count(Some(mask), n) == |words|
        then Some(SpreadRows(NumberItems(words), mask, NullExpansion.Number(0))) else None
      case _ => None
  }
}
