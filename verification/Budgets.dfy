/** How much of the byte budget and of the nesting depth a tree of encodings can need at
    most, so that a decoder that has as much left never refuses it. */
module Budgets {
  import opened Wrappers
  import opened Words
  import opened Types
  import opened Proto
  import opened Arrays
  import opened Decoders
  import opened Readings
  import RowCopies
  import Tokens
  import PcoStream

  /** A step that may spend up to `need`, and is not refused when that much is left. */
  predicate Paid(before: nat, after: nat, refused: bool, need: nat) {
    before <= after + need && (need <= before ==> !refused)
  }

  // ------------------------------------------------------------- bytes of arrays

  /** Bytes a row for an array of a type: its values, validity vectors at every nested
      field, and a validity vector of its own. */
  function Weight(t: Type): nat {
    if t.kind == KExtension && t.storage.Some? then Weight(t.storage.value)
    else if t.kind == KStruct then 2 + WeightOf(t.fields)
    else 26
  }

  function WeightOf(fields: seq<Type>): nat {
    if fields == [] then 0 else WeightOf(fields[..|fields| - 1]) + Weight(fields[|fields| - 1])
  }

  /** Bytes a row for a constant: a struct and its fields are allocated one after the other. */
  function ScalarWeight(t: Type): nat {
    if t.kind == KExtension && t.storage.Some? then ScalarWeight(t.storage.value)
    else Weight(t) + if t.kind == KStruct then ScalarWeightOf(t.fields) else 0
  }

  function ScalarWeightOf(fields: seq<Type>): nat {
    if fields == [] then 0 else ScalarWeightOf(fields[..|fields| - 1]) + ScalarWeight(fields[|fields| - 1])
  }

  lemma {:induction false} EmptyWeight(t: Type, n: nat)
    ensures Decoder.EmptyCost(t, n) + 2 * n <= n * Weight(t)
    decreases t, 1
  {
    if t.kind == KExtension && t.storage.Some? {
      EmptyWeight(t.storage.value, n);
    } else if t.kind == KStruct {
      FieldsWeight(t, |t.fields|, n);
      assert t.fields[..|t.fields|] == t.fields;
      MulSum(n, 2, WeightOf(t.fields));
    }
  }

  lemma {:induction false} FieldsWeight(t: Type, k: nat, n: nat)
    requires k <= |t.fields|
    ensures Decoder.FieldsCost(t.fields[..k], n) <= n * WeightOf(t.fields[..k])
    decreases t, 0, k
  {
    if k > 0 {
      assert t.fields[..k][..k - 1] == t.fields[..k - 1];
      FieldsWeight(t, k - 1, n);
      EmptyWeight(t.fields[k - 1], n);
      MulSum(n, WeightOf(t.fields[..k - 1]), Weight(t.fields[k - 1]));
    }
  }

  lemma {:induction false} EmptyCovering(t: Type, n: nat, src: Values)
    requires Supported(t) && SameShape(EmptyOf(t, n), src)
    ensures Decoder.EmptyCost(t, n) + Decoder.CoveringCost(EmptyOf(t, n), src) + n <= n * Weight(t)
    decreases t, 1
  {
    if t.kind == KExtension {
      EmptyCovering(t.storage.value, n, src);
      RowCopies.RetypedCost(EmptyOf(t.storage.value, n), t, src);
    } else if t.kind == KStruct {
      EmptyCoverings(t, |t.fields|, n, src);
      var v := EmptyOf(t, n);
      assert v.fields[..|t.fields|] == v.fields && src.fields[..|t.fields|] == src.fields;
      assert t.fields[..|t.fields|] == t.fields;
      MulSum(n, 2, WeightOf(t.fields));
    }
  }

  lemma {:induction false} EmptyCoverings(t: Type, k: nat, n: nat, src: Values)
    requires Supported(t) && t.kind == KStruct && k <= |t.fields| && SameShape(EmptyOf(t, n), src)
    ensures Decoder.FieldsCost(t.fields[..k], n) + Decoder.CoveringFields(EmptyOf(t, n).fields[..k], src.fields[..k])
            <= n * WeightOf(t.fields[..k])
    decreases t, 0, k
  {
    hide Weight, WeightOf, Decoder.CoveringCost, Decoder.CoveringFields, Decoder.EmptyCost, Decoder.FieldsCost;
    if k == 0 {
      NothingCosts(t.fields[..k], EmptyOf(t, n).fields[..k], src.fields[..k], n);
    } else {
      CoveringLast(EmptyOf(t, n).fields, src.fields, k);
      FieldsLast(t.fields, n, k);
      WeightLast(t.fields, n, k);
      EmptyCoverings(t, k - 1, n, src);
      EmptyCovering(t.fields[k - 1], n, src.fields[k - 1]);
    }
  }

  lemma {:induction false} AllocationWeight(t: Type, n: nat, src: Values, nulls: bool)
    requires Supported(t) && SameShape(EmptyOf(t, n), src)
    ensures RowCopies.AllocationCost(t, n, src, nulls) <= n * Weight(t)
  {
    hide EmptyOf, SameShape, Supported, Decoder.EmptyCost, Decoder.CoveringCost, Weight;
    EmptyCovering(t, n, src);
    CoveredRows(t, n, src);
  }

  lemma {:induction false} CoveredRows(t: Type, n: nat, src: Values)
    requires Supported(t) && SameShape(EmptyOf(t, n), src)
    ensures Covering(EmptyOf(t, n), src).n == n
    decreases t
  {
    if t.kind == KExtension {
      CoveredRows(t.storage.value, n, src);
    }
  }

  /** Validity vectors for an array that is there already. */
  lemma {:induction false} CoveringWeight(v: Values, t: Type, n: nat, src: Values)
    requires Shaped(v, t, n) && SameShape(v, src)
    ensures Decoder.CoveringCost(v, src) <= n * Weight(t)
    decreases t, 1
  {
    if t.kind == KExtension {
      CoveringWeight(v, t.storage.value, n, src);
    } else if t.kind == KStruct {
      CoveringsWeight(v, t, |t.fields|, n, src);
      assert v.fields[..|t.fields|] == v.fields && src.fields[..|t.fields|] == src.fields;
      assert t.fields[..|t.fields|] == t.fields;
      MulSum(n, 2, WeightOf(t.fields));
    }
  }

  lemma {:induction false} CoveringsWeight(v: Values, t: Type, k: nat, n: nat, src: Values)
    requires Shaped(v, t, n) && t.kind == KStruct && k <= |t.fields| && SameShape(v, src)
    ensures Decoder.CoveringFields(v.fields[..k], src.fields[..k]) <= n * WeightOf(t.fields[..k])
    decreases t, 0, k
  {
    hide Weight, WeightOf, Decoder.CoveringCost, Decoder.CoveringFields;
    if k == 0 {
      NothingCosts(t.fields[..k], v.fields[..k], src.fields[..k], n);
    } else {
      CoveringLast(v.fields, src.fields, k);
      WeightLast(t.fields, n, k);
      CoveringsWeight(v, t, k - 1, n, src);
      CoveringWeight(v.fields[k - 1], t.fields[k - 1], n, src.fields[k - 1]);
    }
  }

  lemma {:induction false} NothingCosts(fields: seq<Type>, fs: seq<Values>, srcs: seq<Values>, n: nat)
    requires fields == [] && fs == [] && srcs == []
    ensures Decoder.FieldsCost(fields, n) == 0 && Decoder.CoveringFields(fs, srcs) == 0
    ensures n * WeightOf(fields) == 0
  {
  }

  lemma {:induction false} WeightLast(fields: seq<Type>, n: nat, k: nat)
    requires 0 < k <= |fields|
    ensures n * WeightOf(fields[..k]) == n * WeightOf(fields[..k - 1]) + n * Weight(fields[k - 1])
  {
    hide Weight;
    assert fields[..k][..k - 1] == fields[..k - 1];
    MulSum(n, WeightOf(fields[..k - 1]), Weight(fields[k - 1]));
  }

  lemma {:induction false} FieldsLast(fields: seq<Type>, n: nat, k: nat)
    requires 0 < k <= |fields|
    ensures Decoder.FieldsCost(fields[..k], n)
            == Decoder.FieldsCost(fields[..k - 1], n) + Decoder.EmptyCost(fields[k - 1], n)
  {
    hide Decoder.EmptyCost;
    assert fields[..k][..k - 1] == fields[..k - 1];
  }

  lemma {:induction false} CoveringLast(fs: seq<Values>, srcs: seq<Values>, k: nat)
    requires 0 < k <= |fs| == |srcs| && forall i | 0 <= i < |fs| :: SameShape(fs[i], srcs[i])
    ensures Decoder.CoveringFields(fs[..k], srcs[..k])
            == Decoder.CoveringFields(fs[..k - 1], srcs[..k - 1]) + Decoder.CoveringCost(fs[k - 1], srcs[k - 1])
  {
    hide Decoder.CoveringCost, SameShape;
    assert fs[..k][..k - 1] == fs[..k - 1] && srcs[..k][..k - 1] == srcs[..k - 1];
  }

  /** What a constant of a type costs, by kind of type. */
  lemma {:induction false} ConstantWeight(t: Type, n: nat)
    ensures t.kind == KExtension && t.storage.Some? ==> ScalarBytes(t, n) == ScalarBytes(t.storage.value, n)
    ensures t.kind != KExtension ==> Decoder.EmptyCost(t, n) <= ScalarBytes(t, n)
    ensures t.kind == KStruct ==> Decoder.EmptyCost(t, n) + ScalarsBytes(t.fields, n) <= ScalarBytes(t, n)
  {
    hide Weight, Decoder.EmptyCost;
    EmptyWeight(t, n);
    WeightPositive(t);
    MulMono(Weight(t), ScalarWeight(t), n);
    MulComm(n, Weight(t));
    MulComm(n, ScalarWeight(t));
    if t.kind == KStruct { MulSum(n, Weight(t), ScalarWeightOf(t.fields)); }
  }

  lemma {:induction false} ScalarBytesNext(fields: seq<Type>, n: nat, k: nat)
    requires k < |fields|
    ensures ScalarsBytes(fields[..k + 1], n) == ScalarsBytes(fields[..k], n) + ScalarBytes(fields[k], n)
    ensures ScalarsBytes(fields[..k + 1], n) <= ScalarsBytes(fields, n) && ScalarsBytes(fields[..0], n) == 0
  {
    hide ScalarWeight;
    assert fields[..k + 1][..k] == fields[..k];
    MulSum(n, ScalarWeightOf(fields[..k]), ScalarWeight(fields[k]));
    ScalarWeightPrefix(fields, k + 1);
    MulMono(ScalarWeightOf(fields[..k + 1]), ScalarWeightOf(fields), n);
    MulComm(n, ScalarWeightOf(fields[..k + 1]));
    MulComm(n, ScalarWeightOf(fields));
  }

  lemma {:induction false} ScalarWeightPrefix(fields: seq<Type>, k: nat)
    requires k <= |fields|
    ensures ScalarWeightOf(fields[..k]) <= ScalarWeightOf(fields)
    decreases |fields|
  {
    hide ScalarWeight;
    if k < |fields| {
      assert fields[..|fields| - 1][..k] == fields[..k];
      ScalarWeightPrefix(fields[..|fields| - 1], k);
    } else {
      assert fields[..k] == fields;
    }
  }

  lemma {:induction false} WeightPositive(t: Type)
    ensures 2 <= Weight(t) && Weight(t) <= ScalarWeight(t)
    decreases t
  {
    if t.kind == KExtension && t.storage.Some? { WeightPositive(t.storage.value); }
  }

  /** Bytes of `n` rows of an array, and of a constant. */
  function RowBytes(t: Type, n: nat): nat { n * Weight(t) }

  function ScalarBytes(t: Type, n: nat): nat { n * ScalarWeight(t) }

  /** Bytes of constants of the fields of a struct. */
  function ScalarsBytes(fields: seq<Type>, n: nat): nat { n * ScalarWeightOf(fields) }

  /** Enough for what any encoding allocates for `n` rows of its own. */
  function Own(t: Type, n: nat): nat {
    4 * RowBytes(t, n) + ScalarBytes(t, n) + ScalarWeight(t)
  }

  lemma {:induction false} OwnLeaf(t: Type, n: nat)
    requires t.Width() > 0 || IsString(t)
    ensures Own(t, n) == 130 * n + 26 && ScalarWeight(t) == 26 && RowBytes(t, n) == 26 * n
  {
  }

  lemma {:induction false} OwnParts(t: Type, n: nat)
    ensures ScalarBytes(t, n) + RowBytes(t, n) + n <= Own(t, n) && ScalarWeight(t) <= Own(t, n)
    ensures n <= RowBytes(t, n)
  {
    hide Weight, ScalarWeight;
    WeightPositive(t);
    MulMono(1, Weight(t), n);
    MulComm(n, Weight(t));
  }

  // -------------------------------------------------------------- trees of encodings

  function Height(node: Node): nat { 1 + Highest(node.children) }

  function Highest(nodes: seq<Node>): nat {
    if nodes == [] then 0
    else
      var last := |nodes| - 1;
      var rest, h := Highest(nodes[..last]), Height(nodes[last]);
      if rest < h then h else rest
  }

  /** The children of a node at this depth stay within the nesting limit. */
  predicate Fits(depth: nat, node: Node) { depth + Highest(node.children) <= MAX_DEPTH }

  lemma {:induction false} ChildHeight(nodes: seq<Node>, i: nat)
    requires i < |nodes|
    ensures Height(nodes[i]) <= Highest(nodes)
    decreases |nodes|
  {
    if i < |nodes| - 1 { ChildHeight(nodes[..|nodes| - 1], i); }
  }

  /** The bytes that decoding `n` rows of a node may ask for, its children included. */
  ghost function Need(lib: Libraries, node: Node, t: Type, n: nat): nat
    decreases node, 9
  {
    if n > MAX_ROWS then 0
    else
      match Parse(node.metadata, 0)
      case None => 0
      case Some(m) => NodeNeed(lib, node, m, t, n)
  }

  ghost function NodeNeed(lib: Libraries, node: Node, m: seq<Field>, t: Type, n: nat): nat
    decreases node, 8
  {
    match node.encoding
    case NullArray => Own(t, n)
    case Primitive => LeafNeed(lib, node, t, n)
    case Boolean => LeafNeed(lib, node, t, n)
    case ByteBool => LeafNeed(lib, node, t, n)
    case Constant => ScalarBytes(t, n)
    case StructArray => StructNeed(lib, node, t, n)
    case VarBin => VarBinNeed(lib, node, m, t, n)
    case VarBinView => LeafNeed(lib, node, t, n)
    case Dictionary => DictionaryNeed(lib, node, m, t, n)
    case Masked => MaskedNeed(lib, node, t, n)
    case Extension => ChildNeed(lib, node, 0, t.storage, n)
    case BitPacked => Own(t, n) + PatchNeed(lib, node, 0, Data(m, 3), t) + LastNeed(lib, node, n)
    case FrameOfReference => Own(t, n) + ChildNeed(lib, node, 0, Some(t), n)
    case ZigZag => ChildNeed(lib, node, 0, Some(Unsigned(t)), n)
    case Sequence => Own(t, n)
    case RunEnd => RunEndNeed(lib, node, m, t, n)
    case RunLength => RunLengthNeed(lib, node, m, t, n)
    case Sparse => Own(t, n) + PatchNeed(lib, node, 0, Data(m, 1), t)
    case Alp => AlpNeed(lib, node, m, t, n)
    case AlpRd => AlpRdNeed(lib, node, m, t, n)
    case Fsst => FsstNeed(lib, node, m, t, n)
    case OnPair => OnPairNeed(lib, node, m, t, n)
    case Zstd => LeafNeed(lib, node, t, n) + FrameBytes(m)
    case Delta => DeltaNeed(lib, node, m, t, n)
    case Pco => LeafNeed(lib, node, t, n)
    case OtherEncoding => 0
  }

  ghost function ChildNeed(lib: Libraries, node: Node, i: nat, t: Option<Type>, n: nat): nat
    decreases node, 0
  {
    if t.Some? && i < |node.children| then Need(lib, node.children[i], t.value, n) else 0
  }

  /** The last child, for validity. */
  ghost function LastNeed(lib: Libraries, node: Node, n: nat): nat
    decreases node, 1
  {
    if node.children == [] then 0 else ChildNeed(lib, node, |node.children| - 1, Some(BOOL), n)
  }

  ghost function LeafNeed(lib: Libraries, node: Node, t: Type, n: nat): nat
    decreases node, 3
  {
    Own(t, n) + LastNeed(lib, node, n)
  }

  /** The first `k` fields, after an optional first child. */
  ghost function FieldsNeed(lib: Libraries, node: Node, off: nat, t: Type, n: nat, k: nat): nat
    requires k <= |t.fields|
    decreases node, 2, k
  {
    if k == 0 then 0
    else FieldsNeed(lib, node, off, t, n, k - 1) + ChildNeed(lib, node, k - 1 + off, Some(t.fields[k - 1]), n)
  }

  ghost function StructNeed(lib: Libraries, node: Node, t: Type, n: nat): nat
    decreases node, 3
  {
    if |node.children| < |t.fields| then 0
    else
      ChildNeed(lib, node, 0, Some(BOOL), n)
      + FieldsNeed(lib, node, |node.children| - |t.fields|, t, n, |t.fields|)
  }

  ghost function VarBinNeed(lib: Libraries, node: Node, m: seq<Field>, t: Type, n: nat): nat
    decreases node, 3
  {
    Own(t, n) + RangesNeed(lib, node, 0, IntegerType(Num(m, 1), false), n)
  }

  ghost function RangesNeed(lib: Libraries, node: Node, i: nat, ot: Option<Type>, n: nat): nat
    decreases node, 2
  {
    ChildNeed(lib, node, i, ot, n + 1) + LastNeed(lib, node, n)
  }

  ghost function DictionaryNeed(lib: Libraries, node: Node, m: seq<Field>, t: Type, n: nat): nat
    decreases node, 3
  {
    var ct := IntegerType(Num(m, 2), if Has(m, 3) then Num(m, 3) != 0 else t.nullable);
    Own(t, n) + ChildNeed(lib, node, 0, ct, n) + ChildNeed(lib, node, 1, Some(t), Num(m, 1))
  }

  ghost function MaskedNeed(lib: Libraries, node: Node, t: Type, n: nat): nat
    decreases node, 3
  {
    Own(t, n) + ChildNeed(lib, node, 0, Some(t.(nullable := false)), n) + LastNeed(lib, node, n)
  }

  ghost function PatchCellsNeed(lib: Libraries, node: Node, start: nat, m: seq<Field>, t: Type): nat
    decreases node, 2
  {
    ChildNeed(lib, node, start, UnsignedType(Num(m, 3), false), Num(m, 1))
    + ChildNeed(lib, node, start + 1, Some(t), Num(m, 1))
    + if Has(m, 5) then ChildNeed(lib, node, start + 2, PrimitiveType(Num(m, 5), false), Num(m, 4)) else 0
  }

  ghost function PatchNeed(lib: Libraries, node: Node, start: nat, raw: Option<seq<byte>>, t: Type): nat
    decreases node, 3
  {
    if raw.None? then 0
    else
      match Parse(raw.value, 0)
      case None => 0
      case Some(m) => PatchCellsNeed(lib, node, start, m, t)
  }

  ghost function RunEndNeed(lib: Libraries, node: Node, m: seq<Field>, t: Type, n: nat): nat
    decreases node, 3
  {
    Own(t, n) + ChildNeed(lib, node, 0, IntegerType(Num(m, 1), false), Num(m, 2))
    + ChildNeed(lib, node, 1, Some(t), Num(m, 2))
  }

  ghost function RunLengthNeed(lib: Libraries, node: Node, m: seq<Field>, t: Type, n: nat): nat
    decreases node, 3
  {
    Own(t, n) + ChildNeed(lib, node, 0, Some(t.(nullable := false)), Num(m, 1))
    + ChildNeed(lib, node, 1, PrimitiveType(Num(m, 3), t.nullable), Num(m, 2))
    + ChildNeed(lib, node, 2, UnsignedType(Num(m, 5), false), Num(m, 4))
  }

  ghost function AlpNeed(lib: Libraries, node: Node, m: seq<Field>, t: Type, n: nat): nat
    decreases node, 4
  {
    Own(t, n) + ChildNeed(lib, node, 0, Some(Plain(if t.kind == KF32 then KI32 else KI64, t.nullable)), n)
    + PatchNeed(lib, node, 1, Data(m, 3), t)
  }

  ghost function AlpRdNeed(lib: Libraries, node: Node, m: seq<Field>, t: Type, n: nat): nat
    decreases node, 4
  {
    var lt := UnsignedType(Num(m, 4), t.nullable);
    ChildNeed(lib, node, 0, lt, n)
    + ChildNeed(lib, node, 1, Some(Plain(if t.kind == KF32 then KU32 else KU64, false)), n)
    + if lt.None? then 0 else PatchNeed(lib, node, 2, Data(m, 5), lt.value.(nullable := false))
  }

  ghost function FsstCellsNeed(lib: Libraries, node: Node, m: seq<Field>, t: Type, n: nat): nat
    decreases node, 3
  {
    var lt := IntegerType(Num(m, 1), false);
    if |node.buffers| == 2
    then ChildNeed(lib, node, 0, Some(Plain(KBinary, t.nullable)), n) + ChildNeed(lib, node, 1, lt, n)
    else
      ChildNeed(lib, node, 0, lt, n) + RangesNeed(lib, node, 1, IntegerType(Num(m, 2), false), n)
  }

  /** The declared bytes of all rows. */
  ghost function FsstBytes(lib: Libraries, node: Node, m: seq<Field>, t: Type, n: nat): nat {
    var cells := FsstCells(lib, node, m, t, n);
    if cells.None? then 0 else PcoStream.Sum(cells.value.1)
  }

  ghost function FsstNeed(lib: Libraries, node: Node, m: seq<Field>, t: Type, n: nat): nat
    decreases node, 4
  {
    Own(t, n) + FsstCellsNeed(lib, node, m, t, n) + FsstBytes(lib, node, m, t, n)
  }

  ghost function OnPairCellsNeed(lib: Libraries, node: Node, m: seq<Field>, n: nat): nat
    decreases node, 3
  {
    ChildNeed(lib, node, 0, UnsignedType(Num(m, 5), false), Num(m, 3) + 1)
    + ChildNeed(lib, node, 1, UnsignedType(Num(m, 6), false), Num(m, 4))
    + ChildNeed(lib, node, 2, UnsignedType(Num(m, 7), false), n + 1)
    + ChildNeed(lib, node, 3, UnsignedType(Num(m, 1), false), n)
  }

  ghost function OnPairBytes(lib: Libraries, node: Node, m: seq<Field>, n: nat): nat {
    var c := OnPairColumns(lib, node, m, n);
    if c.None? then 0 else PcoStream.Sum(c.value.lens)
  }

  ghost function OnPairNeed(lib: Libraries, node: Node, m: seq<Field>, t: Type, n: nat): nat
    decreases node, 4
  {
    LeafNeed(lib, node, t, n) + OnPairCellsNeed(lib, node, m, n) + 24 * Num(m, 3) + OnPairBytes(lib, node, m, n)
  }

  /** The declared sizes of the frames of a Zstd array. */
  function FrameBytes(m: seq<Field>): nat {
    match Payloads(m, 2)
    case None => 0
    case Some(ps) => PcoStream.Sum(Counts(ps))
  }

  ghost function DeltaNeed(lib: Libraries, node: Node, m: seq<Field>, t: Type, n: nat): nat
    decreases node, 3
  {
    if !t.IsInteger() then 0
    else
      Own(t, n) + ChildNeed(lib, node, 0, Some(t), BasesOf(8 * t.Width(), Num(m, 1)))
      + ChildNeed(lib, node, 1, Some(t), Num(m, 1))
  }

  lemma {:induction false} DeclaredAtMost(lens: seq<nat>, valid: Option<seq<bool>>, k: nat)
    requires k <= |lens| && (valid.Some? ==> |valid.value| == |lens|)
    ensures Tokens.Declared(lens, valid, k) <= PcoStream.Sum(lens[..k])
  {
    if k > 0 {
      assert lens[..k][..k - 1] == lens[..k - 1];
      DeclaredAtMost(lens, valid, k - 1);
    }
  }

  lemma {:induction false} SumPrefix(xs: seq<nat>, k: nat)
    requires k <= |xs|
    ensures PcoStream.Sum(xs[..k]) <= PcoStream.Sum(xs)
    decreases |xs|
  {
    if k < |xs| {
      assert xs[..|xs| - 1][..k] == xs[..k];
      SumPrefix(xs[..|xs| - 1], k);
    } else {
      assert xs[..k] == xs;
    }
  }
}
