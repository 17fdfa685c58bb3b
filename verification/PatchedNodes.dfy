/** Written nodes with exceptions read back as their rows: patches over bit-packed values,
    over a constant and over ALP values, and the two parts of ALPRD values. */
module PatchedNodes {
  import opened Wrappers
  import opened Words
  import opened Types
  import opened Proto
  import opened Arrays
  import opened Readings
  import opened NodeRoundTrips
  import opened StoredNodes
  import BitPacking
  import NumberColumns
  import Overrides
  import PcoDelta
  import RowCopies

  // ----------------------------------------------------------------------- patches

  /** Absolute indices of a slice from `off` on, each above the one before. */
  predicate Ascending(idx: seq<nat>, off: nat, n: nat) {
    && (forall k: nat | k < |idx| :: off <= idx[k] < off + n)
    && (forall k: nat | 0 < k < |idx| :: idx[k - 1] < idx[k])
  }

  lemma {:induction false} AscendingPlaced(idx: seq<nat>, off: nat, n: nat)
    ensures Ascending(idx, off, n) <==> Overrides.Placed(idx, off, n)
  {
    if Ascending(idx, off, n) {
      forall j, k | 0 <= j < k < |idx| ensures idx[j] < idx[k] { AscendingApart(idx, off, n, j, k); }
    }
  }

  lemma {:induction false} AscendingApart(idx: seq<nat>, off: nat, n: nat, j: nat, k: nat)
    requires Ascending(idx, off, n) && j < k < |idx|
    ensures idx[j] < idx[k]
  {
    if j < k - 1 { AscendingApart(idx, off, n, j, k - 1); }
  }

  /** The rows with the patches in their places. */
  ghost predicate Patched<T>(was: seq<T>, idx: seq<nat>, off: nat, vals: seq<T>, x: seq<T>) {
    && |x| == |was| && |vals| == |idx|
    && (forall k: nat | k < |idx| :: off <= idx[k] < off + |x| ==> x[idx[k] - off] == vals[k])
    && (forall i: nat | i < |x| && off + i !in idx :: x[i] == was[i])
  }

  lemma {:induction false} PatchedIs<T>(was: seq<T>, idx: seq<nat>, off: nat, vals: seq<T>, x: seq<T>)
    requires Patched(was, idx, off, vals, x)
    ensures Overrides.Override(was, idx, vals, off) == x
  {
    var rows := Overrides.Override(was, idx, vals, off);
    forall i: nat | i < |x| ensures rows[i] == x[i] {
      if Overrides.Hit(idx, off, |idx|, i) {
        assert idx[Overrides.HitBy(idx, off, i)] - off == i;
      }
    }
    assert rows == x;
  }

  /** The children of patches: the indices, the values, and sorted chunk offsets if the
      metadata has them. */
  ghost predicate PatchChildren(lib: Libraries, node: Node, start: nat, m: seq<Field>, t: Type, idx: seq<nat>,
                                vals: seq<Cell>, chunks: seq<nat>)
  {
    && Num(m, 1) == |idx| == |vals| && UnsignedType(Num(m, 3), false).Some?
    && WordsReading(lib, node, start, UnsignedType(Num(m, 3), false).value, |idx|) == Some(idx)
    && ChildReading(lib, node, start + 1, t, |vals|) == Some(vals)
    && (Has(m, 5) ==>
          && UnsignedType(Num(m, 5), false).Some? && Num(m, 4) == |chunks|
          && WordsReading(lib, node, start + 2, UnsignedType(Num(m, 5), false).value, |chunks|) == Some(chunks)
          && forall k: nat | 0 < k < |chunks| :: chunks[k - 1] <= chunks[k])
  }

  /** Patches, end to end: they are accepted exactly when the indices ascend inside the
      slice, and then the rows are the patched rows. */
  lemma {:induction false} PatchesRead(lib: Libraries, node: Node, start: nat, raw: seq<byte>, m: seq<Field>, t: Type,
                                       idx: seq<nat>, vals: seq<Cell>, chunks: seq<nat>, was: seq<Cell>, x: seq<Cell>)
    requires Parse(raw, 0) == Some(m) && PatchChildren(lib, node, start, m, t, idx, vals, chunks)
    requires Patched(was, idx, Num(m, 2), vals, x)
    ensures PatchesReading(lib, node, start, Some(raw), t, was)
            == if Ascending(idx, Num(m, 2), |x|) then Some((x, start + if Has(m, 5) then 3 else 2)) else None
  {
    hide Parse, Num, Has, ChildReading, WordsReading, Overrides.Override, Patched, Overrides.Placed, Ascending;
    assert |x| == |was| by { PatchedCount(was, idx, Num(m, 2), vals, x); }
    AscendingPlaced(idx, Num(m, 2), |was|);
    PatchedIs(was, idx, Num(m, 2), vals, x);
    assert PatchCells(lib, node, start, m, t) == Some((idx, vals, start + if Has(m, 5) then 3 else 2));
  }

  lemma {:induction false} PatchedCount<T>(was: seq<T>, idx: seq<nat>, off: nat, vals: seq<T>, x: seq<T>)
    requires Patched(was, idx, off, vals, x)
    ensures |x| == |was|
  {
  }

  /** Patched bit-packing, end to end: the unpacked values with the patches in their places,
      under the flags of the validity child. */
  lemma {:induction false} BitPackedPatchedReads(lib: Libraries, node: Node, m: seq<Field>, t: Type, raw: seq<byte>,
                                                 pm: seq<Field>, idx: seq<nat>, vals: seq<Cell>, chunks: seq<nat>,
                                                 x: seq<Cell>, mask: seq<bool>)
    requires node.encoding == BitPacked && t.IsInteger() && |node.buffers| == 1 && Parse(node.metadata, 0) == Some(m)
    requires |x| == |mask| <= MAX_ROWS && Allows(t, mask) && Data(m, 3) == Some(raw) && Parse(raw, 0) == Some(pm)
    requires BitPacking.Packed(8 * t.Width(), Num(m, 1), node.buffers[0]).Accepts(Num(m, 2), |x|)
    requires var p := BitPacking.Packed(8 * t.Width(), Num(m, 1), node.buffers[0]);
             Patched(WordRows(seq(|x|, _ => true), BitPacking.Values(p, Num(m, 2), |x|)), idx, Num(pm, 2), vals, x)
    requires PatchChildren(lib, node, 0, pm, t, idx, vals, chunks) && Ascending(idx, Num(pm, 2), |x|)
    requires MaskReading(lib, node, if Has(pm, 5) then 3 else 2, |x|) == Some(mask)
    ensures Reading(lib, node, t, |x|) == Some(Remasked(x, mask))
  {
    hide Parse, Num, Has, Data, Encoded, Reading, MaskReading, PatchChildren, PatchesReading, Patched, Ascending,
      WordRows, Remasked, BitPacking.Values, BitPacking.Packed.Accepts;
    var p := BitPacking.Packed(8 * t.Width(), Num(m, 1), node.buffers[0]);
    var was := WordRows(seq(|x|, _ => true), BitPacking.Values(p, Num(m, 2), |x|));
    PatchesRead(lib, node, 0, raw, pm, t, idx, vals, chunks, was, x);
    assert PatchedMasked(lib, node, Some(raw), t, was) == Some(Remasked(x, mask));
    EncodedIs(lib, node, m, t, |x|);
    RemaskedAllowed(t, x, mask);
    ReadingIs(lib, node, m, t, |x|);
  }

  lemma {:induction false} RemaskedAllowed(t: Type, x: seq<Cell>, mask: seq<bool>)
    requires |x| == |mask| && Allows(t, mask)
    ensures t.nullable || AllValid(Remasked(x, mask))
  {
  }

  /** Sparse columns, end to end: the constant with the patches in their places. */
  lemma {:induction false} SparseNodeReads(lib: Libraries, node: Node, m: seq<Field>, t: Type, c: Cell, raw: seq<byte>,
                                           pm: seq<Field>, idx: seq<nat>, vals: seq<Cell>, chunks: seq<nat>,
                                           x: seq<Cell>)
    requires node.encoding == Sparse && |node.buffers| == 1 && Parse(node.metadata, 0) == Some(m)
    requires Scalar(lib, t, node.buffers[0]) == Some(c) && |x| <= MAX_ROWS && (t.nullable || AllValid(x))
    requires Data(m, 1) == Some(raw) && Parse(raw, 0) == Some(pm)
    requires PatchChildren(lib, node, 0, pm, t, idx, vals, chunks) && Ascending(idx, Num(pm, 2), |x|)
    requires Patched(seq(|x|, _ => c), idx, Num(pm, 2), vals, x)
    ensures Reading(lib, node, t, |x|) == Some(x)
  {
    hide Parse, Num, Has, Data, Scalar, Encoded, Reading, PatchChildren, PatchesReading, Patched, Ascending, AllValid;
    PatchesRead(lib, node, 0, raw, pm, t, idx, vals, chunks, seq(|x|, _ => c), x);
    SparseRows(lib, node, m, t, c, raw, x, if Has(pm, 5) then 3 else 2);
    EncodedIs(lib, node, m, t, |x|);
    ReadingIs(lib, node, m, t, |x|);
  }

  lemma {:induction false} SparseRows(lib: Libraries, node: Node, m: seq<Field>, t: Type, c: Cell, raw: seq<byte>,
                                      x: seq<Cell>, next: nat)
    requires |node.buffers| == 1 && Scalar(lib, t, node.buffers[0]) == Some(c) && Data(m, 1) == Some(raw)
    requires PatchesReading(lib, node, 0, Some(raw), t, seq(|x|, _ => c)) == Some((x, next))
    ensures SparseReading(lib, node, m, t, |x|) == Some(x)
  {
    hide Scalar, Data, PatchesReading;
    assert ConstantReading(lib, t, node.buffers[0], |x|).value == seq(|x|, _ => c);
  }

  /** The ALP multiplications of some words. */
  function Products(lib: Libraries, words: seq<nat>, exponent: nat, factor: nat, kind: Kind): (r: seq<nat>)
    ensures |r| == |words|
  {
    seq<nat>(|words|, i requires 0 <= i < |words| => lib.alp(words[i], exponent, factor, kind))
  }

  /** ALP, end to end: the products of the child's words, with the patches in their places. */
  lemma {:induction false} AlpNodeReads(lib: Libraries, node: Node, m: seq<Field>, t: Type, words: seq<nat>,
                                        mask: seq<bool>, raw: seq<byte>, pm: seq<Field>, idx: seq<nat>,
                                        vals: seq<Cell>, chunks: seq<nat>, x: seq<Cell>)
    requires node.encoding == Alp && (t.kind == KF32 || t.kind == KF64) && Parse(node.metadata, 0) == Some(m)
    requires var limit := if t.kind == KF32 then 10 else 18; Num(m, 1) <= limit && Num(m, 2) <= limit
    requires |words| == |mask| == |x| <= MAX_ROWS && (t.nullable || AllValid(x))
    requires ChildReading(lib, node, 0, Plain(if t.kind == KF32 then KI32 else KI64, t.nullable), |x|)
             == Some(WordRows(mask, words))
    requires Data(m, 3) == Some(raw) && Parse(raw, 0) == Some(pm)
    requires PatchChildren(lib, node, 1, pm, t, idx, vals, chunks) && Ascending(idx, Num(pm, 2), |x|)
    requires |node.children| == if Has(pm, 5) then 4 else 3
    requires Patched(WordRows(mask, Products(lib, words, Num(m, 1), Num(m, 2), t.kind)), idx, Num(pm, 2), vals, x)
    ensures Reading(lib, node, t, |x|) == Some(x)
  {
    hide Parse, Num, Has, Data, Encoded, Reading, ChildReading, PatchChildren, PatchesReading, Patched, Ascending,
      AllValid, WordRows, Mapped;
    var products := Products(lib, words, Num(m, 1), Num(m, 2), t.kind);
    PatchesRead(lib, node, 1, raw, pm, t, idx, vals, chunks, WordRows(mask, products), x);
    MappedBack(mask, words, (w: nat) => lib.alp(w, Num(m, 1), Num(m, 2), t.kind), products);
    assert AlpReading(lib, node, m, t, |x|) == Some(x);
    EncodedIs(lib, node, m, t, |x|);
    ReadingIs(lib, node, m, t, |x|);
  }

  // ------------------------------------------------------------------- split floats

  /** The words of the valid rows split at bit `bw`: the right parts below it, and the left
      parts in a dictionary or among the patches. */
  ghost predicate SplitAt(x: seq<nat>, mask: seq<bool>, bw: nat, dict: seq<nat>, codes: seq<nat>, right: seq<nat>,
                          idx: seq<nat>, off: nat, vals: seq<nat>)
  {
    && |mask| == |codes| == |right| == |x| && |vals| == |idx|
    && (forall i: nat | i < |x| && mask[i] ::
          && x[i] == Low(x[i], bw + 16) && x[i] < Pow2(64) && codes[i] < |dict| && right[i] == Low(x[i], bw)
          && (off + i !in idx ==> dict[codes[i]] == Shr(x[i], bw)))
    && (forall k: nat | k < |idx| :: off <= idx[k] < off + |x| && mask[idx[k] - off] ==>
          vals[k] == Shr(x[idx[k] - off], bw))
  }

  /** The dictionary of left parts: the first of the repeated numbers of field 3, as many as
      field 2 says, at most 65536 of at most 16 bits. */
  lemma {:induction false} DictionaryIs(m: seq<Field>, dict: seq<nat>)
    ensures LeftDictionary(m) == Some(dict)
            <==> && Repeated(m, 3).Some? && dict <= Repeated(m, 3).value && |dict| == Num(m, 2) <= 65536
                 && forall i: nat | i < |dict| :: dict[i] < 65536
  {
    hide Repeated, Num;
    if Repeated(m, 3).Some? && Num(m, 2) <= |Repeated(m, 3).value| {
      var first := Repeated(m, 3).value[..Num(m, 2)];
      assert dict <= Repeated(m, 3).value && |dict| == Num(m, 2) <==> dict == first;
      if forall i: nat | i < |dict| :: dict[i] < 65536 {
        forall x | x in dict ensures x < 65536 { var i :| 0 <= i < |dict| && dict[i] == x; }
      } else {
        var i: nat :| i < |dict| && dict[i] >= 65536;
        assert dict[i] in dict;
      }
    }
  }

  /** The left part of a valid row after the patches. */
  lemma {:induction false} LeftPart(x: seq<nat>, mask: seq<bool>, bw: nat, dict: seq<nat>, codes: seq<nat>,
                                    right: seq<nat>, idx: seq<nat>, off: nat, vals: seq<nat>, i: nat)
    requires SplitAt(x, mask, bw, dict, codes, right, idx, off, vals) && i < |x| && mask[i]
    ensures |codes| == |mask| == |x|
    ensures Overrides.Override(LeftParts(WordRows(mask, codes), dict), idx, vals, off)[i] == Shr(x[i], bw)
  {
    hide Shr, Low, Pow2;
    if Overrides.Hit(idx, off, |idx|, i) {
      assert idx[Overrides.HitBy(idx, off, i)] - off == i;
    }
  }

  /** The parts of a valid row fit and combine to its word. */
  lemma {:induction false} PartsCombine(x: nat, bw: nat)
    requires x == Low(x, bw + 16) && x < Pow2(64)
    ensures Shr(x, bw) <= 65535 && Low(x, bw) < Pow2(bw)
    ensures NumberColumns.Combine(Shr(x, bw), Low(x, bw), bw) == x
  {
    hide Pow2, Shr, Low, Shl;
    ShrBelow(x, bw, bw + 16);
    Powers();
    LowAndShr(x, bw);
    LowSmall(Shl(Shr(x, bw), bw), 64);
  }

  /** The words of the valid rows, and the right parts of the others. */
  function SplitWords(x: seq<nat>, mask: seq<bool>, right: seq<nat>): (words: seq<nat>)
    requires |mask| == |right| == |x|
    ensures |words| == |x|
  {
    seq<nat>(|x|, i requires 0 <= i < |x| => if mask[i] then x[i] else right[i])
  }

  lemma {:induction false} SplitCombined(x: seq<nat>, mask: seq<bool>, bw: nat, dict: seq<nat>, codes: seq<nat>,
                                         right: seq<nat>, idx: seq<nat>, off: nat, vals: seq<nat>)
    requires SplitAt(x, mask, bw, dict, codes, right, idx, off, vals)
    ensures |mask| == |codes| == |right| == |x| && |vals| == |idx|
    ensures RowCopies.CodesNamed(WordRows(mask, codes), |dict|)
    ensures var left := Overrides.Override(LeftParts(WordRows(mask, codes), dict), idx, vals, off);
            && PartsFit(WordRows(mask, codes), left, right, bw)
            && Combined(WordRows(mask, codes), left, right, bw) == SplitWords(x, mask, right)
  {
    hide Shr, Low, Pow2, NumberColumns.Combine, Overrides.Override, LeftParts;
    var cells := WordRows(mask, codes);
    var left := Overrides.Override(LeftParts(cells, dict), idx, vals, off);
    forall i: nat | i < |x| && mask[i]
      ensures left[i] <= 65535 && right[i] < Pow2(bw) && NumberColumns.Combine(left[i], right[i], bw) == x[i]
    {
      LeftPart(x, mask, bw, dict, codes, right, idx, off, vals, i);
      PartsCombine(x[i], bw);
    }
    assert Combined(cells, left, right, bw) == SplitWords(x, mask, right);
  }

  /** ALPRD, end to end: over any children that read as the codes and as the right parts,
      with patches for the left parts that the dictionary lacks, the node reads as the
      words. */
  lemma {:induction false} AlpRdNodeReads(lib: Libraries, node: Node, m: seq<Field>, t: Type, x: seq<nat>,
                                          mask: seq<bool>, dict: seq<nat>, codes: seq<nat>, right: seq<nat>,
                                          raw: seq<byte>, pm: seq<Field>, idx: seq<nat>, vals: seq<nat>,
                                          chunks: seq<nat>)
    requires node.encoding == AlpRd && (t.kind == KF32 || t.kind == KF64) && Parse(node.metadata, 0) == Some(m)
    requires Num(m, 1) < 8 * t.Width() <= Num(m, 1) + 16 && LeftDictionary(m) == Some(dict)
    requires UnsignedType(Num(m, 4), t.nullable).Some? && |x| <= MAX_ROWS && Allows(t, mask)
    requires Data(m, 5) == Some(raw) && Parse(raw, 0) == Some(pm)
    requires SplitAt(x, mask, Num(m, 1), dict, codes, right, idx, Num(pm, 2), vals) && Ascending(idx, Num(pm, 2), |x|)
    requires PatchChildren(lib, node, 2, pm, UnsignedType(Num(m, 4), t.nullable).value.(nullable := false), idx,
                           WordRows(seq(|vals|, _ => true), vals), chunks)
    requires |node.children| == if Has(pm, 5) then 5 else 4
    requires ChildReading(lib, node, 0, UnsignedType(Num(m, 4), t.nullable).value, |x|) == Some(WordRows(mask, codes))
    requires WordsReading(lib, node, 1, Plain(if t.kind == KF32 then KU32 else KU64, false), |x|) == Some(right)
    ensures |mask| == |right| == |x|
    ensures Reading(lib, node, t, |x|) == Some(WordRows(mask, SplitWords(x, mask, right)))
  {
    hide Parse, Num, Has, Data, Encoded, Reading, PatchChildren, SplitAt, Ascending, WordRows, SplitWords, AlpRdReading;
    SplitCombined(x, mask, Num(m, 1), dict, codes, right, idx, Num(pm, 2), vals);
    AlpRdRows(lib, node, m, t, x, mask, dict, codes, right, raw, pm, idx, vals, chunks);
    EncodedIs(lib, node, m, t, |x|);
    AllowedReading(lib, node, m, t, |x|, mask, SplitWords(x, mask, right));
  }

  lemma {:induction false} AlpRdRows(lib: Libraries, node: Node, m: seq<Field>, t: Type, x: seq<nat>,
                                     mask: seq<bool>, dict: seq<nat>, codes: seq<nat>, right: seq<nat>,
                                     raw: seq<byte>, pm: seq<Field>, idx: seq<nat>, vals: seq<nat>,
                                     chunks: seq<nat>)
    requires (t.kind == KF32 || t.kind == KF64) && Num(m, 1) < 8 * t.Width() <= Num(m, 1) + 16
    requires LeftDictionary(m) == Some(dict) && UnsignedType(Num(m, 4), t.nullable).Some?
    requires Data(m, 5) == Some(raw) && Parse(raw, 0) == Some(pm)
    requires SplitAt(x, mask, Num(m, 1), dict, codes, right, idx, Num(pm, 2), vals) && Ascending(idx, Num(pm, 2), |x|)
    requires PatchChildren(lib, node, 2, pm, UnsignedType(Num(m, 4), t.nullable).value.(nullable := false), idx,
                           WordRows(seq(|vals|, _ => true), vals), chunks)
    requires |node.children| == if Has(pm, 5) then 5 else 4
    requires |mask| == |codes| == |x|
    requires ChildReading(lib, node, 0, UnsignedType(Num(m, 4), t.nullable).value, |x|) == Some(WordRows(mask, codes))
    requires WordsReading(lib, node, 1, Plain(if t.kind == KF32 then KU32 else KU64, false), |x|) == Some(right)
    ensures |right| == |x|
    ensures AlpRdReading(lib, node, m, t, |x|) == Some(WordRows(mask, SplitWords(x, mask, right)))
  {
    hide Parse, Num, Has, Data, ChildReading, WordsReading, LeftDictionary, UnsignedType, SplitAt, Ascending, WordRows,
      SplitWords, Overrides.Override, Overrides.Placed, LeftParts, PartsFit, Combined, RowCopies.CodesNamed,
      NumbersPatched;
    var lt := UnsignedType(Num(m, 4), t.nullable).value;
    SplitCombined(x, mask, Num(m, 1), dict, codes, right, idx, Num(pm, 2), vals);
    RowsBack(mask, codes);
    var was := LeftParts(WordRows(mask, codes), dict);
    NumbersRead(lib, node, 2, raw, pm, lt.(nullable := false), idx, vals, chunks, was);
  }

  lemma {:induction false} NumbersRead(lib: Libraries, node: Node, start: nat, raw: seq<byte>, m: seq<Field>, t: Type,
                                       idx: seq<nat>, vals: seq<nat>, chunks: seq<nat>, was: seq<nat>)
    requires Parse(raw, 0) == Some(m) && |vals| == |idx| && Ascending(idx, Num(m, 2), |was|)
    requires PatchChildren(lib, node, start, m, t, idx, WordRows(seq(|vals|, _ => true), vals), chunks)
    ensures NumbersPatched(lib, node, start, Some(raw), t, was)
            == Some((Overrides.Override(was, idx, vals, Num(m, 2)), start + if Has(m, 5) then 3 else 2))
  {
    hide Parse, Num, Has, ChildReading, WordsReading, Overrides.Override, Overrides.Placed, Ascending, WordRows,
      UnsignedType;
    AscendingPlaced(idx, Num(m, 2), |was|);
    RowsBack(seq(|vals|, _ => true), vals);
    assert PatchCells(lib, node, start, m, t)
        == Some((idx, WordRows(seq(|vals|, _ => true), vals), start + if Has(m, 5) then 3 else 2));
  }
}
