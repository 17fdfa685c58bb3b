/** Written trees of several encodings read back as what was written: plain numbers with
    nulls, delta, frames of reference, zigzag and run ends over any encoding of their
    children, and a frame of reference over bit-packed values. */
module StoredNodes {
  import opened Wrappers
  import opened Words
  import opened Types
  import opened Proto
  import opened Arrays
  import opened Readings
  import opened NodeRoundTrips
  import BitPackRoundTrip
  import BitStrings
  import FastLanes
  import LaneDelta
  import NumberColumns
  import PcoDelta
  import PcoStream
  import RowCopies
  import Sequences

  /** No null in a type that forbids it. */
  predicate Allows(t: Type, mask: seq<bool>) { t.nullable || forall i: nat | i < |mask| :: mask[i] }

  lemma {:induction false} AllowedRows(t: Type, mask: seq<bool>, words: seq<nat>)
    requires |words| == |mask| && Allows(t, mask)
    ensures t.nullable || AllValid(WordRows(mask, words))
  {
  }

  lemma {:induction false} AllowedReading(lib: Libraries, node: Node, m: seq<Field>, t: Type, n: nat, mask: seq<bool>,
                                          words: seq<nat>)
    requires Parse(node.metadata, 0) == Some(m) && n <= MAX_ROWS && |words| == |mask| && Allows(t, mask)
    requires Encoded(lib, node, m, t, n) == Some(WordRows(mask, words))
    ensures Reading(lib, node, t, n) == Some(WordRows(mask, words))
  {
    hide Parse, Encoded, Reading;
    AllowedRows(t, mask, words);
    ReadingIs(lib, node, m, t, n);
  }

  // --------------------------------------------------------------- bits and numbers

  /** Flags as the bits of a buffer, least significant bit first. */
  function BitsNode(mask: seq<bool>): Node {
    Node(Boolean, [], [], [BitStrings.Pack(mask + seq(7 - (|mask| + 7) % 8, _ => false))])
  }

  lemma {:induction false} PackedBit(bits: BitStrings.Bits, i: nat)
    requires |bits| % 8 == 0 && i < |bits|
    ensures BufferBit(BitStrings.Pack(bits), i) == if bits[i] then 1 else 0
  {
    hide BitStrings.Pack, BitStrings.BitsOf, BitStrings.Bit;
    var b, k := BitStrings.Pack(bits), i / 8;
    BitStrings.BitsOfPack(bits);
    BitStrings.BitsOfByte(b, k);
    assert bits[8 * k..8 * k + 8][i % 8] == bits[i];
    assert BitStrings.FromNat(b[k], 8)[i % 8] == BitStrings.Bit(b[k], i % 8);
  }

  function BitWords(mask: seq<bool>): (words: seq<nat>)
    ensures |words| == |mask|
  {
    seq<nat>(|mask|, i requires 0 <= i < |mask| => if mask[i] then 1 else 0)
  }

  lemma {:induction false} BitsNodeReads(lib: Libraries, mask: seq<bool>)
    requires |mask| <= MAX_ROWS
    ensures Reading(lib, BitsNode(mask), BOOL, |mask|)
            == Some(WordRows(seq(|mask|, _ => true), BitWords(mask)))
  {
    hide BitStrings.Pack, Encoded, Reading, WordRows, BufferBit;
    var node, n := BitsNode(mask), |mask|;
    var words := BitWords(mask);
    forall i: nat | i < n ensures BufferBits(node.buffers[0], 0, n)[i] == words[i] {
      PackedBit(mask + seq(7 - (n + 7) % 8, _ => false), i);
    }
    assert BufferBits(node.buffers[0], 0, n) == words;
    assert Parse([], 0) == Some([]) && Num([], 1) == 0;
    EncodedIs(lib, node, [], BOOL, n);
    AllowedReading(lib, node, [], BOOL, n, seq(n, _ => true), words);
  }

  /** A child of flags gives the validity. */
  lemma {:induction false} MaskIs(lib: Libraries, node: Node, index: nat, mask: seq<bool>)
    requires |node.children| == index + 1 && node.children[index] == BitsNode(mask) && |mask| <= MAX_ROWS
    ensures MaskReading(lib, node, index, |mask|) == Some(mask)
  {
    hide BitsNode, Reading;
    BitsNodeReads(lib, mask);
    var n := |mask|;
    assert ChildReading(lib, node, index, BOOL, n) == Reading(lib, BitsNode(mask), BOOL, n);
    assert WordsReading(lib, node, index, BOOL, n).Some?;
    assert BitsReading(lib, node, index, n).value == mask;
  }

  /** Little-endian words and flags of their validity. */
  function NumbersNode(words: seq<nat>, mask: seq<bool>, size: nat): Node {
    Node(Primitive, [], [BitsNode(mask)], [PcoStream.WordBytes(words, size)])
  }

  lemma {:induction false} WordBytesLast(words: seq<nat>, size: nat)
    requires words != []
    ensures PcoStream.WordBytes(words, size)
            == PcoStream.WordBytes(words[..|words| - 1], size) + BitStrings.WriteLittleEndian(words[|words| - 1], size)
  {
    hide BitStrings.WriteLittleEndian;
  }

  lemma {:induction false} WordWritten(words: seq<nat>, size: nat, i: nat)
    requires i < |words| && PcoDelta.AllBelow(words, Pow2(8 * size))
    ensures BufferWord(PcoStream.WordBytes(words, size), size, i) == words[i]
  {
    hide Pow2, BitStrings.WriteLittleEndian, BitStrings.LittleEndian, PcoStream.WordBytes;
    WordBytesLast(words, size);
    var last := |words| - 1;
    var before, x := PcoStream.WordBytes(words[..last], size), BitStrings.WriteLittleEndian(words[last], size);
    Distribute(last, 1, size);
    var at := i * size;
    if i == last {
      assert (before + x)[at..] == x + [];
      BitStrings.LittleEndianWritten(words[last], size, []);
    } else {
      WordWritten(words[..last], size, i);
      Distribute(i, 1, size);
      MulMono(i + 1, last, size);
      assert (before + x)[at..] == before[at..] + x;
      LittleEndianExtends(before[at..], size, x);
    }
  }

  lemma {:induction false} NumbersNodeReads(lib: Libraries, words: seq<nat>, mask: seq<bool>, t: Type)
    requires t.Width() > 0 && t.kind != KBool && |mask| == |words| <= MAX_ROWS && Allows(t, mask)
    requires PcoDelta.AllBelow(words, Pow2(8 * t.Width()))
    ensures Reading(lib, NumbersNode(words, mask, t.Width()), t, |words|) == Some(WordRows(mask, words))
  {
    hide PcoStream.WordBytes, BitsNode, Encoded, Reading, WordRows, MaskReading, Pow2, BufferWord;
    var node, n := NumbersNode(words, mask, t.Width()), |words|;
    forall i: nat | i < n ensures BufferWords(node.buffers[0], t.Width(), n)[i] == words[i] {
      WordWritten(words, t.Width(), i);
    }
    assert BufferWords(node.buffers[0], t.Width(), n) == words;
    assert Parse([], 0) == Some([]);
    MaskIs(lib, node, 0, mask);
    EncodedIs(lib, node, [], t, n);
    AllowedReading(lib, node, [], t, n, mask, words);
  }

  // -------------------------------------------------------------------------- delta

  /** Words of a type, their validity, and a base for every lane and for the tail. */
  predicate Differenced(t: Type, bases: seq<nat>, x: seq<nat>, mask: seq<bool>)
    requires t.IsInteger()
  {
    && |mask| == |x| && PcoDelta.AllBelow(x, Pow2(8 * t.Width()))
    && LaneDelta.Encoded(8 * t.Width(), bases, x, None).Valid()
  }

  lemma {:induction false} BasesCounted(bits: nat, bases: seq<nat>, x: seq<nat>)
    requires LaneDelta.Encoded(bits, bases, x, None).Valid()
    ensures |bases| == BasesOf(bits, |x|)
  {
    hide FastLanes.Lanes;
  }

  /** Their differences with the scattered validity. */
  function DifferenceRows(t: Type, bases: seq<nat>, x: seq<nat>, mask: seq<bool>): (rows: seq<Cell>)
    requires t.IsInteger() && Differenced(t, bases, x, mask)
    ensures |rows| == |x|
  {
    WordRows(LaneDelta.Scatter(mask), LaneDelta.Differences(8 * t.Width(), bases, x))
  }

  /** Delta, end to end: over any nodes that read as the bases and as the differences with
      the scattered validity, every slice of a delta node reads as the words and their
      validity. */
  lemma {:induction false} DeltaNodeReads(lib: Libraries, node: Node, m: seq<Field>, t: Type, bases: seq<nat>,
                                          x: seq<nat>, mask: seq<bool>, off: nat, n: nat)
    requires t.IsInteger() && node.encoding == Delta && |node.children| == 2
    requires Parse(node.metadata, 0) == Some(m) && Num(m, 1) == |x| && Num(m, 2) == off
    requires Differenced(t, bases, x, mask) && Allows(t, mask)
    requires off < 1024 && off + n <= |x| && n <= MAX_ROWS
    requires WordsReading(lib, node, 0, t, |bases|) == Some(bases)
    requires ChildReading(lib, node, 1, t, |x|) == Some(DifferenceRows(t, bases, x, mask))
    ensures Reading(lib, node, t, n) == Some(WordRows(mask[off..off + n], x[off..off + n]))
  {
    hide Parse, Num, Encoded, Reading, ChildReading, WordsReading, Pow2, BasesOf, LaneDelta.Scatter,
      LaneDelta.Differences, LaneDelta.Encoded.Valid, LaneDelta.Encoded.Value, LaneDelta.Encoded.IsValid, WordRows;
    BasesCounted(8 * t.Width(), bases, x);
    var deltas, flags := LaneDelta.Differences(8 * t.Width(), bases, x), LaneDelta.Scatter(mask);
    RowsBack(flags, deltas);
    DeltaRestored(8 * t.Width(), bases, x, mask, off, n);
    EncodedIs(lib, node, m, t, n);
    AllowedSlice(t, mask, off, n);
    AllowedReading(lib, node, m, t, n, mask[off..off + n], x[off..off + n]);
  }

  lemma {:induction false} AllowedSlice(t: Type, mask: seq<bool>, off: nat, n: nat)
    requires off + n <= |mask| && Allows(t, mask)
    ensures Allows(t, mask[off..off + n])
  {
  }

  lemma {:induction false} RowsBack(mask: seq<bool>, words: seq<nat>)
    requires |words| == |mask|
    ensures WordsOf(WordRows(mask, words)) == words && ValidsOf(WordRows(mask, words)) == mask
  {
  }

  lemma {:induction false} DeltaRestored(bits: nat, bases: seq<nat>, x: seq<nat>, mask: seq<bool>, off: nat, n: nat)
    requires LaneDelta.Encoded(bits, bases, x, None).Valid() && PcoDelta.AllBelow(x, Pow2(bits))
    requires |mask| == |x| && off + n <= |x|
    ensures var deltas := LaneDelta.Differences(bits, bases, x);
            var e := LaneDelta.Encoded(bits, bases, deltas, Some(LaneDelta.Scatter(mask)));
            e.Valid() && e.Values(off, n) == x[off..off + n] && e.Validity(off, n) == Some(mask[off..off + n])
  {
    hide Pow2, LaneDelta.Scatter, LaneDelta.Differences, LaneDelta.Encoded.Valid, LaneDelta.Encoded.Value,
      LaneDelta.Encoded.IsValid;
    var e := LaneDelta.Encoded(bits, bases, LaneDelta.Differences(bits, bases, x), Some(LaneDelta.Scatter(mask)));
    assert e.Valid() by { ScatterValid(bits, bases, x, mask); }
    forall i: nat | i < n
      ensures e.Values(off, n)[i] == x[off..off + n][i]
      ensures e.Validity(off, n).value[i] == mask[off..off + n][i]
    {
      LaneDelta.RoundTrip(bits, bases, x, Some(mask), off + i);
    }
    assert e.Validity(off, n).value == mask[off..off + n];
  }

  lemma {:induction false} ScatterValid(bits: nat, bases: seq<nat>, x: seq<nat>, mask: seq<bool>)
    requires LaneDelta.Encoded(bits, bases, x, None).Valid() && |mask| == |x|
    ensures LaneDelta.Encoded(bits, bases, LaneDelta.Differences(bits, bases, x), Some(LaneDelta.Scatter(mask))).Valid()
  {
    hide LaneDelta.Scatter, LaneDelta.Differences;
  }

  // ------------------------------------------------------ references, zigzag, run ends

  lemma {:induction false} MappedBack(mask: seq<bool>, words: seq<nat>, f: nat -> nat, x: seq<nat>)
    requires |mask| == |words| == |x| && forall i: nat | i < |x| :: f(words[i]) == x[i]
    ensures Mapped(WordRows(mask, words), f) == WordRows(mask, x)
  {
    forall i: nat | i < |x| ensures Mapped(WordRows(mask, words), f)[i] == WordRows(mask, x)[i] {
      var c := WordRows(mask, words)[i];
      assert c == Cell(mask[i], Word(words[i]));
      assert WordOfCell(c) == words[i] && f(words[i]) == x[i];
      assert Mapped(WordRows(mask, words), f)[i] == Cell(c.valid, Word(f(WordOfCell(c))));
    }
  }

  /** Frame of reference, end to end: over any node that reads as the differences from a
      base, the node reads as the words. */
  lemma {:induction false} ReferenceNodeReads(lib: Libraries, node: Node, m: seq<Field>, t: Type, base: nat,
                                              x: seq<nat>, mask: seq<bool>)
    requires t.IsInteger() && node.encoding == FrameOfReference && |node.children| == 1
    requires Parse(node.metadata, 0) == Some(m) && Reference(node.metadata, t) == Some(base)
    requires |mask| == |x| <= MAX_ROWS && Allows(t, mask) && PcoDelta.AllBelow(x, Pow2(8 * t.Width()))
    requires Reading(lib, node.children[0], t, |x|)
             == Some(WordRows(mask, seq<nat>(|x|, i requires 0 <= i < |x| => Sub(x[i], base, 8 * t.Width()))))
    ensures Reading(lib, node, t, |x|) == Some(WordRows(mask, x))
  {
    hide Parse, Reference, Encoded, Reading, Pow2, Low, Sub;
    var bits, n := 8 * t.Width(), |x|;
    assert ChildReading(lib, node, 0, t, n) == Reading(lib, node.children[0], t, n);
    var below := seq<nat>(n, i requires 0 <= i < n => Sub(x[i], base, bits));
    var f := (d: nat) => Low(d + base, bits);
    forall i: nat | i < n ensures f(below[i]) == x[i] {
      NumberColumns.ReferenceRoundTrip(x[i], base, bits);
    }
    MappedBack(mask, below, f, x);
    EncodedIs(lib, node, m, t, n);
    AllowedReading(lib, node, m, t, n, mask, x);
  }

  /** Zigzag, end to end: over any node that reads as the zigzag words of some integers,
      the node reads as the words of the integers. */
  lemma {:induction false} ZigZagNodeReads(lib: Libraries, node: Node, m: seq<Field>, t: Type, zs: seq<int>,
                                           mask: seq<bool>)
    requires t.IsSigned() && node.encoding == ZigZag && |node.children| == 1 && Parse(node.metadata, 0) == Some(m)
    requires |mask| == |zs| <= MAX_ROWS && Allows(t, mask)
    requires Reading(lib, node.children[0], Unsigned(t), |zs|)
             == Some(WordRows(mask, seq<nat>(|zs|, i requires 0 <= i < |zs| => Sequences.WriteZigZag(zs[i]))))
    ensures Reading(lib, node, t, |zs|)
            == Some(WordRows(mask, seq<nat>(|zs|, i requires 0 <= i < |zs| => Sequences.WordOf(zs[i], 8 * t.Width()))))
  {
    hide Parse, Encoded, Reading, Pow2, Sequences.WordOf, Sequences.WriteZigZag, Sequences.ZigZag;
    var n := |zs|;
    var x := seq<nat>(n, i requires 0 <= i < n => Sequences.WordOf(zs[i], 8 * t.Width()));
    assert ChildReading(lib, node, 0, Unsigned(t), n) == Reading(lib, node.children[0], Unsigned(t), n);
    var written := seq<nat>(n, i requires 0 <= i < n => Sequences.WriteZigZag(zs[i]));
    var f := (u: nat) => Sequences.WordOf(Sequences.ZigZag(u), 8 * t.Width());
    forall i: nat | i < n ensures f(written[i]) == x[i] {
      assert Sequences.ZigZag(written[i]) == zs[i];
    }
    MappedBack(mask, written, f, x);
    EncodedIs(lib, node, m, t, n);
    AllowedReading(lib, node, m, t, n, mask, x);
  }

  /** Runs of equal rows: run `k` reaches from the end of the run before it to its own. */
  predicate RunsOf(ends: seq<nat>, vals: seq<Cell>, x: seq<Cell>) {
    && |vals| == |ends| && (|x| > 0 ==> ends != [] && |x| <= ends[|ends| - 1])
    && (forall k: nat | k < |ends| :: (if k == 0 then 0 else ends[k - 1]) < ends[k])
    && (forall i: nat, k: nat | i < |x| && k < |ends| && InRun(ends, i, k) :: x[i] == vals[k])
  }

  predicate InRun(ends: seq<nat>, i: nat, k: nat)
    requires k < |ends|
  {
    (if k == 0 then 0 else ends[k - 1]) <= i < ends[k]
  }

  lemma {:induction false} EndsApart(ends: seq<nat>, j: nat, k: nat)
    requires j < k < |ends| && forall k: nat | k < |ends| :: (if k == 0 then 0 else ends[k - 1]) < ends[k]
    ensures ends[j] < ends[k]
  {
    if j < k - 1 { EndsApart(ends, j, k - 1); }
  }

  /** Run ends, end to end: over any nodes that read as the ends and as the values of the
      runs of `x`, every slice of a run-end node reads as the rows. */
  lemma {:induction false} RunEndNodeReads(lib: Libraries, node: Node, m: seq<Field>, t: Type, ends: seq<nat>,
                                           vals: seq<Cell>, x: seq<Cell>, off: nat, n: nat)
    requires node.encoding == RunEnd && |node.children| == 2 && Parse(node.metadata, 0) == Some(m)
    requires Num(m, 2) == |ends| && Num(m, 3) == off && IntegerType(Num(m, 1), false).Some?
    requires RunsOf(ends, vals, x) && off + n <= |x| < Pow2(64) && n <= MAX_ROWS
    requires t.nullable || AllValid(x)
    requires WordsReading(lib, node, 0, IntegerType(Num(m, 1), false).value, |ends|) == Some(ends)
    requires ChildReading(lib, node, 1, t, |ends|) == Some(vals)
    ensures Reading(lib, node, t, n) == Some(x[off..off + n])
  {
    hide Parse, Num, Encoded, Reading, ChildReading, WordsReading, Pow2, RunsOf, RowCopies.RunsCover,
      RowCopies.RunRows, AllValid;
    EncodedIs(lib, node, m, t, n);
    RunsBack(ends, vals, x, off, n);
    assert RunEndReading(lib, node, m, t, n) == Some(x[off..off + n]);
    ValidSlice(x, off, n);
    ReadingIs(lib, node, m, t, n);
  }

  lemma {:induction false} RunsBack(ends: seq<nat>, vals: seq<Cell>, x: seq<Cell>, off: nat, n: nat)
    requires RunsOf(ends, vals, x) && off + n <= |x|
    ensures |vals| == |ends| && RowCopies.RunsCover(ends, off, n)
    ensures RowCopies.RunRows(ends, vals, off, n) == x[off..off + n]
  {
    hide RowCopies.RunAt;
    forall j, k | 0 <= j < k < |ends| ensures ends[j] < ends[k] { EndsApart(ends, j, k); }
    forall k | 0 <= k < |ends| ensures ends[k] > 0 {
      var run: nat := k;
      assert (if run == 0 then 0 else ends[run - 1]) < ends[run];
    }
    var rows := RowCopies.RunRows(ends, vals, off, n);
    forall i: nat | i < n ensures rows[i] == x[off + i] {
      var k := RowCopies.RunAt(ends, off + i);
      assert RowCopies.IsRun(ends, off + i, k);
      assert InRun(ends, off + i, k);
    }
  }

  lemma {:induction false} ValidSlice(x: seq<Cell>, off: nat, n: nat)
    requires off + n <= |x|
    ensures AllValid(x) ==> AllValid(x[off..off + n])
  {
  }

  // ------------------------------------------------------------------- whole trees

  /** They fit into arrays of plain words. */
  predicate Storable(t: Type, bases: seq<nat>, x: seq<nat>, mask: seq<bool>)
    requires t.IsInteger()
  {
    && Differenced(t, bases, x, mask) && Allows(t, mask) && |x| <= MAX_ROWS
    && PcoDelta.AllBelow(bases, Pow2(8 * t.Width())) && |bases| <= MAX_ROWS
  }

  /** A delta array as a writer stores it: bases and differences in plain words. */
  function DeltaTree(t: Type, bases: seq<nat>, x: seq<nat>, mask: seq<bool>, off: nat): Node
    requires t.IsInteger() && Storable(t, bases, x, mask) && off < 1024
  {
    TwoNumbersRead(|x|, off);
    Node(Delta, Serialize(TwoNumbers(|x|, off)),
         [NumbersNode(bases, seq(|bases|, _ => true), t.Width()),
          NumbersNode(LaneDelta.Differences(8 * t.Width(), bases, x), LaneDelta.Scatter(mask), t.Width())], [])
  }

  /** Delta with its children, end to end: whatever words, nulls and bases it holds, every
      slice of the written tree reads as the words and their validity. */
  lemma {:induction false} DeltaTreeReads(lib: Libraries, t: Type, bases: seq<nat>, x: seq<nat>, mask: seq<bool>,
                                          off: nat, n: nat)
    requires t.IsInteger() && Storable(t, bases, x, mask) && off < 1024 && off + n <= |x|
    ensures Reading(lib, DeltaTree(t, bases, x, mask, off), t, n)
            == Some(WordRows(mask[off..off + n], x[off..off + n]))
  {
    hide Parse, Serialize, Num, DifferenceRows, NumbersNode, Reading, Pow2, WordRows, LaneDelta.Scatter,
      LaneDelta.Differences, LaneDelta.Encoded.Valid, BasesOf;
    var node, m := DeltaTree(t, bases, x, mask, off), TwoNumbers(|x|, off);
    var trues := seq(|bases|, _ => true);
    TwoNumbersRead(|x|, off);
    NumbersNodeReads(lib, bases, trues, t);
    RowsBack(trues, bases);
    assert ChildReading(lib, node, 0, t, |bases|) == Reading(lib, node.children[0], t, |bases|);
    DifferencesStorable(t, bases, x, mask);
    NumbersNodeReads(lib, LaneDelta.Differences(8 * t.Width(), bases, x), LaneDelta.Scatter(mask), t);
    DeltaNodeReads(lib, node, m, t, bases, x, mask, off, n);
  }

  lemma {:induction false} DifferencesStorable(t: Type, bases: seq<nat>, x: seq<nat>, mask: seq<bool>)
    requires t.IsInteger() && Differenced(t, bases, x, mask) && Allows(t, mask)
    ensures DifferenceRows(t, bases, x, mask)
            == WordRows(LaneDelta.Scatter(mask), LaneDelta.Differences(8 * t.Width(), bases, x))
    ensures PcoDelta.AllBelow(LaneDelta.Differences(8 * t.Width(), bases, x), Pow2(8 * t.Width()))
    ensures Allows(t, LaneDelta.Scatter(mask))
  {
    hide Pow2, LaneDelta.Encoded.Valid, LaneDelta.Above, FastLanes.RowOf, FastLanes.LaneOf, FastLanes.Transpose,
      FastLanes.Untranspose, Sub;
  }

  /** A frame of reference over bit-packed differences, the usual form of an integer
      column. */
  function PackedTree(z: int, t: Type, a: BitPackRoundTrip.Plain, off: nat): Node
    requires t.IsInteger() && Sequences.InRange(z, 64, t.IsSigned()) && a.Valid() && off < 1024
  {
    Node(FrameOfReference, Serialize([Sequences.WriteScalar(z, t.IsSigned())]), [BitPackedNode(a, off)], [])
  }

  /** End to end: if the packed values are the differences of some words from the base, the
      tree reads as the words. */
  lemma {:induction false} PackedTreeReads(lib: Libraries, z: int, t: Type, a: BitPackRoundTrip.Plain, off: nat,
                                           x: seq<nat>)
    requires t.IsInteger() && Sequences.InRange(z, 8 * t.Width(), t.IsSigned())
    requires a.Valid() && a.bits == 8 * t.Width() && off < 1024 && |x| <= MAX_ROWS
    requires (off + |x| + 1023) / 1024 == |a.x| / 1024 && off + |x| <= |a.x|
    requires PcoDelta.AllBelow(x, Pow2(8 * t.Width()))
    requires forall i: nat | i < |x| :: a.x[off + i] == Sub(x[i], Sequences.WordOf(z, 8 * t.Width()), 8 * t.Width())
    ensures Sequences.InRange(z, 64, t.IsSigned())
    ensures Reading(lib, PackedTree(z, t, a, off), t, |x|) == Some(WordRows(seq(|x|, _ => true), x))
  {
    hide Parse, Serialize, Reading, Pow2, WordRows, BitPackedNode, Sub, Sequences.WriteScalar, Sequences.InRange,
      Sequences.WordOf, Sequences.IntegerScalar;
    Sequences.NarrowInWide(z, t);
    var node, base := PackedTree(z, t, a, off), Sequences.WordOf(z, 8 * t.Width());
    var f := Sequences.WriteScalar(z, t.IsSigned());
    Sequences.ScalarRead(f);
    ReferenceWritten(z, t);
    BitPackedNodeReads(lib, a, off, |x|, t);
    assert a.x[off..off + |x|] == seq<nat>(|x|, i requires 0 <= i < |x| => Sub(x[i], base, 8 * t.Width()));
    ReferenceNodeReads(lib, node, [f], t, base, x, seq(|x|, _ => true));
  }

  lemma {:induction false} ReferenceWritten(z: int, t: Type)
    requires t.IsInteger() && Sequences.InRange(z, 8 * t.Width(), t.IsSigned())
    requires Sequences.InRange(z, 64, t.IsSigned())
    ensures Reference(Serialize([Sequences.WriteScalar(z, t.IsSigned())]), t)
            == Some(Sequences.WordOf(z, 8 * t.Width()))
  {
    hide Parse, Serialize, Pow2, Sequences.WriteScalar, Sequences.InRange, Sequences.WordOf, Sequences.IntegerScalar,
      Sequences.Denote;
    var f := Sequences.WriteScalar(z, t.IsSigned());
    Sequences.ScalarRead(f);
    Sequences.BaseRead(z, t);
    Sequences.DenoteInRange(Sequences.IntegerScalar([f], t).value, 8 * t.Width(), t.IsSigned());
  }
}
