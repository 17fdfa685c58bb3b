/** Where the rows of a FastLanes chunk are stored, digit by digit: every bit of a packed
    value, and the differences that make up a delta value. */
module ChunkLayouts {
  import opened Wrappers
  import opened Words
  import opened BitStrings
  import opened FastLanes
  import BitPacking
  import LaneDelta

  // ------------------------------------------------------------------- bit-packing

  lemma {:induction false} BitOfNumber(bits: Bits, j: nat)
    requires j < |bits|
    ensures Bit(ToNat(bits), j) == bits[j]
  {
    hide Bit, ToNat;
    FromNatToNat(bits);
    assert FromNat(ToNat(bits), |bits|)[j] == Bit(ToNat(bits), j);
  }

  /** A bit of a little-endian word is a bit of one of its bytes. */
  lemma {:induction false} BitOfWord(b: seq<byte>, w: nat, j: nat)
    requires w <= |b| && j < 8 * w
    ensures Bit(LittleEndian(b, w), j) == Bit(b[j / 8], j % 8)
  {
    hide Bit, ToNat, BitsOf;
    BitOfNumber(BitsOf(b[..w]), j);
    BitsOfByte(b[..w], j / 8);
    assert BitsOf(b[..w])[8 * (j / 8)..8 * (j / 8) + 8][j % 8] == BitsOf(b[..w])[j];
    assert FromNat(b[..w][j / 8], 8)[j % 8] == Bit(b[j / 8], j % 8);
  }

  lemma {:induction false} BitInSlice(stream: Bits, from: nat, n: nat, shift: nat, x: nat)
    requires from + n <= |stream| && shift < n && stream[from..from + n] == FromNat(x, n)
    ensures stream[from + shift] == Bit(x, shift)
  {
    hide Bit;
    assert stream[from..from + n][shift] == stream[from + shift];
  }

  /** Bit `k` of a lane's stream is bit `k % bits` of the lane's word number `k / bits`. */
  lemma {:induction false} BitOfStream(p: BitPacking.Packed, chunk: nat, lane: nat, k: nat)
    requires p.HasChunk(chunk) && lane < Lanes(p.bits) && k < p.bw * p.bits
    ensures k / p.bits < p.bw
    ensures p.Stream(chunk, lane, p.bw)[k] == Bit(p.WordAt(chunk, k / p.bits, lane), k % p.bits)
  {
    hide Bit, Lanes, FromNat, BitPacking.Packed.HasChunk, BitPacking.Packed.WordAt, BitPacking.Packed.Stream;
    BitPacking.WidthFacts(p, chunk);
    WordOfBit(k, p.bw, p.bits);
    BitInWord(p, chunk, lane, k / p.bits, k / p.bits * p.bits, k % p.bits);
  }

  lemma {:induction false} WordOfBit(k: nat, bw: nat, bits: nat)
    requires bits > 0 && k < bw * bits
    ensures k / bits < bw && k == k / bits * bits + k % bits
  {
    DivMod(k, bits);
    if bw <= k / bits { MulMono(bw, k / bits, bits); }
  }

  lemma {:induction false} BitInWord(p: BitPacking.Packed, chunk: nat, lane: nat, word: nat, from: nat, shift: nat)
    requires p.HasChunk(chunk) && lane < Lanes(p.bits) && word < p.bw && from == word * p.bits && shift < p.bits
    ensures from + shift < |p.Stream(chunk, lane, p.bw)|
    ensures p.Stream(chunk, lane, p.bw)[from + shift] == Bit(p.WordAt(chunk, word, lane), shift)
  {
    hide Bit, Lanes, FromNat, BitPacking.Packed.HasChunk, BitPacking.Packed.WordAt, BitPacking.Packed.Stream;
    BitPacking.StreamWordAt(p, chunk, lane, word, from);
    BitInSlice(p.Stream(chunk, lane, p.bw), from, p.bits, shift, p.WordAt(chunk, word, lane));
  }

  /** The byte of a chunk that holds bit `k` of a lane's stream: the lanes take turns, one
      word each. */
  function StreamByte(bits: nat, lane: nat, k: nat): nat
    requires IsWidth(bits)
  {
    (k / bits * (1024 / bits) + lane) * (bits / 8) + k % bits / 8
  }

  lemma {:induction false} ByteOfStream(p: BitPacking.Packed, chunk: nat, lane: nat, k: nat)
    requires p.HasChunk(chunk) && lane < Lanes(p.bits) && k < p.bw * p.bits
    ensures var at := p.Base(chunk) + StreamByte(p.bits, lane, k);
            at < |p.data| && p.Stream(chunk, lane, p.bw)[k] == Bit(p.data[at], k % p.bits % 8)
  {
    hide Bit, LittleEndian, BitPacking.Packed.HasChunk, BitPacking.Packed.Base, BitPacking.Packed.Stream;
    BitPacking.WidthFacts(p, chunk);
    WholeBytes(p.bits);
    BitOfStream(p, chunk, lane, k);
    p.WordInChunk(chunk, k / p.bits, lane);
    var at := p.Base(chunk) + BitPacking.WordOffset(p.bits, k / p.bits, lane);
    BitOfWord(p.data[at..], p.bits / 8, k % p.bits);
  }

  /** Bit `j` of a value is bit `row * bw + j` of its lane's stream. */
  function BitInLane(bits: nat, bw: nat, s: nat, a: nat, b: nat, c: nat, j: nat): (k: nat)
    requires IsWidth(bits) && Digits(s, a, b, c, 0)
  {
    RowDigits(bits, s, a, b, c) * bw + j
  }

  /** Every bit of every unpacked value, for every width and bit width: the row's digits
      give its lane and its place in the lane, and from there the byte of the buffer. */
  lemma {:induction false} BitOfValue(p: BitPacking.Packed, chunk: nat, s: nat, a: nat, b: nat, c: nat, m: nat, j: nat)
    requires p.HasChunk(chunk) && Digits(s, a, b, c, m) && j < p.bw
    ensures var k := BitInLane(p.bits, p.bw, s, a, b, c, j);
            var at := p.Base(chunk) + StreamByte(p.bits, LaneDigits(p.bits, a, b, c, m), k);
            at < |p.data| && (Bit(p.Value(chunk, Position(s, a, b, c, m)), j) <==> Bit(p.data[at], k % p.bits % 8))
  {
    hide Bit, Lanes, RowOf, LaneOf, StreamByte, Position, BitPacking.Packed.Stream, BitPacking.Packed.HasChunk,
      BitPacking.Packed.Base, BitPacking.Packed.Field, RowDigits, LaneDigits;
    BitPacking.WidthFacts(p, chunk);
    var lane, row := LaneDigits(p.bits, a, b, c, m), RowDigits(p.bits, s, a, b, c);
    PositionInDigits(p.bits, s, a, b, c, m);
    BitPacking.FieldInStream(p.bits, p.bw, row);
    BitOfField(p, chunk, lane, row * p.bw, j);
    ByteOfStream(p, chunk, lane, row * p.bw + j);
  }

  lemma {:induction false} BitOfField(p: BitPacking.Packed, chunk: nat, lane: nat, start: nat, j: nat)
    requires p.HasChunk(chunk) && lane < Lanes(p.bits) && start + p.bw <= p.bw * p.bits && j < p.bw
    ensures Bit(p.Field(chunk, lane, start), j) == p.Stream(chunk, lane, p.bw)[start + j]
  {
    hide Bit, ToNat, Lanes, BitPacking.Packed.Stream, BitPacking.Packed.HasChunk;
    BitOfNumber(p.Stream(chunk, lane, p.bw)[start..start + p.bw], j);
  }

  /** Row `off + i` is the value at the row's position in its chunk. */
  lemma {:induction false} RowOfBuffer(p: BitPacking.Packed, off: nat, n: nat, i: nat, chunk: nat, position: nat)
    requires p.Accepts(off, n) && i < n && off + i == 1024 * chunk + position && position < 1024
    ensures p.HasChunk(chunk) && BitPacking.Values(p, off, n)[i] == p.Value(chunk, position) < Pow2(p.bw)
  {
    hide BitPacking.Packed.HasChunk, BitPacking.Packed.Value, BitPacking.Packed.Accepts, Pow2;
    BitPacking.ChunkAvailable(p, off, n, i);
    DivModUnique(off + i, 1024, chunk, position);
    p.ValueBelow(chunk, position);
  }

  // -------------------------------------------------------------------------- delta

  /** A number by the digits of its place in a run. */
  function InRun(s: nat, a: nat, b: nat, c: nat, m: nat): nat { 64 * m + 32 * c + 16 * b + 8 * a + s }

  /** Lanes are runs of consecutive rows: the rows of a chunk come in runs of `bits`, each
      run is a lane, and the rows of the lane are those of the run in order. */
  lemma {:induction false} RunsAreLanes(bits: nat, s: nat, a: nat, b: nat, c: nat, m: nat)
    requires IsWidth(bits) && Digits(s, a, b, c, m)
    ensures var t := InRun(s, a, b, c, m);
            && t < 1024 && Untranspose(t) == Position(s, a, b, c, m) && RowOf(bits, Untranspose(t)) == t % bits
            && LaneOf(bits, Untranspose(t)) == LaneDigits(bits, a, b, c, m)
  {
    hide RowOf, LaneOf, Transpose, Untranspose;
    TransposeInDigits(s, a, b, c, m);
    TransposeInverse(Position(s, a, b, c, m));
    PositionInDigits(bits, s, a, b, c, m);
    RowInRun(bits, s, a, b, c, m);
  }

  lemma {:induction false} RowInRun(bits: nat, s: nat, a: nat, b: nat, c: nat, m: nat)
    requires IsWidth(bits) && Digits(s, a, b, c, m)
    ensures RowDigits(bits, s, a, b, c) == InRun(s, a, b, c, m) % bits
  {
    var q := if bits == 64 then m else if bits == 32 then 2 * m + c else if bits == 16 then 4 * m + 2 * c + b
             else 8 * m + 4 * c + 2 * b + a;
    assert InRun(s, a, b, c, m) == bits * q + RowDigits(bits, s, a, b, c);
    MulComm(bits, q);
    DivModUnique(InRun(s, a, b, c, m), bits, q, RowDigits(bits, s, a, b, c));
  }

  /** The row before, inside the same run, is the row before in the same lane. */
  lemma {:induction false} RowBefore(bits: nat, s: nat, a: nat, b: nat, c: nat, m: nat)
    requires IsWidth(bits) && Digits(s, a, b, c, m)
    ensures var t := InRun(s, a, b, c, m);
            t % bits != 0 ==> && t > 0 && RowOf(bits, Untranspose(t - 1)) == t % bits - 1
                              && LaneOf(bits, Untranspose(t - 1)) == LaneDigits(bits, a, b, c, m)
  {
    hide RowOf, LaneOf, Transpose, Untranspose;
    RowInRun(bits, s, a, b, c, m);
    if s > 0 {
      RunsAreLanes(bits, s - 1, a, b, c, m);
      RowInRun(bits, s - 1, a, b, c, m);
    } else if a > 0 {
      RunsAreLanes(bits, 7, 0, b, c, m);
      RowInRun(bits, 7, 0, b, c, m);
    } else if b > 0 {
      RunsAreLanes(bits, 7, 1, 0, c, m);
      RowInRun(bits, 7, 1, 0, c, m);
    } else if c > 0 {
      RunsAreLanes(bits, 7, 1, 1, 0, m);
      RowInRun(bits, 7, 1, 1, 0, m);
    }
  }

  /** What a row's difference is added to: the base of the run's lane for the first row of
      a run, the row before for every other. */
  function Previous(e: LaneDelta.Encoded, chunk: nat, t: nat, lane: nat): nat
    requires e.Valid() && chunk < e.Chunks() && t < 1024 && lane < Lanes(e.bits)
  {
    if t % e.bits == 0 then e.Base(chunk, lane) else e.Block(chunk, t - 1)
  }

  /** The difference stored at a position of a chunk. */
  function DifferenceAt(e: LaneDelta.Encoded, chunk: nat, position: nat): nat
    requires e.Valid() && chunk < e.Chunks() && position < 1024
  {
    e.deltas[chunk * 1024 + position]
  }

  /** Delta in the order of the rows: every row adds its difference to the previous value,
      and the difference stands at the position with the digits of the row, in reverse. */
  lemma {:induction false} RowAddsDifference(e: LaneDelta.Encoded, chunk: nat, s: nat, a: nat, b: nat, c: nat, m: nat)
    requires e.Valid() && chunk < e.Chunks() && Digits(s, a, b, c, m)
    ensures var t := InRun(s, a, b, c, m);
            e.Block(chunk, t) == Low(Previous(e, chunk, t, LaneDigits(e.bits, a, b, c, m))
                                     + DifferenceAt(e, chunk, Position(s, a, b, c, m)), e.bits)
  {
    hide Low, RowOf, LaneOf, Transpose, Untranspose, Lanes, Index, LaneDelta.Encoded.Base, LaneDelta.Encoded.Lane,
      LaneDelta.Encoded.Chunks, LaneDelta.Encoded.Valid, LaneDelta.Encoded.Block, DifferenceAt, RowDigits, LaneDigits,
      Position;
    WidthOf(e);
    var t, lane := InRun(s, a, b, c, m), LaneDigits(e.bits, a, b, c, m);
    RunsAreLanes(e.bits, s, a, b, c, m);
    RowBefore(e.bits, s, a, b, c, m);
    RowLaneInverse(e.bits, Untranspose(t));
    LaneNext(e, chunk, lane, t % e.bits);
    BlockInLane(e, chunk, t, lane, t % e.bits);
    if t % e.bits != 0 { BlockInLane(e, chunk, t - 1, lane, t % e.bits - 1); }
  }

  lemma {:induction false} WidthOf(e: LaneDelta.Encoded)
    requires e.Valid()
    ensures IsWidth(e.bits) && e.bits > 0
  {
  }

  lemma {:induction false} BlockInLane(e: LaneDelta.Encoded, chunk: nat, t: nat, lane: nat, row: nat)
    requires e.Valid() && chunk < e.Chunks() && t < 1024
    requires LaneOf(e.bits, Untranspose(t)) == lane && RowOf(e.bits, Untranspose(t)) == row
    ensures lane < Lanes(e.bits) && row < e.bits && e.Block(chunk, t) == e.Lane(chunk, lane, row + 1)
  {
    hide LaneOf, RowOf, Untranspose, LaneDelta.Encoded.Lane, Lanes;
  }

  lemma {:induction false} LaneNext(e: LaneDelta.Encoded, chunk: nat, lane: nat, row: nat)
    requires e.Valid() && chunk < e.Chunks() && lane < Lanes(e.bits) && row < e.bits
    ensures e.Lane(chunk, lane, 0) == e.Base(chunk, lane)
    ensures e.Lane(chunk, lane, row + 1)
            == Low(e.Lane(chunk, lane, row) + DifferenceAt(e, chunk, Index(e.bits, row, lane)), e.bits)
  {
    hide Low, Index, LaneDelta.Encoded.Base;
  }

  /** The rows of whole chunks are those of the blocks, and those of the last, incomplete
      chunk are differences in plain order. */
  lemma {:induction false} RowsOfDelta(e: LaneDelta.Encoded, chunk: nat, t: nat)
    requires e.Valid() && t < 1024 && chunk * 1024 + t < |e.deltas|
    ensures chunk < e.Chunks() ==> e.Value(chunk * 1024 + t) == e.Block(chunk, t)
    ensures chunk == e.Chunks() ==>
              && |e.bases| > 0
              && e.Value(chunk * 1024 + t)
                 == Low((if t == 0 then e.bases[|e.bases| - 1] else e.Value(chunk * 1024 + t - 1))
                        + e.deltas[chunk * 1024 + t], e.bits)
  {
    hide Low, LaneDelta.Encoded.Block;
    DivModUnique(chunk * 1024 + t, 1024, chunk, t);
    if t > 0 { DivModUnique(chunk * 1024 + t - 1, 1024, chunk, t - 1); }
  }

  /** The validity of a row of a whole chunk stands at the transposed position; that of a
      row of the tail at its own. */
  lemma {:induction false} RowValidity(e: LaneDelta.Encoded, chunk: nat, s: nat, a: nat, b: nat, c: nat, m: nat)
    requires e.Valid() && e.valid.Some? && Digits(s, a, b, c, m)
    requires chunk * 1024 + Position(s, a, b, c, m) < |e.deltas|
    ensures var i := chunk * 1024 + Position(s, a, b, c, m);
            var at := if chunk < e.Chunks() then chunk * 1024 + InRun(s, a, b, c, m) else i;
            at < |e.deltas| && (e.IsValid(i) <==> e.valid.value[at])
  {
    hide Transpose, Untranspose, Position, Lanes;
    TransposeInDigits(s, a, b, c, m);
    DivModUnique(chunk * 1024 + Position(s, a, b, c, m), 1024, chunk, Position(s, a, b, c, m));
  }
}
