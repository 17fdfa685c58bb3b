/** A ghost bit-packer for whole chunks, and the proof that unpacking inverts it. */
module BitPackRoundTrip {
  import opened Words
  import opened BitStrings
  import opened FastLanes
  import opened BitPacking

  /** What the packer is given: whole chunks of values that fit into `bw` bits. */
  datatype Plain = Plain(bits: nat, bw: nat, x: seq<nat>) {
    predicate Valid() {
      && IsWidth(bits) && bw <= bits && |x| % 1024 == 0
      && forall i | 0 <= i < |x| :: x[i] < Pow2(bw)
    }

    predicate HasLane(chunk: nat, lane: nat) {
      IsWidth(bits) && bw <= bits && chunk < |x| / 1024 && lane < Lanes(bits)
    }

    /** The value at a row of a lane. */
    function RowValue(chunk: nat, lane: nat, row: nat): nat
      requires HasLane(chunk, lane) && row < bits
    {
      x[chunk * 1024 + Index(bits, row, lane)]
    }

    /** All rows of a lane, `bw` bits each. */
    function LaneBits(chunk: nat, lane: nat): (s: Bits)
      requires HasLane(chunk, lane)
      ensures |s| == bits * bw
    {
      var f := (row: nat) requires row < bits => FromNat(RowValue(chunk, lane, row), bw);
      FlattenPiece(f, bits, bw, 0);
      Flatten(f, bits)
    }

    lemma {:induction false} LaneRow(chunk: nat, lane: nat, row: nat)
      requires HasLane(chunk, lane) && row < bits
      ensures row * bw + bw <= |LaneBits(chunk, lane)|
      ensures Piece(LaneBits(chunk, lane), row, bw) == FromNat(RowValue(chunk, lane, row), bw)
    {
      hide RowValue, FromNat;
      var f := (row: nat) requires row < bits => FromNat(RowValue(chunk, lane, row), bw);
      FlattenPiece(f, bits, bw, row);
    }

    /** The bits of word `k` of a lane. */
    function WordBits(chunk: nat, lane: nat, k: nat): (s: Bits)
      requires HasLane(chunk, lane) && k < bw
      ensures |s| == bits
    {
      WordFits(k);
      Piece(LaneBits(chunk, lane), k, bits)
    }

    lemma {:induction false} WordFits(k: nat)
      requires k < bw
      ensures k * bits + bits <= bits * bw
    {
      MulMono(k + 1, bw, bits);
      Distribute(k, 1, bits);
      MulComm(bw, bits);
    }

    /** The bytes of the `q`-th word of a chunk: words of all lanes in turn. */
    function WordBytes(chunk: nat, q: nat): (s: seq<byte>)
      requires IsWidth(bits) && bw <= bits && chunk < |x| / 1024 && q < bw * Lanes(bits)
      ensures |s| == bits / 8
    {
      hide Lanes, WordBits, Pack;
      WordNumber(q, bw, Lanes(bits));
      WholeBytes(bits);
      Pack(WordBits(chunk, q % Lanes(bits), q / Lanes(bits)))
    }

    lemma {:induction false} WordNumber(q: nat, n: nat, lanes: nat)
      requires lanes > 0 && q < n * lanes
      ensures 0 <= q / lanes < n && 0 <= q % lanes < lanes
    {
      DivMod(q, lanes);
      if n <= q / lanes { MulMono(n, q / lanes, lanes); }
    }

    function ChunkBytes(chunk: nat): (s: seq<byte>)
      requires IsWidth(bits) && bw <= bits && chunk < |x| / 1024
      ensures |s| == bw * 128
    {
      var f := (q: nat) requires q < bw * Lanes(bits) => WordBytes(chunk, q);
      FlattenPiece(f, bw * Lanes(bits), bits / 8, 0);
      LaneBytes(bw);
      Flatten(f, bw * Lanes(bits))
    }

    lemma {:induction false} LaneBytes(n: nat)
      requires IsWidth(bits)
      ensures n * Lanes(bits) * (bits / 8) == n * 128
    {
      MulAssoc(n, Lanes(bits), bits / 8);
      assert Lanes(bits) * (bits / 8) == 128;
    }

    /** The packed buffer. */
    function Encode(): (p: Packed)
      requires Valid()
      ensures p.bits == bits && p.bw == bw && |p.data| == |x| / 1024 * (bw * 128)
    {
      var f := (chunk: nat) requires chunk < |x| / 1024 => ChunkBytes(chunk);
      FlattenPiece(f, |x| / 1024, bw * 128, 0);
      Packed(bits, bw, Flatten(f, |x| / 1024))
    }

    lemma {:induction false} ChunkAt(chunk: nat)
      requires Valid() && chunk < |x| / 1024
      ensures Encode().HasChunk(chunk) && Encode().Base(chunk) == chunk * (bw * 128)
      ensures chunk * (bw * 128) + bw * 128 <= |Encode().data|
      ensures Piece(Encode().data, chunk, bw * 128) == ChunkBytes(chunk)
    {
      hide ChunkBytes;
      var f := (chunk: nat) requires chunk < |x| / 1024 => ChunkBytes(chunk);
      FlattenPiece(f, |x| / 1024, bw * 128, chunk);
      Distribute(chunk, 1, bw * 128);
      MulAssoc(chunk, bw, 128);
    }

    lemma {:induction false} WordInBytes(chunk: nat, q: nat)
      requires IsWidth(bits) && bw <= bits && chunk < |x| / 1024 && q < bw * Lanes(bits)
      ensures q * (bits / 8) + bits / 8 <= bw * 128
      ensures Piece(ChunkBytes(chunk), q, bits / 8) == WordBytes(chunk, q)
    {
      hide WordBytes, Lanes;
      var f := (q: nat) requires q < bw * Lanes(bits) => WordBytes(chunk, q);
      FlattenPiece(f, bw * Lanes(bits), bits / 8, q);
      LaneBytes(bw);
    }

    /** The word that `readWord` finds is the packed word. */
    lemma {:induction false} WordRead(chunk: nat, lane: nat, k: nat)
      requires Valid() && HasLane(chunk, lane) && k < bw
      ensures Encode().HasChunk(chunk)
      ensures Encode().WordAt(chunk, k, lane) == ToNat(WordBits(chunk, lane, k))
    {
      hide Valid, Encode, ChunkBytes, WordBits, Lanes, Packed.HasChunk, Packed.Base, WordOffset, ToNat, Piece,
          LittleEndian, Pack, BitsOf;
      var p, q := Encode(), k * Lanes(bits) + lane;
      ChunkAt(chunk);
      LaneQuotient(k, lane);
      WordInBytes(chunk, q);
      WordOffsetIs(k, lane, q);
      WholeBytes(bits);
      BitsOfPack(WordBits(chunk, lane, k));
      p.WordInChunk(chunk, k, lane);
      ReadPiece(p.data, chunk, bw * 128, q, bits / 8, p.Base(chunk), WordOffset(bits, k, lane));
    }

    lemma {:induction false} WordOffsetIs(k: nat, lane: nat, q: nat)
      requires IsWidth(bits) && lane < Lanes(bits) && q == k * Lanes(bits) + lane
      ensures WordOffset(bits, k, lane) == q * (bits / 8)
    {
    }

    static lemma {:induction false} ReadPiece(data: seq<byte>, chunk: nat, size: nat, q: nat, w: nat, start: nat,
        at: nat)
      requires start == chunk * size && start + size <= |data| && at == q * w && at + w <= size
      ensures LittleEndian(data[start + at..], w) == ToNat(BitsOf(Piece(Piece(data, chunk, size), q, w)))
    {
      hide ToNat, BitsOf, LittleEndian;
      ReadSlice(data, start, size, at, w);
    }

    static lemma {:induction false} ReadSlice(data: seq<byte>, start: nat, size: nat, at: nat, w: nat)
      requires start + size <= |data| && at + w <= size
      ensures LittleEndian(data[start + at..], w) == ToNat(BitsOf(data[start..start + size][at..at + w]))
    {
      hide ToNat, BitsOf;
      assert data[start + at..][..w] == data[start + at..start + at + w];
      SliceOfSlice(data, start, start + size, at, at + w);
    }

    lemma {:induction false} LaneQuotient(k: nat, lane: nat)
      requires IsWidth(bits) && k < bw && lane < Lanes(bits)
      ensures var q := k * Lanes(bits) + lane;
              q < bw * Lanes(bits) && q / Lanes(bits) == k && q % Lanes(bits) == lane
    {
      var lanes := Lanes(bits);
      DivModUnique(k * lanes + lane, lanes, k, lane);
      MulMono(k + 1, bw, lanes);
      Distribute(k, 1, lanes);
    }

    /** The decoder's stream of a lane is the packer's. */
    lemma {:induction false} StreamIsLane(chunk: nat, lane: nat, k: nat)
      requires Valid() && HasLane(chunk, lane) && k <= bw
      ensures Encode().HasChunk(chunk) && k * bits <= bits * bw
      ensures Encode().Stream(chunk, lane, k) == LaneBits(chunk, lane)[..k * bits]
      decreases k
    {
      hide Encode, Lanes, LaneBits, Packed.HasChunk, Packed.Stream, Packed.WordAt, ToNat, FromNat, IsWidth;
      ChunkAt(chunk);
      Encode().StreamStep(chunk, lane, k);
      if k > 0 {
        StreamIsLane(chunk, lane, k - 1);
        WordFits(k - 1);
        Distribute(k, 1, bits);
        WordRead(chunk, lane, k - 1);
        FromNatToNat(WordBits(chunk, lane, k - 1));
        var all, i := LaneBits(chunk, lane), (k - 1) * bits;
        assert all[..i] + all[i..i + bits] == all[..i + bits];
      }
    }

    lemma {:induction false} FieldIsValue(chunk: nat, position: nat)
      requires Valid() && chunk < |x| / 1024 && position < 1024
      ensures Encode().HasChunk(chunk)
      ensures Encode().Value(chunk, position) == x[chunk * 1024 + position]
    {
      hide Encode, Lanes, LaneBits, Packed.HasChunk, Packed.Stream, ToNat, FromNat, RowOf, LaneOf, Index, Low;
      var row, lane := RowOf(bits, position), LaneOf(bits, position);
      RowLaneInverse(bits, position);
      StreamIsLane(chunk, lane, bw);
      MulComm(bw, bits);
      FieldInStream(bits, bw, row);
      LaneRow(chunk, lane, row);
      ToNatFromNat(x[chunk * 1024 + position], bw);
      LowSmall(x[chunk * 1024 + position], bw);
      assert LaneBits(chunk, lane)[..bw * bits] == LaneBits(chunk, lane);
    }
  }

  /** Bit-packing round trip: for every word width and bit width, the packed
      buffer is accepted at every slice, and unpacking row `i` of the slice gives
      the value that was packed. */
  lemma {:induction false} RoundTrip(a: Plain, off: nat, n: nat, i: nat)
    requires a.Valid() && off < 1024 && (off + n + 1023) / 1024 == |a.x| / 1024 && i < n
    ensures a.Encode().Accepts(off, n) && off + i < |a.x|
    ensures ValueAt(a.Encode(), off, n, i) == a.x[off + i]
  {
    hide Plain.Encode, Packed.HasChunk, Packed.Value, Lanes;
    var p, chunk := a.Encode(), (off + i) / 1024;
    MulAssoc(|a.x| / 1024, a.bw, 128);
    a.FieldIsValue(chunk, (off + i) % 1024);
  }
}
