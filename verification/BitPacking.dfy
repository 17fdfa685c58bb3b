/** FastLanes bit-packing: every value of a chunk takes `bw` bits of its lane's
    stream of words, and may straddle two words. */
module BitPacking {
  import opened Words
  import opened BitStrings
  import opened FastLanes

  /** The byte of a word inside its chunk: word `k` of all lanes in turn. */
  function WordOffset(bits: nat, k: nat, lane: nat): (at: nat)
    requires IsWidth(bits) && lane < Lanes(bits)
    ensures at + bits / 8 <= k * 128 + 128
  {
    (k * Lanes(bits) + lane) * (bits / 8)
  }

  /** A packed buffer for words of `bits` bits, `bw` bits a value. */
  datatype Packed = Packed(bits: nat, bw: nat, data: seq<byte>) {

    /** The checks of `bitpacked` for rows [off, off + n). */
    predicate Accepts(off: nat, n: nat) {
      && IsWidth(bits) && bw <= bits && off < 1024
      && |data| == (n + off + 1023) / 1024 * bw * 128
    }

    /** The first byte of a chunk. */
    function Base(chunk: nat): nat { chunk * bw * 128 }

    predicate HasChunk(chunk: nat) {
      IsWidth(bits) && bw <= bits && Base(chunk) + bw * 128 <= |data|
    }

    /** Word `k` of a lane lies inside the bytes of its chunk. */
    lemma {:induction false} WordInChunk(chunk: nat, k: nat, lane: nat)
      requires HasChunk(chunk) && k < bw && lane < Lanes(bits)
      ensures Base(chunk) + WordOffset(bits, k, lane) + bits / 8 <= Base(chunk) + bw * 128 <= |data|
    {
      hide Lanes, Base, WordOffset;
    }

    function WordAt(chunk: nat, k: nat, lane: nat): (x: nat)
      requires HasChunk(chunk) && k < bw && lane < Lanes(bits)
      ensures x < Pow2(bits)
    {
      hide Lanes, HasChunk, Base, WordOffset, LittleEndian, Pow2;
      WordInChunk(chunk, k, lane);
      WholeBytes(bits);
      LittleEndian(data[Base(chunk) + WordOffset(bits, k, lane)..], bits / 8)
    }

    /** The first `k` words of a lane as one bit string. */
    function Stream(chunk: nat, lane: nat, k: nat): (s: Bits)
      requires HasChunk(chunk) && k <= bw && lane < Lanes(bits)
      ensures |s| == k * bits
    {
      if k == 0 then []
      else Distribute(k, 1, bits); Stream(chunk, lane, k - 1) + FromNat(WordAt(chunk, k - 1, lane), bits)
    }

    lemma {:induction false} StreamStep(chunk: nat, lane: nat, k: nat)
      requires HasChunk(chunk) && k <= bw && lane < Lanes(bits)
      ensures Stream(chunk, lane, k)
              == if k == 0 then [] else Stream(chunk, lane, k - 1) + FromNat(WordAt(chunk, k - 1, lane), bits)
    {
    }

    /** The `bw` bits of a lane from bit `start` on. */
    function Field(chunk: nat, lane: nat, start: nat): nat
      requires HasChunk(chunk) && lane < Lanes(bits) && start + bw <= bw * bits
    {
      ToNat(Stream(chunk, lane, bw)[start..start + bw])
    }

    /** The value at a position: the field of its row in its lane. */
    function Value(chunk: nat, position: nat): nat
      requires HasChunk(chunk) && position < 1024
    {
      var row, lane := RowOf(bits, position), LaneOf(bits, position);
      FieldInStream(bits, bw, row);
      Field(chunk, lane, row * bw)
    }

    lemma {:induction false} ValueBelow(chunk: nat, position: nat)
      requires HasChunk(chunk) && position < 1024
      ensures Value(chunk, position) < Pow2(bw)
    {
      hide Pow2, Stream, ToNat;
      var row, lane := RowOf(bits, position), LaneOf(bits, position);
      FieldInStream(bits, bw, row);
      ToNatBound(Stream(chunk, lane, bw)[row * bw..row * bw + bw]);
    }

    lemma {:induction false} StreamWord(chunk: nat, lane: nat, n: nat, k: nat)
      requires HasChunk(chunk) && k < n <= bw && lane < Lanes(bits)
      ensures k * bits + bits <= n * bits
      ensures Stream(chunk, lane, n)[k * bits..k * bits + bits] == FromNat(WordAt(chunk, k, lane), bits)
      decreases n
    {
      hide WordAt, Lanes, HasChunk, FromNat;
      Distribute(k, 1, bits);
      Distribute(n, 1, bits);
      var before, last := Stream(chunk, lane, n - 1), FromNat(WordAt(chunk, n - 1, lane), bits);
      if k < n - 1 {
        MulMono(k + 1, n - 1, bits);
        StreamWord(chunk, lane, n - 1, k);
        SliceOfPrefix(before, last, k * bits, k * bits + bits);
      } else {
        SliceOfSuffix(before, last);
      }
    }
  }

  /** The bits of a row lie inside the `bits * bw` bits of a lane. */
  lemma {:induction false} FieldInStream(bits: nat, bw: nat, row: nat)
    requires row < bits
    ensures row * bw + bw <= bw * bits
  {
    MulMono(row + 1, bits, bw);
    Distribute(row, 1, bw);
    MulComm(bw, bits);
  }

  /** Only existing words are read: the word of the start bit, and the next word
      when the value straddles it. */
  lemma {:induction false} WordsExist(bits: nat, bw: nat, row: nat)
    requires bits > 0 && 0 < bw && row < bits
    ensures row * bw / bits < bw
    ensures bits - row * bw % bits < bw ==> row * bw / bits + 1 < bw
  {
    FieldInStream(bits, bw, row);
    var start := row * bw;
    DivMod(start, bits);
    var k := start / bits;
    if bw <= k { MulMono(bw, k, bits); }
    if bits - start % bits < bw && bw <= k + 1 {
      MulMono(bw, k + 1, bits);
      Distribute(k, 1, bits);
    }
  }

  /** Shifting a word right, adding the next word shifted left and masking takes
      the value's bits out of the stream. `k` is the bit where the word begins. */
  lemma {:induction false} Extract(stream: Bits, bits: nat, bw: nat, k: nat, shift: nat, w0: nat, w1: nat)
    requires shift < bits && bw <= bits <= 64 && k + bits <= |stream| && k + shift + bw <= |stream|
    requires w0 < Pow2(bits) && stream[k..k + bits] == FromNat(w0, bits)
    requires bits - shift < bw ==> k + 2 * bits <= |stream| && stream[k + bits..k + 2 * bits] == FromNat(w1, bits)
    ensures Low(Shr(w0, shift) + (if bits - shift < bw then Low(Shl(w1, bits - shift), 64) else 0), bw)
            == ToNat(stream[k + shift..k + shift + bw])
  {
    hide FromNat, ToNat, Low, Shl, Shr, Pow2;
    if bits - shift >= bw {
      SliceOfSlice(stream, k, k + bits, shift, shift + bw);
      FromNatSlice(w0, bits, shift, shift + bw);
    } else {
      Straddle(stream, bits, bw, k, shift, w0, w1);
    }
  }

  lemma {:induction false} Straddle(stream: Bits, bits: nat, bw: nat, k: nat, shift: nat, w0: nat, w1: nat)
    requires shift < bits && bits - shift < bw <= bits <= 64 && k + 2 * bits <= |stream|
    requires w0 < Pow2(bits)
    requires stream[k..k + bits] == FromNat(w0, bits) && stream[k + bits..k + 2 * bits] == FromNat(w1, bits)
    ensures Low(Shr(w0, shift) + Low(Shl(w1, bits - shift), 64), bw) == ToNat(stream[k + shift..k + shift + bw])
  {
    hide FromNat, ToNat, Low, Shl, Shr, Pow2;
    var remain := bits - shift;
    SliceOfSlice(stream, k, k + bits, shift, bits);
    SliceOfSlice(stream, k + bits, k + 2 * bits, 0, bw - remain);
    FromNatSlice(w0, bits, shift, bits);
    FromNatSlice(w1, bits, 0, bw - remain);
    ShrNothing(w1);
    ShrBelow(w0, shift, bits);
    LowSmall(Shr(w0, shift), remain);
    ToNatExtend(stream, k + shift, k + bits, k + shift + bw);
    LowOfSum(Shr(w0, shift), w1, remain, bw - remain);
    LowAddLow(Shr(w0, shift), Shl(w1, remain), bw, 64);
  }

  // ----------------------------------------------------------------- decoding

  lemma {:induction false} ChunkAvailable(p: Packed, off: nat, n: nat, i: nat)
    requires p.Accepts(off, n) && i < n
    ensures p.HasChunk((off + i) / 1024)
  {
    var k, chunks := (off + i) / 1024, (n + off + 1023) / 1024;
    MulMono(k + 1, chunks, p.bw);
    Distribute(k, 1, p.bw);
  }

  /** The unpacked value of row `off + i`. */
  function ValueAt(p: Packed, off: nat, n: nat, i: nat): nat
    requires p.Accepts(off, n) && i < n
  {
    ChunkAvailable(p, off, n, i);
    p.Value((off + i) / 1024, (off + i) % 1024)
  }

  /** One iteration of the unpacking loop. */
  method UnpackOne(p: Packed, chunk: nat, position: nat) returns (x: nat)
    requires p.HasChunk(chunk) && p.bw > 0 && position < 1024
    ensures x == p.Value(chunk, position)
  {
    hide RowOf, LaneOf, Lanes, Packed.HasChunk, Packed.Field, Pow2;
    WidthFacts(p, chunk);
    var lane, row := LaneOf(p.bits, position), RowOf(p.bits, position);
    var startBit := row * p.bw;
    WordsExist(p.bits, p.bw, row);
    FieldInStream(p.bits, p.bw, row);
    x := ExtractField(p, chunk, lane, startBit);
  }

  /** Takes `bw` bits out of a lane, reading the word of the start bit and, if
      the value straddles it, the next. */
  method ExtractField(p: Packed, chunk: nat, lane: nat, startBit: nat) returns (x: nat)
    requires p.HasChunk(chunk) && p.bits > 0 && p.bw > 0 && lane < Lanes(p.bits)
    requires startBit / p.bits < p.bw && startBit + p.bw <= p.bw * p.bits
    requires p.bits - startBit % p.bits < p.bw ==> startBit / p.bits + 1 < p.bw
    ensures x == p.Field(chunk, lane, startBit)
  {
    hide Lanes, Packed.HasChunk, Packed.WordAt, Packed.Field, Packed.Stream, FromNat, Low, Shl, Shr, Pow2;
    var word, shift := startBit / p.bits, startBit % p.bits;
    ghost var k, w1 := word * p.bits, 0;
    DivMod(startBit, p.bits);
    StreamWordAt(p, chunk, lane, word, k);
    var w0 := p.WordAt(chunk, word, lane);
    var lo := Shr(w0, shift);
    var remain := p.bits - shift;
    if remain < p.bw {
      Distribute(word, 1, p.bits);
      StreamWordAt(p, chunk, lane, word + 1, k + p.bits);
      var next := p.WordAt(chunk, word + 1, lane);
      w1 := next;
      // the two operands of the disjunction have no common bit
      lo := lo + Low(Shl(next, remain), 64);
    }
    x := Low(lo, p.bw);
    FieldOfWords(p, chunk, lane, startBit, k, shift, w0, w1);
  }

  lemma {:induction false} StreamWordAt(p: Packed, chunk: nat, lane: nat, word: nat, k: nat)
    requires p.HasChunk(chunk) && lane < Lanes(p.bits) && word < p.bw && k == word * p.bits
    ensures k + p.bits <= |p.Stream(chunk, lane, p.bw)|
    ensures p.Stream(chunk, lane, p.bw)[k..k + p.bits] == FromNat(p.WordAt(chunk, word, lane), p.bits)
  {
    hide Lanes, Packed.HasChunk, Packed.WordAt, FromNat, Packed.Stream;
    p.StreamWord(chunk, lane, p.bw, word);
  }

  lemma {:induction false} FieldOfWords(p: Packed, chunk: nat, lane: nat, start: nat, k: nat, shift: nat, w0: nat,
      w1: nat)
    requires p.HasChunk(chunk) && lane < Lanes(p.bits) && start + p.bw <= p.bw * p.bits
    requires shift < p.bits && start == k + shift && w0 < Pow2(p.bits)
    requires var stream := p.Stream(chunk, lane, p.bw);
             && k + p.bits <= |stream| && stream[k..k + p.bits] == FromNat(w0, p.bits)
             && (p.bits - shift < p.bw ==>
                   k + 2 * p.bits <= |stream| && stream[k + p.bits..k + 2 * p.bits] == FromNat(w1, p.bits))
    ensures p.Field(chunk, lane, start)
         == Low(Shr(w0, shift) + (if p.bits - shift < p.bw then Low(Shl(w1, p.bits - shift), 64) else 0), p.bw)
  {
    hide Lanes, Packed.HasChunk, FromNat, ToNat, Packed.Stream, Low, Shl, Shr, Pow2;
    WidthFacts(p, chunk);
    Extract(p.Stream(chunk, lane, p.bw), p.bits, p.bw, k, shift, w0, w1);
  }

  lemma {:induction false} WidthFacts(p: Packed, chunk: nat)
    requires p.HasChunk(chunk)
    ensures 0 < p.bits <= 64 && p.bw <= p.bits && IsWidth(p.bits)
  {
  }

  function Values(p: Packed, off: nat, n: nat): (r: seq<nat>)
    requires p.Accepts(off, n)
    ensures |r| == n
  {
    seq<nat>(n, i requires 0 <= i < n => ValueAt(p, off, n, i))
  }

  /** The loop of `bitpacked`: rows [off, off + n). */
  method Unpack(p: Packed, off: nat, n: nat) returns (out: array<nat>)
    requires p.Accepts(off, n)
    ensures fresh(out) && out[..] == Values(p, off, n)
  {
    hide Packed.Value, Packed.HasChunk;
    out := new nat[n](_ => 0);
    if p.bw != 0 {
      for i := 0 to n
        invariant forall j | 0 <= j < i :: out[j] == ValueAt(p, off, n, j)
      {
        ChunkAvailable(p, off, n, i);
        out[i] := UnpackOne(p, (off + i) / 1024, (off + i) % 1024);
      }
    } else {
      forall i | 0 <= i < n ensures 0 == ValueAt(p, off, n, i) {
        ChunkAvailable(p, off, n, i);
        NoBits(p, (off + i) / 1024, (off + i) % 1024);
      }
    }
  }

  lemma {:induction false} NoBits(p: Packed, chunk: nat, position: nat)
    requires p.HasChunk(chunk) && p.bw == 0 && position < 1024
    ensures p.Value(chunk, position) == 0
  {
  }

  /** Slice law: whenever rows [0, off + n) are accepted, decoding with the offset
      is accepted and gives rows [off, off + n) of them. */
  lemma {:induction false} SliceLaw(p: Packed, off: nat, n: nat)
    requires p.Accepts(0, off + n) && off < 1024
    ensures p.Accepts(off, n) && Values(p, off, n) == Values(p, 0, off + n)[off..]
  {
    hide Packed.Value, Packed.HasChunk;
    forall i: nat | i < n ensures Values(p, off, n)[i] == Values(p, 0, off + n)[off..][i] { SliceAt(p, off, n, i); }
  }

  lemma {:induction false} SliceAt(p: Packed, off: nat, n: nat, i: nat)
    requires p.Accepts(0, off + n) && off < 1024 && i < n
    ensures p.Accepts(off, n) && ValueAt(p, off, n, i) == ValueAt(p, 0, off + n, off + i)
  {
    hide Packed.Value, Packed.HasChunk;
  }
}
