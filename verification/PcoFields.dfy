/** Where the fields of Pco metadata and page headers are, as bit ranges: positions and
    widths, instead of a sequence of reads. */
module PcoFields {
  import opened Wrappers
  import opened Words
  import opened BitStrings
  import opened AnsTable
  import opened PcoReader
  import opened PcoModes
  import opened PcoPage
  import opened PcoChunks
  import PcoBatches
  import PcoLatents

  /** The number in bits [at, at + n). */
  function Field(bits: Bits, at: nat, n: nat): nat
    requires at + n <= |bits|
  {
    ToNat(bits[at..at + n])
  }

  /** The position after `at` bits of a stream that began at position `pos`. */
  function After(bits: Bits, pos: nat, at: nat): Cursor
    requires at <= |bits|
  {
    Cursor(bits[at..], pos + at, true)
  }

  lemma {:induction false} Taken(bits: Bits, pos: nat, at: nat, n: nat)
    requires at <= |bits| && After(bits, pos, at).Take(n).1.ok
    ensures at + n <= |bits| && After(bits, pos, at).Take(n) == (Field(bits, at, n), After(bits, pos, at + n))
  {
    hide ToNat;
    assert bits[at..][..n] == bits[at..at + n] && bits[at..][n..] == bits[at + n..];
  }

  lemma {:induction false} StillOk(c: Cursor, n: nat)
    ensures c.Take(n).1.ok ==> c.ok
  {
  }

  /** The bits of `count` fields of `width` bits. */
  function Size(count: nat, width: nat): nat { count * width }

  lemma {:induction false} SizeMore(count: nat, width: nat)
    requires count > 0
    ensures Size(count, width) == width + Size(count - 1, width)
  {
    Distribute(count, 1, width);
  }

  lemma {:induction false} NoSize(width: nat)
    ensures Size(0, width) == 0
  {
  }

  /** `count` numbers of `width` bits, one after the other. */
  predicate Table(bits: Bits, at: nat, width: nat, xs: seq<nat>) {
    && at + Size(|xs|, width) <= |bits|
    && forall k: nat | k < |xs| :: TableAt(bits, at, width, k, xs[k])
  }

  predicate TableAt(bits: Bits, at: nat, width: nat, k: nat, x: nat) {
    at + Size(k, width) + width <= |bits| && x == Field(bits, at + Size(k, width), width)
  }

  lemma {:induction false} ManyOk(c: Cursor, width: nat, count: nat)
    ensures ReadMany(c, width, count).1.ok ==> c.ok
    decreases count
  {
    if count > 0 { ManyOk(c.Take(width).1, width, count - 1); }
  }

  lemma {:induction false} ManyTaken(bits: Bits, pos: nat, at: nat, width: nat, count: nat)
    requires at <= |bits| && ReadMany(After(bits, pos, at), width, count).1.ok
    ensures at + Size(count, width) <= |bits|
    ensures ReadMany(After(bits, pos, at), width, count).1 == After(bits, pos, at + Size(count, width))
    ensures Table(bits, at, width, ReadMany(After(bits, pos, at), width, count).0)
    decreases count
  {
    hide ToNat, Cursor.Take, Field, After, Size;
    if count == 0 { assert Size(0, width) == 0 by { NoSize(width); } }
    if count > 0 {
      var (x, c1) := After(bits, pos, at).Take(width);
      ManyOk(c1, width, count - 1);
      Taken(bits, pos, at, width);
      ManyTaken(bits, pos, at + width, width, count - 1);
      SizeMore(count, width);
      TableMore(bits, at, width, x, ReadMany(c1, width, count - 1).0);
    }
  }

  lemma {:induction false} TableMore(bits: Bits, at: nat, width: nat, x: nat, xs: seq<nat>)
    requires at + width <= |bits| && x == Field(bits, at, width) && Table(bits, at + width, width, xs)
    ensures Table(bits, at, width, [x] + xs)
  {
    hide Field, Size;
    NoSize(width);
    SizeMore(|xs| + 1, width);
    forall k: nat | k < |xs| + 1 ensures TableAt(bits, at, width, k, ([x] + xs)[k]) {
      if k > 0 {
        assert TableAt(bits, at + width, width, k - 1, xs[k - 1]);
        SizeMore(k, width);
      }
    }
  }

  /** Alignment skips fewer than eight bits, all zero, to the next byte. */
  lemma {:induction false} AlignTaken(bits: Bits, pos: nat, at: nat)
    requires at <= |bits| && After(bits, pos, at).Align().ok
    ensures exists skip: nat ::
              Skips(bits, pos, at, skip) && After(bits, pos, at).Align() == After(bits, pos, at + skip)
  {
    hide ToNat;
    var skip := (8 - (pos + at) % 8) % 8;
    StillOk(After(bits, pos, at), skip);
    Taken(bits, pos, at, skip);
    assert Skips(bits, pos, at, skip);
  }

  predicate Skips(bits: Bits, pos: nat, at: nat, skip: nat) {
    skip < 8 && (pos + at + skip) % 8 == 0 && at + skip <= |bits| && Field(bits, at, skip) == 0
  }

  // -------------------------------------------------------------------------- mode

  /** Four bits of mode; a base of the width of a value, eight bits of quantization, or
      25 bits of dictionary size, three zero bits and the entries. */
  lemma {:induction false} ModeFields(bits: Bits, size: nat, width: nat)
    requires 0 < width && ParseMode(Cursor(bits, 0, true), size, width).Some?
    requires ParseMode(Cursor(bits, 0, true), size, width).value.1.ok
    ensures 4 <= |bits|
    ensures var (m, end) := ParseMode(Cursor(bits, 0, true), size, width).value;
            match Field(bits, 0, 4)
            case 0 => m == PlainMode && end == After(bits, 0, 4)
            case 1 => 4 + width <= |bits| && m == IntMode(Field(bits, 4, width)) && end == After(bits, 0, 4 + width)
            case 2 => 4 + width <= |bits| && m == FloatMode(Field(bits, 4, width)) && end == After(bits, 0, 4 + width)
            case 3 => 12 <= |bits| && m == QuantMode(Field(bits, 4, 8)) && end == After(bits, 0, 12)
            case 4 =>
              && m.DictMode? && Table(bits, 32, width, m.dict) && |m.dict| == Field(bits, 4, 25)
              && Field(bits, 29, 3) == 0 && end == After(bits, 0, 32 + Size(|m.dict|, width))
            case _ => false
  {
    hide ToNat, Cursor.Take, Field, Table, ReadMany, Size, Cursor.Align;
    var start := Cursor(bits, 0, true);
    assert bits[0..] == bits;
    var (mode, c1) := start.Take(4);
    if mode == 1 || mode == 2 { StillOk(c1, width); Taken(bits, 0, 0, 4); Taken(bits, 0, 4, width); }
    if mode == 3 { StillOk(c1, 8); Taken(bits, 0, 0, 4); Taken(bits, 0, 4, 8); }
    if mode == 4 { DictionaryFields(bits, width); }
    if mode == 0 { Taken(bits, 0, 0, 4); }
  }

  lemma {:induction false} DictionaryFields(bits: Bits, width: nat)
    requires var (mode, c1) := Cursor(bits, 0, true).Take(4);
             var (n, c2) := c1.Take(25);
             ReadMany(c2.Align(), width, n).1.ok
    ensures var (mode, c1) := Cursor(bits, 0, true).Take(4);
            var (n, c2) := c1.Take(25);
            var (dict, end) := ReadMany(c2.Align(), width, n);
            && 32 <= |bits| && mode == Field(bits, 0, 4) && n == Field(bits, 4, 25) && Field(bits, 29, 3) == 0
            && Table(bits, 32, width, dict) && 32 + Size(n, width) <= |bits|
            && end == After(bits, 0, 32 + Size(n, width))
  {
    hide ToNat, Cursor.Take, Field, Table, ReadMany, Size;
    assert bits[0..] == bits;
    var (mode, c1) := Cursor(bits, 0, true).Take(4);
    var (n, c2) := c1.Take(25);
    ManyOk(c2.Align(), width, n);
    StillOk(c2, (8 - c2.pos % 8) % 8);
    StillOk(c1, 25);
    Taken(bits, 0, 0, 4);
    Taken(bits, 0, 4, 25);
    Taken(bits, 0, 29, 3);
    ManyTaken(bits, 0, 32, width, n);
  }

  // ------------------------------------------------------------------------- delta

  /** Before version 3 there are three bits of order. */
  lemma {:induction false} OldDeltaFields(bits: Bits, pos: nat, version: nat)
    requires version < 3 && ParseDelta(Cursor(bits, pos, true), version).value.2.ok
    requires ParseDelta(Cursor(bits, pos, true), version).Some?
    ensures 3 <= |bits|
    ensures ParseDelta(Cursor(bits, pos, true), version)
            == Some((if Field(bits, 0, 3) > 0 then Consecutive(Field(bits, 0, 3)) else NoDelta, false,
                     After(bits, pos, 3)))
  {
    assert bits[0..] == bits;
    Taken(bits, pos, 0, 3);
  }

  /** From version 3 on: four bits of kind; an order of three bits; exponents of the window
      and of the order; or quantization, bias, number of weights and weights; and, but for
      weights, a bit that says whether the delta applies to the secondary latent. */
  lemma {:induction false} DeltaFields(bits: Bits, pos: nat, version: nat)
    requires version >= 3 && ParseDelta(Cursor(bits, pos, true), version).Some?
    requires ParseDelta(Cursor(bits, pos, true), version).value.2.ok
    ensures 4 <= |bits|
    ensures var (delta, secondary, end) := ParseDelta(Cursor(bits, pos, true), version).value;
            match Field(bits, 0, 4)
            case 0 => delta == NoDelta && !secondary && end == After(bits, pos, 4)
            case 1 =>
              && 8 <= |bits| && delta == Consecutive(Field(bits, 4, 3)) && secondary == (Field(bits, 7, 1) != 0)
              && end == After(bits, pos, 8)
            case 2 =>
              && 14 <= |bits| && delta == Lookbacks(Pow2(Field(bits, 9, 4)), Pow2(1 + Field(bits, 4, 5)))
              && secondary == (Field(bits, 13, 1) != 0) && end == After(bits, pos, 14)
            case 3 =>
              && 78 <= |bits| && delta.Convolutional? && !secondary
              && delta.quant == Field(bits, 4, 5) && delta.bias == Field(bits, 9, 64) - Pow2(63)
              && |delta.weights| == 1 + Field(bits, 73, 5)
              && Table(bits, 78, 32, Stored(delta.weights)) && end == After(bits, pos, 78 + Size(|delta.weights|, 32))
            case _ => false
  {
    hide ToNat, Cursor.Take, Field, Table, ReadMany, Size, Pow2;
    assert bits[0..] == bits;
    var (kind, c1) := Cursor(bits, pos, true).Take(4);
    if kind == 0 { Taken(bits, pos, 0, 4); }
    if kind == 1 {
      var (order, c2) := c1.Take(3);
      StillOk(c2, 1);
      StillOk(c1, 3);
      Taken(bits, pos, 0, 4);
      Taken(bits, pos, 4, 3);
      Taken(bits, pos, 7, 1);
    }
    if kind == 2 { LookbackFields(bits, pos); }
    if kind == 3 { ConvolutionFields(bits, pos); }
  }

  /** Weights as they are stored, with an offset of 2^31. */
  ghost function Stored(weights: seq<int>): (r: seq<nat>)
    ensures |r| == |weights|
  {
    seq(|weights|, i requires 0 <= i < |weights| =>
      if weights[i] + Pow2(31) >= 0 then weights[i] + Pow2(31) else 0)
  }

  lemma {:induction false} StoredShifted(weights: seq<nat>)
    ensures Stored(Shifted(weights)) == weights
  {
    hide Pow2;
  }

  lemma {:induction false} LookbackFields(bits: Bits, pos: nat)
    requires var c1 := Cursor(bits, pos, true).Take(4).1;
             var c2 := c1.Take(5).1;
             var c3 := c2.Take(4).1;
             c3.Take(1).1.ok
    ensures var (kind, c1) := Cursor(bits, pos, true).Take(4);
            var (window, c2) := c1.Take(5);
            var (order, c3) := c2.Take(4);
            var (secondary, c4) := c3.Take(1);
            && 14 <= |bits| && kind == Field(bits, 0, 4) && window == Field(bits, 4, 5) && order == Field(bits, 9, 4)
            && secondary == Field(bits, 13, 1) && c4 == After(bits, pos, 14)
  {
    hide ToNat, Cursor.Take, Field;
    assert bits[0..] == bits;
    var c1 := Cursor(bits, pos, true).Take(4).1;
    var c2 := c1.Take(5).1;
    StillOk(c2.Take(4).1, 1);
    StillOk(c2, 4);
    StillOk(c1, 5);
    Taken(bits, pos, 0, 4);
    Taken(bits, pos, 4, 5);
    Taken(bits, pos, 9, 4);
    Taken(bits, pos, 13, 1);
  }

  /** The reads after the kind of a convolution. */
  function ConvolutionReads(c: Cursor): (nat, nat, nat, seq<nat>, Cursor) {
    var (quant, c1) := c.Take(5);
    var (bias, c2) := c1.Take(64);
    var (count, c3) := c2.Take(5);
    var (weights, c4) := ReadMany(c3, 32, 1 + count);
    (quant, bias, count, weights, c4)
  }

  lemma {:induction false} ConvolutionFields(bits: Bits, pos: nat)
    requires ConvolutionReads(Cursor(bits, pos, true).Take(4).1).4.ok
    ensures 78 <= |bits| && Cursor(bits, pos, true).Take(4).0 == Field(bits, 0, 4)
    ensures var (quant, bias, count, weights, end) := ConvolutionReads(Cursor(bits, pos, true).Take(4).1);
            && quant == Field(bits, 4, 5) && bias == Field(bits, 9, 64) && count == Field(bits, 73, 5)
            && |weights| == 1 + count && Table(bits, 78, 32, weights) && Stored(Shifted(weights)) == weights
            && end == After(bits, pos, 78 + Size(1 + count, 32))
  {
    hide ToNat, Cursor.Take, Field, Table, ReadMany, Size, Stored, Shifted;
    assert bits[0..] == bits;
    var c1 := Cursor(bits, pos, true).Take(4).1;
    var c2 := c1.Take(5).1;
    var c3 := c2.Take(64).1;
    var (count, c4) := c3.Take(5);
    ManyOk(c4, 32, 1 + count);
    StillOk(c3, 5);
    StillOk(c2, 64);
    StillOk(c1, 5);
    Taken(bits, pos, 0, 4);
    Taken(bits, pos, 4, 5);
    Taken(bits, pos, 9, 64);
    Taken(bits, pos, 73, 5);
    ManyTaken(bits, pos, 78, 32, 1 + count);
    StoredShifted(ReadMany(c4, 32, 1 + count).0);
  }

  // ----------------------------------------------------------------------- latents

  function BinSize(log: nat, width: nat): nat { log + width + Len(width) }

  /** A bin is a weight, less 1, of as many bits as the logarithm of the table size, a lower
      bound of the latent's width, and an offset width of as many bits as that width needs. */
  predicate BinAt(bits: Bits, at: nat, log: nat, width: nat, b: Bin) {
    && at + BinSize(log, width) <= |bits| && b.weight == 1 + Field(bits, at, log)
    && b.lower == Field(bits, at + log, width) && b.offset == Field(bits, at + log + width, Len(width))
  }

  lemma {:induction false} BinTaken(bits: Bits, pos: nat, at: nat, log: nat, width: nat)
    requires at <= |bits| && PcoLatents.ParseBin(After(bits, pos, at), log, width).1.ok
    ensures BinAt(bits, at, log, width, PcoLatents.ParseBin(After(bits, pos, at), log, width).0)
    ensures PcoLatents.ParseBin(After(bits, pos, at), log, width).1 == After(bits, pos, at + BinSize(log, width))
  {
    hide ToNat, Cursor.Take, Field, Len;
    var c1 := After(bits, pos, at).Take(log).1;
    StillOk(c1.Take(width).1, Len(width));
    StillOk(c1, width);
    Taken(bits, pos, at, log);
    Taken(bits, pos, at + log, width);
    Taken(bits, pos, at + log + width, Len(width));
  }

  lemma {:induction false} BinOk(c: Cursor, log: nat, width: nat)
    ensures PcoLatents.ParseBin(c, log, width).1.ok ==> c.ok
  {
    hide Cursor.Take, Len;
    var c1 := c.Take(log).1;
    StillOk(c1.Take(width).1, Len(width));
    StillOk(c1, width);
    StillOk(c, log);
  }

  lemma {:induction false} BinsOk(c: Cursor, log: nat, width: nat, n: nat)
    requires PcoLatents.ParseBins(c, log, width, n).Some?
    ensures PcoLatents.ParseBins(c, log, width, n).value.1.ok ==> c.ok
    decreases n
  {
    hide PcoLatents.ParseBin;
    if n > 0 {
      BinsOk(PcoLatents.ParseBin(c, log, width).1, log, width, n - 1);
      BinOk(c, log, width);
    }
  }

  /** Bins of equal size, one after the other. */
  predicate BinsAt(bits: Bits, at: nat, log: nat, width: nat, bins: seq<Bin>) {
    forall k: nat | k < |bins| :: BinAt(bits, at + Size(k, BinSize(log, width)), log, width, bins[k])
  }

  lemma {:induction false} BinsMore(bits: Bits, at: nat, log: nat, width: nat, b: Bin, bins: seq<Bin>)
    requires BinAt(bits, at, log, width, b) && BinsAt(bits, at + BinSize(log, width), log, width, bins)
    ensures BinsAt(bits, at, log, width, [b] + bins)
  {
    hide Len, BinAt, BinSize, Size;
    NoSize(BinSize(log, width));
    var size := BinSize(log, width);
    forall k: nat | k < |bins| + 1 ensures BinAt(bits, at + Size(k, size), log, width, ([b] + bins)[k]) {
      if k > 0 {
        assert BinAt(bits, at + size + Size(k - 1, size), log, width, bins[k - 1]);
        SizeMore(k, size);
      }
    }
  }

  lemma {:induction false} BinsTaken(bits: Bits, pos: nat, at: nat, log: nat, width: nat, n: nat)
    requires at <= |bits| && PcoLatents.ParseBins(After(bits, pos, at), log, width, n).Some?
    requires PcoLatents.ParseBins(After(bits, pos, at), log, width, n).value.1.ok
    ensures BinsAt(bits, at, log, width, PcoLatents.ParseBins(After(bits, pos, at), log, width, n).value.0)
    ensures at + Size(n, BinSize(log, width)) <= |bits|
    ensures PcoLatents.ParseBins(After(bits, pos, at), log, width, n).value.1
            == After(bits, pos, at + Size(n, BinSize(log, width)))
    decreases n
  {
    hide PcoLatents.ParseBin, BinAt, BinsAt, After, Len, BinSize, Size;
    NoSize(BinSize(log, width));
    var size := BinSize(log, width);
    if n == 0 {
      NoBins(bits, at, log, width);
    } else {
      var (b, next) := PcoLatents.ParseBin(After(bits, pos, at), log, width);
      BinsOk(next, log, width, n - 1);
      BinTaken(bits, pos, at, log, width);
      BinEnds(bits, at, log, width, b);
      BinsTaken(bits, pos, at + size, log, width, n - 1);
      SizeMore(n, size);
      BinsMore(bits, at, log, width, b, PcoLatents.ParseBins(next, log, width, n - 1).value.0);
    }
  }

  lemma {:induction false} NoBins(bits: Bits, at: nat, log: nat, width: nat)
    ensures BinsAt(bits, at, log, width, [])
  {
  }

  lemma {:induction false} BinEnds(bits: Bits, at: nat, log: nat, width: nat, b: Bin)
    requires BinAt(bits, at, log, width, b)
    ensures at + BinSize(log, width) <= |bits|
  {
  }

  /** A latent is four bits of the logarithm of its table size, 15 bits of its number of
      bins, and the bins. */
  lemma {:induction false} LatentFields(bits: Bits, pos: nat, width: nat)
    requires PcoLatents.Parse(Cursor(bits, pos, true), width).Some?
    ensures 19 <= |bits|
    ensures var (log, bins, end) := PcoLatents.Parse(Cursor(bits, pos, true), width).value;
            && log == Field(bits, 0, 4) && |bins| == Field(bits, 4, 15) && BinsAt(bits, 19, log, width, bins)
            && 19 + Size(|bins|, BinSize(log, width)) <= |bits|
            && end == After(bits, pos, 19 + Size(|bins|, BinSize(log, width)))
  {
    hide ToNat, Cursor.Take, Field, PcoLatents.ParseBins, BinsAt, Len, Pow2, Total, BinSize, Size;
    assert bits[0..] == bits;
    StillOk(Cursor(bits, pos, true).Take(4).1, 15);
    Taken(bits, pos, 0, 4);
    Taken(bits, pos, 4, 15);
    var (log, bins, end) := PcoLatents.Parse(Cursor(bits, pos, true), width).value;
    BinsTaken(bits, pos, 19, log, width, |bins|);
  }

  // ------------------------------------------------------------------------- pages

  /** A variable's part of a page header: its initial values and its four lane states. */
  lemma {:induction false} HeaderFields(bits: Bits, pos: nat, at: nat, v: PcoLatents.Latent, order: nat)
    requires at <= |bits| && PcoPage.ReadVar(After(bits, pos, at), v, order).1.ok
    ensures var (p, end) := PcoPage.ReadVar(After(bits, pos, at), v, order);
            var states := at + if v.delta then Size(order, v.width) else 0;
            && |p.state| == (if v.delta then order else 0) && Table(bits, at, v.width, p.state)
            && |p.ans| == 4 && Table(bits, states, v.log, p.ans) && p.values == []
            && states + Size(4, v.log) <= |bits| && end == After(bits, pos, states + Size(4, v.log))
  {
    hide Table, ReadMany, After, Size;
    NoSize(v.width);
    var (state, c1) := ReadMany(After(bits, pos, at), v.width, StateSize(v, order));
    ManyOk(c1, v.log, 4);
    ManyTaken(bits, pos, at, v.width, StateSize(v, order));
    ManyTaken(bits, pos, at + Size(StateSize(v, order), v.width), v.log, 4);
  }

  /** The bits of the offsets of the first `k` values of a batch. */
  function OffsetBits(nodes: seq<Node>, k: nat): nat
    requires k <= |nodes|
  {
    if k == 0 then 0 else OffsetBits(nodes, k - 1) + nodes[k - 1].offset
  }

  lemma {:induction false} OffsetBitsTail(nodes: seq<Node>, k: nat)
    requires 0 < k <= |nodes|
    ensures OffsetBits(nodes, k) == nodes[0].offset + OffsetBits(nodes[1..], k - 1)
  {
    if k > 1 { OffsetBitsTail(nodes, k - 1); }
  }

  lemma {:induction false} ExtrasOk(c: Cursor, nodes: seq<Node>, width: nat)
    ensures PcoBatches.Extras(c, nodes, width).1.ok ==> c.ok
    decreases |nodes|
  {
    hide Cursor.Take;
    if nodes != [] {
      ExtrasOk(c.Take(nodes[0].offset).1, nodes[1..], width);
      StillOk(c, nodes[0].offset);
    }
  }

  /** The values of a batch are the lower bounds of their bins plus offsets, which follow one
      another after the bits of all states. */
  lemma {:induction false} OffsetFields(bits: Bits, pos: nat, at: nat, nodes: seq<Node>, width: nat, k: nat)
    requires at <= |bits| && PcoBatches.Extras(After(bits, pos, at), nodes, width).1.ok && k < |nodes|
    ensures at + OffsetBits(nodes, k) + nodes[k].offset <= |bits|
    ensures PcoBatches.Extras(After(bits, pos, at), nodes, width).0[k]
            == Low(nodes[k].lower + Field(bits, at + OffsetBits(nodes, k), nodes[k].offset), width)
    decreases |nodes|
  {
    hide ToNat, Cursor.Take, Field, After, Low;
    var c1 := After(bits, pos, at).Take(nodes[0].offset).1;
    ExtrasOk(c1, nodes[1..], width);
    Taken(bits, pos, at, nodes[0].offset);
    if k > 0 {
      OffsetBitsTail(nodes, k);
      OffsetFields(bits, pos, at + nodes[0].offset, nodes[1..], width, k - 1);
    }
  }

  // -------------------------------------------------------------------- whole chunks

  /** A latent with these bins is read at `c`, and the next thing at `end`. */
  ghost predicate LatentAt(v: PcoLatents.Latent, c: Cursor, width: nat, delta: bool, end: Cursor) {
    && PcoLatents.Parse(c, width) == Some((v.log, v.bins, end)) && v.width == width && v.delta == delta
    && v.Valid()
  }

  /** The joined latents after `c`: the primary one, of 32 bits if it indexes a dictionary,
      and the secondary one if the mode has one; nothing comes after them. */
  ghost predicate JoinedAt(vars: seq<PcoLatents.Latent>, m: ModeInfo, width: nat, c: Cursor, delta: bool,
                           secondary: bool)
  {
    && |vars| == (if m.HasSecondary() then 2 else 1)
    && exists end: Cursor ::
      && LatentAt(vars[0], c, if m.DictMode? then 32 else width, delta, end)
      && if m.HasSecondary() then LastAt(vars[1], end, width, secondary) else end.Finished()
  }

  ghost predicate LastAt(v: PcoLatents.Latent, c: Cursor, width: nat, delta: bool) {
    exists end: Cursor :: LatentAt(v, c, width, delta, end) && end.Finished()
  }

  lemma {:induction false} VarAt(c: Cursor, width: nat, delta: bool)
    requires 1 <= width <= 64 && ParseVar(c, width, delta).Some?
    ensures LatentAt(ParseVar(c, width, delta).value.0, c, width, delta, ParseVar(c, width, delta).value.1)
  {
    hide PcoLatents.Parse, PcoLatents.Latent.Valid;
  }

  lemma {:induction false} JoinedFound(c: Cursor, m: ModeInfo, width: nat, delta: bool, secondary: bool)
    requires IsWidth(width) && ParseJoined(c, m, width, delta, secondary).Some?
    requires ParseJoined(c, m, width, delta, secondary).value.1.Finished()
    ensures JoinedAt(ParseJoined(c, m, width, delta, secondary).value.0, m, width, c, delta, secondary)
  {
    hide ParseVar, LatentAt, LastAt, Cursor.Finished, JoinedAt;
    var (p, c1) := ParseVar(c, m.Width(width), delta).value;
    VarAt(c, m.Width(width), delta);
    if m.HasSecondary() {
      var (s, end) := ParseVar(c1, width, secondary).value;
      VarAt(c1, width, secondary);
      assert LastAt(s, c1, width, secondary) by { LastFound(s, c1, width, secondary, end); }
      JoinedIs([p, s], m, width, c, delta, secondary, c1);
    } else {
      JoinedIs([p], m, width, c, delta, secondary, c1);
    }
  }

  lemma {:induction false} LastFound(v: PcoLatents.Latent, c: Cursor, width: nat, delta: bool, end: Cursor)
    requires LatentAt(v, c, width, delta, end) && end.Finished()
    ensures LastAt(v, c, width, delta)
  {
    hide LatentAt, Cursor.Finished;
  }

  lemma {:induction false} JoinedIs(vars: seq<PcoLatents.Latent>, m: ModeInfo, width: nat, c: Cursor, delta: bool,
                                    secondary: bool, end: Cursor)
    requires |vars| == (if m.HasSecondary() then 2 else 1)
    requires LatentAt(vars[0], c, m.Width(width), delta, end)
    requires if m.HasSecondary() then LastAt(vars[1], end, width, secondary) else end.Finished()
    ensures JoinedAt(vars, m, width, c, delta, secondary)
  {
    hide LatentAt, LastAt, Cursor.Finished;
  }

  /** The order of a chunk's metadata: mode, delta, the latent of the lookbacks if there are
      any, the primary latent and the secondary one, and nothing more. */
  lemma {:induction false} ChunkOrder(fl: Floats, data: seq<byte>, version: nat, width: nat, kind: Kind)
    requires IsWidth(width) && ParseChunk(fl, data, version, width, kind).Some?
    ensures ParseMode(Cursor(BitsOf(data), 0, true), |data|, width).Some?
    ensures var chunk := ParseChunk(fl, data, version, width, kind).value;
            var (m, c1) := ParseMode(Cursor(BitsOf(data), 0, true), |data|, width).value;
            && chunk.width == width && chunk.kind == kind && chunk.mode == m.Mode(fl, width) && m.Ok(fl, width, kind)
            && ParseDelta(c1, version).Some?
            && var (delta, secondary, c2) := ParseDelta(c1, version).value;
               && Checked(delta, m.Width(width)) == Some(chunk.delta)
               && if !delta.Lookbacks? then JoinedAt(chunk.vars, m, width, c2, delta != NoDelta, secondary)
                  else |chunk.vars| > 0 && LooksFirst(chunk.vars, m, width, c2, secondary)
  {
    hide ParseMode, ParseDelta, Checked, ParseVar, ParseJoined, BitsOf, LatentAt, JoinedAt, Cursor.Finished,
      ModeInfo.Mode, ModeInfo.Ok, ModeInfo.Width;
    var (m, c1) := ParseMode(Cursor(BitsOf(data), 0, true), |data|, width).value;
    var (delta, secondary, c2) := ParseDelta(c1, version).value;
    var (looks, c3) := ParseLooks(c2, delta).value;
    JoinedFound(c3, m, width, delta != NoDelta, secondary);
    var vars := ParseJoined(c3, m, width, delta != NoDelta, secondary).value.0;
    if delta.Lookbacks? {
      VarAt(c2, 32, false);
      assert (looks + vars)[1..] == vars;
    } else {
      assert looks + vars == vars;
    }
  }

  /** The latent of the lookbacks, of 32 bits, comes before the joined ones. */
  ghost predicate LooksFirst(vars: seq<PcoLatents.Latent>, m: ModeInfo, width: nat, c: Cursor, secondary: bool)
    requires |vars| > 0
  {
    exists next: Cursor :: LatentAt(vars[0], c, 32, false, next) && JoinedAt(vars[1..], m, width, next, true, secondary)
  }
}
