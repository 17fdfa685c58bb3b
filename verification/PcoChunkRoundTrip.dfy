/** A ghost writer for chunk metadata, and the proof that `ParseChunk` inverts it: every
    chunk that passes the checks is read back from its written form. */
module PcoChunkRoundTrip {
  import opened Wrappers
  import opened Words
  import opened BitStrings
  import opened AnsTable
  import opened PcoReader
  import opened PcoLatents
  import opened PcoDelta
  import opened PcoModes
  import opened PcoPage
  import opened PcoPageRoundTrip
  import opened Float64
  import opened PcoChunks

  // ------------------------------------------------------------------------ modes

  /** The fields of a mode fit their bits. */
  predicate ModeFits(m: ModeInfo, width: nat) {
    match m
    case PlainMode => true
    case IntMode(base) => base < Pow2(width)
    case FloatMode(base) => base < Pow2(width)
    case QuantMode(quant) => quant < Pow2(8)
    case DictMode(dict) => |dict| < Pow2(25) && AllBelow(dict, Pow2(width))
  }

  function WriteMode(m: ModeInfo, width: nat): Bits {
    match m
    case PlainMode => FromNat(0, 4)
    case IntMode(base) => FromNat(1, 4) + FromNat(base, width)
    case FloatMode(base) => FromNat(2, 4) + FromNat(base, width)
    case QuantMode(quant) => FromNat(3, 4) + FromNat(quant, 8)
    case DictMode(dict) => FromNat(4, 4) + (FromNat(|dict|, 25) + (Padding(29) + WriteMany(dict, width)))
  }

  lemma {:induction false} ModeWritten(m: ModeInfo, size: nat, width: nat, tail: Bits)
    requires 0 < width <= 64 && ModeFits(m, width) && (m.DictMode? ==> |m.dict| <= size * 8 / width)
    ensures ParseMode(Cursor(WriteMode(m, width) + tail, 0, true), size, width)
            == Some((m, Cursor(tail, |WriteMode(m, width)|, true)))
  {
    hide FromNat, Cursor.Take, Cursor.Align, Padding, Pow2, WriteMany, ReadMany;
    Powers();
    match m
    case PlainMode => TakeWritten(0, 4, tail, 0);
    case IntMode(base) => TwoFields(1, 4, base, width, tail, 0);
    case FloatMode(base) => TwoFields(2, 4, base, width, tail, 0);
    case QuantMode(quant) => TwoFields(3, 4, quant, 8, tail, 0);
    case DictMode(dict) =>
      var n, pad, body := FromNat(|dict|, 25), Padding(29), WriteMany(dict, width);
      Assoc(FromNat(4, 4), n + (pad + body), tail);
      Assoc(n, pad + body, tail);
      Assoc(pad, body, tail);
      TakeWritten(4, 4, n + (pad + (body + tail)), 0);
      TakeWritten(|dict|, 25, pad + (body + tail), 4);
      AlignWritten(body + tail, 29);
      ReadManyWritten(dict, width, tail, 29 + |pad|);
  }

  /** Two fields, one after the other. */
  lemma {:induction false} TwoFields(x: nat, m: nat, y: nat, n: nat, tail: Bits, pos: nat)
    requires m <= 64 && n <= 64 && x < Pow2(m) && y < Pow2(n)
    ensures var bits := FromNat(x, m) + FromNat(y, n);
            var c1 := Cursor(FromNat(y, n) + tail, pos + m, true);
            && Cursor(bits + tail, pos, true).Take(m) == (x, c1)
            && c1.Take(n) == (y, Cursor(tail, pos + m + n, true)) && |bits| == m + n
  {
    hide Cursor.Take, Pow2;
    Assoc(FromNat(x, m), FromNat(y, n), tail);
    TakeWritten(x, m, FromNat(y, n) + tail, pos);
    TakeWritten(y, n, tail, pos + m);
  }

  // ----------------------------------------------------------------------- deltas

  /** The fields of a delta fit their bits; orders and windows of lookbacks are powers of
      two. Before version 3 there is only the order. */
  predicate DeltaFits(delta: DeltaKind, secondary: bool, version: nat) {
    if version < 3 then !secondary && (delta == NoDelta || (delta.Consecutive? && 1 <= delta.order < Pow2(3)))
    else
      match delta
      case NoDelta => !secondary
      case Consecutive(order) => 1 <= order < Pow2(3)
      case Lookbacks(order, window) =>
        && IsPower(order) && IsPower(window)
        && 2 <= Len(window) <= 25 && Len(order) <= Len(window) && Len(order) <= 16
      case Convolutional(bias, quant, weights) =>
        !secondary && quant < Pow2(5) && Stored(bias, weights)
  }

  predicate IsPower(x: nat) { Len(x) > 0 && x == Pow2(Len(x) - 1) }

  /** Weights with their offset. */
  function Unshifted(weights: seq<int>): (r: seq<nat>)
    requires forall i | 0 <= i < |weights| :: 0 - Pow2(31) <= weights[i]
    ensures |r| == |weights|
  {
    seq(|weights|, i requires 0 <= i < |weights| => weights[i] + Pow2(31))
  }

  function Flag(b: bool): nat { if b then 1 else 0 }

  function WriteDelta(delta: DeltaKind, secondary: bool, version: nat): Bits
    requires DeltaFits(delta, secondary, version)
  {
    if version < 3 then FromNat(if delta.Consecutive? then delta.order else 0, 3)
    else
      match delta
      case NoDelta => FromNat(0, 4)
      case Consecutive(order) => FromNat(1, 4) + (FromNat(order, 3) + FromNat(Flag(secondary), 1))
      case Lookbacks(order, window) =>
        FromNat(2, 4) + (FromNat(Len(window) - 2, 5) + (FromNat(Len(order) - 1, 4) + FromNat(Flag(secondary), 1)))
      case Convolutional(bias, quant, weights) =>
        FromNat(3, 4) + (FromNat(quant, 5) + (FromNat(bias + Pow2(63), 64)
          + (FromNat(|weights| - 1, 5) + WriteMany(Unshifted(weights), 32))))
  }

  lemma {:induction false} DeltaWritten(delta: DeltaKind, secondary: bool, version: nat, tail: Bits, pos: nat)
    requires DeltaFits(delta, secondary, version)
    ensures var bits := WriteDelta(delta, secondary, version);
            ParseDelta(Cursor(bits + tail, pos, true), version)
            == Some((delta, secondary, Cursor(tail, pos + |bits|, true)))
  {
    hide FromNat, Cursor.Take, Pow2, WriteMany, ReadMany, Len;
    Powers();
    if version < 3 {
      TakeWritten(if delta.Consecutive? then delta.order else 0, 3, tail, pos);
    } else {
      match delta
      case NoDelta => TakeWritten(0, 4, tail, pos);
      case Consecutive(order) =>
        var rest := FromNat(order, 3) + FromNat(Flag(secondary), 1);
        Assoc(FromNat(1, 4), rest, tail);
        TakeWritten(1, 4, rest + tail, pos);
        TwoFields(order, 3, Flag(secondary), 1, tail, pos + 4);
      case Lookbacks(order, window) => LookbacksWritten(order, window, secondary, version, tail, pos);
      case Convolutional(bias, quant, weights) => ConvolutionWritten(bias, quant, weights, version, tail, pos);
    }
  }

  lemma {:induction false} LookbacksWritten(order: nat, window: nat, secondary: bool, version: nat, tail: Bits,
                                            pos: nat)
    requires version >= 3 && DeltaFits(Lookbacks(order, window), secondary, version)
    ensures var bits := WriteDelta(Lookbacks(order, window), secondary, version);
            ParseDelta(Cursor(bits + tail, pos, true), version)
            == Some((Lookbacks(order, window), secondary, Cursor(tail, pos + |bits|, true)))
  {
    hide FromNat, Cursor.Take, Pow2, Len;
    Powers();
    var w, rest := FromNat(Len(window) - 2, 5), FromNat(Len(order) - 1, 4) + FromNat(Flag(secondary), 1);
    Assoc(FromNat(2, 4), w + rest, tail);
    Assoc(w, rest, tail);
    TakeWritten(2, 4, w + (rest + tail), pos);
    TakeWritten(Len(window) - 2, 5, rest + tail, pos + 4);
    TwoFields(Len(order) - 1, 4, Flag(secondary), 1, tail, pos + 4 + 5);
  }

  lemma {:induction false} ConvolutionWritten(bias: int, quant: nat, weights: seq<int>, version: nat, tail: Bits,
                                              pos: nat)
    requires version >= 3 && DeltaFits(Convolutional(bias, quant, weights), false, version)
    ensures var delta := Convolutional(bias, quant, weights);
            var bits := WriteDelta(delta, false, version);
            ParseDelta(Cursor(bits + tail, pos, true), version)
            == Some((delta, false, Cursor(tail, pos + |bits|, true)))
  {
    hide FromNat, Cursor.Take, Pow2, WriteMany, ReadMany;
    Powers();
    EvenPower(32);
    EvenPower(64);
    var q, b, n := FromNat(quant, 5), FromNat(bias + Pow2(63), 64), FromNat(|weights| - 1, 5);
    var stored := Unshifted(weights);
    var body := WriteMany(stored, 32);
    Assoc(FromNat(3, 4), q + (b + (n + body)), tail);
    Assoc(q, b + (n + body), tail);
    Assoc(b, n + body, tail);
    Assoc(n, body, tail);
    TakeWritten(3, 4, q + (b + (n + (body + tail))), pos);
    TakeWritten(quant, 5, b + (n + (body + tail)), pos + 4);
    TakeWritten(bias + Pow2(63), 64, n + (body + tail), pos + 4 + 5);
    TakeWritten(|weights| - 1, 5, body + tail, pos + 4 + 5 + 64);
    ReadManyWritten(stored, 32, tail, pos + 4 + 5 + 64 + 5);
    assert Shifted(stored) == weights;
  }

  // --------------------------------------------------------------- latent variables

  ghost predicate AllValid(vars: seq<Latent>) { forall i | 0 <= i < |vars| :: vars[i].Valid() }

  ghost function VarBits(v: Latent): Bits
    requires v.Valid()
  {
    Write(v.bins, v.log, v.width)
  }

  ghost function WriteVars(vars: seq<Latent>): Bits
    requires AllValid(vars)
  {
    if vars == [] then [] else VarBits(vars[0]) + WriteVars(vars[1..])
  }

  lemma {:induction false} VarWritten(v: Latent, tail: Bits, pos: nat)
    requires v.Valid()
    ensures ParseVar(Cursor(VarBits(v) + tail, pos, true), v.width, v.delta)
            == Some((v, Cursor(tail, pos + |VarBits(v)|, true)))
  {
    hide Write, Parse, TableOf;
    ParseWritten(v.bins, v.log, v.width, tail, pos);
  }

  // -------------------------------------------------------------------------- chunks

  /** What a chunk's metadata says. */
  datatype ChunkInfo = ChunkInfo(mode: ModeInfo, delta: DeltaKind, secondary: bool, vars: seq<Latent>) {

    function Primary(): nat { if delta.Lookbacks? then 1 else 0 }

    /** One valid latent variable for each purpose. */
    ghost predicate VarsOk(width: nat) {
      && |vars| == Primary() + (if mode.HasSecondary() then 2 else 1)
      && AllValid(vars)
      && vars[Primary()].width == mode.Width(width) && vars[Primary()].delta == (delta != NoDelta)
      && (mode.HasSecondary() ==> vars[Primary() + 1].width == width && vars[Primary() + 1].delta == secondary)
      && (delta.Lookbacks? ==>
            && vars[0].width == 32 && !vars[0].delta
            && forall b | b in vars[0].bins :: 1 <= b.lower <= delta.window)
    }

    ghost predicate Ok(fl: Floats, version: nat, width: nat, kind: Kind) {
      && IsWidth(width) && mode.Ok(fl, width, kind) && ModeFits(mode, width)
      && DeltaFits(delta, secondary, version) && Checked(delta, mode.Width(width)).Some?
      && VarsOk(width)
    }

    /** The chunk that pages are decoded with. */
    ghost function Chunk(fl: Floats, version: nat, width: nat, kind: Kind): Chunk
      requires Ok(fl, version, width, kind)
    {
      PcoPage.Chunk(width, kind, mode.Mode(fl, width), Checked(delta, mode.Width(width)).value, vars)
    }

    ghost function Bits(version: nat, width: nat): (bits: Bits)
      requires DeltaFits(delta, secondary, version) && VarsOk(width)
      ensures |bits| % 8 == 0
    {
      var body := WriteMode(mode, width) + (WriteDelta(delta, secondary, version) + WriteVars(vars));
      body + Padding(|body|)
    }

    ghost function Write(version: nat, width: nat): seq<byte>
      requires DeltaFits(delta, secondary, version) && VarsOk(width)
    {
      Pack(Bits(version, width))
    }
  }

  lemma {:induction false} JoinedWritten(i: ChunkInfo, width: nat, tail: Bits, pos: nat)
    requires IsWidth(width) && i.VarsOk(width)
    ensures var vars := i.vars[i.Primary()..];
            ParseJoined(Cursor(WriteVars(vars) + tail, pos, true), i.mode, width, i.delta != NoDelta, i.secondary)
            == Some((vars, Cursor(tail, pos + |WriteVars(vars)|, true)))
  {
    hide VarBits, ParseVar, Latent.Valid;
    var vars := i.vars[i.Primary()..];
    var p := vars[0];
    if i.mode.HasSecondary() {
      var s := vars[1];
      assert vars == [p, s] && vars[1..] == [s] && [s][1..] == [];
      assert WriteVars(vars) == VarBits(p) + VarBits(s) by { OneVar(s); }
      Assoc(VarBits(p), VarBits(s), tail);
      VarWritten(p, VarBits(s) + tail, pos);
      VarWritten(s, tail, pos + |VarBits(p)|);
    } else {
      assert vars == [p];
      OneVar(p);
      VarWritten(p, tail, pos);
    }
  }

  lemma {:induction false} OneVar(v: Latent)
    requires v.Valid()
    ensures WriteVars([v]) == VarBits(v)
  {
    hide VarBits, Latent.Valid;
    assert [v][1..] == [];
    assert VarBits(v) + [] == VarBits(v);
  }

  lemma {:induction false} LooksWritten(i: ChunkInfo, width: nat, tail: Bits, pos: nat)
    requires IsWidth(width) && i.VarsOk(width)
    ensures var looks := i.vars[..i.Primary()];
            ParseLooks(Cursor(WriteVars(looks) + tail, pos, true), i.delta)
            == Some((looks, Cursor(tail, pos + |WriteVars(looks)|, true)))
  {
    hide VarBits, ParseVar, Latent.Valid;
    if i.delta.Lookbacks? {
      assert i.vars[..1] == [i.vars[0]];
      OneVar(i.vars[0]);
      VarWritten(i.vars[0], tail, pos);
    } else {
      assert i.vars[..0] == [] && [] + tail == tail;
    }
  }

  lemma {:induction false} WriteVarsSplit(vars: seq<Latent>, k: nat)
    requires AllValid(vars) && k <= 1 && k <= |vars|
    ensures WriteVars(vars) == WriteVars(vars[..k]) + WriteVars(vars[k..])
  {
    hide VarBits, Latent.Valid;
    if k == 0 {
      assert vars[..0] == [] && vars[0..] == vars && [] + WriteVars(vars) == WriteVars(vars);
    } else {
      assert vars[..1] == [vars[0]];
      OneVar(vars[0]);
    }
  }

  lemma {:induction false} DictionarySize(i: ChunkInfo, version: nat, width: nat)
    requires width > 0 && DeltaFits(i.delta, i.secondary, version) && i.VarsOk(width) && i.mode.DictMode?
    ensures |i.mode.dict| <= |i.Write(version, width)| * 8 / width
  {
    hide FromNat, Padding, WriteMany, WriteDelta, WriteVars, ChunkInfo.VarsOk, DeltaFits, BitsOf, Pack, Pow2;
    var bits := i.Bits(version, width);
    BitsOfPack(bits);
    WriteManyLength(i.mode.dict, width);
    assert |WriteMany(i.mode.dict, width)| <= |WriteMode(i.mode, width)| <= |bits|;
    AtLeast(|i.mode.dict|, width, |bits|);
    BitsLength(i.Write(version, width));
  }

  lemma {:induction false} BitsLength(data: seq<byte>)
    ensures |BitsOf(data)| == |data| * 8
  {
  }

  lemma {:induction false} AtLeast(n: nat, width: nat, size: nat)
    requires width > 0 && n * width <= size
    ensures n <= size / width
  {
    DivMod(size, width);
    if size / width + 1 <= n {
      MulMono(size / width + 1, n, width);
      Distribute(size / width, 1, width);
    }
  }

  lemma {:induction false} WriteManyLength(xs: seq<nat>, width: nat)
    ensures |WriteMany(xs, width)| == |xs| * width
  {
    if xs != [] {
      WriteManyLength(xs[1..], width);
      Distribute(|xs| - 1, 1, width);
    }
  }

  /** The written bits in the order in which they are read. */
  lemma {:induction false} BitsInOrder(i: ChunkInfo, version: nat, width: nat) returns (pad: Bits)
    requires DeltaFits(i.delta, i.secondary, version) && i.VarsOk(width) && AllValid(i.vars) && i.Primary() <= 1
    requires i.Primary() <= |i.vars| && AllValid(i.vars[..i.Primary()]) && AllValid(i.vars[i.Primary()..])
    ensures var m, d := WriteMode(i.mode, width), WriteDelta(i.delta, i.secondary, version);
            var looks, vars := WriteVars(i.vars[..i.Primary()]), WriteVars(i.vars[i.Primary()..]);
            && BitsOf(i.Write(version, width)) == m + (d + (looks + (vars + pad)))
            && pad == Padding(|m| + |d| + |looks| + |vars|)
  {
    hide WriteMode, WriteDelta, WriteVars, Padding, DeltaFits, ChunkInfo.VarsOk, BitsOf, Pack, AllValid;
    var m, d, k := WriteMode(i.mode, width), WriteDelta(i.delta, i.secondary, version), i.Primary();
    var looks, vars := WriteVars(i.vars[..k]), WriteVars(i.vars[k..]);
    pad := Padding(|m + (d + WriteVars(i.vars))|);
    WriteVarsSplit(i.vars, k);
    BitsOfPack(i.Bits(version, width));
    Assoc(m, d + WriteVars(i.vars), pad);
    Assoc(d, WriteVars(i.vars), pad);
    Assoc(looks, vars, pad);
  }

  /** The parsing steps, one after the other. */
  lemma {:induction false} ParsedInSteps(fl: Floats, data: seq<byte>, version: nat, width: nat, kind: Kind,
                                         i: ChunkInfo, c1: Cursor, c2: Cursor, c3: Cursor, end: Cursor)
    requires i.Ok(fl, version, width, kind) && i.Primary() <= |i.vars|
    requires ParseMode(Cursor(BitsOf(data), 0, true), |data|, width) == Some((i.mode, c1))
    requires ParseDelta(c1, version) == Some((i.delta, i.secondary, c2))
    requires ParseLooks(c2, i.delta) == Some((i.vars[..i.Primary()], c3))
    requires ParseJoined(c3, i.mode, width, i.delta != NoDelta, i.secondary) == Some((i.vars[i.Primary()..], end))
    requires end.Finished()
    ensures ParseChunk(fl, data, version, width, kind) == Some(i.Chunk(fl, version, width, kind))
  {
    hide ParseMode, ParseDelta, ParseLooks, ParseJoined, Checked, Cursor.Finished, ModeInfo.Ok, ModeInfo.Mode,
      ModeFits, DeltaFits, ChunkInfo.VarsOk, BitsOf;
    assert i.vars[..i.Primary()] + i.vars[i.Primary()..] == i.vars;
  }

  /** Chunk round trip: whatever the mode, the delta and the bins, metadata that passes
      the checks is parsed back into the chunk it describes. */
  lemma {:induction false} ChunkWritten(fl: Floats, i: ChunkInfo, version: nat, width: nat, kind: Kind)
    requires i.Ok(fl, version, width, kind)
    ensures ParseChunk(fl, i.Write(version, width), version, width, kind) == Some(i.Chunk(fl, version, width, kind))
  {
    hide WriteMode, WriteDelta, WriteVars, ParseMode, ParseDelta, ParseLooks, ParseJoined, ParseChunk, Padding,
      Checked, ModeInfo.Ok, ModeFits, DeltaFits, ChunkInfo.VarsOk, Cursor.Finished, ChunkInfo.Write, BitsOf,
      ChunkInfo.Chunk, Pow2;
    VarsShape(i, width);
    var data, k := i.Write(version, width), i.Primary();
    var pad := BitsInOrder(i, version, width);
    var m, d := WriteMode(i.mode, width), WriteDelta(i.delta, i.secondary, version);
    var looks, vars := WriteVars(i.vars[..k]), WriteVars(i.vars[k..]);
    var p2, p3 := |m| + |d|, |m| + |d| + |looks|;
    if i.mode.DictMode? { DictionarySize(i, version, width); }
    ModeWritten(i.mode, |data|, width, d + (looks + (vars + pad)));
    DeltaWritten(i.delta, i.secondary, version, looks + (vars + pad), |m|);
    LooksWritten(i, width, vars + pad, p2);
    JoinedWritten(i, width, pad, p3);
    FinishWritten(p3 + |vars|);
    ParsedInSteps(fl, data, version, width, kind, i, Cursor(d + (looks + (vars + pad)), |m|, true),
                  Cursor(looks + (vars + pad), p2, true), Cursor(vars + pad, p3, true),
                  Cursor(pad, p3 + |vars|, true));
  }

  lemma {:induction false} WrittenChunkValid(fl: Floats, i: ChunkInfo, version: nat, width: nat, kind: Kind)
    requires i.Ok(fl, version, width, kind)
    ensures i.Chunk(fl, version, width, kind).Valid()
  {
    hide ParseChunk, ChunkInfo.Write, ChunkInfo.Chunk, Chunk.Valid;
    ChunkWritten(fl, i, version, width, kind);
    ParsedChunkValid(fl, i.Write(version, width), version, width, kind);
  }

  lemma {:induction false} VarsShape(i: ChunkInfo, width: nat)
    requires i.VarsOk(width)
    ensures AllValid(i.vars) && i.Primary() <= |i.vars| && i.Primary() <= 1
    ensures AllValid(i.vars[..i.Primary()]) && AllValid(i.vars[i.Primary()..])
  {
    hide Latent.Valid;
  }
}
