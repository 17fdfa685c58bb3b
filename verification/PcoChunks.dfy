/** The metadata of a Pco chunk: mode, delta and latent variables, with the checks under
    which a page can be decoded. */
module PcoChunks {
  import opened Wrappers
  import opened Words
  import opened BitStrings
  import opened AnsTable
  import opened PcoReader
  import opened PcoLatents
  import opened PcoDelta
  import opened PcoModes
  import opened PcoPage
  import opened Float64

  /** Floating-point code: whether the float with these ordered bits is a multiplier (not
      zero, infinite or NaN), and the ordered bits of a latent times a multiplier. */
  datatype Floats = Floats(multiplier: (nat, nat) -> bool, product: (nat, nat, nat) -> nat)

  /** The mode as it is stored. */
  datatype ModeInfo =
    | PlainMode
    | IntMode(base: nat)
    | FloatMode(base: nat)
    | QuantMode(quant: nat)
    | DictMode(dict: seq<nat>)
  {
    predicate HasSecondary() { IntMode? || FloatMode? || QuantMode? }

    function Width(width: nat): nat { if DictMode? then 32 else width }

    /** The mode that joins latents. */
    function Mode(fl: Floats, width: nat): (mode: Mode)
      ensures mode.HasSecondary() == HasSecondary() && mode.Dictionary? == DictMode?
    {
      match this
      case PlainMode => Classic
      case IntMode(base) => IntMult(base)
      case FloatMode(base) => FloatMult((v: nat) => fl.product(base, width, v))
      case QuantMode(quant) => FloatQuant(quant)
      case DictMode(dict) => Dictionary(dict)
    }

    /** The checks of `parseChunk` on the mode, but for the size of the dictionary. */
    predicate Ok(fl: Floats, width: nat, kind: Kind) {
      match this
      case PlainMode => true
      case IntMode(base) => kind != Floating && base > 0
      case FloatMode(base) => kind == Floating && fl.multiplier(base, width)
      case QuantMode(quant) => kind == Floating && 1 <= quant <= Precision(width)
      case DictMode(_) => true
    }
  }

  /** Mantissa bits. */
  function Precision(width: nat): nat {
    if width == 16 then 10 else if width == 32 then 23 else if width == 64 then 52 else 0
  }

  function ParseMode(c: Cursor, size: nat, width: nat): Option<(ModeInfo, Cursor)>
    requires width > 0
  {
    var (mode, c1) := c.Take(4);
    match mode
    case 0 => Some((PlainMode, c1))
    case 1 => var (base, c2) := c1.Take(width); Some((IntMode(base), c2))
    case 2 => var (base, c2) := c1.Take(width); Some((FloatMode(base), c2))
    case 3 => var (quant, c2) := c1.Take(8); Some((QuantMode(quant), c2))
    case 4 =>
      var (n, c2) := c1.Take(25);
      if n > size * 8 / width then None
      else
        var (dict, c3) := ReadMany(c2.Align(), width, n);
        Some((DictMode(dict), c3))
    case _ => None
  }

  /** The delta and whether it applies to the secondary latent; convolution parameters as
      they are stored. */
  function ParseDelta(c: Cursor, version: nat): Option<(DeltaKind, bool, Cursor)> {
    if version < 3 then
      var (order, c1) := c.Take(3);
      Some((if order > 0 then Consecutive(order) else NoDelta, false, c1))
    else
      var (delta, c1) := c.Take(4);
      match delta
      case 0 => Some((NoDelta, false, c1))
      case 1 =>
        var (order, c2) := c1.Take(3);
        var (secondary, c3) := c2.Take(1);
        if order == 0 then None else Some((Consecutive(order), secondary != 0, c3))
      case 2 =>
        var (window, c2) := c1.Take(5);
        var (order, c3) := c2.Take(4);
        var (secondary, c4) := c3.Take(1);
        if 1 + window > 24 || order > 1 + window then None
        else Some((Lookbacks(Pow2(order), Pow2(1 + window)), secondary != 0, c4))
      case 3 =>
        var (quant, c2) := c1.Take(5);
        var (bias, c3) := c2.Take(64);
        var (count, c4) := c3.Take(5);
        var (weights, c5) := ReadMany(c4, 32, 1 + count);
        Some((Convolutional(bias - Pow2(63), quant, Shifted(weights)), false, c5))
      case _ => None
  }

  /** Weights are stored with an offset of 2^31. */
  function Shifted(weights: seq<nat>): (r: seq<int>)
    ensures |r| == |weights|
  {
    seq(|weights|, i requires 0 <= i < |weights| => weights[i] - Pow2(31))
  }

  /** Go's conversion to a signed integer of `bits` bits. */
  function Narrow(x: int, bits: nat): (r: int)
    requires bits > 0
    ensures 0 - Pow2(bits - 1) <= r < Pow2(bits - 1)
  {
    (x + Pow2(bits - 1)) % Pow2(bits) - Pow2(bits - 1)
  }

  /** It keeps the number modulo 2^bits. */
  lemma {:induction false} NarrowKeeps(x: int, bits: nat)
    requires bits > 0
    ensures (Narrow(x, bits) - x) % Pow2(bits) == 0
  {
    hide Pow2;
    var h, p := Pow2(bits - 1), Pow2(bits);
    DivMod(x + h, p);
    DivModUnique(Narrow(x, bits) - x, p, -((x + h) / p), 0);
  }

  /** The convolution's parameters as the decoder of `w`-bit latents keeps them. */
  function Narrowed(delta: DeltaKind, w: nat): (d: DeltaKind)
    requires delta.Convolutional?
    ensures d.Convolutional? && d.quant == delta.quant && |d.weights| == |delta.weights|
  {
    Convolutional(if w <= 16 && w > 0 then Narrow(delta.bias, 2 * w) else delta.bias, delta.quant,
                  if w == 8 then seq(|delta.weights|, i requires 0 <= i < |delta.weights| =>
                                       Narrow(delta.weights[i], 16))
                  else delta.weights)
  }

  /** They are kept if they pass the checks. */
  function Checked(delta: DeltaKind, w: nat): Option<DeltaKind>
    requires IsWidth(w)
  {
    if !delta.Convolutional? then Some(delta)
    else if w > 32 then None
    else
      var d := Narrowed(delta, w);
      if d.quant >= 2 * w || FloatBound(d.bias, d.weights, w, |d.weights|) >= Pow2(2 * w - 1) then None
      else Some(d)
  }

  ghost function ParseVar(c: Cursor, width: nat, delta: bool): (r: Option<(Latent, Cursor)>)
    requires 1 <= width <= 64
    ensures r.Some? ==> r.value.0.Valid() && r.value.0.width == width && r.value.0.delta == delta
  {
    match Parse(c, width)
    case None => None
    case Some((log, bins, end)) =>
      ParseAccepts(c, width);
      Some((Latent(width, log, bins, TableOf(bins, log), delta), end))
  }

  /** The lookback variable, if the delta has one. */
  ghost function ParseLooks(c: Cursor, delta: DeltaKind): Option<(seq<Latent>, Cursor)> {
    if !delta.Lookbacks? then Some(([], c))
    else match ParseVar(c, 32, false)
         case None => None
         case Some((v, end)) =>
           if forall b | b in v.bins :: 1 <= b.lower <= delta.window then Some(([v], end)) else None
  }

  /** The primary latent and, in some modes, the secondary one. */
  ghost function ParseJoined(c: Cursor, m: ModeInfo, width: nat, delta: bool, secondary: bool)
    : Option<(seq<Latent>, Cursor)>
    requires IsWidth(width)
  {
    match ParseVar(c, m.Width(width), delta)
    case None => None
    case Some((p, c1)) =>
      if !m.HasSecondary() then Some(([p], c1))
      else match ParseVar(c1, width, secondary)
           case None => None
           case Some((s, end)) => Some(([p, s], end))
  }

  /** `parseChunk`. */
  ghost function ParseChunk(fl: Floats, data: seq<byte>, version: nat, width: nat, kind: Kind): (r: Option<Chunk>)
    requires IsWidth(width)
  {
    match ParseMode(Cursor(BitsOf(data), 0, true), |data|, width)
    case None => None
    case Some((m, c1)) =>
      if !m.Ok(fl, width, kind) then None
      else match ParseDelta(c1, version)
        case None => None
        case Some((delta, secondary, c2)) =>
          match ParseLooks(c2, delta)
          case None => None
          case Some((looks, c3)) =>
            match Checked(delta, m.Width(width))
            case None => None
            case Some(checked) =>
              match ParseJoined(c3, m, width, delta != NoDelta, secondary)
              case None => None
              case Some((vars, end)) =>
                if end.Finished() then Some(Chunk(width, kind, m.Mode(fl, width), checked, looks + vars)) else None
  }

  // ----------------------------------------------------- what the checks establish

  lemma {:induction false} ParsedMode(fl: Floats, c: Cursor, size: nat, width: nat, kind: Kind)
    requires IsWidth(width) && ParseMode(c, size, width).Some?
    requires ParseMode(c, size, width).value.0.Ok(fl, width, kind)
    ensures ParseMode(c, size, width).value.0.Mode(fl, width).Valid(width)
  {
    hide Pow2, ReadMany, Cursor.Align;
  }

  /** A secondary delta belongs to orders and lookbacks only; orders, windows and the
      parameters of a convolution are within their limits. */
  predicate DeltaShape(delta: DeltaKind, secondary: bool) {
    && (secondary ==> delta.Consecutive? || delta.Lookbacks?)
    && (delta.Lookbacks? ==> 1 <= delta.order <= delta.window)
    && (delta.Convolutional? ==> delta.quant < Pow2(5) && Stored(delta.bias, delta.weights))
  }

  lemma {:induction false} ParsedDelta(c: Cursor, version: nat)
    requires ParseDelta(c, version).Some?
    ensures DeltaShape(ParseDelta(c, version).value.0, ParseDelta(c, version).value.1)
  {
    hide Pow2, ReadMany;
    var (delta, c1) := c.Take(4);
    if version >= 3 && delta == 2 {
      var (window, c2) := c1.Take(5);
      var (order, c3) := c2.Take(4);
      if order <= 1 + window { Pow2Mono(order, 1 + window); }
    }
    if version >= 3 && delta == 3 {
      var (quant, c2) := c1.Take(5);
      var (bias, c3) := c2.Take(64);
      var (count, c4) := c3.Take(5);
      Powers();
      EvenPower(32);
      EvenPower(64);
    }
  }

  /** The float64 check implies the exact bound, so no convolution overflows. */
  lemma {:induction false} CheckedFits(delta: DeltaKind, w: nat)
    requires IsWidth(w) && Checked(delta, w).Some? && delta.Convolutional?
    ensures var d := Checked(delta, w).value;
            && d.Convolutional? && w <= 32 && |d.weights| == |delta.weights|
            && Abs(d.bias) + Pow2(w) * AbsSum(d.weights, |d.weights|) < Pow2(2 * w - 1)
  {
    hide Pow2, AbsSum, Abs, FloatBound, Narrow;
    var d := Checked(delta, w).value;
    if Pow2(2 * w - 1) <= ExactBound(d.bias, d.weights, w, |d.weights|) {
      OverflowIsSeen(d.bias, d.weights, w);
      assert false;
    }
  }

  /** The exact bound of a convolution's parameters. */
  function Bound(d: DeltaKind, w: nat): nat
    requires d.Convolutional?
  {
    ExactBound(d.bias, d.weights, w, |d.weights|)
  }

  /** For latents of 8 and 16 bits the checks accept exactly the convolutions that are
      quantized within the accumulator and cannot overflow it. */
  lemma {:induction false} NarrowAccepted(delta: DeltaKind, w: nat)
    requires (w == 8 || w == 16) && delta.Convolutional?
    ensures Checked(delta, w) == if delta.quant < 2 * w && Bound(Narrowed(delta, w), w) < Pow2(2 * w - 1)
                                 then Some(Narrowed(delta, w)) else None
  {
    hide Pow2, FloatBound, ExactBound, Narrowed;
    var d := Narrowed(delta, w);
    NarrowTestExact(d.bias, d.weights, w);
  }

  /** For latents of 32 bits they accept every bound of at most 2^63 - 768 and reject every
      bound from 2^63 - 512 on. If all weights are zero, 2^63 - 512 is the limit. */
  lemma {:induction false} WideAccepted(delta: DeltaKind)
    requires delta.Convolutional?
    ensures delta.quant < 64 && Bound(delta, 32) <= Pow2(63) - 768 ==> Checked(delta, 32) == Some(delta)
    ensures delta.quant >= 64 || Bound(delta, 32) >= Pow2(63) - 512 ==> Checked(delta, 32) == None
    ensures AbsSum(delta.weights, |delta.weights|) == 0
            ==> Checked(delta, 32) == if delta.quant < 64 && Abs(delta.bias) < Pow2(63) - 512 then Some(delta) else None
  {
    hide Pow2, FloatBound, ExactBound, AbsSum, Abs;
    WideTest(delta.bias, delta.weights);
    if AbsSum(delta.weights, |delta.weights|) == 0 { ZeroWeights(delta.bias, delta.weights); }
  }

  /** Stored parameters with a given exact bound. */
  predicate StoredWith(d: DeltaKind, total: nat) {
    d.Convolutional? && d.quant < Pow2(5) && Stored(d.bias, d.weights) && Bound(d, 32) == total
  }

  /** No other limits would do: of the bounds that cannot overflow, those up to 2^63 - 768
      are the ones that are always accepted, and those from 2^63 - 512 on the ones that are
      always rejected. Between them it depends on the parameters. */
  lemma {:induction false} BoundDecides(total: nat)
    requires total < Pow2(63)
    ensures (forall d | StoredWith(d, total) :: Checked(d, 32).Some?) <==> total <= Pow2(63) - 768
    ensures (forall d | StoredWith(d, total) :: Checked(d, 32).None?) <==> total >= Pow2(63) - 512
  {
    hide Pow2, FloatBound, ExactBound, AbsSum, Abs, Stored;
    Powers();
    forall d | StoredWith(d, total)
      ensures total <= Pow2(63) - 768 ==> Checked(d, 32).Some?
      ensures total >= Pow2(63) - 512 ==> Checked(d, 32).None?
    {
      WideAccepted(d);
    }
    if total <= Pow2(63) - 768 || total >= Pow2(63) - 512 {
      BiasAlone(total);
      WideAccepted(Convolutional(total, 0, [0]));
      assert StoredWith(Convolutional(total, 0, [0]), total);
    } else {
      var passes := Convolutional(total - 0x7FFF_FFFF_0000_0000, 0, [0x7FFF_FFFF]);
      var fails := Convolutional(total - 0x4000_0000_0000_0000, 0, [0x4000_0000]);
      BetweenPasses(total);
      BetweenFails(total);
      assert StoredWith(passes, total) && StoredWith(fails, total);
      assert Checked(passes, 32).Some? && Checked(fails, 32).None?;
    }
  }

  lemma {:induction false} BiasAlone(total: nat)
    requires total < Pow2(63)
    ensures Stored(total, [0]) && ExactBound(total, [0], 32, 1) == total
  {
    hide Pow2;
    Powers();
    EvenPower(32);
    OneWeight(total, 0);
  }

  /** Every chunk that `parseChunk` accepts satisfies the conditions that decoding a page
      relies on. */
  lemma {:induction false} ParsedChunkValid(fl: Floats, data: seq<byte>, version: nat, width: nat, kind: Kind)
    requires IsWidth(width) && ParseChunk(fl, data, version, width, kind).Some?
    ensures var c := ParseChunk(fl, data, version, width, kind).value;
            c.Valid() && c.width == width && c.kind == kind
  {
    hide ParseMode, ParseDelta, Checked, ParseVar, Pow2, AbsSum, Abs, BitsOf, Latent.Valid, Mode.Valid,
      Cursor.Finished, ModeInfo.Mode, ModeInfo.Ok;
    var start := Cursor(BitsOf(data), 0, true);
    var (m, c1) := ParseMode(start, |data|, width).value;
    var (delta, secondary, c2) := ParseDelta(c1, version).value;
    ParsedMode(fl, start, |data|, width, kind);
    ParsedDelta(c1, version);
    CheckedKind(delta, m.Width(width));
    if delta.Convolutional? { CheckedFits(delta, m.Width(width)); }
  }

  lemma {:induction false} CheckedKind(delta: DeltaKind, w: nat)
    requires IsWidth(w) && Checked(delta, w).Some?
    ensures !delta.Convolutional? ==> Checked(delta, w).value == delta
    ensures delta.Convolutional? ==> Checked(delta, w).value.Convolutional?
  {
  }

  // ------------------------------------------------------------- the parsing methods

  method ReadMode(r: Reader, width: nat) returns (m: Option<ModeInfo>)
    requires r.Valid() && IsWidth(width)
    modifies r
    ensures r.Valid()
    ensures match ParseMode(old(r.View()), |r.data|, width)
            case None => m.None?
            case Some((mode, end)) => m == Some(mode) && r.View() == end
  {
    hide Cursor.Take, Cursor.Align, Reader.View, ReadMany;
    var mode := r.Read(4);
    if mode == 0 {
      m := Some(PlainMode);
    } else if mode == 1 || mode == 2 {
      var base := r.Read(width);
      m := Some(if mode == 1 then IntMode(base) else FloatMode(base));
    } else if mode == 3 {
      var quant := r.Read(8);
      m := Some(QuantMode(quant));
    } else if mode == 4 {
      var n := r.Read(25);
      r.Align();
      if n > |r.data| * 8 / width { return None; }
      var dict := ReadManyValues(r, width, n);
      m := Some(DictMode(dict));
    } else {
      m := None;
    }
  }

  method ReadDelta(r: Reader, version: nat) returns (d: Option<(DeltaKind, bool)>)
    requires r.Valid()
    modifies r
    ensures r.Valid()
    ensures match ParseDelta(old(r.View()), version)
            case None => d.None?
            case Some((delta, secondary, end)) => d == Some((delta, secondary)) && r.View() == end
  {
    hide Cursor.Take, Reader.View, ReadMany, Pow2;
    if version < 3 {
      var order := r.Read(3);
      return Some((if order > 0 then Consecutive(order) else NoDelta, false));
    }
    var delta := r.Read(4);
    if delta == 0 {
      d := Some((NoDelta, false));
    } else if delta == 1 {
      var order := r.Read(3);
      var secondary := r.Read(1);
      d := if order == 0 then None else Some((Consecutive(order), secondary != 0));
    } else if delta == 2 {
      var window := r.Read(5);
      var order := r.Read(4);
      var secondary := r.Read(1);
      if 1 + window > 24 || order > 1 + window { return None; }
      d := Some((Lookbacks(Pow2(order), Pow2(1 + window)), secondary != 0));
    } else if delta == 3 {
      var quant := r.Read(5);
      var bias := r.Read(64);
      var count := r.Read(5);
      var weights := ReadManyValues(r, 32, 1 + count);
      d := Some((Convolutional(bias - Pow2(63), quant, Shifted(weights)), false));
    } else {
      d := None;
    }
  }

  method ReadVar(r: Reader, width: nat, delta: bool) returns (v: Option<Latent>)
    requires r.Valid() && 1 <= width <= 64
    modifies r
    ensures r.Valid()
    ensures match ParseVar(old(r.View()), width, delta)
            case None => v.None?
            case Some((latent, end)) => v == Some(latent) && r.View() == end
  {
    hide Reader.View, TableOf, Accepted, Parse;
    v := ParseLatent(r, width, delta);
  }

  method ReadLooks(r: Reader, delta: DeltaKind) returns (looks: Option<seq<Latent>>)
    requires r.Valid()
    modifies r
    ensures r.Valid()
    ensures match ParseLooks(old(r.View()), delta)
            case None => looks.None?
            case Some((vars, end)) => looks == Some(vars) && r.View() == end
  {
    hide Reader.View, ParseVar, Latent.Valid;
    if !delta.Lookbacks? { return Some([]); }
    var v := ReadVar(r, 32, false);
    if v.None? { return None; }
    var bins := v.value.bins;
    for i := 0 to |bins|
      modifies {}
      invariant forall k | 0 <= k < i :: 1 <= bins[k].lower <= delta.window
    {
      if bins[i].lower < 1 || bins[i].lower > delta.window { return None; }
    }
    looks := Some([v.value]);
  }

  method NarrowWeights(weights: seq<int>) returns (r: seq<int>)
    ensures r == seq(|weights|, i requires 0 <= i < |weights| => Narrow(weights[i], 16))
  {
    hide Narrow;
    r := weights;
    for i := 0 to |weights|
      invariant |r| == |weights|
      invariant forall k | 0 <= k < |r| :: r[k] == if k < i then Narrow(weights[k], 16) else weights[k]
    {
      r := r[i := Narrow(weights[i], 16)];
    }
  }

  method BoundLoop(bias: int, weights: seq<int>, w: nat) returns (bound: nat)
    ensures bound == FloatBound(bias, weights, w, |weights|)
  {
    hide Rounded, Pow2, Abs;
    bound := Rounded(Abs(bias));
    for i := 0 to |weights|
      invariant bound == FloatBound(bias, weights, w, i)
    {
      bound := Rounded(bound + Pow2(w) * Abs(weights[i]));
    }
  }

  /** Narrows and bounds a convolution's parameters. */
  method CheckDelta(delta: DeltaKind, w: nat) returns (checked: Option<DeltaKind>)
    requires IsWidth(w)
    ensures checked == Checked(delta, w)
  {
    hide Narrow, FloatBound, Pow2;
    if !delta.Convolutional? { return Some(delta); }
    if w > 32 { return None; }
    var bias, weights := delta.bias, delta.weights;
    if w == 8 {
      bias := Narrow(bias, 16);
      weights := NarrowWeights(weights);
    } else if w == 16 {
      bias := Narrow(bias, 32);
    }
    if delta.quant >= 2 * w { return None; }
    var bound := BoundLoop(bias, weights, w);
    if bound >= Pow2(2 * w - 1) { return None; }
    checked := Some(Convolutional(bias, delta.quant, weights));
  }

  method ReadJoined(r: Reader, m: ModeInfo, width: nat, delta: bool, secondary: bool)
    returns (vars: Option<seq<Latent>>)
    requires r.Valid() && IsWidth(width)
    modifies r
    ensures r.Valid()
    ensures match ParseJoined(old(r.View()), m, width, delta, secondary)
            case None => vars.None?
            case Some((all, end)) => vars == Some(all) && r.View() == end
  {
    hide Reader.View, ParseVar, Latent.Valid;
    var p := ReadVar(r, m.Width(width), delta);
    if p.None? { return None; }
    if !m.HasSecondary() { return Some([p.value]); }
    var s := ReadVar(r, width, secondary);
    if s.None? { return None; }
    vars := Some([p.value, s.value]);
  }

  /** `parseChunk`. */
  method ReadChunk(fl: Floats, data: seq<byte>, version: nat, width: nat, kind: Kind) returns (c: Option<Chunk>)
    requires IsWidth(width)
    ensures c == ParseChunk(fl, data, version, width, kind)
  {
    hide ParseMode, ParseDelta, ParseLooks, Checked, ParseJoined, Reader.View, Cursor.Finished, BitsOf;
    var r := new Reader(data);
    var m := ReadMode(r, width);
    if m.None? || !m.value.Ok(fl, width, kind) { return None; }
    var d := ReadDelta(r, version);
    if d.None? { return None; }
    var looks := ReadLooks(r, d.value.0);
    if looks.None? { return None; }
    var checked := CheckDelta(d.value.0, m.value.Width(width));
    if checked.None? { return None; }
    var vars := ReadJoined(r, m.value, width, d.value.0 != NoDelta, d.value.1);
    if vars.None? { return None; }
    var finished := r.Finish();
    if !finished { return None; }
    c := Some(Chunk(width, kind, m.value.Mode(fl, width), checked.value, looks.value + vars.value));
  }
}
