/** How a Pco chunk joins latents into output words, and that every word can be
    split into latents again. */
module PcoModes {
  import opened Wrappers
  import opened Words

  datatype Kind = Unsigned | Signed | Floating

  /** The chunk modes 0 to 4. The floating-point product of mode 2 is a function
      from the latent to the ordered bits of the product. */
  datatype Mode =
    | Classic
    | IntMult(base: nat)
    | FloatMult(product: nat -> nat)
    | FloatQuant(quant: nat)
    | Dictionary(dict: seq<nat>)
  {
    predicate HasSecondary() { IntMult? || FloatMult? || FloatQuant? }

    predicate Valid(width: nat) {
      match this
      case Classic => true
      case IntMult(base) => 0 < base < Pow2(width)
      case FloatMult(_) => true
      case FloatQuant(quant) => 1 <= quant < width
      case Dictionary(dict) => |dict| < Pow2(25) && forall i | 0 <= i < |dict| :: dict[i] < Pow2(width)
    }
  }

  /** `orderedBits`: from ordered latents to IEEE bits. */
  function OrderedBits(u: nat, w: nat): (r: nat)
    requires w > 0 && u < Pow2(w)
  {
    if u >= Pow2(w - 1) then u - Pow2(w - 1) else Pow2(w) - 1 - u
  }

  /** From a latent to an output word of the given kind. */
  function ToWord(kind: Kind, u: nat, w: nat): nat
    requires w > 0 && u < Pow2(w)
  {
    match kind
    case Unsigned => u
    case Signed => FlipTop(u, w)
    case Floating => OrderedBits(u, w)
  }

  /** The latent of an output word: `ToWord` backwards. */
  function FromWord(kind: Kind, x: nat, w: nat): nat
    requires w > 0 && x < Pow2(w)
  {
    match kind
    case Unsigned => x
    case Signed => FlipTop(x, w)
    case Floating => if x < Pow2(w - 1) then x + Pow2(w - 1) else Pow2(w) - 1 - x
  }

  lemma {:induction false} WordRoundTrip(kind: Kind, x: nat, w: nat)
    requires w > 0 && x < Pow2(w)
    ensures FromWord(kind, x, w) < Pow2(w) && ToWord(kind, FromWord(kind, x, w), w) == x
    ensures ToWord(kind, x, w) < Pow2(w) && FromWord(kind, ToWord(kind, x, w), w) == x
  {
    FlipTopTwice(x, w);
  }

  /** Outputs keep the order of the latents: a larger latent is a larger number, a larger
      two's-complement number, or a larger sign-and-magnitude float. */
  lemma {:induction false} WordOrder(u: nat, v: nat, w: nat)
    requires w > 0 && u < v < Pow2(w)
    ensures ToWord(Unsigned, u, w) < ToWord(Unsigned, v, w)
    ensures SignedValue(ToWord(Signed, u, w), w) < SignedValue(ToWord(Signed, v, w), w)
    ensures FloatOrder(ToWord(Floating, u, w), w) < FloatOrder(ToWord(Floating, v, w), w)
  {
  }

  function SignedValue(x: nat, w: nat): int
    requires w > 0
  {
    if x < Pow2(w - 1) then x else x - Pow2(w)
  }

  /** Sign and magnitude as one integer, negative zero just below zero. */
  function FloatOrder(x: nat, w: nat): int
    requires w > 0
  {
    if x < Pow2(w - 1) then x else Pow2(w - 1) - 1 - x
  }

  /** The latent of one value from its primary and secondary latents; None is
      the decoder's error. */
  function Join(mode: Mode, w: nat, v: nat, s: nat): (r: Option<nat>)
    requires w > 0 && mode.Valid(w)
    ensures r.Some? ==> r.value < Pow2(w)
  {
    match mode
    case Classic => Some(Low(v, w))
    case IntMult(base) => Some(Low(v * base + s, w))
    case FloatMult(product) => FlipTopTwice(Low(product(v) + s, w), w);
                               Some(FlipTop(Low(product(v) + s, w), w))
    case FloatQuant(q) =>
      if s >= Pow2(q) then None
      else
        var low := if v < Shr(Pow2(w - 1), q) then Pow2(q) - 1 - s else s;
        Some(Low(Shl(v, q) + low, w))
    case Dictionary(dict) => if v >= |dict| then None else Some(Low(dict[v], w))
  }

  /** A primary and a secondary latent that join to `u`. For a float product any
      primary latent will do; the dictionary needs an entry equal to `u`. */
  function Split(mode: Mode, w: nat, u: nat): (r: (nat, nat))
    requires w > 0 && mode.Valid(w) && u < Pow2(w)
  {
    match mode
    case Classic => (u, 0)
    case IntMult(base) => (u / base, u % base)
    case FloatMult(product) => (0, (FlipTop(u, w) - product(0)) % Pow2(w))
    case FloatQuant(q) =>
      var v, low := Shr(u, q), Low(u, q);
      (v, if v < Shr(Pow2(w - 1), q) then Pow2(q) - 1 - low else low)
    case Dictionary(dict) => (IndexOf(dict, u), 0)
  }

  /** The first position of `u` in `dict`, or its length. */
  function IndexOf(dict: seq<nat>, u: nat): (i: nat)
    ensures i <= |dict|
    ensures i < |dict| ==> dict[i] == u
    ensures i == |dict| ==> u !in dict
  {
    if dict == [] then 0 else if dict[0] == u then 0 else 1 + IndexOf(dict[1..], u)
  }

  lemma {:induction false} ShrLess(u: nat, q: nat)
    ensures Shr(u, q) <= u
  {
    if q > 0 { ShrLess(u / 2, q - 1); }
  }

  lemma {:induction false} QuotientLess(u: nat, base: nat)
    requires base > 0
    ensures u / base <= u && u % base < base && (u / base) * base + u % base == u
  {
    DivMod(u, base);
    MulMono(1, base, u / base);
    MulComm(base, u / base);
  }

  /** Every word of the width can be split, and joining the parts restores it;
      in dictionary mode exactly the words in the dictionary can. */
  lemma {:induction false} SplitJoin(mode: Mode, w: nat, u: nat)
    requires w > 0 && mode.Valid(w) && u < Pow2(w)
    ensures Split(mode, w, u).1 < Pow2(w)
    ensures !mode.Dictionary? ==> Split(mode, w, u).0 < Pow2(w)
    ensures Join(mode, w, Split(mode, w, u).0, Split(mode, w, u).1)
            == if mode.Dictionary? && u !in mode.dict then None else Some(u)
  {
    hide Pow2, Shl, Shr, Low;
    LowSmall(u, w);
    match mode
    case Classic =>
    case IntMult(base) => QuotientLess(u, base);
    case FloatMult(product) => FloatSplitJoin(product(0), w, u);
    case FloatQuant(q) => QuantSplitJoin(q, w, u);
    case Dictionary(dict) =>
  }

  lemma {:induction false} QuantSplitJoin(q: nat, w: nat, u: nat)
    requires 1 <= q < w && u < Pow2(w)
    ensures var parts := Split(FloatQuant(q), w, u);
            && parts.0 < Pow2(w) && parts.1 < Pow2(w)
            && Join(FloatQuant(q), w, parts.0, parts.1) == Some(u)
  {
    hide Pow2, Shl, Shr, Low;
    LowAndShr(u, q);
    ShrLess(u, q);
    Pow2Mono(q, w);
    LowSmall(u, w);
  }

  lemma {:induction false} FloatSplitJoin(p: nat, w: nat, u: nat)
    requires w > 0 && u < Pow2(w)
    ensures FlipTop(Low(p + (FlipTop(u, w) - p) % Pow2(w), w), w) == u
  {
    FlipTopTwice(u, w);
    LowIsMod(p + (FlipTop(u, w) - p) % Pow2(w), w);
    ModSubAdd(FlipTop(u, w), p, Pow2(w));
  }

  // -------------------------------------------------------- what the latents mean

  /** Integer multiples: a larger primary latent is `base` more, and the secondary latent
      counts up from the multiple. */
  lemma {:induction false} MultiplesOf(base: nat, w: nat, v: nat, s: nat)
    requires w > 0 && IntMult(base).Valid(w) && s < Pow2(w)
    ensures Join(IntMult(base), w, 0, s) == Some(s)
    ensures Join(IntMult(base), w, v + 1, s) == Some((Join(IntMult(base), w, v, s).value + base) % Pow2(w))
  {
    hide Pow2, Low;
    assert 0 * base == 0;
    LowSmall(s, w);
    Distribute(v, 1, base);
    LowIsMod((v + 1) * base + s, w);
    LowIsMod(v * base + s, w);
    ModAddLeft(v * base + s, base, Pow2(w));
  }

  /** Multiples of a float: the secondary latent counts the representable numbers between
      the product and the output, 2^(w-1) standing for none. */
  lemma {:induction false} ProductsOf(product: nat -> nat, w: nat, v: nat, s: nat)
    requires w > 0 && s < Pow2(w)
    ensures Join(FloatMult(product), w, v, s) == Some((product(v) + s - Pow2(w - 1)) % Pow2(w))
  {
    hide Pow2, Low;
    var x, h := product(v) + s, Pow2(w - 1);
    LowIsMod(x, w);
    EvenPower(w);
    DivMod(x, Pow2(w));
    if x % Pow2(w) < h {
      DivModUnique(x - h, Pow2(w), x / Pow2(w) - 1, x % Pow2(w) + h);
      Distribute(x / Pow2(w), 1, Pow2(w));
    } else {
      DivModUnique(x - h, Pow2(w), x / Pow2(w), x % Pow2(w) - h);
    }
  }

  /** Quantized floats: the primary latent is the ordered float without its lowest `q` bits,
      and the secondary latent is these bits of the float itself, whatever its sign. */
  lemma {:induction false} QuantizedBits(q: nat, w: nat, v: nat, s: nat)
    requires FloatQuant(q).Valid(w) && v < Pow2(w - q)
    ensures Join(FloatQuant(q), w, v, s).Some? <==> s < Pow2(q)
    ensures s < Pow2(q) ==>
              var u := Join(FloatQuant(q), w, v, s).value;
              Shr(u, q) == v && Low(ToWord(Floating, u, w), q) == s
  {
    hide Pow2, Shl, Shr, Low;
    if s < Pow2(q) {
      var low := if v < Shr(Pow2(w - 1), q) then Pow2(q) - 1 - s else s;
      var u := Shl(v, q) + low;
      ShlMono(v + 1, Pow2(w - q), q);
      ShlPow2(w - q, q);
      ShlSucc(v, q);
      LowSmall(u, w);
      ShrUnique(u, q, v);
      QuantizedSign(q, w, v, low);
      SplitWord(q, v, low);
      if u >= Pow2(w - 1) {
        LowMinusPower(u, w - 1, q);
      } else {
        LowComplement(u, w, q);
      }
    }
  }

  lemma {:induction false} SplitWord(q: nat, v: nat, low: nat)
    requires low < Pow2(q)
    ensures Low(Shl(v, q) + low, q) == low
  {
    hide Pow2, Shl, Low;
    ShlProduct(v, q);
    LowIsMod(Shl(v, q) + low, q);
    DivModUnique(Shl(v, q) + low, Pow2(q), v, low);
  }

  /** A quantized float is positive exactly when its primary latent is large. */
  lemma {:induction false} QuantizedSign(q: nat, w: nat, v: nat, low: nat)
    requires 1 <= q < w && low < Pow2(q)
    ensures v < Shr(Pow2(w - 1), q) <==> Shl(v, q) + low < Pow2(w - 1)
  {
    hide Pow2, Shl, Shr;
    ShlPow2(w - 1 - q, q);
    ShlSucc(Pow2(w - 1 - q), q);
    ShrUnique(Pow2(w - 1), q, Pow2(w - 1 - q));
    ShlSucc(v, q);
    if v < Pow2(w - 1 - q) { ShlMono(v + 1, Pow2(w - 1 - q), q); } else { ShlMono(Pow2(w - 1 - q), v, q); }
  }

  lemma {:induction false} LowMinusPower(u: nat, k: nat, q: nat)
    requires q <= k && Pow2(k) <= u
    ensures Low(u - Pow2(k), q) == Low(u, q)
  {
    hide Pow2, Low;
    LowIsMod(u, q);
    LowIsMod(u - Pow2(k), q);
    Pow2Add(k - q, q);
    ModAddMultiple(u - Pow2(k), Pow2(k - q), Pow2(q));
  }

  lemma {:induction false} LowComplement(u: nat, w: nat, q: nat)
    requires q <= w && u < Pow2(w)
    ensures Low(Pow2(w) - 1 - u, q) == Pow2(q) - 1 - Low(u, q)
  {
    hide Pow2, Low;
    var p, x := Pow2(q), Pow2(w) - 1 - u;
    LowIsMod(u, q);
    LowIsMod(x, q);
    Pow2Add(w - q, q);
    DivMod(u, p);
    Distribute(Pow2(w - q), u / p, p);
    Distribute(Pow2(w - q) - u / p, 1, p);
    DivModUnique(x, p, Pow2(w - q) - u / p - 1, p - 1 - u % p);
  }

  /** A dictionary gives its entries, and nothing beyond them. */
  lemma {:induction false} EntriesOf(dict: seq<nat>, w: nat, v: nat, s: nat)
    requires w > 0 && Dictionary(dict).Valid(w)
    ensures Join(Dictionary(dict), w, v, s) == if v < |dict| then Some(dict[v]) else None
  {
    hide Pow2, Low;
    if v < |dict| { LowSmall(dict[v], w); }
  }
}
