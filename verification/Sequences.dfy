/** Integers behind machine words, integer scalars, and arithmetic sequences whose
    range is checked at the last element only. */
module Sequences {
  import opened Wrappers
  import opened Words
  import opened Types
  import opened Proto

  // ------------------------------------------------- words and their integers

  /** The integer that a word of `bits` bits stands for. */
  function Denote(x: nat, bits: nat, signed: bool): int
    requires bits > 0
  {
    if signed && x >= Pow2(bits - 1) then x - Pow2(bits) else x
  }

  predicate InRange(z: int, bits: nat, signed: bool)
    requires bits > 0
  {
    if signed then 0 - Pow2(bits - 1) <= z < Pow2(bits - 1) else 0 <= z < Pow2(bits)
  }

  /** The word that stores an integer. */
  function WordOf(z: int, bits: nat): (x: nat)
    ensures x < Pow2(bits)
  {
    hide Pow2;
    z % Pow2(bits)
  }

  lemma {:induction false} DenoteInRange(x: nat, bits: nat, signed: bool)
    requires bits > 0 && x < Pow2(bits)
    ensures InRange(Denote(x, bits, signed), bits, signed)
    ensures WordOf(Denote(x, bits, signed), bits) == x
  {
    if signed && x >= Pow2(bits - 1) {
      DivModUnique(x - Pow2(bits), Pow2(bits), -1, x);
    } else {
      DivModUnique(x, Pow2(bits), 0, x);
    }
  }

  lemma {:induction false} DenoteOfWord(z: int, bits: nat, signed: bool)
    requires bits > 0 && InRange(z, bits, signed)
    ensures Denote(WordOf(z, bits), bits, signed) == z
  {
    if z >= 0 {
      DivModUnique(z, Pow2(bits), 0, z);
    } else {
      DivModUnique(z, Pow2(bits), -1, z + Pow2(bits));
    }
  }

  /** Words and integers agree modulo 2^bits. */
  lemma {:induction false} SameResidues(x: nat, z: int, bits: nat, signed: bool)
    requires bits > 0
    ensures (Denote(x, bits, signed) - x) % Pow2(bits) == 0 && (WordOf(z, bits) - z) % Pow2(bits) == 0
  {
    hide Pow2;
    DivModUnique(0 - Pow2(bits), Pow2(bits), -1, 0);
    DivMod(z, Pow2(bits));
    DivModUnique(z % Pow2(bits) - z, Pow2(bits), 0 - z / Pow2(bits), 0);
    DivModUnique(0, Pow2(bits), 0, 0);
  }

  // ------------------------------------------------------------------ scalars

  /** `(u >> 1) ^ -(u & 1)`, read as a signed integer. */
  function ZigZag(u: nat): int {
    if u % 2 == 0 then u / 2 else -(u / 2) - 1
  }

  function WriteZigZag(z: int): (u: nat)
    ensures ZigZag(u) == z
  {
    if z >= 0 then 2 * z else -2 * z - 1
  }

  /** Zigzag counts 0, -1, 1, -2, 2, ... */
  lemma {:induction false} ZigZagCounts(k: nat)
    ensures ZigZag(0) == 0 && ZigZag(2 * k + 1) == 0 - k - 1 && ZigZag(2 * k + 2) == k + 1
  {
  }

  /** The word of a non-null integer scalar: its value must fit into the type. */
  function IntegerScalar(fields: seq<Field>, t: Type): (x: Option<nat>)
    requires t.IsInteger()
  {
    var bits := 8 * t.Width();
    if fields == [] || Has(fields, 1) then None
    else if t.IsSigned() then
      if !Has(fields, 3) then None
      else
        var z := ZigZag(Num(fields, 3));
        if Denote(WordOf(z, bits), bits, true) != z then None else Some(WordOf(z, bits))
    else if !Has(fields, 4) then None
    else if Num(fields, 4) >= Pow2(bits) then None
    else Some(Num(fields, 4))
  }

  /** `sequenceStep`: the raw 64-bit pattern and whether it is signed; either form is
      accepted whatever the type of the sequence. */
  function Step(fields: seq<Field>): Option<(nat, bool)> {
    if fields == [] || Has(fields, 1) then None
    else if Has(fields, 3) then Some((WordOf(ZigZag(Num(fields, 3)), 64), true))
    else if Has(fields, 4) then Some((Num(fields, 4), false))
    else None
  }

  // ---------------------------------------------------------------- sequences

  /** Element `i` of the sequence over the unbounded integers. */
  function Element(base: int, step: int, i: nat): int { base + i * step }

  ghost predicate AllInRange(base: int, step: int, n: nat, bits: nat, signed: bool)
    requires bits > 0
  {
    forall i: nat | i < n :: InRange(Element(base, step, i), bits, signed)
  }

  lemma {:induction false} Between(base: int, step: int, i: nat, last: nat)
    requires i <= last
    ensures base <= Element(base, step, i) <= Element(base, step, last)
         || Element(base, step, last) <= Element(base, step, i) <= base
  {
    if step >= 0 { MulMono(i, last, step); } else { MulMono(i, last, -step); }
  }

  /** The endpoint check suffices: when the base is in range, all elements are in
      range exactly when the last one is. */
  lemma {:induction false} EndpointsSuffice(base: int, step: int, n: nat, bits: nat, signed: bool)
    requires bits > 0 && InRange(base, bits, signed)
    ensures AllInRange(base, step, n, bits, signed)
       <==> InRange(Element(base, step, if n == 0 then 0 else n - 1), bits, signed)
  {
    hide Element, Pow2;
    ElementZero(base, step);
    if n > 0 {
      assert AllInRange(base, step, n, bits, signed) ==> InRange(Element(base, step, n - 1), bits, signed);
      forall i: nat | i < n ensures InRange(Element(base, step, n - 1), bits, signed)
                                ==> InRange(Element(base, step, i), bits, signed) {
        Between(base, step, i, n - 1);
      }
    }
  }

  lemma {:induction false} ElementZero(base: int, step: int)
    ensures Element(base, step, 0) == base
  {
  }

  /** The wrapped 64-bit arithmetic of the loop, masked to the type. */
  function Masked(base: nat, step: nat, i: nat, bits: nat): nat {
    Low(Low(base + Low(i * step, 64), 64), bits)
  }

  /** The masked word is the word of the unbounded element, whichever signedness the
      step was stored with. */
  lemma {:induction false} MaskedIsElement(base: nat, step: nat, i: nat, bits: nat, signed: bool, stepSigned: bool)
    requires 0 < bits <= 64 && base < Pow2(bits) && step < Pow2(64)
    ensures Masked(base, step, i, bits)
         == WordOf(Element(Denote(base, bits, signed), Denote(step, 64, stepSigned), i), bits)
  {
    hide Low, Pow2, Masked;
    MaskedIsMod(base, step, i, bits);
    Congruent(base, step, Denote(base, bits, signed), Denote(step, 64, stepSigned), i, bits);
  }

  lemma {:induction false} MaskedIsMod(base: nat, step: nat, i: nat, bits: nat)
    requires bits <= 64
    ensures Masked(base, step, i, bits) == (base + i * step) % Pow2(bits)
  {
    hide Low, Pow2;
    var product := i * step;
    LowLow(base + Low(product, 64), bits, 64);
    LowAddLow(base, product, bits, 64);
    LowIsMod(base + product, bits);
  }

  lemma {:induction false} Congruent(base: nat, step: nat, b: int, s: int, i: nat, bits: nat)
    requires bits <= 64 && (base == b || base == b + Pow2(bits)) && (step == s || step == s + Pow2(64))
    ensures (base + i * step) % Pow2(bits) == WordOf(Element(b, s, i), bits)
  {
    hide Pow2;
    var e1, e2 := (if b == base then 0 else 1), (if s == step then 0 else 1);
    Pow2Add(64 - bits, bits);
    SameMod(b, s, i, e1, e2, Pow2(64 - bits), Pow2(bits));
  }

  lemma {:induction false} SameMod(b: int, s: int, i: nat, e1: int, e2: int, k: int, m: int)
    requires m > 0
    ensures ((b + e1 * m) + i * (s + e2 * (k * m))) % m == (b + i * s) % m
  {
    assert i * (s + e2 * (k * m)) == i * s + (i * (e2 * k)) * m by {
      MulAssoc(e2, k, m);
      MulAssoc(i, e2 * k, m);
      MulSum(i, s, e2 * (k * m));
    }
    Distribute(e1, i * (e2 * k), m);
    ModAddMultiple(b + i * s, e1 + i * (e2 * k), m);
  }

  /** The range check and the loop of `sequence`: accepted exactly when every element
      is in range, and then row `i` denotes element `i`. */
  method Fill(base: nat, step: nat, stepSigned: bool, bits: nat, signed: bool, n: nat) returns (r: Option<seq<nat>>)
    requires 0 < bits <= 64 && base < Pow2(bits) && step < Pow2(64)
    ensures var b, s := Denote(base, bits, signed), Denote(step, 64, stepSigned);
            && (r.Some? <==> AllInRange(b, s, n, bits, signed))
            && (r.Some? ==> |r.value| == n && forall i: nat | i < n ::
                  r.value[i] == WordOf(Element(b, s, i), bits) && Denote(r.value[i], bits, signed) == Element(b, s, i))
  {
    hide Low, Pow2, Element, InRange, Masked, Denote, WordOf;
    var b, s := Denote(base, bits, signed), Denote(step, 64, stepSigned);
    DenoteInRange(base, bits, signed);
    EndpointsSuffice(b, s, n, bits, signed);
    var last := Element(b, s, if n == 0 then 0 else n - 1);
    if !InRange(last, bits, signed) { return None; }
    var out := new nat[n](_ => 0);
    for i := 0 to n
      invariant forall j: nat | j < i ::
                  out[j] == WordOf(Element(b, s, j), bits) && Denote(out[j], bits, signed) == Element(b, s, j)
    {
      MaskedIsElement(base, step, i, bits, signed, stepSigned);
      DenoteOfWord(Element(b, s, i), bits, signed);
      out[i] := Masked(base, step, i, bits);
    }
    r := Some(out[..]);
  }

  // -------------------------------------------------------------------- writer

  /** The integers that a sequence array stands for, from its metadata fields. */
  function Elements(m: seq<Field>, t: Type, n: nat): (r: Option<seq<int>>)
    requires t.IsInteger()
    ensures r.Some? ==> |r.value| == n
  {
    var base := match Scalar(m, 1) { case None => None case Some(f) => IntegerScalar(f, t) };
    var step := match Scalar(m, 2) { case None => None case Some(f) => Step(f) };
    if base.None? || step.None? then None
    else
      var b, s := Denote(base.value, 8 * t.Width(), t.IsSigned()), Denote(step.value.0, 64, step.value.1);
      Some(seq(n, i requires 0 <= i < n => Element(b, s, i)))
  }

  /** `parseProto(m.bytes(tag))`. */
  function Scalar(m: seq<Field>, tag: nat): Option<seq<Field>> {
    Parse(match Data(m, tag) { case None => [] case Some(d) => d }, 0)
  }

  /** How a writer stores an integer: zigzag in field 3, or unsigned in field 4. */
  function WriteScalar(z: int, signed: bool): (f: Field)
    requires InRange(z, 64, signed)
    ensures f.Valid()
  {
    hide Pow2;
    KeySmall(3, 0);
    KeySmall(4, 0);
    ZigZagSmall(z);
    if signed then Field(3, 0, WriteZigZag(z), None) else Field(4, 0, z, None)
  }

  lemma {:induction false} KeySmall(tag: nat, wire: nat)
    requires tag < 8 && wire < 8
    ensures tag * 8 + wire < Pow2(64)
  {
    hide Pow2;
    Powers();
    Pow2Mono(6, 64);
  }

  lemma {:induction false} ZigZagSmall(z: int)
    requires InRange(z, 64, true) || InRange(z, 64, false)
    ensures InRange(z, 64, true) ==> WriteZigZag(z) < Pow2(64)
  {
    assert Pow2(64) == 2 * Pow2(63);
  }

  lemma {:induction false} ScalarRead(f: Field)
    requires f.Valid()
    ensures Parse(Serialize([f]), 0) == Some([f])
    ensures Get([f], f.tag) == Some(f)
    ensures forall tag | tag != f.tag :: Get([f], tag) == None
  {
    hide Field.Valid, Parse, Serialize;
    Proto.RoundTrip([f]);
  }

  /** A step is read back as the integer that was written, in either form. */
  lemma {:induction false} StepRead(s: int, signed: bool)
    requires InRange(s, 64, signed)
    ensures Step([WriteScalar(s, signed)]).Some?
    ensures var step := Step([WriteScalar(s, signed)]).value;
            step.0 < Pow2(64) && Denote(step.0, 64, step.1) == s
  {
    hide Pow2;
    DenoteOfWord(s, 64, signed);
    ScalarRead(WriteScalar(s, signed));
  }

  lemma {:induction false} BaseRead(z: int, t: Type)
    requires t.IsInteger() && InRange(z, 8 * t.Width(), t.IsSigned()) && InRange(z, 64, t.IsSigned())
    ensures var x := IntegerScalar([WriteScalar(z, t.IsSigned())], t);
            x.Some? && x.value < Pow2(8 * t.Width()) && Denote(x.value, 8 * t.Width(), t.IsSigned()) == z
  {
    hide Pow2;
    DenoteOfWord(z, 8 * t.Width(), t.IsSigned());
    ScalarRead(WriteScalar(z, t.IsSigned()));
  }

  lemma {:induction false} NarrowInWide(z: int, t: Type)
    requires t.IsInteger() && InRange(z, 8 * t.Width(), t.IsSigned())
    ensures InRange(z, 64, t.IsSigned())
  {
    hide Pow2;
    Pow2Mono(8 * t.Width(), 64);
    Pow2Mono(8 * t.Width() - 1, 63);
  }

  function WriteSequence(base: int, step: int, stepSigned: bool, t: Type): seq<Field>
    requires t.IsInteger() && InRange(base, 64, t.IsSigned()) && InRange(step, 64, stepSigned)
  {
    [Field(1, 2, 0, Some(Serialize([WriteScalar(base, t.IsSigned())]))),
     Field(2, 2, 0, Some(Serialize([WriteScalar(step, stepSigned)])))]
  }

  /** Round trip: the array that stores `base` and `step`, in either form of the step,
      stands for base, base + step, base + 2 step, ... */
  lemma {:induction false} RoundTrip(base: int, step: int, stepSigned: bool, t: Type, n: nat)
    requires t.IsInteger() && InRange(base, 8 * t.Width(), t.IsSigned()) && InRange(step, 64, stepSigned)
    ensures InRange(base, 64, t.IsSigned())
    ensures var r := Elements(WriteSequence(base, step, stepSigned, t), t, n);
            r.Some? && |r.value| == n && forall i: nat | i < n :: r.value[i] == Element(base, step, i)
  {
    hide Pow2, WriteScalar, Serialize, Parse, IntegerScalar, Step, Denote, InRange;
    NarrowInWide(base, t);
    ScalarRead(WriteScalar(base, t.IsSigned()));
    ScalarRead(WriteScalar(step, stepSigned));
    BaseRead(base, t);
    StepRead(step, stepSigned);
    var m := WriteSequence(base, step, stepSigned, t);
    assert Get(m, 2) == Some(m[1]) && Get(m, 1) == Some(m[0]) by {
      assert m[..1] == [m[0]];
      assert Get([m[0]], 1) == Some(m[0]);
    }
  }
}
