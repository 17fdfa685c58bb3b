/** What the decoder's budget pays for: exactly the bytes of the vectors it allocates. */
module Memory {
  import opened Wrappers
  import opened Types
  import opened Arrays
  import opened Decoders

  /** The bytes of a decoded array: one a flag, eight a word, 24 a string header. */
  function Bytes(v: Values): nat {
    (if v.valid.Some? then |v.valid.value| else 0)
    + match v
      case Void(_, _, _) => 0
      case Numbers(_, _, _, words) => 8 * |words|
      case Texts(_, _, _, texts) => 24 * |texts|
      case Struct(_, _, _, fields) => FieldBytes(fields)
  }

  function FieldBytes(fields: seq<Values>): nat {
    if fields == [] then 0 else Bytes(fields[0]) + FieldBytes(fields[1..])
  }

  lemma {:induction false} LastField(fields: seq<Values>)
    requires fields != []
    ensures FieldBytes(fields) == FieldBytes(fields[..|fields| - 1]) + Bytes(fields[|fields| - 1])
    decreases |fields|
  {
    hide Bytes;
    var last := |fields| - 1;
    if last > 0 {
      LastField(fields[1..]);
      assert fields[1..][..last - 1] == fields[..last][1..] && fields[..last][0] == fields[0];
    } else {
      assert fields[1..] == [] && fields[..last] == [];
    }
  }

  /** An empty array of a type costs its bytes. */
  lemma {:induction false} EmptyCostsItsBytes(t: Type, n: nat)
    requires Supported(t)
    ensures Decoder.EmptyCost(t, n) == Bytes(EmptyOf(t, n))
    decreases t, 1
  {
    if t.kind == KExtension {
      EmptyCostsItsBytes(t.storage.value, n);
      RetypedBytes(EmptyOf(t.storage.value, n), t);
    } else if t.kind == KStruct {
      FieldsCostTheirBytes(t.fields, n, EmptyOf(t, n).fields);
    }
  }

  lemma {:induction false} RetypedBytes(v: Values, t: Type)
    ensures Bytes(v.(typ := t)) == Bytes(v)
  {
  }

  lemma {:induction false} FieldsCostTheirBytes(types: seq<Type>, n: nat, fields: seq<Values>)
    requires |fields| == |types| && forall k | 0 <= k < |types| :: Supported(types[k])
    requires forall k | 0 <= k < |types| :: fields[k] == EmptyOf(types[k], n)
    ensures Decoder.FieldsCost(types, n) == FieldBytes(fields)
    decreases types, 0
  {
    hide Bytes, EmptyOf, Decoder.EmptyCost, Supported;
    if types != [] {
      var last := |types| - 1;
      FieldsCostTheirBytes(types[..last], n, fields[..last]);
      EmptyCostsItsBytes(types[last], n);
      LastField(fields);
    }
  }

  /** A new validity vector costs its bytes. */
  lemma {:induction false} MaskCostsItsBytes(v: Values)
    ensures Bytes(Masked(v)) == Bytes(v) + Decoder.MaskCost(v)
  {
  }

  /** So do all validity vectors that nulls need, at every nested field. */
  lemma {:induction false} CoveringCostsItsBytes(v: Values, src: Values)
    requires SameShape(v, src)
    ensures Bytes(Covering(v, src)) == Bytes(v) + Decoder.CoveringCost(v, src)
    decreases v, 1
  {
    MaskCostsItsBytes(v);
    if v.Struct? {
      CoveringFieldsCost(v.fields, src.fields, Covering(v, src).fields);
    }
  }

  lemma {:induction false} CoveringFieldsCost(fs: seq<Values>, srcs: seq<Values>, out: seq<Values>)
    requires |fs| == |srcs| == |out| && forall k | 0 <= k < |fs| :: SameShape(fs[k], srcs[k])
    requires forall k | 0 <= k < |fs| :: out[k] == Covering(fs[k], srcs[k])
    ensures FieldBytes(out) == FieldBytes(fs) + Decoder.CoveringFields(fs, srcs)
    decreases fs, 0
  {
    hide Bytes, Covering, SameShape, Decoder.CoveringCost;
    if fs != [] {
      var last := |fs| - 1;
      CoveringFieldsCost(fs[..last], srcs[..last], out[..last]);
      CoveringCostsItsBytes(fs[last], srcs[last]);
      LastField(fs);
      LastField(out);
    }
  }
}
