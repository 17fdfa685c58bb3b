/** The decoder's state: an allocation budget that is only ever spent, the nesting depth,
    and whether one of these limits has refused something; and the allocations made on
    behalf of a file. */
module Decoders {
  import opened Wrappers
  import opened Types
  import opened Arrays

  const MAX_DEPTH: nat := 64

  class Decoder {
    var remaining: nat
    var depth: nat
    ghost var refused: bool

    constructor ()
      ensures remaining == MAX_DECODE_BYTES && depth == 0 && !refused
    {
      remaining := MAX_DECODE_BYTES;
      depth := 0;
      refused := false;
    }

    /** The budget is never negative and never increases. */
    method Reserve(n: int) returns (ok: bool)
      modifies this`remaining, this`refused
      ensures ok == (0 <= n <= old(remaining))
      ensures remaining == if ok then old(remaining) - n else old(remaining)
      ensures refused == (old(refused) || !ok)
    {
      ok := 0 <= n <= remaining;
      if ok { remaining := remaining - n; } else { refused := true; }
    }

    /** What `empty` charges. */
    static function EmptyCost(t: Type, n: nat): nat {
      if t.kind == KExtension && t.storage.Some? then EmptyCost(t.storage.value, n)
      else if t.kind == KStruct then FieldsCost(t.fields, n)
      else if t.kind == KUtf8 || t.kind == KBinary then n * 24
      else if t.Width() > 0 then n * 8
      else n
    }

    static function FieldsCost(fields: seq<Type>, n: nat): nat {
      if fields == [] then 0 else FieldsCost(fields[..|fields| - 1], n) + EmptyCost(fields[|fields| - 1], n)
    }

    /** Succeeds exactly when the type can be allocated within the limits. */
    method Empty(t: Type, n: nat) returns (r: Option<Values>)
      modifies this`remaining, this`refused
      ensures r.Some? <==> n <= MAX_ROWS && Supported(t) && EmptyCost(t, n) <= old(remaining)
      ensures r.Some? ==> r.value == EmptyOf(t, n) && remaining == old(remaining) - EmptyCost(t, n)
      ensures r.Some? ==> refused == old(refused)
      ensures r.None? && n <= MAX_ROWS && Supported(t) ==> refused
      ensures EmptyCost(t, n) <= old(remaining) ==> refused == old(refused)
      ensures old(remaining) <= remaining + EmptyCost(t, n)
      ensures remaining <= old(remaining)
      decreases t
    {
      if n > MAX_ROWS { return None; }
      if t.kind == KUtf8 || t.kind == KBinary {
        var ok := Reserve(n * 24);
        r := if ok then Some(Texts(t, n, None, seq(n, _ => []))) else None;
      } else if t.Width() > 0 {
        var ok := Reserve(n * 8);
        r := if ok then Some(Numbers(t, n, None, seq(n, _ => 0))) else None;
      } else if t.kind == KExtension {
        if t.storage.None? { return None; }
        r := Empty(t.storage.value, n);
        if r.Some? { r := Some(r.value.(typ := t)); }
      } else if t.kind == KNull {
        var ok := Reserve(n);
        r := if ok then Some(Void(t, n, Some(seq(n, _ => false)))) else None;
      } else if t.kind == KStruct {
        var fields := EmptyFields(t.fields, n);
        if fields.None? { return None; }
        assert fields.value == EmptyOf(t, n).fields;
        r := Some(Struct(t, n, None, fields.value));
      } else {
        r := None;
      }
    }

    method EmptyFields(fields: seq<Type>, n: nat) returns (r: Option<seq<Values>>)
      requires n <= MAX_ROWS
      modifies this`remaining, this`refused
      ensures r.Some? <==> (forall k | 0 <= k < |fields| :: Supported(fields[k]))
                           && FieldsCost(fields, n) <= old(remaining)
      ensures r.Some? ==> |r.value| == |fields| && forall k | 0 <= k < |fields| :: r.value[k] == EmptyOf(fields[k], n)
      ensures r.Some? ==> remaining == old(remaining) - FieldsCost(fields, n) && refused == old(refused)
      ensures r.None? && (forall k | 0 <= k < |fields| :: Supported(fields[k])) ==> refused
      ensures FieldsCost(fields, n) <= old(remaining) ==> refused == old(refused)
      ensures old(remaining) <= remaining + FieldsCost(fields, n)
      ensures remaining <= old(remaining)
      decreases fields
    {
      hide EmptyCost, EmptyOf, Supported;
      var out: seq<Values> := [];
      for i := 0 to |fields|
        invariant |out| == i
        invariant forall k | 0 <= k < i :: Supported(fields[k]) && out[k] == EmptyOf(fields[k], n)
        invariant FieldsCost(fields[..i], n) <= old(remaining)
        invariant remaining == old(remaining) - FieldsCost(fields[..i], n) && refused == old(refused)
      {
        assert fields[..i + 1][..i] == fields[..i];
        CostMono(fields, i + 1, n);
        CostMono(fields, i, n);
        var f := Empty(fields[i], n);
        if f.None? { return None; }
        out := out + [f.value];
      }
      assert fields[..|fields|] == fields;
      r := Some(out);
    }

    static lemma {:induction false} CostMono(fields: seq<Type>, i: nat, n: nat)
      requires i <= |fields|
      ensures FieldsCost(fields[..i], n) <= FieldsCost(fields, n)
      decreases |fields|
    {
      if i < |fields| {
        CostMono(fields[..|fields| - 1], i, n);
        assert fields[..|fields| - 1][..i] == fields[..i];
      } else {
        assert fields[..i] == fields;
      }
    }

    /** `mask`: charges one byte a row for a new vector. */
    method Mask(v: Values) returns (r: Option<Values>)
      modifies this`remaining, this`refused
      ensures r.Some? <==> MaskCost(v) <= old(remaining)
      ensures r.Some? ==> r.value == Masked(v) && remaining == old(remaining) - MaskCost(v)
      ensures refused == (old(refused) || r.None?)
      ensures r.None? ==> remaining == old(remaining)
      ensures remaining <= old(remaining)
    {
      if v.valid.Some? { return Some(v); }
      var ok := Reserve(v.n);
      r := if ok then Some(v.(valid := Some(seq(v.n, _ => true)))) else None;
    }

    static function MaskCost(v: Values): nat { if v.valid.Some? then 0 else v.n }

    static function CoveringCost(v: Values, src: Values): nat
      requires SameShape(v, src)
      decreases v
    {
      (if src.valid.Some? then MaskCost(v) else 0)
      + (if v.Struct? then CoveringFields(v.fields, src.fields) else 0)
    }

    static function CoveringFields(fs: seq<Values>, srcs: seq<Values>): nat
      requires |fs| == |srcs| && forall k | 0 <= k < |fs| :: SameShape(fs[k], srcs[k])
      decreases fs
    {
      if fs == [] then 0
      else
        var last := |fs| - 1;
        CoveringFields(fs[..last], srcs[..last]) + CoveringCost(fs[last], srcs[last])
    }

    static lemma {:induction false} CoveringMono(fs: seq<Values>, srcs: seq<Values>, i: nat)
      requires |fs| == |srcs| && i <= |fs| && forall k | 0 <= k < |fs| :: SameShape(fs[k], srcs[k])
      ensures CoveringFields(fs[..i], srcs[..i]) <= CoveringFields(fs, srcs)
      decreases |fs|
    {
      if i < |fs| {
        var last := |fs| - 1;
        CoveringMono(fs[..last], srcs[..last], i);
        assert fs[..last][..i] == fs[..i] && srcs[..last][..i] == srcs[..i];
      } else {
        assert fs[..i] == fs && srcs[..i] == srcs;
      }
    }

    /** `copyValidityShape`: validity vectors wherever the source has them. */
    method CopyValidityShape(v: Values, src: Values) returns (r: Option<Values>)
      requires SameShape(v, src)
      modifies this`remaining, this`refused
      ensures r.Some? <==> CoveringCost(v, src) <= old(remaining)
      ensures r.Some? ==> r.value == Covering(v, src) && remaining == old(remaining) - CoveringCost(v, src)
      ensures refused == (old(refused) || r.None?)
      ensures old(remaining) <= remaining + CoveringCost(v, src)
      ensures remaining <= old(remaining)
      decreases v
    {
      var m := v;
      if src.valid.Some? {
        var masked := Mask(v);
        if masked.None? { return None; }
        m := masked.value;
      }
      if v.Struct? {
        var fields := CopyFields(v.fields, src.fields);
        if fields.None? { return None; }
        r := Some(m.(fields := fields.value));
      } else {
        r := Some(m);
      }
    }

    method CopyFields(fs: seq<Values>, srcs: seq<Values>) returns (r: Option<seq<Values>>)
      requires |fs| == |srcs| && forall k | 0 <= k < |fs| :: SameShape(fs[k], srcs[k])
      modifies this`remaining, this`refused
      ensures r.Some? <==> CoveringFields(fs, srcs) <= old(remaining)
      ensures r.Some? ==> |r.value| == |fs| && forall k | 0 <= k < |fs| :: r.value[k] == Covering(fs[k], srcs[k])
      ensures r.Some? ==> remaining == old(remaining) - CoveringFields(fs, srcs)
      ensures refused == (old(refused) || r.None?)
      ensures old(remaining) <= remaining + CoveringFields(fs, srcs)
      ensures remaining <= old(remaining)
      decreases fs
    {
      hide CoveringCost, Covering, SameShape, MaskCost;
      var out: seq<Values> := [];
      for i := 0 to |fs|
        invariant |out| == i
        invariant forall k | 0 <= k < i :: out[k] == Covering(fs[k], srcs[k])
        invariant CoveringFields(fs[..i], srcs[..i]) <= old(remaining)
        invariant remaining == old(remaining) - CoveringFields(fs[..i], srcs[..i]) && refused == old(refused)
      {
        assert fs[..i + 1][..i] == fs[..i] && srcs[..i + 1][..i] == srcs[..i];
        CoveringMono(fs, srcs, i + 1);
        var f := CopyValidityShape(fs[i], srcs[i]);
        if f.None? { return None; }
        out := out + [f.value];
      }
      assert fs[..|fs|] == fs && srcs[..|fs|] == srcs;
      r := Some(out);
    }
  }
}
