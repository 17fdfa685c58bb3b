/** Constant arrays: one scalar message, every row. */
module Constants {
  import opened Wrappers
  import opened Words
  import opened Types
  import opened Proto
  import opened Arrays
  import opened Decoders
  import opened Readings
  import opened Budgets

  lemma {:induction false} RetypedRows(v: Values, typ: Type)
    requires v.Fits()
    ensures v.(typ := typ).Fits() && Rows(v.(typ := typ)) == Rows(v)
  {
    forall i: nat | i < v.n ensures Row(v.(typ := typ), i) == Row(v, i) { }
  }

  /** Every row is the cell. */
  ghost predicate AllAre(v: Values, n: nat, c: Cell) {
    v.Fits() && v.n == n && forall i: nat | i < n :: Row(v, i) == c
  }

  /** `constant`: a null scalar gives null rows; a struct scalar has one scalar a field.
      It succeeds exactly when there is such a scalar, unless the budget refuses it. Every
      nested field admits its nulls, and so does the array itself when its type is
      consistent. */
  method DecodeConstant(lib: Libraries, d: Decoder, t: Type, n: nat, b: seq<byte>) returns (r: Option<Values>)
    requires Relaxed(t) && n <= MAX_ROWS && !d.refused
    modifies d`remaining, d`refused
    ensures d.remaining <= old(d.remaining)
    ensures r.Some? ==> Whole(r.value, t, n) && !d.refused
    ensures r.Some? && Consistent(t) ==> Admits(r.value, t)
    ensures r.Some? ==> Scalar(lib, t, b).Some? && AllAre(r.value, n, Scalar(lib, t, b).value)
    ensures r.None? ==> d.refused || Scalar(lib, t, b).None?
    ensures Paid(old(d.remaining), d.remaining, d.refused, ScalarBytes(t, n))
    decreases t, 1
  {
    hide Whole, Parse, Row, EmptyOf, NumberScalar, Supported, Blank, Decoder.EmptyCost, ScalarBytes, ScalarsBytes;
    ConstantWeight(t, n);
    if t.kind == KExtension {
      if t.storage.None? { return None; }
      r := DecodeConstant(lib, d, t.storage.value, n, b);
      if r.Some? {
        RetypedExtension(r.value, t.storage.value, n, t);
        RetypedCells(r.value, t, n, Scalar(lib, t, b).value);
        r := Some(r.value.(typ := t));
      }
      return;
    }
    var m := ParseProto(b);
    if m.None? { return None; }
    var e := d.Empty(t, n);
    if e.None? { return None; }
    EmptyWhole(t, n);
    ShapedFits(e.value, t, n);
    if NullScalar(m.value) {
      if !t.nullable && t.kind != KNull { return None; }
      var none := Some(seq(n, _ => false));
      NullRows(t, n, e.value, none.value);
      r := Some(e.value.(valid := none));
    } else if t.kind == KStruct {
      r := StructConstant(lib, d, t, n, b, m.value);
    } else if IsString(t) {
      var tag := if t.kind == KUtf8 then 7 else 8;
      if !Has(m.value, tag) || !CheckOf(lib, t).Allows(DataOr(m.value, tag)) { return None; }
      var text := DataOr(m.value, tag);
      var v := Texts(t, n, None, seq(n, _ => text));
      WholeStrings(v, t, n, text);
      r := Some(v);
    } else {
      var x := NumberScalar(m.value, t);
      if x.None? { return None; }
      var v := Numbers(t, n, None, seq(n, _ => x.value));
      NumberKinds(m.value, t);
      WholeNumbers(v, t, n, x.value);
      r := Some(v);
    }
  }

  lemma {:induction false} RetypedCells(v: Values, t: Type, n: nat, c: Cell)
    requires AllAre(v, n, c)
    ensures AllAre(v.(typ := t), n, c)
  {
    var w := v.(typ := t);
    forall i: nat | i < n ensures Row(w, i) == c { assert Row(v, i) == c; }
  }

  lemma {:induction false} NullRows(t: Type, n: nat, v: Values, none: seq<bool>)
    requires Relaxed(t) && Supported(t) && v == EmptyOf(t, n) && Whole(v, t, n)
    requires |none| == n && forall i: nat | i < n :: !none[i]
    ensures Whole(v.(valid := Some(none)), t, n) && AllAre(v.(valid := Some(none)), n, Cell(false, Blank(t).data))
  {
    hide Blank, EmptyOf, Supported;
    ShapedFits(v, t, n);
    RevalidatedWhole(v, t, n, Some(none));
    var w := v.(valid := Some(none));
    forall i: nat | i < n ensures Row(w, i) == Cell(false, Blank(t).data) {
      EmptyRow(t, n, i);
      assert Row(w, i).data == Row(v, i).data;
    }
  }

  lemma {:induction false} RetypedExtension(v: Values, s: Type, n: nat, t: Type)
    requires Whole(v, s, n) && t.kind == KExtension && t.storage == Some(s)
    ensures Whole(v.(typ := t), t, n)
    ensures Consistent(t) && Admits(v, s) ==> Consistent(s) && Admits(v.(typ := t), t)
    ensures Consistent(t) ==> Consistent(s)
  {
    RetypedWhole(v, s, n, t);
    if s.kind == KNull && Consistent(t) { assert Consistent(s); }
  }

  lemma {:induction false} WholeStrings(v: Values, t: Type, n: nat, text: seq<byte>)
    requires IsString(t) && v == Texts(t, n, None, seq(n, _ => text))
    ensures Whole(v, t, n) && AllAre(v, n, Cell(true, Text(text)))
  {
  }

  lemma {:induction false} WholeNumbers(v: Values, t: Type, n: nat, x: nat)
    requires t.Width() > 0 && v == Numbers(t, n, None, seq(n, _ => x))
    ensures Whole(v, t, n) && AllAre(v, n, Cell(true, Word(x)))
  {
  }

  lemma {:induction false} NumberKinds(m: seq<Field>, t: Type)
    requires NumberScalar(m, t).Some?
    ensures t.Width() > 0 && !IsString(t) && t.kind != KStruct && t.kind != KNull
  {
  }

  method StructConstant(lib: Libraries, d: Decoder, t: Type, n: nat, b: seq<byte>,
                        m: seq<Field>) returns (r: Option<Values>)
    requires Relaxed(t) && t.kind == KStruct && Parse(b, 0) == Some(m) && !NullScalar(m) && n <= MAX_ROWS
    requires Supported(t) && !d.refused
    modifies d`remaining, d`refused
    ensures d.remaining <= old(d.remaining)
    ensures r.Some? ==> Whole(r.value, t, n) && r.value.valid == None && !d.refused
    ensures r.Some? ==> Scalar(lib, t, b).Some? && AllAre(r.value, n, Scalar(lib, t, b).value)
    ensures r.None? ==> d.refused || Scalar(lib, t, b).None?
    ensures Paid(old(d.remaining), d.remaining, d.refused, ScalarsBytes(t.fields, n))
    decreases t, 0
  {
    hide Parse, Row, Whole, Scalar, Supported, ScalarBytes, ScalarsBytes;
    StructScalar(lib, t, b, m);
    var list := ParseProto(DataOr(m, 9));
    if list.None? || |list.value| != |t.fields| { return None; }
    var fields: seq<Values> := [];
    for k := 0 to |t.fields|
      invariant |fields| == k && d.remaining <= old(d.remaining) && !d.refused
      invariant forall j: nat | j < k :: FieldConstant(lib, t.fields[j], n, ScalarOf(list.value[j]), fields[j])
      invariant old(d.remaining) <= d.remaining + ScalarsBytes(t.fields[..k], n)
    {
      ScalarBytesNext(t.fields, n, k);
      ConsistentIsRelaxed(t.fields[k]);
      var f := DecodeConstant(lib, d, t.fields[k], n, ScalarOf(list.value[k]));
      if f.None? { return None; }
      fields := fields + [f.value];
    }
    assert t.fields[..|t.fields|] == t.fields;
    var v := Struct(t, n, None, fields);
    StructRows(lib, t, n, list.value, v);
    r := Some(v);
  }

  /** The scalar of a struct, from those of its fields. */
  lemma {:induction false} StructScalar(lib: Libraries, t: Type, b: seq<byte>, m: seq<Field>)
    requires t.kind == KStruct && Supported(t) && Parse(b, 0) == Some(m) && !NullScalar(m)
    ensures Scalar(lib, t, b) == match Parse(DataOr(m, 9), 0) {
              case None => None
              case Some(list) =>
                if |list| != |t.fields| then None
                else if exists k | 0 <= k < |t.fields| :: Scalar(lib, t.fields[k], ScalarOf(list[k])).None? then None
                else Some(Cell(true, Record(seq(|t.fields|, k requires 0 <= k < |t.fields| =>
                       Scalar(lib, t.fields[k], ScalarOf(list[k])).value))))
            }
  {
    hide Parse, Supported;
  }

  ghost predicate FieldConstant(lib: Libraries, t: Type, n: nat, b: seq<byte>, v: Values) {
    && Whole(v, t, n) && Admits(v, t)
    && Scalar(lib, t, b).Some? && AllAre(v, n, Scalar(lib, t, b).value)
  }

  lemma {:induction false} StructRows(lib: Libraries, t: Type, n: nat, list: seq<Field>, v: Values)
    requires t.kind == KStruct && |list| == |t.fields|
    requires v.Struct? && v.n == n && v.valid == None && |v.fields| == |t.fields|
    requires forall k: nat | k < |t.fields| :: FieldConstant(lib, t.fields[k], n, ScalarOf(list[k]), v.fields[k])
    ensures Whole(v, t, n) && forall k: nat | k < |t.fields| :: Scalar(lib, t.fields[k], ScalarOf(list[k])).Some?
    ensures AllAre(v, n, Cell(true, Record(seq(|t.fields|, k requires 0 <= k < |t.fields| =>
                                            Scalar(lib, t.fields[k], ScalarOf(list[k])).value))))
  {
    hide Scalar, ScalarOf;
    forall k: nat | k < |t.fields|
      ensures Scalar(lib, t.fields[k], ScalarOf(list[k])).Some?
      ensures AllAre(v.fields[k], n, Scalar(lib, t.fields[k], ScalarOf(list[k])).value)
    {
      assert FieldConstant(lib, t.fields[k], n, ScalarOf(list[k]), v.fields[k]);
    }
    var cells := seq(|t.fields|, k requires 0 <= k < |t.fields| => Scalar(lib, t.fields[k], ScalarOf(list[k])).value);
    forall i: nat | i < n ensures Row(v, i) == Cell(true, Record(cells)) {
      assert Row(v, i).data.cells == cells;
    }
  }

  /** Why types must be consistent: a non-nullable extension over nullable storage takes
      the null scalar of its storage, so `constant` accepts it. At the top of a tree
      `decode` rejects the result; nothing does in a nested field. */
  lemma {:induction false} InconsistentExtension(lib: Libraries, storage: Type)
    requires storage.nullable && storage.kind != KExtension && Supported(storage)
    ensures var t := Type(KExtension, false, [], Some(storage));
            && !Consistent(t) && Scalar(lib, t, []) == Some(Cell(false, Blank(storage).data))
  {
    assert Parse([], 0) == Some([]);
    assert Scalar(lib, storage, []) == Some(Cell(false, Blank(storage).data));
  }
}
