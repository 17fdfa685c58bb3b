/** Decoded arrays: one vector per column, nested for structs, with a validity vector
    where some row may be null. */
module Arrays {
  import opened Wrappers
  import opened Types
  import opened Words

  const MAX_DECODE_BYTES: nat := 512 * 0x10_0000
  const MAX_ROWS: nat := MAX_DECODE_BYTES / 16

  /** `values`: an extension holds the vectors of its storage. A missing validity
      vector means that every row is valid. */
  datatype Values =
    | Void(typ: Type, n: nat, valid: Option<seq<bool>>)
    | Numbers(typ: Type, n: nat, valid: Option<seq<bool>>, words: seq<nat>)
    | Texts(typ: Type, n: nat, valid: Option<seq<bool>>, texts: seq<seq<byte>>)
    | Struct(typ: Type, n: nat, valid: Option<seq<bool>>, fields: seq<Values>)
  {
    predicate IsValid(i: nat)
      requires valid.Some? ==> i < |valid.value|
    {
      valid.None? || valid.value[i]
    }

    ghost predicate NoNulls() {
      valid.Some? ==> forall i | 0 <= i < |valid.value| :: valid.value[i]
    }

    /** All vectors have one entry per row, at every nested field. */
    predicate Fits() {
      && (valid.Some? ==> |valid.value| == n)
      && match this
         case Void(_, _, _) => true
         case Numbers(_, _, _, words) => |words| == n
         case Texts(_, _, _, texts) => |texts| == n
         case Struct(_, _, _, fields) => forall f | f in fields :: f.n == n && f.Fits()
    }
  }

  /** A row of an array, with the nullness of every nested field. */
  datatype Cell = Cell(valid: bool, data: Datum)
  datatype Datum = Nothing | Word(word: nat) | Text(text: seq<byte>) | Record(cells: seq<Cell>)

  function Row(v: Values, i: nat): Cell
    requires v.Fits() && i < v.n
  {
    Cell(v.IsValid(i),
         match v
         case Void(_, _, _) => Nothing
         case Numbers(_, _, _, words) => Word(words[i])
         case Texts(_, _, _, texts) => Text(texts[i])
         case Struct(_, _, _, fields) =>
           Record(seq(|fields|, k requires 0 <= k < |fields| => Row(fields[k], i))))
  }

  function Rows(v: Values): (rows: seq<Cell>)
    requires v.Fits()
    ensures |rows| == v.n
  {
    seq(v.n, i requires 0 <= i < v.n => Row(v, i))
  }

  /** The word of a numeric cell, null or not. */
  function WordOfCell(c: Cell): nat { if c.data.Word? then c.data.word else 0 }

  function TextOfCell(c: Cell): seq<byte> { if c.data.Text? then c.data.text else [] }

  function WordsOf(cells: seq<Cell>): (words: seq<nat>)
    ensures |words| == |cells|
  {
    seq(|cells|, i requires 0 <= i < |cells| => WordOfCell(cells[i]))
  }

  function TextsOf(cells: seq<Cell>): (texts: seq<seq<byte>>)
    ensures |texts| == |cells|
  {
    seq(|cells|, i requires 0 <= i < |cells| => TextOfCell(cells[i]))
  }

  /** What the rows of a vector of numbers are, and what a vector of rows is. */
  lemma {:induction false} NumberRows(v: Values)
    requires v.Numbers? && v.Fits()
    ensures WordsOf(Rows(v)) == v.words
    ensures forall i: nat | i < v.n :: Rows(v)[i] == Cell(v.IsValid(i), Word(v.words[i]))
  {
  }

  lemma {:induction false} TextRows(v: Values)
    requires v.Texts? && v.Fits()
    ensures TextsOf(Rows(v)) == v.texts
    ensures forall i: nat | i < v.n :: Rows(v)[i] == Cell(v.IsValid(i), Text(v.texts[i]))
  {
  }

  // -------------------------------------------------------------------- shapes

  /** The vectors a type asks for, `n` rows each, at every nested field. */
  ghost predicate Shaped(v: Values, t: Type, n: nat)
    decreases t
  {
    && v.n == n && (v.valid.Some? ==> |v.valid.value| == n)
    && if t.kind == KExtension then t.storage.Some? && Shaped(v, t.storage.value, n)
       else if t.kind == KUtf8 || t.kind == KBinary then v.Texts? && |v.texts| == n
       else if t.Width() > 0 then v.Numbers? && |v.words| == n
       else if t.kind == KNull then v.Void?
       else if t.kind == KStruct then
         v.Struct? && |v.fields| == |t.fields|
         && forall k | 0 <= k < |t.fields| :: Shaped(v.fields[k], t.fields[k], n)
       else false
  }

  /** No null in a column whose type forbids it; the null type has nothing else. */
  ghost predicate Admits(v: Values, t: Type) {
    t.nullable || t.kind == KNull || v.NoNulls()
  }

  /** Every nested field admits its nulls. */
  ghost predicate FieldsSound(v: Values, t: Type, n: nat)
    requires Shaped(v, t, n)
    decreases t
  {
    if t.kind == KExtension then FieldsSound(v, t.storage.value, n)
    else t.kind == KStruct ==>
      forall k | 0 <= k < |t.fields| ::
        Admits(v.fields[k], t.fields[k]) && FieldsSound(v.fields[k], t.fields[k], n)
  }

  /** The shape and the nested nullability of a type. */
  ghost predicate Whole(v: Values, t: Type, n: nat) {
    Shaped(v, t, n) && FieldsSound(v, t, n)
  }

  /** Type soundness: shape, row count and nullability at every nested field. */
  ghost predicate WellTyped(v: Values, t: Type, n: nat) {
    Whole(v, t, n) && Admits(v, t)
  }

  /** What parsing a file's type establishes: an extension is nullable exactly when its
      storage is, and the null type is nullable. */
  predicate Consistent(t: Type) {
    && (t.kind == KNull ==> t.nullable)
    && (t.kind == KExtension && t.storage.Some? ==>
          t.storage.value.nullable == t.nullable && Consistent(t.storage.value))
    && (forall k | 0 <= k < |t.fields| :: Consistent(t.fields[k]))
  }

  /** Consistency of the fields only: the decoder itself changes the nullability of the
      outermost type when it asks for a child. */
  predicate Relaxed(t: Type) {
    && (t.kind == KExtension && t.storage.Some? ==> Relaxed(t.storage.value))
    && (forall k | 0 <= k < |t.fields| :: Consistent(t.fields[k]))
  }

  lemma {:induction false} ConsistentIsRelaxed(t: Type)
    requires Consistent(t)
    ensures Relaxed(t)
    decreases t
  {
    if t.kind == KExtension && t.storage.Some? { ConsistentIsRelaxed(t.storage.value); }
  }

  lemma {:induction false} ShapedFits(v: Values, t: Type, n: nat)
    requires Shaped(v, t, n)
    ensures v.Fits()
    decreases t
  {
    if t.kind == KExtension {
      ShapedFits(v, t.storage.value, n);
    } else if t.kind == KStruct {
      forall k | 0 <= k < |v.fields| ensures v.fields[k].n == n && v.fields[k].Fits() {
        ShapedFits(v.fields[k], t.fields[k], n);
      }
    }
  }

  // ------------------------------------------------------------- copying rows

  predicate SameShape(v: Values, src: Values) {
    match v
    case Void(_, _, _) => src.Void?
    case Numbers(_, _, _, _) => src.Numbers?
    case Texts(_, _, _, _) => src.Texts?
    case Struct(_, _, _, fields) =>
      src.Struct? && |src.fields| == |fields| && forall k | 0 <= k < |fields| :: SameShape(fields[k], src.fields[k])
  }

  lemma {:induction false} ShapedAlike(v: Values, n: nat, src: Values, m: nat, t: Type)
    requires Shaped(v, t, n) && Shaped(src, t, m)
    ensures SameShape(v, src)
    decreases t
  {
    if t.kind == KExtension {
      ShapedAlike(v, n, src, m, t.storage.value);
    } else if t.kind == KStruct {
      forall k | 0 <= k < |t.fields| ensures SameShape(v.fields[k], src.fields[k]) {
        ShapedAlike(v.fields[k], n, src.fields[k], m, t.fields[k]);
      }
    }
  }

  /** `values.at`: row `i` of `src` copied to row `dst`, at every nested field. A null
      can only be copied where `v` has a validity vector. */
  function At(v: Values, dst: nat, src: Values, i: nat): Values
    requires v.Fits() && src.Fits() && SameShape(v, src) && dst < v.n && i < src.n
    decreases v
  {
    var valid := if v.valid.Some? then Some(v.valid.value[dst := src.IsValid(i)]) else None;
    match v
    case Void(t, n, _) => Void(t, n, valid)
    case Numbers(t, n, _, words) => Numbers(t, n, valid, words[dst := src.words[i]])
    case Texts(t, n, _, texts) => Texts(t, n, valid, texts[dst := src.texts[i]])
    case Struct(t, n, _, fields) =>
      Struct(t, n, valid, seq(|fields|, k requires 0 <= k < |fields| => At(fields[k], dst, src.fields[k], i)))
  }

  /** `v` has a validity vector wherever `src` has one. */
  predicate Covers(v: Values, src: Values)
    requires SameShape(v, src)
  {
    && (src.valid.Some? ==> v.valid.Some?)
    && (v.Struct? ==> forall k | 0 <= k < |v.fields| :: Covers(v.fields[k], src.fields[k]))
  }

  lemma {:induction false} AtFits(v: Values, dst: nat, src: Values, i: nat)
    requires v.Fits() && src.Fits() && SameShape(v, src) && dst < v.n && i < src.n
    ensures At(v, dst, src, i).Fits() && At(v, dst, src, i).n == v.n
    ensures SameShape(At(v, dst, src, i), src)
    decreases v
  {
    if v.Struct? {
      forall k | 0 <= k < |v.fields|
        ensures At(v, dst, src, i).fields[k].Fits() && At(v, dst, src, i).fields[k].n == v.n
        ensures SameShape(At(v, dst, src, i).fields[k], src.fields[k])
      {
        AtFits(v.fields[k], dst, src.fields[k], i);
      }
    }
  }

  lemma {:induction false} AtCovers(v: Values, dst: nat, src: Values, i: nat)
    requires v.Fits() && src.Fits() && SameShape(v, src) && dst < v.n && i < src.n && Covers(v, src)
    ensures At(v, dst, src, i).Fits() && SameShape(At(v, dst, src, i), src) && Covers(At(v, dst, src, i), src)
    decreases v
  {
    AtFits(v, dst, src, i);
    if v.Struct? {
      forall k | 0 <= k < |v.fields| ensures Covers(At(v, dst, src, i).fields[k], src.fields[k]) {
        AtCovers(v.fields[k], dst, src.fields[k], i);
      }
    }
  }

  /** The copied row is the source row, nulls of nested fields included, and no other
      row changes. */
  lemma {:induction false} AtRow(v: Values, dst: nat, src: Values, i: nat, row: nat)
    requires v.Fits() && src.Fits() && SameShape(v, src) && dst < v.n && i < src.n && row < v.n
    requires Covers(v, src)
    ensures At(v, dst, src, i).Fits() && At(v, dst, src, i).n == v.n
    ensures Row(At(v, dst, src, i), row) == if row == dst then Row(src, i) else Row(v, row)
    decreases v
  {
    AtFits(v, dst, src, i);
    if v.Struct? {
      var w := At(v, dst, src, i);
      forall k | 0 <= k < |v.fields|
        ensures Row(w.fields[k], row) == if row == dst then Row(src.fields[k], i) else Row(v.fields[k], row)
      {
        AtRow(v.fields[k], dst, src.fields[k], i, row);
      }
      assert Row(w, row).data.cells
          == if row == dst then Row(src, i).data.cells else Row(v, row).data.cells;
    }
  }

  /** Copying keeps the type's shape, and the nullability of every nested field. */
  lemma {:induction false} AtWhole(v: Values, n: nat, dst: nat, src: Values, m: nat, i: nat, t: Type)
    requires Whole(v, t, n) && Whole(src, t, m) && dst < n && i < m
    ensures v.Fits() && src.Fits() && SameShape(v, src)
    ensures Whole(At(v, dst, src, i), t, n)
    ensures v.NoNulls() && src.NoNulls() ==> At(v, dst, src, i).NoNulls()
    decreases t
  {
    ShapedFits(v, t, n);
    ShapedFits(src, t, m);
    ShapedAlike(v, n, src, m, t);
    if t.kind == KExtension {
      AtWhole(v, n, dst, src, m, i, t.storage.value);
    } else if t.kind == KStruct {
      var w := At(v, dst, src, i);
      forall k | 0 <= k < |t.fields|
        ensures Whole(w.fields[k], t.fields[k], n) && Admits(w.fields[k], t.fields[k])
      {
        AtWhole(v.fields[k], n, dst, src.fields[k], m, i, t.fields[k]);
      }
    }
  }

  // --------------------------------------------------- validity vectors to hold nulls

  /** `mask`: an all-valid vector where there was none. */
  function Masked(v: Values): Values {
    if v.valid.Some? then v else v.(valid := Some(seq(v.n, _ => true)))
  }

  /** `copyValidityShape`: validity vectors wherever the source has them. */
  function Covering(v: Values, src: Values): Values
    requires SameShape(v, src)
    decreases v
  {
    var m := if src.valid.Some? then Masked(v) else v;
    if m.Struct? then
      m.(fields := seq(|v.fields|, k requires 0 <= k < |v.fields| => Covering(v.fields[k], src.fields[k])))
    else m
  }

  /** It changes no row: the new vectors say what a missing vector means. */
  lemma {:induction false} CoveringRows(v: Values, src: Values, i: nat)
    requires v.Fits() && SameShape(v, src) && i < v.n
    ensures Covering(v, src).Fits() && Covering(v, src).n == v.n
    ensures SameShape(Covering(v, src), src) && Covers(Covering(v, src), src)
    ensures Row(Covering(v, src), i) == Row(v, i)
    decreases v
  {
    if v.Struct? {
      var w := Covering(v, src);
      forall k | 0 <= k < |v.fields|
        ensures w.fields[k].Fits() && w.fields[k].n == v.n && SameShape(w.fields[k], src.fields[k])
        ensures Covers(w.fields[k], src.fields[k])
        ensures Row(w.fields[k], i) == Row(v.fields[k], i)
      {
        CoveringRows(v.fields[k], src.fields[k], i);
      }
      assert Row(w, i).data.cells == Row(v, i).data.cells;
    }
  }

  lemma {:induction false} CoveringWhole(v: Values, n: nat, src: Values, m: nat, t: Type)
    requires Whole(v, t, n) && Shaped(src, t, m)
    ensures SameShape(v, src) && Whole(Covering(v, src), t, n)
    ensures v.NoNulls() ==> Covering(v, src).NoNulls()
    ensures SameShape(Covering(v, src), src) && Covers(Covering(v, src), src)
    decreases t
  {
    ShapedAlike(v, n, src, m, t);
    if t.kind == KExtension {
      CoveringWhole(v, n, src, m, t.storage.value);
    } else if t.kind == KStruct {
      var w := Covering(v, src);
      forall k | 0 <= k < |t.fields|
        ensures Whole(w.fields[k], t.fields[k], n) && Admits(w.fields[k], t.fields[k])
        ensures SameShape(w.fields[k], src.fields[k]) && Covers(w.fields[k], src.fields[k])
      {
        CoveringWhole(v.fields[k], n, src.fields[k], m, t.fields[k]);
      }
    }
  }

  // ------------------------------------------------------------------ empty arrays

  /** The kinds `empty` can allocate. */
  predicate Supported(t: Type) {
    if t.kind == KExtension then t.storage.Some? && Supported(t.storage.value)
    else if t.kind == KStruct then forall k | 0 <= k < |t.fields| :: Supported(t.fields[k])
    else t.kind == KUtf8 || t.kind == KBinary || t.Width() > 0 || t.kind == KNull
  }

  /** `empty`: zero values, all valid; in the null type all null. */
  function EmptyOf(t: Type, n: nat): Values
    requires Supported(t)
  {
    if t.kind == KExtension then EmptyOf(t.storage.value, n).(typ := t)
    else if t.kind == KStruct then
      Struct(t, n, None, seq(|t.fields|, k requires 0 <= k < |t.fields| => EmptyOf(t.fields[k], n)))
    else if t.kind == KUtf8 || t.kind == KBinary then Texts(t, n, None, seq(n, _ => []))
    else if t.Width() > 0 then Numbers(t, n, None, seq(n, _ => 0))
    else Void(t, n, Some(seq(n, _ => false)))
  }

  /** A row of an empty array. */
  function Blank(t: Type): Cell
    requires Supported(t)
  {
    if t.kind == KExtension then Blank(t.storage.value)
    else if t.kind == KStruct then
      Cell(true, Record(seq(|t.fields|, k requires 0 <= k < |t.fields| => Blank(t.fields[k]))))
    else if t.kind == KUtf8 || t.kind == KBinary then Cell(true, Text([]))
    else if t.Width() > 0 then Cell(true, Word(0))
    else Cell(false, Nothing)
  }

  lemma {:induction false} EmptyRow(t: Type, n: nat, i: nat)
    requires Supported(t) && i < n
    ensures EmptyOf(t, n).Fits() && EmptyOf(t, n).n == n && Row(EmptyOf(t, n), i) == Blank(t)
    decreases t
  {
    if t.kind == KExtension {
      EmptyRow(t.storage.value, n, i);
      var v := EmptyOf(t.storage.value, n);
      assert Row(v.(typ := t), i) == Row(v, i);
    } else if t.kind == KStruct {
      var v := EmptyOf(t, n);
      forall k | 0 <= k < |t.fields|
        ensures v.fields[k].Fits() && v.fields[k].n == n && Row(v.fields[k], i) == Blank(t.fields[k])
      {
        EmptyRow(t.fields[k], n, i);
      }
      assert Row(v, i).data.cells == Blank(t).data.cells;
    }
  }

  /** Renaming the type of an array changes nothing else. */
  lemma {:induction false} RetypedWhole(v: Values, t: Type, n: nat, typ: Type)
    requires Whole(v, t, n)
    ensures Whole(v.(typ := typ), t, n)
    ensures v.NoNulls() ==> v.(typ := typ).NoNulls()
    decreases t
  {
    if t.kind == KExtension { RetypedWhole(v, t.storage.value, n, typ); }
  }

  /** Any validity vector of the right length keeps the shape. */
  lemma {:induction false} RevalidatedWhole(v: Values, t: Type, n: nat, valid: Option<seq<bool>>)
    requires Whole(v, t, n) && (valid.Some? ==> |valid.value| == n)
    ensures Whole(v.(valid := valid), t, n)
    decreases t
  {
    if t.kind == KExtension { RevalidatedWhole(v, t.storage.value, n, valid); }
  }

  /** The kind of the vectors behind extensions. */
  function Root(t: Type): Kind {
    if t.kind == KExtension && t.storage.Some? then Root(t.storage.value) else t.kind
  }

  lemma {:induction false} EmptyWhole(t: Type, n: nat)
    requires Supported(t) && Relaxed(t)
    ensures Whole(EmptyOf(t, n), t, n)
    ensures Root(t) != KNull ==> EmptyOf(t, n).valid == None
    decreases t
  {
    if t.kind == KExtension {
      EmptyWhole(t.storage.value, n);
      RetypedWhole(EmptyOf(t.storage.value, n), t.storage.value, n, t);
    } else if t.kind == KStruct {
      forall k | 0 <= k < |t.fields|
        ensures Whole(EmptyOf(t.fields[k], n), t.fields[k], n) && Admits(EmptyOf(t.fields[k], n), t.fields[k])
      {
        ConsistentIsRelaxed(t.fields[k]);
        EmptyWhole(t.fields[k], n);
        if Root(t.fields[k]) == KNull { NullRoot(t.fields[k]); }
      }
    }
  }

  lemma {:induction false} NullRoot(t: Type)
    requires Consistent(t) && Root(t) == KNull
    ensures t.nullable
    decreases t
  {
    if t.kind == KExtension && t.storage.Some? { NullRoot(t.storage.value); }
  }
}
