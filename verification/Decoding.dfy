/** The recursive decoder: one method per encoding. It returns the reading of the tree of
    encodings, as an array of the requested type at every nested field, and fails only
    when there is no reading or a limit refuses it. */
module Decoding {
  import opened Wrappers
  import opened Words
  import opened Types
  import opened Proto
  import opened Arrays
  import opened Decoders
  import opened Readings
  import opened Budgets
  import BitStrings
  import BitPacking
  import FastLanes
  import LaneDelta
  import opened Constants
  import Sequences
  import NumberColumns
  import Overrides
  import RowCopies
  import Tokens
  import NullExpansion
  import PcoStream

  // -------------------------------------------------------------- decoded arrays

  /** The shape and nested nullability of a type, and the vector it asks for. */
  ghost predicate Good(v: Values, t: Type, n: nat) {
    && Whole(v, t, n) && v.Fits() && v.n == n
    && (t.Width() > 0 ==> v.Numbers?) && (IsString(t) ==> v.Texts?)
  }

  /** The result of decoding: the array of the reading; or nothing, because there is no
      reading or because a limit refused it. */
  ghost predicate Outcome(refused: bool, r: Option<Values>, t: Type, n: nat, reading: Option<seq<Cell>>) {
    match r
    case Some(v) => Good(v, t, n) && v.Fits() && !refused && reading == Some(Rows(v))
    case None => refused || reading.None?
  }

  lemma {:induction false} WholeIsGood(v: Values, t: Type, n: nat)
    requires Whole(v, t, n)
    ensures Good(v, t, n) && v.Fits() && v.n == n
  {
    ShapedFits(v, t, n);
  }

  lemma {:induction false} NumbersGood(t: Type, n: nat, valid: Option<seq<bool>>, words: seq<nat>)
    requires t.Width() > 0 && |words| == n && (valid.Some? ==> |valid.value| == n)
    ensures Good(Numbers(t, n, valid, words), t, n)
  {
  }

  lemma {:induction false} TextsGood(t: Type, n: nat, valid: Option<seq<bool>>, texts: seq<seq<byte>>)
    requires IsString(t) && |texts| == n && (valid.Some? ==> |valid.value| == n)
    ensures Good(Texts(t, n, valid, texts), t, n)
  {
  }

  /** An optional validity vector as one flag per row. */
  function Flags(valid: Option<seq<bool>>, n: nat): (mask: seq<bool>)
    requires valid.Some? ==> |valid.value| == n
    ensures |mask| == n
  {
    if valid.Some? then valid.value else seq(n, _ => true)
  }

  // ------------------------------------------------------------------ the recursion

  /** `decode`: depth and length limits around one encoding, and the check that no null
      reaches a parent that does not allow it. Type soundness: a successful result has
      the shape, the row count and, at every nested field, the nullability of its type;
      refinement: its rows are the reading of the tree; completeness: it fails only when
      the tree has no reading or a limit refuses it. */
  method Decode(lib: Libraries, d: Decoder, node: Node, t: Type, n: nat) returns (r: Option<Values>)
    requires Relaxed(t) && !d.refused
    modifies d
    ensures d.depth == old(d.depth) && d.remaining <= old(d.remaining)
    ensures r.Some? ==> WellTyped(r.value, t, n) && n <= MAX_ROWS
    ensures Outcome(d.refused, r, t, n, Reading(lib, node, t, n))
    ensures old(d.depth) + Height(node) <= MAX_DEPTH ==>
              Paid(old(d.remaining), d.remaining, d.refused, Need(lib, node, t, n))
    decreases node, 10
  {
    hide Relaxed, Whole, Encoded, Rows, Parse, NodeNeed;
    if d.depth >= MAX_DEPTH {
      d.refused := true;
      return None;
    }
    if n > MAX_ROWS { return None; }
    d.depth := d.depth + 1;
    r := Dispatch(lib, d, node, t, n);
    d.depth := d.depth - 1;
    if r.Some? && !t.nullable && t.kind != KNull && r.value.valid.Some? {
      RowValidity(r.value);
      for row := 0 to |r.value.valid.value|
        modifies {}
        invariant forall k | 0 <= k < row :: r.value.valid.value[k]
      {
        if !r.value.valid.value[row] {
          assert !Rows(r.value)[row].valid;
          return None;
        }
      }
    }
    if r.Some? { RowValidity(r.value); }
  }

  lemma {:induction false} RowValidity(v: Values)
    requires v.Fits()
    ensures forall i: nat | i < v.n :: Rows(v)[i].valid == v.IsValid(i)
  {
  }

  method Child(lib: Libraries, d: Decoder, node: Node, i: nat, t: Type, n: nat) returns (r: Option<Values>)
    requires Relaxed(t) && !d.refused
    modifies d
    ensures d.depth == old(d.depth) && d.remaining <= old(d.remaining)
    ensures r.Some? ==> WellTyped(r.value, t, n) && n <= MAX_ROWS
    ensures Outcome(d.refused, r, t, n, ChildReading(lib, node, i, t, n))
    ensures Fits(old(d.depth), node) ==>
              Paid(old(d.remaining), d.remaining, d.refused, ChildNeed(lib, node, i, Some(t), n))
    decreases node, 0
  {
    hide Relaxed, Whole, WellTyped, Good, Reading, Rows, Need, Height, Highest;
    if i < |node.children| { ChildHeight(node.children, i); }
    if i >= |node.children| { return None; }
    r := Decode(lib, d, node.children[i], t, n);
  }

  /** A child of a plain numeric type. */
  method NumberChild(lib: Libraries, d: Decoder, node: Node, i: nat, t: Type, n: nat) returns (r: Option<Values>)
    requires t.Width() > 0 && Relaxed(t) && !d.refused
    modifies d
    ensures d.depth == old(d.depth) && d.remaining <= old(d.remaining)
    ensures r.Some? ==> r.value.Numbers? && r.value.Fits() && r.value.n == n <= MAX_ROWS && !d.refused
    ensures r.Some? && !t.nullable && t.kind != KNull ==> r.value.NoNulls()
    ensures r.Some? ==> ChildReading(lib, node, i, t, n) == Some(Rows(r.value))
    ensures r.Some? ==> WordsReading(lib, node, i, t, n) == Some(r.value.words)
    ensures r.Some? ==> Rows(r.value) == WordRows(Flags(r.value.valid, n), r.value.words)
    ensures r.Some? ==> ValidsOf(Rows(r.value)) == Flags(r.value.valid, n)
    ensures r.None? ==> d.refused
                        || (ChildReading(lib, node, i, t, n).None? && WordsReading(lib, node, i, t, n).None?)
    ensures Fits(old(d.depth), node) ==>
              Paid(old(d.remaining), d.remaining, d.refused, ChildNeed(lib, node, i, Some(t), n))
    decreases node, 1
  {
    hide Relaxed, Whole, ChildReading, ChildNeed;
    r := Child(lib, d, node, i, t, n);
    if r.Some? { NumberRows(r.value); }
  }

  /** The words of a child of a numeric type. */
  method WordsChild(lib: Libraries, d: Decoder, node: Node, i: nat, t: Type, n: nat) returns (r: Option<seq<nat>>)
    requires t.Width() > 0 && Relaxed(t) && !d.refused
    modifies d
    ensures d.depth == old(d.depth) && d.remaining <= old(d.remaining)
    ensures r.Some? ==> !d.refused && |r.value| == n <= MAX_ROWS && WordsReading(lib, node, i, t, n) == r
    ensures r.None? ==> d.refused || WordsReading(lib, node, i, t, n).None?
    ensures Fits(old(d.depth), node) ==>
              Paid(old(d.remaining), d.remaining, d.refused, ChildNeed(lib, node, i, Some(t), n))
    decreases node, 2
  {
    hide Relaxed, WordsReading, ChildReading, Rows, WordRows, ValidsOf, ChildNeed;
    var v := NumberChild(lib, d, node, i, t, n);
    r := if v.None? then None else Some(v.value.words);
  }

  /** `validity`: the last child, if there is one, says which rows are valid. Its own
      nulls were already rejected, since its type is not nullable. */
  method ValidityOf(lib: Libraries, d: Decoder, node: Node, index: nat, n: nat) returns (r: Option<Option<seq<bool>>>)
    requires !d.refused
    modifies d
    ensures d.depth == old(d.depth) && d.remaining <= old(d.remaining)
    ensures r.Some? && r.value.Some? ==> |r.value.value| == n
    ensures r.Some? ==> !d.refused && MaskReading(lib, node, index, n) == Some(Flags(r.value, n))
    ensures r.None? ==> d.refused || MaskReading(lib, node, index, n).None?
    ensures Fits(old(d.depth), node) ==>
              Paid(old(d.remaining), d.remaining, d.refused, n + LastNeed(lib, node, n))
    decreases node, 4
  {
    hide BitsReading, ChildNeed;
    if |node.children| == index { return Some(None); }
    if |node.children| != index + 1 { return None; }
    var bits := RowBits(lib, d, node, index, n);
    if bits.None? { return None; }
    var ok := d.Reserve(n);
    if !ok { return None; }
    r := Some(Some(bits.value));
  }

  /** A child of bits. */
  method RowBits(lib: Libraries, d: Decoder, node: Node, i: nat, n: nat) returns (r: Option<seq<bool>>)
    requires !d.refused
    modifies d
    ensures d.depth == old(d.depth) && d.remaining <= old(d.remaining)
    ensures r.Some? ==> |r.value| == n && !d.refused && BitsReading(lib, node, i, n) == r
    ensures r.None? ==> d.refused || BitsReading(lib, node, i, n).None?
    ensures Fits(old(d.depth), node) ==>
              Paid(old(d.remaining), d.remaining, d.refused, ChildNeed(lib, node, i, Some(BOOL), n))
    decreases node, 3
  {
    hide WordsReading, ChildNeed;
    var bits := WordsChild(lib, d, node, i, BOOL, n);
    if bits.None? { return None; }
    var flags := NonZero(bits.value);
    r := Some(flags);
  }

  method NonZero(words: seq<nat>) returns (flags: seq<bool>)
    ensures flags == seq(|words|, k requires 0 <= k < |words| => words[k] != 0)
  {
    var out := new bool[|words|](_ => false);
    for i := 0 to |words|
      invariant forall k | 0 <= k < i :: out[k] == (words[k] != 0)
    {
      out[i] := words[i] != 0;
    }
    flags := out[..];
  }

  // ------------------------------------------------------------------------ leaves

  /** `empty` for a numeric or string type. */
  method EmptyNumbers(d: Decoder, t: Type, n: nat) returns (ok: bool)
    requires n <= MAX_ROWS && (t.Width() > 0 || IsString(t)) && !d.refused
    modifies d`remaining, d`refused
    ensures d.remaining <= old(d.remaining) && d.refused == !ok
    ensures Paid(old(d.remaining), d.remaining, d.refused, 24 * n)
  {
    var v := d.Empty(t, n);
    ok := v.Some?;
  }

  /** The array of `words`, and its rows. */
  method NumbersOf(t: Type, n: nat, valid: Option<seq<bool>>, words: seq<nat>) returns (v: Values)
    requires t.Width() > 0 && |words| == n && (valid.Some? ==> |valid.value| == n)
    ensures v == Numbers(t, n, valid, words) && Good(v, t, n) && v.Fits()
    ensures Rows(v) == WordRows(Flags(valid, n), words)
  {
    v := Numbers(t, n, valid, words);
    NumbersGood(t, n, valid, words);
    NumberRows(v);
  }

  method TextsFrom(t: Type, n: nat, valid: Option<seq<bool>>, texts: seq<seq<byte>>) returns (v: Values)
    requires IsString(t) && |texts| == n && (valid.Some? ==> |valid.value| == n)
    ensures v == Texts(t, n, valid, texts) && Good(v, t, n) && v.Fits()
    ensures Rows(v) == StringRows(Flags(valid, n), texts)
  {
    v := Texts(t, n, valid, texts);
    TextsGood(t, n, valid, texts);
    TextRows(v);
  }

  method DecodePrimitive(lib: Libraries, d: Decoder, node: Node, t: Type, n: nat) returns (r: Option<Values>)
    requires n <= MAX_ROWS && !d.refused
    modifies d
    ensures d.depth == old(d.depth) && d.remaining <= old(d.remaining)
    ensures Outcome(d.refused, r, t, n, PrimitiveReading(lib, node, t, n))
    ensures Fits(old(d.depth), node) ==>
              Paid(old(d.remaining), d.remaining, d.refused, LeafNeed(lib, node, t, n))
    decreases node, 5
  {
    hide MaskReading, Rows, BufferWord, Good, WordRows, LastNeed, Own, Fits;
    if t.Width() > 0 || IsString(t) { OwnLeaf(t, n); }
    var w := t.Width();
    if w == 0 || t.kind == KBool || |node.buffers| != 1 { return None; }
    var b := node.buffers[0];
    if node.metadata != [] || |b| != n * w { return None; }
    var ok := EmptyNumbers(d, t, n);
    if !ok { return None; }
    var words := ReadWords(b, w, n);
    var valid := ValidityOf(lib, d, node, 0, n);
    if valid.None? { return None; }
    var v := NumbersOf(t, n, valid.value, words);
    r := Some(v);
  }

  /** The loop over the words of the buffer. */
  method ReadWords(b: seq<byte>, w: nat, n: nat) returns (words: seq<nat>)
    ensures words == BufferWords(b, w, n)
  {
    hide BufferWord;
    var out := new nat[n](_ => 0);
    for i := 0 to n
      invariant forall k: nat | k < i :: out[k] == BufferWord(b, w, k)
    {
      out[i] := BufferWord(b, w, i);
    }
    words := out[..];
  }

  method DecodeBoolean(lib: Libraries, d: Decoder, node: Node, m: seq<Field>, t: Type,
                       n: nat) returns (r: Option<Values>)
    requires n <= MAX_ROWS && !d.refused
    modifies d
    ensures d.depth == old(d.depth) && d.remaining <= old(d.remaining)
    ensures Outcome(d.refused, r, t, n, BooleanReading(lib, node, m, t, n))
    ensures Fits(old(d.depth), node) ==>
              Paid(old(d.remaining), d.remaining, d.refused, LeafNeed(lib, node, t, n))
    decreases node, 5
  {
    hide MaskReading, Rows, BufferBit, Good, WordRows, Num, LastNeed, Own, Fits;
    if t.Width() > 0 || IsString(t) { OwnLeaf(t, n); }
    if t.kind != KBool || |node.buffers| != 1 { return None; }
    var b, off := node.buffers[0], Num(m, 1);
    if off >= 8 { return None; }
    var ok := EmptyNumbers(d, t, n);
    if !ok || |b| * 8 < n + off { return None; }
    var words := ReadBits(b, off, n);
    var valid := ValidityOf(lib, d, node, 0, n);
    if valid.None? { return None; }
    var v := NumbersOf(t, n, valid.value, words);
    r := Some(v);
  }

  /** The loop over the bits of the buffer. */
  method ReadBits(b: seq<byte>, off: nat, n: nat) returns (words: seq<nat>)
    ensures words == BufferBits(b, off, n)
  {
    hide BufferBit;
    var out := new nat[n](_ => 0);
    for i := 0 to n
      invariant forall k: nat | k < i :: out[k] == BufferBit(b, k + off)
    {
      out[i] := BufferBit(b, i + off);
    }
    words := out[..];
  }

  method DecodeByteBool(lib: Libraries, d: Decoder, node: Node, m: seq<Field>, t: Type,
                        n: nat) returns (r: Option<Values>)
    requires n <= MAX_ROWS && !d.refused
    modifies d
    ensures d.depth == old(d.depth) && d.remaining <= old(d.remaining)
    ensures Outcome(d.refused, r, t, n, ByteBoolReading(lib, node, m, t, n))
    ensures Fits(old(d.depth), node) ==>
              Paid(old(d.remaining), d.remaining, d.refused, LeafNeed(lib, node, t, n))
    decreases node, 5
  {
    hide MaskReading, Rows, Good, WordRows, Num, LastNeed, Own, Fits;
    if t.Width() > 0 || IsString(t) { OwnLeaf(t, n); }
    if t.kind != KBool || |node.buffers| != 1 { return None; }
    var b := node.buffers[0];
    if Num(m, 1) >= 8 { return None; }
    var ok := EmptyNumbers(d, t, n);
    if !ok || |b| != n { return None; }
    var words := ReadBytes(b);
    if words.None? { return None; }
    var valid := ValidityOf(lib, d, node, 0, n);
    if valid.None? { return None; }
    var v := NumbersOf(t, n, valid.value, words.value);
    r := Some(v);
  }

  /** The loop over the bytes of the buffer, each 0 or 1. */
  method ReadBytes(b: seq<byte>) returns (words: Option<seq<nat>>)
    ensures words == if exists x | x in b :: x > 1 then None else Some(ByteWords(b))
  {
    var out := new nat[|b|](_ => 0);
    for i := 0 to |b|
      invariant forall k: nat | k < i :: b[k] <= 1 && out[k] == b[k]
    {
      if b[i] > 1 {
        assert b[i] in b;
        return None;
      }
      out[i] := b[i];
    }
    assert out[..] == ByteWords(b);
    words := Some(out[..]);
  }

  // ---------------------------------------------------------------- string leaves

  /** Strings as ranges of a buffer: a child of offsets, and the validity child after it. */
  method RangeTexts(lib: Libraries, d: Decoder, node: Node, i: nat, ot: Type, b: seq<byte>, n: nat)
    returns (r: Option<(Option<seq<bool>>, seq<seq<byte>>)>)
    requires ot.Width() > 0 && Relaxed(ot) && !d.refused
    modifies d
    ensures d.depth == old(d.depth) && d.remaining <= old(d.remaining)
    ensures r.Some? ==> !d.refused && |r.value.1| == n && (r.value.0.Some? ==> |r.value.0.value| == n)
    ensures r.Some? ==> RangesReading(lib, node, i, ot, b, n) == Some((Flags(r.value.0, n), r.value.1))
    ensures r.None? ==> d.refused || RangesReading(lib, node, i, ot, b, n).None?
    ensures Fits(old(d.depth), node) ==>
              Paid(old(d.remaining), d.remaining, d.refused, n + RangesNeed(lib, node, i, Some(ot), n))
    decreases node, 5
  {
    hide MaskReading, WordsReading, ChildNeed, LastNeed, Fits, RangesOf, Flags, Relaxed;
    var offsets := WordsChild(lib, d, node, i, ot, n + 1);
    if offsets.None? { return None; }
    var texts := Ranges(b, offsets.value, n);
    if texts.None? { return None; }
    var valid := ValidityOf(lib, d, node, i + 1, n);
    if valid.None? { return None; }
    r := Some((valid.value, texts.value));
  }

  method DecodeVarBin(lib: Libraries, d: Decoder, node: Node, m: seq<Field>, t: Type,
                      n: nat) returns (r: Option<Values>)
    requires n <= MAX_ROWS && !d.refused
    modifies d
    ensures d.depth == old(d.depth) && d.remaining <= old(d.remaining)
    ensures Outcome(d.refused, r, t, n, VarBinReading(lib, node, m, t, n))
    ensures Fits(old(d.depth), node) ==>
              Paid(old(d.remaining), d.remaining, d.refused, VarBinNeed(lib, node, m, t, n))
    decreases node, 6
  {
    hide RangesReading, Rows, Good, Num, TextsAllowed, StringRows, RangesNeed, Own, Fits, PrimitiveType,
      IntegerType;
    if !IsString(t) { return None; }
    OwnLeaf(t, n);
    var ok := EmptyNumbers(d, t, n);
    if !ok || |node.buffers| != 1 { return None; }
    var ot := IntegerType(Num(m, 1), false);
    if ot.None? { return None; }
    assert ot == Some(ot.value);
    var c := RangeTexts(lib, d, node, 0, ot.value, node.buffers[0], n);
    if c.None? { return None; }
    var (valid, texts) := c.value;
    var good := CheckTexts(lib, t, Flags(valid, n), texts);
    if !good { return None; }
    var v := TextsFrom(t, n, valid, texts);
    r := Some(v);
  }

  /** The loop that cuts a buffer at consecutive offsets. */
  method Ranges(b: seq<byte>, offsets: seq<nat>, n: nat) returns (r: Option<seq<seq<byte>>>)
    requires |offsets| == n + 1
    ensures r == RangesOf(b, offsets, n)
  {
    hide RangesOf;
    var out: seq<seq<byte>> := [];
    for i := 0 to n
      invariant |out| == i && forall k: nat | k < i :: RangeIs(b, offsets, k, out[k])
    {
      if offsets[i] > offsets[i + 1] || offsets[i + 1] > |b| {
        NoRange(b, offsets, n, i);
        return None;
      }
      out := out + [b[offsets[i]..offsets[i + 1]]];
    }
    AllRanges(b, offsets, n, out);
    r := Some(out);
  }

  predicate RangeIs(b: seq<byte>, offsets: seq<nat>, k: nat, text: seq<byte>)
    requires k + 1 < |offsets|
  {
    Range(b, offsets[k], offsets[k + 1]) == Some(text)
  }

  lemma {:induction false} NoRange(b: seq<byte>, offsets: seq<nat>, n: nat, i: nat)
    requires |offsets| == n + 1 && i < n && Range(b, offsets[i], offsets[i + 1]).None?
    ensures RangesOf(b, offsets, n).None?
  {
  }

  lemma {:induction false} AllRanges(b: seq<byte>, offsets: seq<nat>, n: nat, out: seq<seq<byte>>)
    requires |offsets| == n + 1 && |out| == n && forall k: nat | k < n :: RangeIs(b, offsets, k, out[k])
    ensures RangesOf(b, offsets, n) == Some(out)
  {
    hide Range;
    forall k: nat | k < n ensures Range(b, offsets[k], offsets[k + 1]) == Some(out[k]) {
      assert RangeIs(b, offsets, k, out[k]);
    }
    assert RangesOf(b, offsets, n).Some? && RangesOf(b, offsets, n).value == out;
  }

  /** The loop that validates the text of every valid row. */
  method CheckTexts(lib: Libraries, t: Type, mask: seq<bool>, texts: seq<seq<byte>>) returns (ok: bool)
    requires |texts| == |mask|
    ensures ok == TextsAllowed(lib, t, mask, texts)
  {
    hide Tokens.Check.Allows;
    for i := 0 to |mask|
      invariant forall k: nat | k < i && mask[k] :: CheckOf(lib, t).Allows(texts[k])
    {
      if mask[i] && !CheckOf(lib, t).Allows(texts[i]) { return false; }
    }
    ok := true;
  }

  method DecodeView(lib: Libraries, d: Decoder, node: Node, t: Type, n: nat) returns (r: Option<Values>)
    requires n <= MAX_ROWS && !d.refused
    modifies d
    ensures d.depth == old(d.depth) && d.remaining <= old(d.remaining)
    ensures Outcome(d.refused, r, t, n, ViewReading(lib, node, t, n))
    ensures Fits(old(d.depth), node) ==>
              Paid(old(d.remaining), d.remaining, d.refused, LeafNeed(lib, node, t, n))
    decreases node, 5
  {
    hide MaskReading, Rows, Good, ViewText, TextsAllowed, StringRows, LastNeed, Own, Fits;
    if t.Width() > 0 || IsString(t) { OwnLeaf(t, n); }
    if !IsString(t) { return None; }
    var ok := EmptyNumbers(d, t, n);
    if !ok || |node.buffers| == 0 { return None; }
    if |node.buffers[|node.buffers| - 1]| != n * 16 { return None; }
    var valid := ValidityOf(lib, d, node, 0, n);
    if valid.None? { return None; }
    var mask := Flags(valid.value, n);
    var texts := Views(node.buffers, mask);
    if texts.None? { return None; }
    var good := CheckTexts(lib, t, mask, texts.value);
    if !good { return None; }
    var v := TextsFrom(t, n, valid.value, texts.value);
    r := Some(v);
  }

  /** The loop over the views of valid rows. */
  method Views(buffers: seq<seq<byte>>, mask: seq<bool>) returns (r: Option<seq<seq<byte>>>)
    requires |buffers| > 0 && |buffers[|buffers| - 1]| == |mask| * 16
    ensures r.None? <==> exists i: nat | i < |mask| :: ViewAt(buffers, mask, i).None?
    ensures r.Some? ==> r.value == seq(|mask|, i requires 0 <= i < |mask| => ViewAt(buffers, mask, i).value)
  {
    hide ViewText;
    var texts: seq<seq<byte>> := [];
    for i := 0 to |mask|
      invariant |texts| == i && forall k: nat | k < i :: ViewAt(buffers, mask, k) == Some(texts[k])
    {
      var text := ViewAt(buffers, mask, i);
      if text.None? { return None; }
      texts := texts + [text.value];
    }
    r := Some(texts);
  }

  // ------------------------------------------------------------- patches and copies

  /** The optional child of sorted chunk offsets, checked but not used. */
  method ChunkOffsets(lib: Libraries, d: Decoder, node: Node, i: nat, m: seq<Field>) returns (ok: bool)
    requires !d.refused
    modifies d
    ensures d.depth == old(d.depth) && d.remaining <= old(d.remaining)
    ensures ok ==> !d.refused && ChunkOffsetsOk(lib, node, i, m)
    ensures !ok ==> d.refused || !ChunkOffsetsOk(lib, node, i, m)
    ensures Fits(old(d.depth), node) ==>
              Paid(old(d.remaining), d.remaining, d.refused,
                   ChildNeed(lib, node, i, PrimitiveType(Num(m, 5), false), Num(m, 4)))
    decreases node, 3
  {
    hide Num, WordsReading, ChildReading, ChildNeed, Fits;
    var ct := PrimitiveType(Num(m, 5), false);
    if ct.None? { return false; }
    if Num(m, 4) > MAX_ROWS {
      TooManyWords(lib, node, i, UnsignedType(Num(m, 5), false), Num(m, 4));
      return false;
    }
    var c := WordsChild(lib, d, node, i, ct.value, Num(m, 4));
    if c.None? || !ct.value.IsInteger() || ct.value.IsSigned() { return false; }
    for k := 0 to |c.value|
      modifies {}
      invariant forall j: nat | 0 < j < k :: c.value[j - 1] <= c.value[j]
    {
      if k > 0 && c.value[k] < c.value[k - 1] { return false; }
    }
    ok := true;
  }

  /** No child has more rows than the limit. */
  lemma {:induction false} TooManyWords(lib: Libraries, node: Node, i: nat, t: Option<Type>, n: nat)
    requires n > MAX_ROWS
    ensures t.Some? ==> WordsReading(lib, node, i, t.value, n).None?
    ensures t.Some? ==> ChildReading(lib, node, i, t.value, n).None?
  {
    hide Reading;
  }

  /** The children of patches: indices, values, and optional sorted chunk offsets. */
  method PatchChildren(lib: Libraries, d: Decoder, node: Node, start: nat, m: seq<Field>, t: Type)
    returns (r: Option<(Values, Values, nat)>)
    requires Relaxed(t) && !d.refused
    modifies d
    ensures d.depth == old(d.depth) && d.remaining <= old(d.remaining)
    ensures r.Some? ==>
              var (idx, vals, next) := r.value;
              && idx.Numbers? && idx.Fits() && idx.n == Num(m, 1) && !d.refused
              && WellTyped(vals, t, idx.n) && Good(vals, t, idx.n) && vals.Fits()
              && PatchCells(lib, node, start, m, t) == Some((idx.words, Rows(vals), next))
    ensures r.None? ==> d.refused || PatchCells(lib, node, start, m, t).None?
    ensures Fits(old(d.depth), node) ==>
              Paid(old(d.remaining), d.remaining, d.refused, PatchCellsNeed(lib, node, start, m, t))
    decreases node, 4
  {
    hide WordsReading, ChildReading, ChunkOffsetsOk, Rows, Whole, Num, Has, ChildNeed, Fits, PrimitiveType,
      IntegerType, UnsignedType;
    var it := UnsignedType(Num(m, 3), false);
    if it.None? { return None; }
    if Num(m, 1) > MAX_ROWS {
      TooManyWords(lib, node, start, it, Num(m, 1));
      return None;
    }
    var idx := NumberChild(lib, d, node, start, it.value, Num(m, 1));
    if idx.None? { return None; }
    var vals := Child(lib, d, node, start + 1, t, Num(m, 1));
    if vals.None? { return None; }
    var next := start + 2;
    if Has(m, 5) {
      var ok := ChunkOffsets(lib, d, node, next, m);
      if !ok { return None; }
      next := next + 1;
    }
    r := Some((idx.value, vals.value, next));
  }

  /** `patches`: rows replaced, with their nulls. */
  method ApplyPatches(lib: Libraries, d: Decoder, node: Node, start: nat, raw: Option<seq<byte>>, out: Values,
                      t: Type, n: nat) returns (r: Option<(Values, nat)>)
    requires Relaxed(t) && Good(out, t, n) && out.Fits() && !d.refused
    modifies d
    ensures d.depth == old(d.depth) && d.remaining <= old(d.remaining)
    ensures r.Some? ==> Good(r.value.0, t, n) && r.value.0.Fits() && !d.refused
    ensures r.Some? ==>
              PatchesReading(lib, node, start, raw, t, Rows(out)) == Some((Rows(r.value.0), r.value.1))
    ensures r.None? ==> d.refused || PatchesReading(lib, node, start, raw, t, Rows(out)).None?
    ensures Fits(old(d.depth), node) ==>
              Paid(old(d.remaining), d.remaining, d.refused, RowBytes(t, n) + PatchNeed(lib, node, start, raw, t))
    decreases node, 5
  {
    hide PatchCells, Rows, Whole, Num, Relaxed, Decoder.CoveringCost, Overrides.Override, Overrides.Placed, Parse,
      PatchCellsNeed, RowBytes, Fits;
    if raw.None? { return Some((out, start)); }
    var m := ParseProto(raw.value);
    if m.None? { return None; }
    var c := PatchChildren(lib, d, node, start, m.value, t);
    if c.None? { return None; }
    var (idx, vals, next) := c.value;
    SameForm(out, n, vals, idx.n, t);
    PatchWeight(out, n, vals, t);
    var patched := RowCopies.Patch(d, out, n, idx.words, vals, t, Num(m.value, 2));
    if patched.None? { return None; }
    WholeIsGood(patched.value, t, n);
    r := Some((patched.value, next));
  }

  lemma {:induction false} PatchWeight(out: Values, n: nat, vals: Values, t: Type)
    requires Good(out, t, n) && SameShape(out, vals)
    ensures Decoder.CoveringCost(out, vals) <= RowBytes(t, n)
  {
    CoveringWeight(out, t, n, vals);
  }

  lemma {:induction false} SameForm(a: Values, n: nat, b: Values, k: nat, t: Type)
    requires Whole(a, t, n) && Whole(b, t, k)
    ensures SameShape(a, b)
  {
    ShapedAlike(a, n, b, k, t);
  }

  /** `numericPatches`: words corrected, validity untouched. */
  method PatchWords(lib: Libraries, d: Decoder, node: Node, start: nat, raw: Option<seq<byte>>, words: seq<nat>,
                    t: Type) returns (r: Option<(seq<nat>, nat)>)
    requires Relaxed(t) && t.Width() > 0 && !d.refused
    modifies d
    ensures d.depth == old(d.depth) && d.remaining <= old(d.remaining)
    ensures r.Some? ==> !d.refused && NumbersPatched(lib, node, start, raw, t, words) == r
    ensures r.None? ==> d.refused || NumbersPatched(lib, node, start, raw, t, words).None?
    ensures Fits(old(d.depth), node) ==>
              Paid(old(d.remaining), d.remaining, d.refused, PatchNeed(lib, node, start, raw, t))
    decreases node, 5
  {
    hide PatchCells, Rows, Num, Relaxed, Whole, Overrides.Override, Overrides.Placed, Parse, PatchCellsNeed, Fits;
    if raw.None? { return Some((words, start)); }
    var m := ParseProto(raw.value);
    if m.None? { return None; }
    var c := PatchChildren(lib, d, node, start, m.value, t);
    if c.None? { return None; }
    var (idx, vals, next) := c.value;
    NumberRows(vals);
    var patched := NumberColumns.PatchNumbers(words, idx.words, vals.words, Num(m.value, 2));
    if patched.None? { return None; }
    r := Some((patched.value, next));
  }

  method DecodeDictionary(lib: Libraries, d: Decoder, node: Node, m: seq<Field>, t: Type,
                          n: nat) returns (r: Option<Values>)
    requires Relaxed(t) && n <= MAX_ROWS && !d.refused
    modifies d
    ensures d.depth == old(d.depth) && d.remaining <= old(d.remaining)
    ensures Outcome(d.refused, r, t, n, DictionaryReading(lib, node, m, t, n))
    ensures Fits(old(d.depth), node) ==>
              Paid(old(d.remaining), d.remaining, d.refused, DictionaryNeed(lib, node, m, t, n))
    decreases node, 5
  {
    hide ChildReading, WordsReading, Rows, Whole, Num, Has, RowCopies.AllocationCost, RowCopies.LookedUp,
      RowCopies.CodesNamed, EmptyOf, SameShape, Supported, Blank, WordRows, ChildNeed, Own, RowBytes, Fits,
      PrimitiveType, IntegerType, UnsignedType;
    OwnParts(t, n);
    if |node.children| != 2 { return None; }
    var ct := IntegerType(Num(m, 2), if Has(m, 3) then Num(m, 3) != 0 else t.nullable);
    if ct.None? { return None; }
    if Num(m, 1) > MAX_ROWS {
      TooManyWords(lib, node, 1, Some(t), Num(m, 1));
      return None;
    }
    var codes := NumberChild(lib, d, node, 0, ct.value, n);
    if codes.None? { return None; }
    var dict := Child(lib, d, node, 1, t, Num(m, 1));
    if dict.None? { return None; }
    TakeWeight(codes.value, dict.value, Num(m, 1), t, n);
    r := RowCopies.TakeRows(d, codes.value, dict.value, Num(m, 1), t, n);
    if r.Some? { WholeIsGood(r.value, t, n); }
  }

  /** What it costs to copy rows of `src`. */
  lemma {:induction false} CopyWeight(src: Values, count: nat, t: Type, n: nat, nulls: bool)
    requires Relaxed(t) && Whole(src, t, count)
    ensures Supported(t) && SameShape(EmptyOf(t, n), src)
    ensures RowCopies.AllocationCost(t, n, src, nulls) <= RowBytes(t, n)
  {
    hide Relaxed, Whole, EmptyOf, SameShape, Supported, Weight, RowCopies.AllocationCost;
    RowCopies.SourceShape(t, n, src, count);
    AllocationWeight(t, n, src, nulls);
  }

  lemma {:induction false} TakeWeight(codes: Values, dict: Values, count: nat, t: Type, n: nat)
    requires Relaxed(t) && Whole(dict, t, count)
    ensures Supported(t) && SameShape(EmptyOf(t, n), dict)
    ensures RowCopies.AllocationCost(t, n, dict, codes.valid.Some? || dict.valid.Some?) <= RowBytes(t, n)
  {
    CopyWeight(dict, count, t, n, codes.valid.Some? || dict.valid.Some?);
  }

  method DecodeRunEnd(lib: Libraries, d: Decoder, node: Node, m: seq<Field>, t: Type,
                      n: nat) returns (r: Option<Values>)
    requires Relaxed(t) && n <= MAX_ROWS && !d.refused
    modifies d
    ensures d.depth == old(d.depth) && d.remaining <= old(d.remaining)
    ensures Outcome(d.refused, r, t, n, RunEndReading(lib, node, m, t, n))
    ensures Fits(old(d.depth), node) ==>
              Paid(old(d.remaining), d.remaining, d.refused, RunEndNeed(lib, node, m, t, n))
    decreases node, 5
  {
    hide ChildReading, WordsReading, Rows, Whole, Num, RowCopies.AllocationCost, RowCopies.RunRows,
      RowCopies.RunsCover, EmptyOf, SameShape, Supported, Pow2, WordRows, ChildNeed, Own, RowBytes, Fits,
      PrimitiveType, IntegerType, UnsignedType;
    OwnParts(t, n);
    if |node.children| != 2 { return None; }
    var ct := IntegerType(Num(m, 1), false);
    if ct.None? { return None; }
    if Num(m, 2) > MAX_ROWS {
      TooManyWords(lib, node, 0, ct, Num(m, 2));
      return None;
    }
    var ends := NumberChild(lib, d, node, 0, ct.value, Num(m, 2));
    if ends.None? { return None; }
    var vals := Child(lib, d, node, 1, t, Num(m, 2));
    if vals.None? { return None; }
    // the sum of offset and length must fit into 64 bits
    if Num(m, 3) + n >= Pow2(64) { return None; }
    CopyWeight(vals.value, Num(m, 2), t, n, false);
    r := RowCopies.ExpandRuns(d, ends.value.words, vals.value, t, Num(m, 3), n);
    if r.Some? { WholeIsGood(r.value, t, n); }
  }

  method DecodeSparse(lib: Libraries, d: Decoder, node: Node, m: seq<Field>, t: Type,
                      n: nat) returns (r: Option<Values>)
    requires Relaxed(t) && n <= MAX_ROWS && !d.refused
    modifies d
    ensures d.depth == old(d.depth) && d.remaining <= old(d.remaining)
    ensures Outcome(d.refused, r, t, n, SparseReading(lib, node, m, t, n))
    ensures Fits(old(d.depth), node) ==>
              Paid(old(d.remaining), d.remaining, d.refused, Own(t, n) + PatchNeed(lib, node, 0, Data(m, 1), t))
    decreases node, 6
  {
    hide Rows, Whole, PatchesReading, ConstantReading, Relaxed, Consistent, PatchNeed, Own, RowBytes, ScalarBytes,
      Fits;
    OwnParts(t, n);
    if |node.buffers| != 1 { return None; }
    var was := ConstantRows(lib, d, t, n, node.buffers[0]);
    if was.None? { return None; }
    var patched := ApplyPatches(lib, d, node, 0, Data(m, 1), was.value, t, n);
    if patched.None? { return None; }
    r := Some(patched.value.0);
  }

  /** `constant` with the outcome of an encoding. */
  method ConstantRows(lib: Libraries, d: Decoder, t: Type, n: nat, b: seq<byte>) returns (r: Option<Values>)
    requires Relaxed(t) && n <= MAX_ROWS && !d.refused
    modifies d`remaining, d`refused
    ensures d.remaining <= old(d.remaining)
    ensures Outcome(d.refused, r, t, n, ConstantReading(lib, t, b, n))
    ensures Paid(old(d.remaining), d.remaining, d.refused, ScalarBytes(t, n))
  {
    hide Whole, Scalar, Relaxed, Consistent, Row, ScalarWeight;
    r := DecodeConstant(lib, d, t, n, b);
    if r.Some? {
      WholeIsGood(r.value, t, n);
      assert Rows(r.value) == seq(n, _ => Scalar(lib, t, b).value);
    }
  }

  // -------------------------------------------------------------- nested arrays

  method DecodeStruct(lib: Libraries, d: Decoder, node: Node, t: Type, n: nat) returns (r: Option<Values>)
    requires Relaxed(t) && n <= MAX_ROWS && !d.refused
    modifies d
    ensures d.depth == old(d.depth) && d.remaining <= old(d.remaining)
    ensures Outcome(d.refused, r, t, n, StructReading(lib, node, t, n))
    ensures Fits(old(d.depth), node) ==>
              Paid(old(d.remaining), d.remaining, d.refused, StructNeed(lib, node, t, n))
    decreases node, 5
  {
    hide StructReading, ChildReading, Rows, Whole, BitsReading, Good, WellTyped, ChildNeed, Fits, FieldsNeed;
    if t.kind != KStruct || |node.children| < |t.fields| || |node.children| > |t.fields| + 1 {
      StructShape(lib, node, t, n);
      return None;
    }
    var off := |node.children| - |t.fields|;
    var valid: Option<seq<bool>> := None;
    if off == 1 {
      valid := RowBits(lib, d, node, 0, n);
      if valid.None? {
        if !d.refused { StructMask(lib, node, t, n); }
        return None;
      }
    }
    var fields: seq<Values> := [];
    for k := 0 to |t.fields|
      invariant |fields| == k && d.depth == old(d.depth) && d.remaining <= old(d.remaining) && !d.refused
      invariant forall j: nat | j < k :: FieldRead(lib, node, j + off, t.fields[j], n, fields[j])
      invariant Fits(old(d.depth), node) ==>
                  old(d.remaining) <= d.remaining + ChildNeed(lib, node, 0, Some(BOOL), n)
                                      + FieldsNeed(lib, node, off, t, n, k)
    {
      FieldsNeedNext(lib, node, off, t, n, k);
      FieldRelaxed(t, k);
      var f := Child(lib, d, node, k + off, t.fields[k], n);
      if f.None? {
        if !d.refused { StructField(lib, node, t, n, off, k); }
        return None;
      }
      assert FieldRead(lib, node, k + off, t.fields[k], n, f.value) by { GoodFits(f.value, t.fields[k], n); }
      fields := fields + [f.value];
    }
    var v := Struct(t, n, valid, fields);
    StructIs(lib, node, t, n, off, v);
    r := Some(v);
  }

  lemma {:induction false} FieldsNeedNext(lib: Libraries, node: Node, off: nat, t: Type, n: nat, k: nat)
    requires k < |t.fields|
    ensures FieldsNeed(lib, node, off, t, n, k + 1)
            == FieldsNeed(lib, node, off, t, n, k) + ChildNeed(lib, node, k + off, Some(t.fields[k]), n)
    ensures FieldsNeed(lib, node, off, t, n, k + 1) <= FieldsNeed(lib, node, off, t, n, |t.fields|)
  {
    hide ChildNeed;
    FieldsNeedMono(lib, node, off, t, n, k + 1, |t.fields|);
  }

  lemma {:induction false} FieldsNeedMono(lib: Libraries, node: Node, off: nat, t: Type, n: nat, j: nat, k: nat)
    requires j <= k <= |t.fields|
    ensures FieldsNeed(lib, node, off, t, n, j) <= FieldsNeed(lib, node, off, t, n, k)
  {
    hide ChildNeed;
    if j < k { FieldsNeedMono(lib, node, off, t, n, j, k - 1); }
  }

  lemma {:induction false} FieldRelaxed(t: Type, k: nat)
    requires Relaxed(t) && k < |t.fields|
    ensures Relaxed(t.fields[k])
  {
    ConsistentIsRelaxed(t.fields[k]);
  }

  lemma {:induction false} GoodFits(v: Values, t: Type, n: nat)
    requires Good(v, t, n)
    ensures v.Fits() && v.n == n
  {
  }

  ghost predicate FieldRead(lib: Libraries, node: Node, i: nat, t: Type, n: nat, v: Values) {
    v.Fits() && v.n == n && WellTyped(v, t, n) && ChildReading(lib, node, i, t, n) == Some(Rows(v))
  }

  lemma {:induction false} StructShape(lib: Libraries, node: Node, t: Type, n: nat)
    requires t.kind != KStruct || |node.children| < |t.fields| || |node.children| > |t.fields| + 1
    ensures StructReading(lib, node, t, n).None?
  {
    hide ChildReading, BitsReading;
  }

  lemma {:induction false} StructMask(lib: Libraries, node: Node, t: Type, n: nat)
    requires |node.children| == |t.fields| + 1 && BitsReading(lib, node, 0, n).None?
    ensures StructReading(lib, node, t, n).None?
  {
    hide ChildReading, BitsReading;
  }

  lemma {:induction false} StructField(lib: Libraries, node: Node, t: Type, n: nat, off: nat, k: nat)
    requires |node.children| == |t.fields| + off && k < |t.fields|
    requires ChildReading(lib, node, k + off, t.fields[k], n).None?
    ensures StructReading(lib, node, t, n).None?
  {
    hide ChildReading, BitsReading;
  }

  lemma {:induction false} StructGood(t: Type, n: nat, v: Values)
    requires t.kind == KStruct && v.Struct? && v.n == n && |v.fields| == |t.fields|
    requires v.valid.Some? ==> |v.valid.value| == n
    requires forall k: nat | k < |t.fields| ::
               v.fields[k].Fits() && v.fields[k].n == n && WellTyped(v.fields[k], t.fields[k], n)
    ensures Good(v, t, n) && v.Fits()
  {
  }

  lemma {:induction false} StructIs(lib: Libraries, node: Node, t: Type, n: nat, off: nat, v: Values)
    requires t.kind == KStruct && off <= 1 && |node.children| == |t.fields| + off
    requires v.Struct? && v.n == n && |v.fields| == |t.fields|
    requires if off == 0 then v.valid == None
             else v.valid.Some? && |v.valid.value| == n && BitsReading(lib, node, 0, n) == v.valid
    requires forall k: nat | k < |t.fields| :: FieldRead(lib, node, k + off, t.fields[k], n, v.fields[k])
    ensures Good(v, t, n) && v.Fits() && StructReading(lib, node, t, n) == Some(Rows(v))
  {
    hide ChildReading, BitsReading, WellTyped, Whole, Good;
    forall k: nat | k < |t.fields|
      ensures v.fields[k].Fits() && v.fields[k].n == n && WellTyped(v.fields[k], t.fields[k], n)
      ensures ChildReading(lib, node, k + off, t.fields[k], n) == Some(Rows(v.fields[k]))
    {
      assert FieldRead(lib, node, k + off, t.fields[k], n, v.fields[k]);
    }
    StructGood(t, n, v);
    var rows := StructReading(lib, node, t, n).value;
    forall i: nat | i < n ensures Rows(v)[i] == rows[i] {
      assert Rows(v)[i].data.cells == rows[i].data.cells;
    }
    assert Rows(v) == rows;
  }

  method DecodeMasked(lib: Libraries, d: Decoder, node: Node, t: Type, n: nat) returns (r: Option<Values>)
    requires Relaxed(t) && n <= MAX_ROWS && !d.refused
    modifies d
    ensures d.depth == old(d.depth) && d.remaining <= old(d.remaining)
    ensures Outcome(d.refused, r, t, n, MaskedReading(lib, node, t, n))
    ensures Fits(old(d.depth), node) ==>
              Paid(old(d.remaining), d.remaining, d.refused, MaskedNeed(lib, node, t, n))
    decreases node, 5
  {
    hide ChildReading, MaskReading, Rows, Whole, Remasked, ChildNeed, LastNeed, Own, RowBytes, ScalarBytes, Fits,
      MaskedReading, MaskedNeed;
    MaskedCases(lib, node, t, n);
    OwnParts(t, n);
    var ct := t.(nullable := false);
    var v := Child(lib, d, node, 0, ct, n);
    if v.None? { return None; }
    var valid := ValidityOf(lib, d, node, 1, n);
    if valid.None? { return None; }
    MaskedIs(v.value, ct, t, n, valid.value);
    r := Some(v.value.(typ := t).(valid := valid.value));
  }

  lemma {:induction false} MaskedCases(lib: Libraries, node: Node, t: Type, n: nat)
    ensures var ct := t.(nullable := false);
            var cells, mask := ChildReading(lib, node, 0, ct, n), MaskReading(lib, node, 1, n);
            && MaskedReading(lib, node, t, n)
               == (if cells.None? || mask.None? then None else Some(Remasked(cells.value, mask.value)))
            && MaskedNeed(lib, node, t, n)
               == Own(t, n) + ChildNeed(lib, node, 0, Some(ct), n) + LastNeed(lib, node, n)
  {
    hide ChildReading, MaskReading, Remasked, ChildNeed, LastNeed, Own;
  }

  lemma {:induction false} MaskedIs(v: Values, ct: Type, t: Type, n: nat, valid: Option<seq<bool>>)
    requires Good(v, ct, n) && v.Fits() && ct == t.(nullable := false) && (valid.Some? ==> |valid.value| == n)
    ensures var out := v.(typ := t).(valid := valid);
            Good(out, t, n) && out.Fits() && Rows(out) == Remasked(Rows(v), Flags(valid, n))
  {
    SameWhole(v, ct, t, n);
    RetypedWhole(v, t, n, t);
    RevalidatedWhole(v.(typ := t), t, n, valid);
    var out := v.(typ := t).(valid := valid);
    WholeIsGood(out, t, n);
    forall i: nat | i < n ensures Rows(out)[i] == Remasked(Rows(v), Flags(valid, n))[i] { }
  }

  /** The shape does not depend on the nullability of the outermost type. */
  lemma {:induction false} SameWhole(v: Values, ct: Type, t: Type, n: nat)
    requires Whole(v, ct, n) && t == ct.(nullable := t.nullable)
    ensures Whole(v, t, n)
  {
  }

  method DecodeExtension(lib: Libraries, d: Decoder, node: Node, t: Type, n: nat) returns (r: Option<Values>)
    requires Relaxed(t) && n <= MAX_ROWS && !d.refused
    modifies d
    ensures d.depth == old(d.depth) && d.remaining <= old(d.remaining)
    ensures Outcome(d.refused, r, t, n,
                    if t.kind == KExtension && t.storage.Some? && lib.arrow(t) && |node.children| == 1
                    then ChildReading(lib, node, 0, t.storage.value, n) else None)
    ensures Fits(old(d.depth), node) ==>
              Paid(old(d.remaining), d.remaining, d.refused, ChildNeed(lib, node, 0, t.storage, n))
    decreases node, 5
  {
    hide Rows, ChildReading, Whole, ChildNeed, Fits;
    if t.kind != KExtension || t.storage.None? || !lib.arrow(t) || |node.children| != 1 { return None; }
    var v := Child(lib, d, node, 0, t.storage.value, n);
    if v.None? { return None; }
    RetypedExtension(v.value, t.storage.value, n, t);
    WholeIsGood(v.value.(typ := t), t, n);
    RetypedRows(v.value, t);
    r := Some(v.value.(typ := t));
  }

  // -------------------------------------------------------------- numeric encodings

  method DecodeBitPacked(lib: Libraries, d: Decoder, node: Node, m: seq<Field>, t: Type,
                         n: nat) returns (r: Option<Values>)
    requires Relaxed(t) && n <= MAX_ROWS && !d.refused
    modifies d
    ensures d.depth == old(d.depth) && d.remaining <= old(d.remaining)
    ensures Outcome(d.refused, r, t, n, BitPackedReading(lib, node, m, t, n))
    ensures Fits(old(d.depth), node) ==>
              Paid(old(d.remaining), d.remaining, d.refused,
                   Own(t, n) + PatchNeed(lib, node, 0, Data(m, 3), t) + LastNeed(lib, node, n))
    decreases node, 7
  {
    hide PatchedMasked, Rows, Whole, Num, Data, BitPacking.Values, BitPacking.Packed.Accepts, Relaxed, WordRows,
      PatchNeed, LastNeed, Own, Fits;
    if !t.IsInteger() || |node.buffers| != 1 { return None; }
    OwnLeaf(t, n);
    var p, off := BitPacking.Packed(8 * t.Width(), Num(m, 1), node.buffers[0]), Num(m, 2);
    var accepted := CheckPacked(p, off, n);
    if !accepted { return None; }
    var ok := EmptyNumbers(d, t, n);
    if !ok { return None; }
    var words := UnpackWords(p, off, n);
    r := PatchAndMask(lib, d, node, Data(m, 3), t, n, words);
  }

  /** Patches, and then the validity child that follows them. */
  method PatchAndMask(lib: Libraries, d: Decoder, node: Node, raw: Option<seq<byte>>, t: Type, n: nat,
                      words: seq<nat>) returns (r: Option<Values>)
    requires Relaxed(t) && t.Width() > 0 && |words| == n && !d.refused
    modifies d
    ensures d.depth == old(d.depth) && d.remaining <= old(d.remaining)
    ensures Outcome(d.refused, r, t, n, PatchedMasked(lib, node, raw, t, WordRows(seq(n, _ => true), words)))
    ensures Fits(old(d.depth), node) ==>
              Paid(old(d.remaining), d.remaining, d.refused,
                   RowBytes(t, n) + n + PatchNeed(lib, node, 0, raw, t) + LastNeed(lib, node, n))
    decreases node, 6
  {
    hide MaskReading, PatchesReading, Rows, Whole, Relaxed, WordRows, Remasked, PatchNeed, LastNeed, RowBytes, Fits;
    var was := NumbersOf(t, n, None, words);
    var patched := ApplyPatches(lib, d, node, 0, raw, was, t, n);
    if patched.None? { return None; }
    var valid := ValidityOf(lib, d, node, patched.value.1, n);
    if valid.None? { return None; }
    var v := NumbersOf(t, n, valid.value, patched.value.0.words);
    RemaskedNumbers(patched.value.0, Flags(valid.value, n));
    r := Some(v);
  }

  method UnpackWords(p: BitPacking.Packed, off: nat, n: nat) returns (words: seq<nat>)
    requires p.Accepts(off, n)
    ensures words == BitPacking.Values(p, off, n)
  {
    var out := BitPacking.Unpack(p, off, n);
    words := out[..];
  }

  /** The checks of the bit width, the offset and the buffer's size. */
  method CheckPacked(p: BitPacking.Packed, off: nat, n: nat) returns (ok: bool)
    requires IsWidth(p.bits)
    ensures ok == p.Accepts(off, n)
  {
    if p.bw > p.bits || off >= 1024 { return false; }
    ok := |p.data| == (n + off + 1023) / 1024 * p.bw * 128;
  }

  lemma {:induction false} RemaskedNumbers(v: Values, mask: seq<bool>)
    requires v.Numbers? && v.Fits() && |mask| == v.n
    ensures WordRows(mask, v.words) == Remasked(Rows(v), mask)
  {
    NumberRows(v);
  }

  method DecodeReference(lib: Libraries, d: Decoder, node: Node, t: Type, n: nat) returns (r: Option<Values>)
    requires Relaxed(t) && n <= MAX_ROWS && !d.refused
    modifies d
    ensures d.depth == old(d.depth) && d.remaining <= old(d.remaining)
    ensures Outcome(d.refused, r, t, n, ReferenceReading(lib, node, t, n))
    ensures Fits(old(d.depth), node) ==>
              Paid(old(d.remaining), d.remaining, d.refused, Own(t, n) + ChildNeed(lib, node, 0, Some(t), n))
    decreases node, 5
  {
    hide ChildReading, WordsReading, Rows, Low, Relaxed, Whole, Reference, Mapped, WordRows, Pow2, ChildNeed, Own,
      ScalarWeight, Fits, ReferenceReading;
    ReferenceCases(lib, node, t, n);
    if t.Width() > 0 || IsString(t) { OwnLeaf(t, n); }
    if !t.IsInteger() || |node.children| != 1 { return None; }
    var c := NumberChild(lib, d, node, 0, t, n);
    if c.None? { return None; }
    var base := IntegerConstant(lib, d, t, node.metadata);
    if base.None? { return None; }
    var words := NumberColumns.AddReference(c.value.words, base.value, 8 * t.Width());
    var v := NumbersOf(t, n, c.value.valid, words);
    var f := (x: nat) => Low(x + base.value, 8 * t.Width());
    MappedNumbers(c.value, words, f);
    ReferenceIs(lib, node, t, n, Rows(c.value), base.value);
    r := Some(v);
  }

  lemma {:induction false} ReferenceCases(lib: Libraries, node: Node, t: Type, n: nat)
    ensures !t.IsInteger() || |node.children| != 1 ==> ReferenceReading(lib, node, t, n).None?
    ensures t.IsInteger() && (ChildReading(lib, node, 0, t, n).None? || Reference(node.metadata, t).None?)
            ==> ReferenceReading(lib, node, t, n).None?
  {
    hide ChildReading, Low, Reference;
  }

  lemma {:induction false} ReferenceIs(lib: Libraries, node: Node, t: Type, n: nat, cells: seq<Cell>, base: nat)
    requires t.IsInteger() && |node.children| == 1 && ChildReading(lib, node, 0, t, n) == Some(cells)
    requires Reference(node.metadata, t) == Some(base)
    ensures ReferenceReading(lib, node, t, n) == Some(Mapped(cells, (x: nat) => Low(x + base, 8 * t.Width())))
  {
    hide ChildReading, Low, Reference;
  }

  /** The rows of mapped words. */
  lemma {:induction false} MappedNumbers(v: Values, words: seq<nat>, f: nat -> nat)
    requires v.Numbers? && v.Fits() && |words| == v.n && forall i | 0 <= i < v.n :: words[i] == f(v.words[i])
    ensures WordRows(Flags(v.valid, v.n), words) == Mapped(Rows(v), f)
  {
    NumberRows(v);
  }

  /** `constant` of one row of an integer type, and its word. */
  method IntegerConstant(lib: Libraries, d: Decoder, t: Type, b: seq<byte>) returns (x: Option<nat>)
    requires t.IsInteger() && Relaxed(t) && !d.refused
    modifies d`remaining, d`refused
    ensures d.remaining <= old(d.remaining)
    ensures x.Some? ==> !d.refused && x == Reference(b, t) && x.value < Pow2(8 * t.Width())
    ensures x.None? ==> d.refused || Reference(b, t).None?
    ensures Paid(old(d.remaining), d.remaining, d.refused, ScalarWeight(t))
  {
    hide Relaxed, Consistent, Scalar, Rows, Whole, Reference, Pow2, ScalarWeight;
    IntegerScalarRead(lib, t, b);
    var s := DecodeConstant(lib, d, t, 1, b);
    if s.None? { return None; }
    WholeIsGood(s.value, t, 1);
    assert Row(s.value, 0) == Scalar(lib, t, b).value;
    if !s.value.IsValid(0) { return None; }
    x := Some(s.value.words[0]);
  }

  /** The scalar of an integer type is its integer scalar, or null. */
  lemma {:induction false} IntegerScalarRead(lib: Libraries, t: Type, b: seq<byte>)
    requires t.IsInteger()
    ensures Reference(b, t).Some? ==>
              && Scalar(lib, t, b) == Some(Cell(true, Word(Reference(b, t).value)))
              && Reference(b, t).value < Pow2(8 * t.Width())
    ensures Reference(b, t).None? ==> Scalar(lib, t, b).None? || !Scalar(lib, t, b).value.valid
  {
    hide Parse, Pow2, Sequences.Denote, Sequences.WordOf;
  }

  method DecodeZigZag(lib: Libraries, d: Decoder, node: Node, t: Type, n: nat) returns (r: Option<Values>)
    requires Relaxed(t) && n <= MAX_ROWS && !d.refused
    modifies d
    ensures d.depth == old(d.depth) && d.remaining <= old(d.remaining)
    ensures Outcome(d.refused, r, t, n, ZigZagReading(lib, node, t, n))
    ensures Fits(old(d.depth), node) ==>
              Paid(old(d.remaining), d.remaining, d.refused, ChildNeed(lib, node, 0, Some(Unsigned(t)), n))
    decreases node, 5
  {
    hide ChildReading, WordsReading, Rows, Sequences.WordOf, Sequences.ZigZag, Whole, Mapped, WordRows, ChildNeed,
      Fits;
    if !t.IsSigned() || |node.children| != 1 { return None; }
    var c := NumberChild(lib, d, node, 0, Unsigned(t), n);
    if c.None? { return None; }
    var words := NumberColumns.UndoZigZag(c.value.words, 8 * t.Width());
    var v := NumbersOf(t, n, c.value.valid, words);
    var f := (x: nat) => Sequences.WordOf(Sequences.ZigZag(x), 8 * t.Width());
    MappedNumbers(c.value, words, f);
    ZigZagIs(lib, node, t, n, Rows(c.value));
    r := Some(v);
  }

  lemma {:induction false} ZigZagIs(lib: Libraries, node: Node, t: Type, n: nat, cells: seq<Cell>)
    requires t.IsSigned() && |node.children| == 1 && ChildReading(lib, node, 0, Unsigned(t), n) == Some(cells)
    ensures ZigZagReading(lib, node, t, n)
            == Some(Mapped(cells, (x: nat) => Sequences.WordOf(Sequences.ZigZag(x), 8 * t.Width())))
  {
    hide ChildReading, Sequences.WordOf, Sequences.ZigZag;
  }

  method DecodeSequence(lib: Libraries, d: Decoder, node: Node, m: seq<Field>, t: Type,
                        n: nat) returns (r: Option<Values>)
    requires Relaxed(t) && n <= MAX_ROWS && !d.refused
    modifies d
    ensures d.depth == old(d.depth) && d.remaining <= old(d.remaining)
    ensures Outcome(d.refused, r, t, n, SequenceReading(node, m, t, n))
    ensures Paid(old(d.remaining), d.remaining, d.refused, Own(t, n))
    decreases node, 5
  {
    hide Rows, Relaxed, Whole, Reference, Sequences.Step, Sequences.Denote, Sequences.Element, Pow2, Parse,
      WordRows, Sequences.InRange, Sequences.WordOf, SequenceReading, Sequences.Scalar, Own, ScalarWeight;
    if t.Width() > 0 || IsString(t) { OwnLeaf(t, n); }
    if !t.IsInteger() || |node.children| != 0 {
      NoSequence(node, m, t, n);
      return None;
    }
    SequenceIs(node, m, t, n);
    var base := IntegerConstant(lib, d, t, DataOr(m, 1));
    if base.None? { return None; }
    var s := ParseProto(DataOr(m, 2));
    if s.None? { return None; }
    var step := Sequences.Step(s.value);
    if step.None? { return None; }
    var ok := EmptyNumbers(d, t, n);
    if !ok { return None; }
    StepRange(DataOr(m, 2));
    var words := Sequences.Fill(base.value, step.value.0, step.value.1, 8 * t.Width(), t.IsSigned(), n);
    var b := Sequences.Denote(base.value, 8 * t.Width(), t.IsSigned());
    ElementsIn(t, n, b, Sequences.Denote(step.value.0, 64, step.value.1), words);
    if words.None? { return None; }
    var v := NumbersOf(t, n, None, words.value);
    r := Some(v);
  }

  lemma {:induction false} NoSequence(node: Node, m: seq<Field>, t: Type, n: nat)
    requires !t.IsInteger() || |node.children| != 0
    ensures SequenceReading(node, m, t, n).None?
  {
    hide Sequences.Elements;
  }

  /** The elements from base `b` and step `s`. */
  function ElementsFrom(b: int, s: int, n: nat): (xs: seq<int>)
    ensures |xs| == n
  {
    seq(n, i requires 0 <= i < n => Sequences.Element(b, s, i))
  }

  lemma {:induction false} SequenceIs(node: Node, m: seq<Field>, t: Type, n: nat)
    requires t.IsInteger() && |node.children| == 0
    ensures var s := match Parse(DataOr(m, 2), 0) { case None => None case Some(f) => Sequences.Step(f) };
            var base := Reference(DataOr(m, 1), t);
            SequenceReading(node, m, t, n)
            == if base.None? || s.None? then None
               else
                 var xs := ElementsFrom(Sequences.Denote(base.value, 8 * t.Width(), t.IsSigned()),
                                        Sequences.Denote(s.value.0, 64, s.value.1), n);
                 if AllFit(xs, 8 * t.Width(), t.IsSigned()) then Some(IntegerRows(xs, 8 * t.Width())) else None
  {
    hide Parse, Sequences.Step, Sequences.Denote, Sequences.Element, Sequences.IntegerScalar, AllFit, IntegerRows;
  }

  /** What `Fill` returns are the elements' words, if all fit. */
  lemma {:induction false} ElementsIn(t: Type, n: nat, b: int, s: int, words: Option<seq<nat>>)
    requires t.IsInteger() && (words.Some? <==> Sequences.AllInRange(b, s, n, 8 * t.Width(), t.IsSigned()))
    requires words.Some? ==> |words.value| == n && forall i: nat | i < n ::
               words.value[i] == Sequences.WordOf(Sequences.Element(b, s, i), 8 * t.Width())
    ensures words.Some? <==> AllFit(ElementsFrom(b, s, n), 8 * t.Width(), t.IsSigned())
    ensures words.Some? ==> WordRows(Flags(None, n), words.value) == IntegerRows(ElementsFrom(b, s, n), 8 * t.Width())
  {
    hide Sequences.Element, Sequences.InRange, Sequences.WordOf;
    var xs := ElementsFrom(b, s, n);
    if AllFit(xs, 8 * t.Width(), t.IsSigned()) {
      forall i: nat | i < n ensures Sequences.InRange(Sequences.Element(b, s, i), 8 * t.Width(), t.IsSigned()) {
        assert xs[i] in xs;
      }
    }
  }

  lemma {:induction false} StepRange(b: seq<byte>)
    requires Parse(b, 0).Some? && Sequences.Step(Parse(b, 0).value).Some?
    ensures Sequences.Step(Parse(b, 0).value).value.0 < Pow2(64)
  {
    hide Parse, Pow2;
    ParseThenSerialize(b, 0);
    var f := Get(Parse(b, 0).value, 4);
    if f.Some? { NumberSmall(f.value); }
  }

  lemma {:induction false} NumberSmall(f: Field)
    requires f.Valid()
    ensures f.num < Pow2(64)
  {
    hide Pow2;
    Pow2Mono(32, 64);
  }

  method DecodeRunLength(lib: Libraries, d: Decoder, node: Node, m: seq<Field>, t: Type,
                         n: nat) returns (r: Option<Values>)
    requires Relaxed(t) && n <= MAX_ROWS && !d.refused
    modifies d
    ensures d.depth == old(d.depth) && d.remaining <= old(d.remaining)
    ensures Outcome(d.refused, r, t, n, RunLengthReading(lib, node, m, t, n))
    ensures Fits(old(d.depth), node) ==>
              Paid(old(d.remaining), d.remaining, d.refused, RunLengthNeed(lib, node, m, t, n))
    decreases node, 5
  {
    hide ChildReading, WordsReading, Rows, Num, Whole, WordRows, NumberColumns.Rle.Decodes, NumberColumns.Rle.Words,
      NumberColumns.Rle.Valids, ChildNeed, Own, Fits, RunLengthReading, RunLengthNeed, ValidsOf, PrimitiveType,
      IntegerType, UnsignedType;
    RunLengthCases(lib, node, m, t, n);
    if t.Width() > 0 || IsString(t) { OwnLeaf(t, n); }
    if |node.children| != 3 || t.Width() == 0 { return None; }
    var it, ot := PrimitiveType(Num(m, 3), t.nullable), UnsignedType(Num(m, 5), false);
    if it.None? || !(it.value.kind == KU8 || it.value.kind == KU16) || ot.None? { return None; }
    if Num(m, 1) > MAX_ROWS || Num(m, 2) > MAX_ROWS || Num(m, 4) > MAX_ROWS {
      if Num(m, 1) > MAX_ROWS { TooManyWords(lib, node, 0, Some(t.(nullable := false)), Num(m, 1)); }
      if Num(m, 2) > MAX_ROWS { TooManyWords(lib, node, 1, it, Num(m, 2)); }
      if Num(m, 4) > MAX_ROWS { TooManyWords(lib, node, 2, ot, Num(m, 4)); }
      return None;
    }
    var vals := WordsChild(lib, d, node, 0, t.(nullable := false), Num(m, 1));
    if vals.None? { return None; }
    var idx := NumberChild(lib, d, node, 1, it.value, Num(m, 2));
    if idx.None? { return None; }
    var offsets := WordsChild(lib, d, node, 2, ot.value, Num(m, 4));
    if offsets.None? { return None; }
    NumberRows(idx.value);
    r := RunLengthRows(d, vals.value, idx.value, offsets.value, Num(m, 6), t, n);
  }

  lemma {:induction false} RunLengthCases(lib: Libraries, node: Node, m: seq<Field>, t: Type, n: nat)
    ensures var it, ot := PrimitiveType(Num(m, 3), t.nullable), UnsignedType(Num(m, 5), false);
            && RunLengthNeed(lib, node, m, t, n)
               == Own(t, n) + ChildNeed(lib, node, 0, Some(t.(nullable := false)), Num(m, 1))
                  + ChildNeed(lib, node, 1, it, Num(m, 2)) + ChildNeed(lib, node, 2, ot, Num(m, 4))
            && if |node.children| != 3 || t.Width() == 0 || ot.None? || it.None?
                  || (it.value.kind != KU8 && it.value.kind != KU16)
               then RunLengthReading(lib, node, m, t, n).None?
               else
                 var vals, idx := WordsReading(lib, node, 0, t.(nullable := false), Num(m, 1)),
                                  ChildReading(lib, node, 1, it.value, Num(m, 2));
                 var offsets := WordsReading(lib, node, 2, ot.value, Num(m, 4));
                 if vals.None? || idx.None? || offsets.None? then RunLengthReading(lib, node, m, t, n).None?
                 else
                   var a := NumberColumns.Rle(vals.value, WordsOf(idx.value), Some(ValidsOf(idx.value)), offsets.value);
                   RunLengthReading(lib, node, m, t, n)
                   == if a.Decodes(Num(m, 6), n)
                      then Some(WordRows(a.Valids(Num(m, 6), n), a.Words(Num(m, 6), n))) else None
  {
    hide ChildReading, WordsReading, Num, WordRows, NumberColumns.Rle.Words, NumberColumns.Rle.Valids, ChildNeed,
      Own;
  }

  /** The allocations and the loop of `rle` for decoded children. */
  method RunLengthRows(d: Decoder, vals: seq<nat>, idx: Values, offsets: seq<nat>, off: nat, t: Type, n: nat)
    returns (r: Option<Values>)
    requires t.Width() > 0 && idx.Numbers? && idx.Fits() && n <= MAX_ROWS && !d.refused
    modifies d`remaining, d`refused
    ensures d.remaining <= old(d.remaining)
    ensures var a := NumberColumns.Rle(vals, idx.words, Some(Flags(idx.valid, idx.n)), offsets);
            Outcome(d.refused, r, t, n,
                    if a.Decodes(off, n) then Some(WordRows(a.Valids(off, n), a.Words(off, n))) else None)
    ensures Paid(old(d.remaining), d.remaining, d.refused, 25 * n)
  {
    hide Rows, Whole, Good, WordRows, NumberColumns.Rle.Words, NumberColumns.Rle.Valids, NumberColumns.Rle.InBounds;
    var ok := EmptyNumbers(d, t, n);
    if !ok { return None; }
    if idx.valid.Some? {
      ok := d.Reserve(n);
      if !ok { return None; }
    }
    var a := NumberColumns.Rle(vals, idx.words, Some(Flags(idx.valid, idx.n)), offsets);
    var out := NumberColumns.ExpandRle(a, off, n);
    if out.None? { return None; }
    if idx.valid.None? { NoNullRows(a, off, n); }
    var v := NumbersOf(t, n, if idx.valid.Some? then Some(out.value.1) else None, out.value.0);
    r := Some(v);
  }

  /** Where no index is null, no row is. */
  lemma {:induction false} NoNullRows(a: NumberColumns.Rle, off: nat, n: nat)
    requires a.Decodes(off, n) && a.valid.Some? && forall j | 0 <= j < |a.idx| :: a.valid.value[j]
    ensures a.Valid() && a.Accepts(off, n) && a.Valids(off, n) == seq(n, _ => true)
  {
    hide NumberColumns.Rle.InBounds;
    forall i: nat | i < n ensures a.Valids(off, n)[i] == true { assert !a.IsNull(off + i); }
  }

  method DecodeDelta(lib: Libraries, d: Decoder, node: Node, m: seq<Field>, t: Type, n: nat) returns (r: Option<Values>)
    requires Relaxed(t) && n <= MAX_ROWS && !d.refused
    modifies d
    ensures d.depth == old(d.depth) && d.remaining <= old(d.remaining)
    ensures Outcome(d.refused, r, t, n, DeltaReading(lib, node, m, t, n))
    ensures Fits(old(d.depth), node) ==>
              Paid(old(d.remaining), d.remaining, d.refused, DeltaNeed(lib, node, m, t, n))
    decreases node, 5
  {
    hide ChildReading, WordsReading, Rows, Num, Whole, Relaxed, FastLanes.Lanes, WordRows, LaneDelta.Encoded.Values,
      LaneDelta.Encoded.Validity, LaneDelta.Encoded.Valid, ChildNeed, Own, Fits;
    if t.Width() > 0 || IsString(t) { OwnLeaf(t, n); }
    if !t.IsInteger() || |node.children| != 2 { return None; }
    var bits, count, off := 8 * t.Width(), Num(m, 1), Num(m, 2);
    if count > MAX_ROWS {
      TooManyWords(lib, node, 1, Some(t), count);
      return None;
    }
    if off >= 1024 || off + n > count { return None; }
    var bases := NumberChild(lib, d, node, 0, t, BasesOf(bits, count));
    if bases.None? { return None; }
    var deltas := NumberChild(lib, d, node, 1, t, count);
    if deltas.None? { return None; }
    NumberRows(deltas.value);
    DeltaValid(bits, count, bases.value.words, deltas.value.words, deltas.value.valid);
    r := Undelta(d, t, n, off, bases.value.words, deltas.value);
  }

  lemma {:induction false} DeltaValid(bits: nat, count: nat, bases: seq<nat>, deltas: seq<nat>,
                                      valid: Option<seq<bool>>)
    requires IsWidth(bits) && |bases| == BasesOf(bits, count) && |deltas| == count
    requires valid.Some? ==> |valid.value| == count
    ensures LaneDelta.Encoded(bits, bases, deltas, valid).Valid()
    ensures LaneDelta.Encoded(bits, bases, deltas, Some(Flags(valid, count))).Valid()
  {
    hide FastLanes.Lanes;
  }

  /** The allocations and loops of `delta` for decoded children. */
  method Undelta(d: Decoder, t: Type, n: nat, off: nat, bases: seq<nat>, deltas: Values) returns (r: Option<Values>)
    requires t.IsInteger() && deltas.Numbers? && deltas.Fits() && n <= MAX_ROWS && !d.refused
    requires var e := LaneDelta.Encoded(8 * t.Width(), bases, deltas.words, deltas.valid);
             e.Valid() && e.Accepts(off, n)
    modifies d`remaining, d`refused
    ensures d.remaining <= old(d.remaining)
    ensures r.None? ==> d.refused
    ensures r.Some? ==>
              var e := LaneDelta.Encoded(8 * t.Width(), bases, deltas.words, Some(Flags(deltas.valid, deltas.n)));
              && Good(r.value, t, n) && r.value.Fits() && !d.refused && e.Valid() && e.Accepts(off, n)
              && Rows(r.value) == WordRows(e.Validity(off, n).value, e.Values(off, n))
    ensures Paid(old(d.remaining), d.remaining, d.refused, 25 * n)
  {
    hide Rows, Whole, LaneDelta.Encoded.Value, LaneDelta.Encoded.IsValid, LaneDelta.Encoded.Values,
      LaneDelta.Encoded.Validity, LaneDelta.Encoded.Valid, WordRows;
    var ok := EmptyNumbers(d, t, n);
    if !ok { return None; }
    if deltas.valid.Some? {
      ok := d.Reserve(n);
      if !ok { return None; }
    }
    var e := LaneDelta.Encoded(8 * t.Width(), bases, deltas.words, deltas.valid);
    var words, valid := LaneDelta.Decode(e, off, n);
    var v := NumbersOf(t, n, valid, words);
    DeltaRows(e, off, n, Flags(deltas.valid, deltas.n));
    r := Some(v);
  }

  /** A missing validity vector says what an all-valid one says. */
  lemma {:induction false} DeltaRows(e: LaneDelta.Encoded, off: nat, n: nat, mask: seq<bool>)
    requires e.Valid() && e.Accepts(off, n) && mask == Flags(e.valid, |e.deltas|)
    ensures e.(valid := Some(mask)).Valid() && e.(valid := Some(mask)).Accepts(off, n)
    ensures e.Values(off, n) == e.(valid := Some(mask)).Values(off, n)
    ensures e.(valid := Some(mask)).Validity(off, n) == Some(Flags(e.Validity(off, n), n))
  {
    hide LaneDelta.Encoded.Value, LaneDelta.Encoded.IsValid, FastLanes.Lanes;
    forall i: nat | i < n
      ensures e.Values(off, n)[i] == e.(valid := Some(mask)).Value(off + i)
      ensures Flags(e.Validity(off, n), n)[i] == e.(valid := Some(mask)).IsValid(off + i)
    {
      LaneDelta.SameValue(e, Some(mask), off + i);
      LaneDelta.AllValid(e, mask, off + i);
      if e.valid.None? { LaneDelta.NoValidity(e, off + i); }
    }
    assert e.(valid := Some(mask)).Validity(off, n).value == Flags(e.Validity(off, n), n);
  }

  // ---------------------------------------------------------- decimals in binary form

  method DecodeAlp(lib: Libraries, d: Decoder, node: Node, m: seq<Field>, t: Type, n: nat) returns (r: Option<Values>)
    requires Relaxed(t) && n <= MAX_ROWS && !d.refused
    modifies d
    ensures d.depth == old(d.depth) && d.remaining <= old(d.remaining)
    ensures Outcome(d.refused, r, t, n, AlpReading(lib, node, m, t, n))
    ensures Fits(old(d.depth), node) ==>
              Paid(old(d.remaining), d.remaining, d.refused, AlpNeed(lib, node, m, t, n))
    decreases node, 6
  {
    hide AlpReading, ChildReading, WordsReading, PatchesReading, Rows, Num, Whole, WordRows, Mapped, Data, ValidsOf,
      ChildNeed, PatchNeed, Own, RowBytes, Fits, AlpNeed, AlpType, AlpMap;
    OwnParts(t, n);
    AlpCases(lib, node, m, t, n);
    if t.kind != KF32 && t.kind != KF64 { return None; }
    var limit := if t.kind == KF32 then 10 else 18;
    var exp, factor := Num(m, 1), Num(m, 2);
    if exp > limit || factor > limit { return None; }
    AlpChild(t);
    var c := NumberChild(lib, d, node, 0, AlpType(t), n);
    if c.None? { return None; }
    var was := AlpImages(lib, m, t, n, c.value);
    var patched := ApplyPatches(lib, d, node, 1, Data(m, 3), was, t, n);
    if patched.None? || |node.children| != patched.value.1 { return None; }
    r := Some(patched.value.0);
  }

  /** The array of the images. */
  method AlpImages(lib: Libraries, m: seq<Field>, t: Type, n: nat, c: Values) returns (was: Values)
    requires t.Width() > 0 && c.Numbers? && c.Fits() && c.n == n
    ensures Good(was, t, n) && was.Fits() && Rows(was) == Mapped(Rows(c), AlpMap(lib, m, t))
  {
    hide Rows, Whole, WordRows, Mapped, Num, AlpMap;
    var words := AlpWords(lib, c.words, Num(m, 1), Num(m, 2), t.kind);
    was := NumbersOf(t, n, c.valid, words);
    AlpMapAt(lib, m, t);
    MappedNumbers(c, words, AlpMap(lib, m, t));
  }

  /** The loop of multiplications. */
  method AlpWords(lib: Libraries, words: seq<nat>, exp: nat, factor: nat, kind: Kind) returns (r: seq<nat>)
    ensures |r| == |words| && forall i | 0 <= i < |r| :: r[i] == lib.alp(words[i], exp, factor, kind)
  {
    var out := new nat[|words|](_ => 0);
    for i := 0 to |words|
      invariant forall k: nat | k < i :: out[k] == lib.alp(words[k], exp, factor, kind)
    {
      out[i] := lib.alp(words[i], exp, factor, kind);
    }
    r := out[..];
  }

  function AlpType(t: Type): Type { Plain(if t.kind == KF32 then KI32 else KI64, t.nullable) }

  lemma {:induction false} AlpChild(t: Type)
    ensures AlpType(t).Width() > 0 && Relaxed(AlpType(t))
  {
  }

  function AlpMap(lib: Libraries, m: seq<Field>, t: Type): nat -> nat {
    (x: nat) => lib.alp(x, Num(m, 1), Num(m, 2), t.kind)
  }

  lemma {:induction false} AlpMapAt(lib: Libraries, m: seq<Field>, t: Type)
    ensures forall x: nat :: AlpMap(lib, m, t)(x) == lib.alp(x, Num(m, 1), Num(m, 2), t.kind)
  {
    hide Num;
  }

  lemma {:induction false} AlpCases(lib: Libraries, node: Node, m: seq<Field>, t: Type, n: nat)
    ensures var limit := if t.kind == KF32 then 10 else 18;
            if (t.kind != KF32 && t.kind != KF64) || Num(m, 1) > limit || Num(m, 2) > limit
            then AlpReading(lib, node, m, t, n).None?
            else
              var cells := ChildReading(lib, node, 0, AlpType(t), n);
              if cells.None? then AlpReading(lib, node, m, t, n).None?
              else
                var rows := PatchesReading(lib, node, 1, Data(m, 3), t, Mapped(cells.value, AlpMap(lib, m, t)));
                AlpReading(lib, node, m, t, n)
                == if rows.None? || rows.value.1 != |node.children| then None else Some(rows.value.0)
    ensures AlpNeed(lib, node, m, t, n)
            == Own(t, n) + ChildNeed(lib, node, 0, Some(AlpType(t)), n) + PatchNeed(lib, node, 1, Data(m, 3), t)
  {
    hide ChildReading, PatchesReading, Num, Mapped, ChildNeed, PatchNeed, Own, Data;
  }

  method DecodeAlpRd(lib: Libraries, d: Decoder, node: Node, m: seq<Field>, t: Type, n: nat) returns (r: Option<Values>)
    requires Relaxed(t) && n <= MAX_ROWS && !d.refused
    modifies d
    ensures d.depth == old(d.depth) && d.remaining <= old(d.remaining)
    ensures Outcome(d.refused, r, t, n, AlpRdReading(lib, node, m, t, n))
    ensures Fits(old(d.depth), node) ==>
              Paid(old(d.remaining), d.remaining, d.refused, AlpRdNeed(lib, node, m, t, n))
    decreases node, 6
  {
    hide ChildReading, WordsReading, NumbersPatched, Rows, Num, Whole, Repeated, Pow2, NumberColumns.Combine,
      WordRows, LeftParts, PartsFit, Combined, RowCopies.CodesNamed, LeftDictionary, ChildNeed, PatchNeed, Fits,
      AlpRdReading, AlpRdNeed, ValidsOf, PrimitiveType, IntegerType, UnsignedType;
    AlpRdCases(lib, node, m, t, n);
    if t.kind != KF32 && t.kind != KF64 { return None; }
    var bw := Num(m, 1);
    if bw >= 8 * t.Width() || bw + 16 < 8 * t.Width() { return None; }
    var dict := ReadDictionary(m);
    if dict.None? { return None; }
    var lt := UnsignedType(Num(m, 4), t.nullable);
    if lt.None? { return None; }
    var codes := NumberChild(lib, d, node, 0, lt.value, n);
    if codes.None? { return None; }
    var right := WordsChild(lib, d, node, 1, Plain(if t.kind == KF32 then KU32 else KU64, false), n);
    if right.None? { return None; }
    var left := FindLeft(codes.value, dict.value);
    if left.None? { return None; }
    var patched := PatchWords(lib, d, node, 2, Data(m, 5), left.value, lt.value.(nullable := false));
    if patched.None? || |node.children| != patched.value.1 { return None; }
    var words := JoinParts(codes.value, patched.value.0, right.value, bw);
    if words.None? { return None; }
    var v := NumbersOf(t, n, codes.value.valid, words.value);
    r := Some(v);
  }

  /** The left parts of decoded codes. */
  method FindLeft(codes: Values, dict: seq<nat>) returns (left: Option<seq<nat>>)
    requires codes.Numbers? && codes.Fits()
    ensures left.Some? <==> RowCopies.CodesNamed(Rows(codes), |dict|)
    ensures left.Some? ==> left.value == LeftParts(Rows(codes), dict)
  {
    hide Rows, LeftParts, RowCopies.CodesNamed;
    left := NumberColumns.LookupLeft(codes.words, Flags(codes.valid, codes.n), dict);
    LeftIs(codes, Flags(codes.valid, codes.n), dict, left);
  }

  /** The words of joined parts. */
  method JoinParts(codes: Values, left: seq<nat>, right: seq<nat>, bw: nat) returns (words: Option<seq<nat>>)
    requires codes.Numbers? && codes.Fits() && |left| == |right| == codes.n
    ensures words.Some? <==> PartsFit(Rows(codes), left, right, bw)
    ensures words.Some? ==> words.value == Combined(Rows(codes), left, right, bw)
  {
    hide Rows, PartsFit, Combined, Pow2, NumberColumns.Combine;
    words := NumberColumns.CombineParts(left, right, Flags(codes.valid, codes.n), bw);
    CombinedIs(codes, Flags(codes.valid, codes.n), left, right, bw, words);
  }

  lemma {:induction false} AlpRdCases(lib: Libraries, node: Node, m: seq<Field>, t: Type, n: nat)
    ensures var bw, lt, dict := Num(m, 1), UnsignedType(Num(m, 4), t.nullable), LeftDictionary(m);
            var rt := Plain(if t.kind == KF32 then KU32 else KU64, false);
            && (lt.Some? ==>
                  AlpRdNeed(lib, node, m, t, n)
                  == ChildNeed(lib, node, 0, lt, n) + ChildNeed(lib, node, 1, Some(rt), n)
                     + PatchNeed(lib, node, 2, Data(m, 5), lt.value.(nullable := false)))
            && if (t.kind != KF32 && t.kind != KF64) || bw >= 8 * t.Width() || bw + 16 < 8 * t.Width()
                  || lt.None? || dict.None?
               then AlpRdReading(lib, node, m, t, n).None?
               else
                 var codes, right := ChildReading(lib, node, 0, lt.value, n), WordsReading(lib, node, 1, rt, n);
                 if codes.None? || right.None? || !RowCopies.CodesNamed(codes.value, |dict.value|)
                 then AlpRdReading(lib, node, m, t, n).None?
                 else
                   var left := NumbersPatched(lib, node, 2, Data(m, 5), lt.value.(nullable := false),
                                              LeftParts(codes.value, dict.value));
                   AlpRdReading(lib, node, m, t, n)
                   == if left.None? || left.value.1 != |node.children|
                         || !PartsFit(codes.value, left.value.0, right.value, bw) then None
                      else Some(WordRows(ValidsOf(codes.value), Combined(codes.value, left.value.0, right.value, bw)))
  {
    hide ChildReading, WordsReading, NumbersPatched, Num, Data, LeftParts, PartsFit, Combined, WordRows,
      RowCopies.CodesNamed, LeftDictionary, ChildNeed, PatchNeed;
  }

  /** The dictionary of left parts, with its checks. */
  method ReadDictionary(m: seq<Field>) returns (dict: Option<seq<nat>>)
    ensures dict == LeftDictionary(m)
  {
    hide Repeated, Num;
    var all := RepeatedNumbers(m, 3);
    if all.None? || Num(m, 2) > |all.value| || Num(m, 2) > 65536 { return None; }
    var small := AllBelow(all.value[..Num(m, 2)], 65536);
    if !small { return None; }
    dict := Some(all.value[..Num(m, 2)]);
  }

  /** The check of the dictionary's values. */
  method AllBelow(xs: seq<nat>, limit: nat) returns (ok: bool)
    ensures ok <==> forall x | x in xs :: x < limit
  {
    for i := 0 to |xs|
      invariant forall k | 0 <= k < i :: xs[k] < limit
    {
      if xs[i] >= limit {
        assert xs[i] in xs;
        return false;
      }
    }
    ok := true;
  }

  lemma {:induction false} LeftIs(codes: Values, mask: seq<bool>, dict: seq<nat>, left: Option<seq<nat>>)
    requires codes.Numbers? && codes.Fits() && mask == Flags(codes.valid, codes.n)
    requires left.Some? <==> forall i | 0 <= i < codes.n && mask[i] :: codes.words[i] < |dict|
    requires left.Some? ==> |left.value| == codes.n && forall i | 0 <= i < codes.n ::
               left.value[i] == if mask[i] then dict[codes.words[i]] else codes.words[i]
    ensures left.Some? <==> RowCopies.CodesNamed(Rows(codes), |dict|)
    ensures left.Some? ==> left.value == LeftParts(Rows(codes), dict)
  {
    NumberRows(codes);
    if RowCopies.CodesNamed(Rows(codes), |dict|) {
      forall i: nat | i < codes.n && mask[i] ensures codes.words[i] < |dict| { assert Rows(codes)[i].valid; }
    }
  }

  lemma {:induction false} CombinedIs(codes: Values, mask: seq<bool>, left: seq<nat>, right: seq<nat>, bw: nat,
                                      words: Option<seq<nat>>)
    requires codes.Numbers? && codes.Fits() && mask == Flags(codes.valid, codes.n) && |left| == |right| == codes.n
    requires words.Some? <==> forall i | 0 <= i < codes.n && mask[i] :: left[i] <= 65535 && right[i] < Pow2(bw)
    requires words.Some? ==> |words.value| == codes.n && forall i | 0 <= i < codes.n ::
               words.value[i] == if mask[i] then NumberColumns.Combine(left[i], right[i], bw) else right[i]
    ensures words.Some? <==> PartsFit(Rows(codes), left, right, bw)
    ensures words.Some? ==> words.value == Combined(Rows(codes), left, right, bw)
  {
    hide Pow2, NumberColumns.Combine;
    NumberRows(codes);
    if PartsFit(Rows(codes), left, right, bw) {
      forall i: nat | i < codes.n && mask[i] ensures left[i] <= 65535 && right[i] < Pow2(bw) {
        assert Rows(codes)[i].valid;
      }
    }
  }

  // ---------------------------------------------------------------- string encodings

  /** The codes and lengths of FSST rows. */
  method FsstChildren(lib: Libraries, d: Decoder, node: Node, m: seq<Field>, t: Type,
                      n: nat) returns (r: Option<(Values, seq<nat>)>)
    requires n <= MAX_ROWS && (|node.buffers| == 2 || |node.buffers| == 3) && !d.refused
    modifies d
    ensures d.depth == old(d.depth) && d.remaining <= old(d.remaining)
    ensures r.Some? ==> FsstColumns(r.value.0, r.value.1, n) && !d.refused
    ensures r.Some? ==> FsstCells(lib, node, m, t, n) == Some((Rows(r.value.0), r.value.1))
    ensures r.None? ==> d.refused || FsstCells(lib, node, m, t, n).None?
    ensures Fits(old(d.depth), node) ==>
              Paid(old(d.remaining), d.remaining, d.refused, 25 * n + FsstCellsNeed(lib, node, m, t, n))
    decreases node, 7
  {
    hide ChildReading, WordsReading, RangesReading, Rows, Num, Whole, StringRows, ChildNeed, RangesNeed, Fits,
      PrimitiveType, IntegerType;
    var lt := IntegerType(Num(m, 1), false);
    if lt.None? { return None; }
    assert lt == Some(lt.value);
    if |node.buffers| == 3 {
      r := FsstRanges(lib, d, node, m, t, lt.value, n);
      return;
    }
    var codes := Child(lib, d, node, 0, Plain(KBinary, t.nullable), n);
    if codes.None? { return None; }
    var lens := WordsChild(lib, d, node, 1, lt.value, n);
    if lens.None? { return None; }
    r := Some((codes.value, lens.value));
  }

  ghost predicate FsstColumns(codes: Values, lens: seq<nat>, n: nat) {
    codes.Texts? && codes.Fits() && codes.n == n && |lens| == n
  }

  /** The form with a third buffer, of which the codes are ranges. */
  method FsstRanges(lib: Libraries, d: Decoder, node: Node, m: seq<Field>, t: Type, lt: Type,
                    n: nat) returns (r: Option<(Values, seq<nat>)>)
    requires n <= MAX_ROWS && |node.buffers| == 3 && IntegerType(Num(m, 1), false) == Some(lt) && !d.refused
    modifies d
    ensures d.depth == old(d.depth) && d.remaining <= old(d.remaining)
    ensures r.Some? ==> FsstColumns(r.value.0, r.value.1, n) && !d.refused
    ensures r.Some? ==> FsstCells(lib, node, m, t, n) == Some((Rows(r.value.0), r.value.1))
    ensures r.None? ==> d.refused || FsstCells(lib, node, m, t, n).None?
    ensures Fits(old(d.depth), node) ==>
              Paid(old(d.remaining), d.remaining, d.refused, 25 * n + FsstCellsNeed(lib, node, m, t, n))
    decreases node, 6
  {
    hide ChildReading, WordsReading, RangesReading, Rows, Num, Whole, StringRows, ChildNeed, RangesNeed, Fits,
      PrimitiveType, IntegerType;
    var lens := WordsChild(lib, d, node, 0, lt, n);
    if lens.None? { return None; }
    var ot := IntegerType(Num(m, 2), false);
    if ot.None? { return None; }
    assert ot == Some(ot.value);
    var ok := EmptyNumbers(d, Plain(KBinary, t.nullable), n);
    if !ok { return None; }
    var c := RangeTexts(lib, d, node, 1, ot.value, node.buffers[2], n);
    if c.None? { return None; }
    var codes := TextsFrom(Plain(KBinary, t.nullable), n, c.value.0, c.value.1);
    r := Some((codes, lens.value));
  }

  method DecodeFsst(lib: Libraries, d: Decoder, node: Node, m: seq<Field>, t: Type, n: nat) returns (r: Option<Values>)
    requires n <= MAX_ROWS && !d.refused
    modifies d
    ensures d.depth == old(d.depth) && d.remaining <= old(d.remaining)
    ensures Outcome(d.refused, r, t, n, FsstReading(lib, node, m, t, n))
    ensures Fits(old(d.depth), node) ==>
              Paid(old(d.remaining), d.remaining, d.refused, FsstNeed(lib, node, m, t, n))
    decreases node, 8
  {
    hide FsstReading, FsstCells, Rows, Whole, Tokens.Table.Expand, Tokens.AllExpand, Tokens.Declared, StringRows,
      Expanded, Tokens.Table.Valid, TextsOf, FsstCellsNeed, Own, Fits, PcoStream.Sum;
    if t.Width() > 0 || IsString(t) { OwnLeaf(t, n); }
    FsstShape(lib, node, m, t, n);
    if !IsString(t) || (|node.buffers| != 2 && |node.buffers| != 3) { return None; }
    var table := Tokens.Table(node.buffers[0], node.buffers[1]);
    var good := CheckTable(table);
    if !good { return None; }
    var c := FsstChildren(lib, d, node, m, t, n);
    if c.None? { return None; }
    var (codes, lens) := c.value;
    var ok := EmptyNumbers(d, t, n);
    if !ok { return None; }
    DeclaredBound(lens, codes.valid);
    var texts := Tokens.ExpandRows(d, table, codes.texts, lens, codes.valid, CheckOf(lib, t));
    FsstAccepts(codes, lens, table, CheckOf(lib, t));
    if texts.None? { return None; }
    var v := TextsFrom(t, n, codes.valid, texts.value);
    FsstRows(codes, table, texts.value);
    r := Some(v);
  }

  lemma {:induction false} FsstShape(lib: Libraries, node: Node, m: seq<Field>, t: Type, n: nat)
    ensures !IsString(t) || (|node.buffers| != 2 && |node.buffers| != 3) ==> FsstReading(lib, node, m, t, n).None?
    ensures IsString(t) && (|node.buffers| == 2 || |node.buffers| == 3) ==>
              var table := Tokens.Table(node.buffers[0], node.buffers[1]);
              var cells := FsstCells(lib, node, m, t, n);
              FsstReading(lib, node, m, t, n)
              == if !table.Valid() || cells.None? then None
                 else if Tokens.AllExpand(table, TextsOf(cells.value.0), cells.value.1,
                                          Some(ValidsOf(cells.value.0)), CheckOf(lib, t))
                 then Some(Expanded(table, cells.value.0)) else None
  {
    hide ChildReading, WordsReading, MaskReading, Tokens.Table.Valid, Tokens.AllExpand, Expanded, Num, RangesOf,
      StringRows;
  }

  lemma {:induction false} DeclaredBound(lens: seq<nat>, valid: Option<seq<bool>>)
    requires valid.Some? ==> |valid.value| == |lens|
    ensures Tokens.Declared(lens, valid, |lens|) <= PcoStream.Sum(lens)
  {
    DeclaredAtMost(lens, valid, |lens|);
    assert lens[..|lens|] == lens;
  }

  /** The checks of the symbol table. */
  method CheckTable(table: Tokens.Table) returns (ok: bool)
    ensures ok == table.Valid()
  {
    if |table.symbols| != 8 * |table.sizes| || |table.sizes| > 255 { return false; }
    for i := 0 to |table.sizes|
      invariant forall k | 0 <= k < i :: table.sizes[k] <= 8
    {
      if table.sizes[i] > 8 {
        assert table.sizes[i] in table.sizes;
        return false;
      }
    }
    ok := true;
  }

  lemma {:induction false} FsstAccepts(codes: Values, lens: seq<nat>, table: Tokens.Table, check: Tokens.Check)
    requires table.Valid() && codes.Texts? && codes.Fits() && |lens| == codes.n
    ensures Tokens.AllExpand(table, TextsOf(Rows(codes)), lens, Some(ValidsOf(Rows(codes))), check)
            <==> Tokens.AllExpand(table, codes.texts, lens, codes.valid, check)
  {
    hide Tokens.Table.Valid, Tokens.RowExpands;
    TextRows(codes);
    assert TextsOf(Rows(codes)) == codes.texts;
    assert ValidsOf(Rows(codes)) == Flags(codes.valid, codes.n);
  }

  lemma {:induction false} FsstRows(codes: Values, table: Tokens.Table, texts: seq<seq<byte>>)
    requires table.Valid() && codes.Texts? && codes.Fits() && |texts| == codes.n
    requires forall i: nat | i < codes.n ::
               Some(texts[i]) == if Tokens.IsValid(codes.valid, i) then table.Expand(codes.texts[i]) else Some([])
    ensures StringRows(Flags(codes.valid, codes.n), texts) == Expanded(table, Rows(codes))
  {
    hide Tokens.Table.Valid, Tokens.Table.Expand;
    TextRows(codes);
  }

  method OnPairChildren(lib: Libraries, d: Decoder, node: Node, m: seq<Field>, n: nat)
    returns (r: Option<OnPairCells>)
    requires !d.refused
    modifies d
    ensures d.depth == old(d.depth) && d.remaining <= old(d.remaining)
    ensures r.Some? ==> !d.refused && OnPairColumns(lib, node, m, n) == r
    ensures r.None? ==> d.refused || OnPairColumns(lib, node, m, n).None?
    ensures Fits(old(d.depth), node) ==>
              Paid(old(d.remaining), d.remaining, d.refused, OnPairCellsNeed(lib, node, m, n))
    decreases node, 4
  {
    hide OnPairColumns, ChildReading, WordsReading, Num, UnsignedType, ChildNeed, Fits, PrimitiveType, IntegerType;
    OnPairCases(lib, node, m, n);
    if Num(m, 3) > MAX_ROWS { return None; }
    var ot, ct := UnsignedType(Num(m, 5), false), UnsignedType(Num(m, 6), false);
    var bt, lt := UnsignedType(Num(m, 7), false), UnsignedType(Num(m, 1), false);
    if ot.None? || ct.None? || bt.None? || lt.None? { return None; }
    if Num(m, 4) > MAX_ROWS {
      TooManyWords(lib, node, 1, ct, Num(m, 4));
      return None;
    }
    var offsets := WordsChild(lib, d, node, 0, ot.value, Num(m, 3) + 1);
    if offsets.None? { return None; }
    var codes := WordsChild(lib, d, node, 1, ct.value, Num(m, 4));
    if codes.None? { return None; }
    var bounds := WordsChild(lib, d, node, 2, bt.value, n + 1);
    if bounds.None? { return None; }
    var lens := WordsChild(lib, d, node, 3, lt.value, n);
    if lens.None? { return None; }
    r := Some(OnPairCells(offsets.value, codes.value, bounds.value, lens.value));
  }

  /** The four columns, each of an unsigned type. */
  lemma {:induction false} OnPairCases(lib: Libraries, node: Node, m: seq<Field>, n: nat)
    ensures var ot, ct := UnsignedType(Num(m, 5), false), UnsignedType(Num(m, 6), false);
            var bt, lt := UnsignedType(Num(m, 7), false), UnsignedType(Num(m, 1), false);
            if ot.None? || ct.None? || bt.None? || lt.None? || Num(m, 3) > MAX_ROWS
            then OnPairColumns(lib, node, m, n).None?
            else
              var offsets := WordsReading(lib, node, 0, ot.value, Num(m, 3) + 1);
              var codes := WordsReading(lib, node, 1, ct.value, Num(m, 4));
              var bounds := WordsReading(lib, node, 2, bt.value, n + 1);
              var lens := WordsReading(lib, node, 3, lt.value, n);
              if offsets.None? || codes.None? || bounds.None? || lens.None?
              then OnPairColumns(lib, node, m, n).None?
              else OnPairColumns(lib, node, m, n)
                   == Some(OnPairCells(offsets.value, codes.value, bounds.value, lens.value))
  {
    hide WordsReading, Num, UnsignedType;
  }

  /** The token table: no more tokens than the code width can address, and a budget for
      their slices. */
  method ResolveTokens(d: Decoder, dict: seq<byte>, m: seq<Field>,
                       offsets: seq<nat>) returns (r: Option<seq<seq<byte>>>)
    requires |offsets| == Num(m, 3) + 1 && !d.refused
    modifies d`remaining, d`refused
    ensures d.remaining <= old(d.remaining)
    ensures r.Some? ==> !d.refused && r == TokensOf(dict, m, offsets) && forall x | x in r.value :: x != []
    ensures r.Some? ==> d.remaining == old(d.remaining) - 24 * Num(m, 3)
    ensures r.None? ==> d.refused || TokensOf(dict, m, offsets).None?
    ensures Paid(old(d.remaining), d.remaining, d.refused, 24 * Num(m, 3))
  {
    hide Num, Pow2;
    var ct := UnsignedType(Num(m, 6), false);
    if ct.None? || (ct.value.Width() < 8 && Num(m, 3) > Pow2(8 * ct.value.Width())) { return None; }
    var ok := d.Reserve(Num(m, 3) * 24);
    if !ok { return None; }
    r := Tokens.Resolve(dict, offsets);
    if r.Some? {
      NonEmptyTokens(dict, offsets, r.value);
      assert r.value == TokensOf(dict, m, offsets).value;
    }
  }

  lemma {:induction false} NonEmptyTokens(dict: seq<byte>, offsets: seq<nat>, tokens: seq<seq<byte>>)
    requires |offsets| == |tokens| + 1
    requires forall k: nat | k < |tokens| :: Tokens.IsToken(dict, offsets, k, tokens[k])
    ensures forall x | x in tokens :: x != []
  {
    forall x | x in tokens ensures x != [] {
      var i: nat :| i < |tokens| && tokens[i] == x;
      assert Tokens.IsToken(dict, offsets, i, tokens[i]);
    }
  }

  method DecodeOnPair(lib: Libraries, d: Decoder, node: Node, m: seq<Field>, t: Type,
                      n: nat) returns (r: Option<Values>)
    requires n <= MAX_ROWS && !d.refused
    modifies d
    ensures d.depth == old(d.depth) && d.remaining <= old(d.remaining)
    ensures Outcome(d.refused, r, t, n, OnPairReading(lib, node, m, t, n))
    ensures Fits(old(d.depth), node) ==>
              Paid(old(d.remaining), d.remaining, d.refused, OnPairNeed(lib, node, m, t, n))
    decreases node, 5
  {
    hide OnPairColumns, MaskReading, NamedReading, Rows, Num, Whole, OnPairCellsNeed, LastNeed, Own, Fits,
      PcoStream.Sum, OnPairReading, OnPairNeed;
    OnPairRowCases(lib, node, m, t, n);
    if t.Width() > 0 || IsString(t) { OwnLeaf(t, n); }
    if !IsString(t) || |node.buffers| != 1 { return None; }
    var c := OnPairChildren(lib, d, node, m, n);
    if c.None? { return None; }
    var ok := EmptyNumbers(d, t, n);
    if !ok { return None; }
    var valid := ValidityOf(lib, d, node, 4, n);
    if valid.None? { return None; }
    r := NameTexts(lib, d, node.buffers[0], m, c.value, valid.value, t, n);
  }

  /** The tokens that the codes of valid rows name. */
  method NameTexts(lib: Libraries, d: Decoder, dict: seq<byte>, m: seq<Field>, c: OnPairCells,
                   valid: Option<seq<bool>>, t: Type, n: nat) returns (r: Option<Values>)
    requires IsString(t) && |c.offsets| == Num(m, 3) + 1 && |c.bounds| == n + 1 && |c.lens| == n && !d.refused
    requires valid.Some? ==> |valid.value| == n
    modifies d`remaining, d`refused
    ensures d.remaining <= old(d.remaining)
    ensures Outcome(d.refused, r, t, n, NamedReading(lib, t, dict, m, c, Flags(valid, n)))
    ensures Paid(old(d.remaining), d.remaining, d.refused, 24 * Num(m, 3) + PcoStream.Sum(c.lens))
  {
    hide Rows, Num, Whole, Tokens.AllName, Tokens.NamedRow, Tokens.Declared, TokensOf, NamedRows, StringRows,
      PcoStream.Sum;
    var tokens := ResolveTokens(d, dict, m, c.offsets);
    if tokens.None? { return None; }
    DeclaredBound(c.lens, valid);
    var texts, work := Tokens.NameRows(d, tokens.value, c.codes, c.bounds, c.lens, valid, CheckOf(lib, t));
    OnPairAccepts(tokens.value, c, valid, CheckOf(lib, t));
    if texts.None? { return None; }
    var v := TextsFrom(t, n, valid, texts.value);
    OnPairRows(tokens.value, c, valid, texts.value);
    r := Some(v);
  }

  lemma {:induction false} OnPairRowCases(lib: Libraries, node: Node, m: seq<Field>, t: Type, n: nat)
    ensures var c, mask := OnPairColumns(lib, node, m, n), MaskReading(lib, node, 4, n);
            && OnPairNeed(lib, node, m, t, n)
               == Own(t, n) + LastNeed(lib, node, n) + OnPairCellsNeed(lib, node, m, n) + 24 * Num(m, 3)
                  + (if c.None? then 0 else PcoStream.Sum(c.value.lens))
            && OnPairReading(lib, node, m, t, n)
               == if !IsString(t) || |node.buffers| != 1 || c.None? || mask.None? then None
                  else NamedReading(lib, t, node.buffers[0], m, c.value, mask.value)
  {
    hide OnPairColumns, MaskReading, NamedReading, Num, Own, LastNeed, OnPairCellsNeed, PcoStream.Sum;
  }

  lemma {:induction false} OnPairAccepts(tokens: seq<seq<byte>>, c: OnPairCells, valid: Option<seq<bool>>,
                                         check: Tokens.Check)
    requires |c.bounds| == |c.lens| + 1 && (valid.Some? ==> |valid.value| == |c.lens|)
    ensures Tokens.AllName(tokens, c.codes, c.bounds, c.lens, Some(Flags(valid, |c.lens|)), check)
            <==> Tokens.AllName(tokens, c.codes, c.bounds, c.lens, valid, check)
  {
    hide Tokens.RowNames;
    var mask := Some(Flags(valid, |c.lens|));
    assert forall i: nat | i < |c.lens| :: Tokens.IsValid(mask, i) == Tokens.IsValid(valid, i);
  }

  lemma {:induction false} OnPairRows(tokens: seq<seq<byte>>, c: OnPairCells, valid: Option<seq<bool>>,
                                      texts: seq<seq<byte>>)
    requires |c.bounds| == |c.lens| + 1 && (valid.Some? ==> |valid.value| == |c.lens|) && |texts| == |c.lens|
    requires forall i: nat | i < |texts| :: Tokens.NamedRow(tokens, c.codes, c.bounds, valid, i, texts[i])
    ensures StringRows(Flags(valid, |texts|), texts) == NamedRows(tokens, c.codes, c.bounds, Flags(valid, |texts|))
  {
    hide Tokens.RowText;
    var mask := Flags(valid, |texts|);
    forall i: nat | i < |texts| ensures StringRows(mask, texts)[i] == NamedRows(tokens, c.codes, c.bounds, mask)[i] {
      assert Tokens.NamedRow(tokens, c.codes, c.bounds, valid, i, texts[i]);
    }
  }

  // ------------------------------------------------------- stored non-null values only

  /** The loop that parses the messages with a tag. */
  method ReadPayloads(m: seq<Field>, tag: nat) returns (r: Option<seq<seq<Field>>>)
    ensures r == Payloads(m, tag)
  {
    hide Parse;
    var out: seq<seq<Field>> := [];
    for i := 0 to |m|
      invariant Payloads(m[..i], tag) == Some(out)
    {
      assert m[..i + 1][..i] == m[..i];
      PayloadsPrefix(m, i + 1, tag);
      if m[i].tag != tag {
        AppendNothing(out);
        continue;
      }
      var p := ParseProto(ScalarOf(m[i]));
      if p.None? { return None; }
      out := out + [p.value];
    }
    assert m[..|m|] == m;
    r := Some(out);
  }

  lemma {:induction false} PayloadsPrefix(m: seq<Field>, i: nat, tag: nat)
    requires i <= |m|
    ensures Payloads(m[..i], tag).None? ==> Payloads(m, tag).None?
    decreases |m|
  {
    hide Parse;
    if i == |m| {
      assert m[..i] == m;
    } else {
      assert m[..|m| - 1][..i] == m[..i];
      PayloadsPrefix(m[..|m| - 1], i, tag);
    }
  }

  /** The declared sizes of the first `k` frames. */
  ghost function FrameSum(ps: seq<seq<Field>>, k: nat): nat
    requires k <= |ps|
  {
    PcoStream.Sum(Counts(ps)[..k])
  }

  lemma {:induction false} FrameNext(ps: seq<seq<Field>>, i: nat)
    requires i < |ps|
    ensures FrameSum(ps, i + 1) == FrameSum(ps, i) + Num(ps[i], 1) && FrameSum(ps, i + 1) <= FrameSum(ps, |ps|)
  {
    hide Num;
    assert Counts(ps)[..i + 1][..i] == Counts(ps)[..i];
    SumPrefix(Counts(ps), i + 1);
    assert Counts(ps)[..|ps|] == Counts(ps);
  }

  lemma {:induction false} FramesPaid(m: seq<Field>, ps: seq<seq<Field>>)
    requires Payloads(m, 2) == Some(ps)
    ensures FrameBytes(m) == FrameSum(ps, |ps|) && FrameSum(ps, 0) == 0
  {
    hide Payloads, Num;
    assert Counts(ps)[..|ps|] == Counts(ps);
  }

  /** Every frame decompressed within the budget, to its declared size. */
  method InflateFrames(lib: Libraries, d: Decoder, m: seq<Field>, dict: seq<byte>, buffers: seq<seq<byte>>)
    returns (r: Option<seq<NullExpansion.Frame>>)
    requires !d.refused
    modifies d`remaining, d`refused
    ensures d.remaining <= old(d.remaining)
    ensures r.Some? ==> !d.refused && FramesOf(lib, m, dict, buffers) == r
    ensures r.None? ==> d.refused || FramesOf(lib, m, dict, buffers).None?
    ensures Paid(old(d.remaining), d.remaining, d.refused, FrameBytes(m))
  {
    hide Payloads, Num, FrameSum, FrameBytes;
    var ps := ReadPayloads(m, 2);
    if ps.None? || |ps.value| != |buffers| { return None; }
    FramesPaid(m, ps.value);
    var frames: seq<NullExpansion.Frame> := [];
    for i := 0 to |buffers|
      invariant |frames| == i && d.remaining <= old(d.remaining) && !d.refused
      invariant old(d.remaining) <= d.remaining + FrameSum(ps.value, i)
      invariant forall k: nat | k < i :: FrameOk(lib, dict, buffers[k], ps.value[k])
      invariant forall k: nat | k < i ::
                  frames[k] == NullExpansion.Frame(lib.inflate(dict, buffers[k]).value, Num(ps.value[k], 2))
    {
      FrameNext(ps.value, i);
      var ok := d.Reserve(Num(ps.value[i], 1));
      if !ok { return None; }
      var size := lib.contentSize(buffers[i]);
      if size.None? || size.value != Num(ps.value[i], 1) {
        assert !FrameOk(lib, dict, buffers[i], ps.value[i]);
        return None;
      }
      var raw := lib.inflate(dict, buffers[i]);
      if raw.None? || |raw.value| != Num(ps.value[i], 1) {
        assert !FrameOk(lib, dict, buffers[i], ps.value[i]);
        return None;
      }
      frames := frames + [NullExpansion.Frame(raw.value, Num(ps.value[i], 2))];
    }
    assert FramesOf(lib, m, dict, buffers).Some? && frames == FramesOf(lib, m, dict, buffers).value;
    r := Some(frames);
  }

  /** The array of the items of all rows. */
  method FromItems(lib: Libraries, t: Type, n: nat, valid: Option<seq<bool>>,
                   items: seq<NullExpansion.Item>) returns (v: Values)
    requires (t.Width() > 0 || IsString(t)) && |items| == n && (valid.Some? ==> |valid.value| == n)
    requires NullExpansion.Kinds(items, LayoutOf(lib, t))
    ensures Good(v, t, n) && v.Fits()
    ensures Rows(v) == seq(n, i requires 0 <= i < n => CellOf(Flags(valid, n)[i], items[i]))
  {
    if t.Width() > 0 {
      v := NumbersOf(t, n, valid, seq(n, i requires 0 <= i < n => items[i].word));
    } else {
      v := TextsFrom(t, n, valid, seq(n, i requires 0 <= i < n => items[i].bytes));
    }
    assert Rows(v) == seq(n, i requires 0 <= i < n => CellOf(Flags(valid, n)[i], items[i]));
  }

  /** The frames are decompressed first and spread afterwards; the result is the same as
      spreading each as it is decompressed. */
  method DecodeZstd(lib: Libraries, d: Decoder, node: Node, m: seq<Field>, t: Type, n: nat) returns (r: Option<Values>)
    requires n <= MAX_ROWS && !d.refused
    modifies d
    ensures d.depth == old(d.depth) && d.remaining <= old(d.remaining)
    ensures Outcome(d.refused, r, t, n, ZstdReading(lib, node, m, t, n))
    ensures Fits(old(d.depth), node) ==>
              Paid(old(d.remaining), d.remaining, d.refused, LeafNeed(lib, node, t, n) + FrameBytes(m))
    decreases node, 5
  {
    hide MaskReading, Rows, Num, Whole, FramesOf, Scattered, Supported, EmptyOf, Decoder.EmptyCost, LastNeed, Own,
      Fits, FrameBytes;
    if t.Width() > 0 || IsString(t) { OwnLeaf(t, n); }
    if IsString(t) || t.Width() > 0 {
      var ok := EmptyNumbers(d, t, n);
      if !ok { return None; }
    } else {
      EmptyWeight(t, n);
      OwnParts(t, n);
      var e := d.Empty(t, n);
      return None;
    }
    var valid := ValidityOf(lib, d, node, 0, n);
    if valid.None? { return None; }
    var dict, buffers := [], node.buffers;
    if Num(m, 1) != 0 {
      if |buffers| == 0 || |buffers[0]| != Num(m, 1) { return None; }
      dict, buffers := buffers[0], buffers[1..];
    }
    var frames := InflateFrames(lib, d, m, dict, buffers);
    if frames.None? { return None; }
    r := SpreadFrames(lib, t, n, valid.value, frames.value);
  }

  /** The values of the frames in the valid rows. */
  method SpreadFrames(lib: Libraries, t: Type, n: nat, valid: Option<seq<bool>>, frames: seq<NullExpansion.Frame>)
    returns (r: Option<Values>)
    requires (IsString(t) || t.Width() > 0) && (valid.Some? ==> |valid.value| == n)
    ensures Outcome(false, r, t, n, Scattered(LayoutOf(lib, t), frames, Flags(valid, n)))
  {
    hide Rows, Whole, Good, NullExpansion.Project, NullExpansion.Stored, NullExpansion.Kinds, NullExpansion.Count,
      NullExpansion.Spread, NullExpansion.Frame.CountMatches, NullExpansion.NullsKept;
    var mask, layout := Flags(valid, n), LayoutOf(lib, t);
    var out := BlankItems(layout, n);
    var ok := NullExpansion.ScatterFrames(layout, frames, Some(mask), out);
    if !ok { return None; }
    var v := FromItems(lib, t, n, valid, out[..]);
    r := Some(v);
  }

  method BlankItems(layout: NullExpansion.Layout, n: nat) returns (out: array<NullExpansion.Item>)
    ensures fresh(out) && out[..] == seq(n, _ => BlankItem(layout)) && NullExpansion.Kinds(out[..], layout)
  {
    var blank := BlankItem(layout);
    out := new NullExpansion.Item[n](_ => blank);
    assert out[..] == seq(n, _ => blank);
  }

  /** The counts of every page of every chunk. */
  method ReadCounts(m: seq<Field>) returns (r: Option<seq<seq<nat>>>)
    ensures r == PageCounts(m)
  {
    hide Payloads, Num;
    var chunks := ReadPayloads(m, 2);
    if chunks.None? { return None; }
    var counts: seq<seq<nat>> := [];
    for i := 0 to |chunks.value|
      invariant ChunkCounts(chunks.value[..i]) == Some(counts) && PcoStream.PagesSmall(counts)
    {
      assert chunks.value[..i + 1][..i] == chunks.value[..i];
      CountsPrefix(chunks.value, i + 1);
      var pages := ReadPayloads(chunks.value[i], 1);
      if pages.None? { return None; }
      for k := 0 to |pages.value|
        invariant forall j | 0 <= j < k :: Num(pages.value[j], 1) <= PcoStream.MAX_VALUES
      {
        if Num(pages.value[k], 1) > PcoStream.MAX_VALUES {
          if ChunkCounts(chunks.value).Some? {
            assert ChunkCounts(chunks.value).value[i] == Counts(pages.value);
            assert ChunkCounts(chunks.value).value[i][k] > PcoStream.MAX_VALUES;
          }
          return None;
        }
      }
      counts := counts + [Counts(pages.value)];
    }
    assert chunks.value[..|chunks.value|] == chunks.value;
    r := Some(counts);
  }

  lemma {:induction false} CountsPrefix(chunks: seq<seq<Field>>, i: nat)
    requires i <= |chunks|
    ensures ChunkCounts(chunks).Some? ==>
              ChunkCounts(chunks[..i]).Some? && ChunkCounts(chunks[..i]).value <= ChunkCounts(chunks).value
    decreases |chunks|
  {
    hide Payloads, Counts;
    if i == |chunks| {
      assert chunks[..i] == chunks;
    } else {
      assert chunks[..|chunks| - 1][..i] == chunks[..i];
      CountsPrefix(chunks[..|chunks| - 1], i);
    }
  }

  method CountValid(mask: seq<bool>) returns (k: nat)
    ensures k == NullExpansion.Count(Some(mask), |mask|)
  {
    k := 0;
    for i := 0 to |mask|
      invariant k == NullExpansion.Count(Some(mask), i)
    {
      if mask[i] { k := k + 1; }
    }
  }

  method DecodePco(lib: Libraries, d: Decoder, node: Node, m: seq<Field>, t: Type, n: nat) returns (r: Option<Values>)
    requires n <= MAX_ROWS && !d.refused
    modifies d
    ensures d.depth == old(d.depth) && d.remaining <= old(d.remaining)
    ensures Outcome(d.refused, r, t, n, PcoReading(lib, node, m, t, n))
    ensures Fits(old(d.depth), node) ==>
              Paid(old(d.remaining), d.remaining, d.refused, LeafNeed(lib, node, t, n))
    decreases node, 5
  {
    hide MaskReading, Rows, Num, Whole, Good, PageCounts, NullExpansion.Count, PcoStream.Total, PcoStream.Column,
      SpreadRows, PcoStream.WordBytes, PcoStream.Shape, NumberItems, Pow2, LastNeed, Own, Fits, PcoReading;
    PcoCases(lib, node, m, t, n);
    if t.Width() > 0 || IsString(t) { OwnLeaf(t, n); }
    var w := t.Width();
    if w == 0 || t.kind == KBool { return None; }
    var ok := EmptyNumbers(d, t, n);
    if !ok { return None; }
    var valid := ValidityOf(lib, d, node, 0, n);
    if valid.None? { return None; }
    var counts := ReadCounts(m);
    if counts.None? || |node.buffers| < |counts.value| { return None; }
    var mask, k := Flags(valid.value, n), |counts.value|;
    var validCount := CountValid(mask);
    var total := TotalCount(counts.value);
    if total != validCount { return None; }
    ValidBytes(mask, t);
    var raw := PcoBytes(lib, d, DataOr(m, 1), node.buffers, counts.value, t, validCount);
    if raw.None? { return None; }
    ghost var words := PcoStream.Column(lib.floats, DataOr(m, 1), node.buffers[..k], node.buffers[k..], counts.value,
                                        t.kind).value;
    r := SpreadPages(lib, t, n, valid.value, raw.value, words);
  }

  /** The bytes of `k` values. */
  function ByteCount(k: nat, t: Type): nat { k * t.Width() }

  /** The decompressed column, if it has one value per valid row. */
  method PcoBytes(lib: Libraries, d: Decoder, header: seq<byte>, buffers: seq<seq<byte>>, counts: seq<seq<nat>>,
                  t: Type, validCount: nat) returns (raw: Option<seq<byte>>)
    requires |counts| <= |buffers| && t.Width() > 0 && t.kind != KBool && !d.refused
    modifies d`remaining, d`refused
    ensures d.remaining <= old(d.remaining)
    ensures var k := |counts|;
            var words := PcoStream.Column(lib.floats, header, buffers[..k], buffers[k..], counts, t.kind);
            if words.None? || |words.value| != validCount then raw.None?
            else
              && (raw.None? ==> d.refused)
              && (raw.Some? ==> !d.refused && raw.value == PcoStream.WordBytes(words.value, t.Width())
                                && forall i | 0 <= i < validCount :: words.value[i] < Pow2(8 * t.Width()))
    ensures Paid(old(d.remaining), d.remaining, d.refused, ByteCount(validCount, t))
  {
    hide PcoStream.Column, PcoStream.WordBytes, PcoStream.Shape, Pow2;
    var k := |counts|;
    var ok := d.Reserve(ByteCount(validCount, t));
    if !ok { return None; }
    raw := PcoStream.Decode(lib.floats, header, buffers[..k], buffers[k..], counts, t.kind);
    if raw.None? { return None; }
    ghost var words := PcoStream.Column(lib.floats, header, buffers[..k], buffers[k..], counts, t.kind).value;
    WordsFit(t, words, validCount);
    if |raw.value| != ByteCount(validCount, t) { return None; }
  }

  lemma {:induction false} PcoCases(lib: Libraries, node: Node, m: seq<Field>, t: Type, n: nat)
    ensures var counts := PageCounts(m);
            if t.Width() == 0 || t.kind == KBool || counts.None? || |counts.value| > |node.buffers|
            then PcoReading(lib, node, m, t, n).None?
            else
              var k := |counts.value|;
              var words := PcoStream.Column(lib.floats, DataOr(m, 1), node.buffers[..k], node.buffers[k..],
                                            counts.value, t.kind);
              var mask := MaskReading(lib, node, 0, n);
              if words.None? || mask.None? then PcoReading(lib, node, m, t, n).None?
              else
                PcoReading(lib, node, m, t, n)
                == if PcoStream.Total(counts.value) == NullExpansion.Count(mask, n) == |words.value|
                   then Some(SpreadRows(NumberItems(words.value), mask.value, NullExpansion.Number(0))) else None
  {
    hide MaskReading, PcoStream.Column, PcoStream.Total, NullExpansion.Count, SpreadRows, NumberItems, PageCounts;
  }

  /** The values of the valid rows take no more than eight bytes a row. */
  lemma {:induction false} ValidBytes(mask: seq<bool>, t: Type)
    ensures ByteCount(NullExpansion.Count(Some(mask), |mask|), t) <= 8 * |mask|
  {
    CountAtMost(mask, |mask|);
    MulMono(NullExpansion.Count(Some(mask), |mask|), |mask|, t.Width());
    MulMono(t.Width(), 8, |mask|);
    MulComm(t.Width(), |mask|);
  }

  lemma {:induction false} CountAtMost(mask: seq<bool>, k: nat)
    requires k <= |mask|
    ensures NullExpansion.Count(Some(mask), k) <= k
  {
    if k > 0 { CountAtMost(mask, k - 1); }
  }

  method TotalCount(counts: seq<seq<nat>>) returns (total: nat)
    ensures total == PcoStream.Total(counts)
  {
    total := 0;
    for i := 0 to |counts|
      invariant total == PcoStream.Total(counts[..i])
    {
      assert counts[..i + 1][..i] == counts[..i];
      ghost var before := total;
      for j := 0 to |counts[i]|
        invariant total == before + PcoStream.Sum(counts[i][..j])
      {
        assert counts[i][..j + 1][..j] == counts[i][..j];
        total := total + counts[i][j];
      }
      assert counts[i][..|counts[i]|] == counts[i];
    }
    assert counts[..|counts|] == counts;
  }

  /** The decoded bytes hold one value per valid row exactly when there are that many words. */
  lemma {:induction false} WordsFit(t: Type, words: seq<nat>, count: nat)
    requires t.Width() > 0 && t.kind != KBool && PcoStream.Shape(t.kind).Some?
    ensures PcoStream.Shape(t.kind).value.0 == 8 * t.Width()
    ensures |PcoStream.WordBytes(words, t.Width())| == |words| * t.Width()
    ensures |words| * t.Width() == ByteCount(count, t) <==> |words| == count
  {
    if |words| < count { MulMono(|words| + 1, count, t.Width()); Distribute(|words|, 1, t.Width()); }
    if count < |words| { MulMono(count + 1, |words|, t.Width()); Distribute(count, 1, t.Width()); }
  }

  /** The decoded words in the valid rows. */
  method SpreadPages(lib: Libraries, t: Type, n: nat, valid: Option<seq<bool>>, raw: seq<byte>, ghost words: seq<nat>)
    returns (r: Option<Values>)
    requires t.Width() > 0 && (valid.Some? ==> |valid.value| == n)
    requires raw == PcoStream.WordBytes(words, t.Width())
    requires forall i | 0 <= i < |words| :: words[i] < Pow2(8 * t.Width())
    requires |words| == NullExpansion.Count(Some(Flags(valid, n)), n)
    ensures r.Some? && Outcome(false, r, t, n,
                               Some(SpreadRows(NumberItems(words), Flags(valid, n), NullExpansion.Number(0))))
  {
    hide Rows, Whole, Good, NullExpansion.Project, NullExpansion.Kinds, NullExpansion.Count, NullExpansion.Spread,
      NullExpansion.Layout.Items, Pow2;
    var w := t.Width();
    ItemsOfWords(words, w);
    var out := BlankItems(NullExpansion.Fixed(w), n);
    NullExpansion.ExpandPages(raw, w, Some(Flags(valid, n)), out);
    var v := FromItems(lib, t, n, valid, out[..]);
    r := Some(v);
  }

  /** Little-endian values are read back as their words. */
  lemma {:induction false} ItemsOfWords(words: seq<nat>, w: nat)
    requires w > 0 && forall i | 0 <= i < |words| :: words[i] < Pow2(8 * w)
    ensures |PcoStream.WordBytes(words, w)| == |words| * w
    ensures NullExpansion.Fixed(w).Items(PcoStream.WordBytes(words, w)) == Some(NumberItems(words))
    decreases |words|
  {
    hide Pow2, BitStrings.LittleEndian, BitStrings.WriteLittleEndian;
    if words != [] {
      var head, rest := BitStrings.WriteLittleEndian(words[0], w), PcoStream.WordBytes(words[1..], w);
      FirstWord(words, w);
      BitStrings.LittleEndianWritten(words[0], w, rest);
      ItemsOfWords(words[1..], w);
      NullExpansion.WordFirst(head + rest, w);
      assert (head + rest)[w..] == rest;
      assert NumberItems(words) == [NullExpansion.Number(words[0])] + NumberItems(words[1..]);
    }
  }

  lemma {:induction false} FirstWord(words: seq<nat>, w: nat)
    requires words != []
    ensures PcoStream.WordBytes(words, w)
            == BitStrings.WriteLittleEndian(words[0], w) + PcoStream.WordBytes(words[1..], w)
    decreases |words|
  {
    hide BitStrings.WriteLittleEndian;
    if |words| > 1 {
      var last := |words| - 1;
      FirstWord(words[..last], w);
      assert words[..last][1..] == words[1..][..last - 1] && words[1..][last - 1] == words[last];
      assert words[..last][0] == words[0];
    } else {
      assert words[..0] == [] && words[1..] == [];
    }
  }

  // ------------------------------------------------------------------------ dispatch

  method DecodeNull(d: Decoder, t: Type, n: nat) returns (r: Option<Values>)
    requires Relaxed(t) && n <= MAX_ROWS && !d.refused
    modifies d`remaining, d`refused
    ensures d.remaining <= old(d.remaining)
    ensures Outcome(d.refused, r, t, n, if t.kind == KNull then Some(seq(n, _ => Cell(false, Nothing))) else None)
    ensures Paid(old(d.remaining), d.remaining, d.refused, Own(t, n))
  {
    hide Whole;
    if t.kind != KNull { return None; }
    r := d.Empty(t, n);
    EmptyWhole(t, n);
    WholeIsGood(EmptyOf(t, n), t, n);
    assert Rows(EmptyOf(t, n)) == seq(n, _ => Cell(false, Nothing));
  }

  /** The switch on the encoding. */
  method Dispatch(lib: Libraries, d: Decoder, node: Node, t: Type, n: nat) returns (r: Option<Values>)
    requires Relaxed(t) && n <= MAX_ROWS && !d.refused
    modifies d
    ensures d.depth == old(d.depth) && d.remaining <= old(d.remaining)
    ensures Parse(node.metadata, 0).None? ==> r.None?
    ensures Parse(node.metadata, 0).Some? ==>
              Outcome(d.refused, r, t, n, Encoded(lib, node, Parse(node.metadata, 0).value, t, n))
    ensures Fits(old(d.depth), node) ==>
              Paid(old(d.remaining), d.remaining, d.refused,
                   match Parse(node.metadata, 0)
                   case None => 0
                   case Some(m) => NodeNeed(lib, node, m, t, n))
    decreases node, 9
  {
    hide Relaxed, Whole, Good, Rows, Parse, PrimitiveReading, BooleanReading, ByteBoolReading, ConstantReading,
      StructReading, VarBinReading, ViewReading, DictionaryReading, MaskedReading, BitPackedReading,
      ReferenceReading, ZigZagReading, SequenceReading, RunEndReading, RunLengthReading, SparseReading, AlpReading,
      AlpRdReading, FsstReading, OnPairReading, ZstdReading, DeltaReading, PcoReading, ChildReading, Consistent;
    var m := ParseProto(node.metadata);
    if m.None? { return None; }
    match node.encoding
    case NullArray => r := DecodeNull(d, t, n);
    case Primitive => r := DecodePrimitive(lib, d, node, t, n);
    case Boolean => r := DecodeBoolean(lib, d, node, m.value, t, n);
    case ByteBool => r := DecodeByteBool(lib, d, node, m.value, t, n);
    case Constant =>
      if |node.buffers| != 1 || |node.children| != 0 { return None; }
      r := ConstantRows(lib, d, t, n, node.buffers[0]);
    case StructArray => r := DecodeStruct(lib, d, node, t, n);
    case VarBin => r := DecodeVarBin(lib, d, node, m.value, t, n);
    case VarBinView => r := DecodeView(lib, d, node, t, n);
    case Dictionary => r := DecodeDictionary(lib, d, node, m.value, t, n);
    case Masked => r := DecodeMasked(lib, d, node, t, n);
    case Extension => r := DecodeExtension(lib, d, node, t, n);
    case BitPacked => r := DecodeBitPacked(lib, d, node, m.value, t, n);
    case FrameOfReference => r := DecodeReference(lib, d, node, t, n);
    case ZigZag => r := DecodeZigZag(lib, d, node, t, n);
    case Sequence => r := DecodeSequence(lib, d, node, m.value, t, n);
    case RunEnd => r := DecodeRunEnd(lib, d, node, m.value, t, n);
    case RunLength => r := DecodeRunLength(lib, d, node, m.value, t, n);
    case Sparse => r := DecodeSparse(lib, d, node, m.value, t, n);
    case Alp => r := DecodeAlp(lib, d, node, m.value, t, n);
    case AlpRd => r := DecodeAlpRd(lib, d, node, m.value, t, n);
    case Fsst => r := DecodeFsst(lib, d, node, m.value, t, n);
    case OnPair => r := DecodeOnPair(lib, d, node, m.value, t, n);
    case Zstd => r := DecodeZstd(lib, d, node, m.value, t, n);
    case Delta => r := DecodeDelta(lib, d, node, m.value, t, n);
    case Pco => r := DecodePco(lib, d, node, m.value, t, n);
    case OtherEncoding => r := None;
  }

  /** The public entry point: a fresh decoder with the whole budget. For types as a file
      declares them, a successful result is well typed at every nested field and is the
      reading of the tree; without a refusal by a limit, there is a result exactly when
      there is a reading. */
  method DecodeArray(lib: Libraries, node: Node, t: Type, n: nat) returns (r: Option<Values>, ghost refused: bool)
    requires Consistent(t)
    ensures r.Some? ==> WellTyped(r.value, t, n) && r.value.Fits() && r.value.n == n <= MAX_ROWS && !refused
    ensures r.Some? ==> Reading(lib, node, t, n) == Some(Rows(r.value))
    ensures r.None? ==> refused || Reading(lib, node, t, n).None?
    ensures Need(lib, node, t, n) <= MAX_DECODE_BYTES && Height(node) <= MAX_DEPTH ==> !refused
  {
    hide Whole, Reading, Consistent, Relaxed, Need, Height;
    ConsistentIsRelaxed(t);
    var d := new Decoder();
    r := Decode(lib, d, node, t, n);
    refused := d.refused;
  }
}
