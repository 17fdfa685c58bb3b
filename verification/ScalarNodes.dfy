/** Written scalars read back, at every nested field, and with them constant columns; and
    the two encodings of flags. */
module ScalarNodes {
  import opened Wrappers
  import opened Words
  import opened Types
  import opened Proto
  import opened Arrays
  import opened Readings
  import opened NodeRoundTrips
  import opened StoredNodes
  import BitStrings
  import Sequences

  // ----------------------------------------------------------------------- scalars

  lemma {:induction false} WordFits(t: Type, x: nat)
    requires x < Pow2(8 * t.Width())
    ensures x < Pow2(64) && (t.kind == KF32 ==> x < Pow2(32)) && 128 < Pow2(64)
  {
    hide Pow2;
    Pow2Mono(8 * t.Width(), 64);
    Powers();
    Pow2Mono(8, 64);
  }

  /** The field of an integer, signed or unsigned. */
  function IntegerField(t: Type, x: nat): (f: Field)
    requires t.IsInteger() && x < Pow2(8 * t.Width())
    ensures f.Valid()
  {
    hide Pow2, Sequences.WordOf, Sequences.InRange, Sequences.Denote, Field.Valid;
    Sequences.DenoteInRange(x, 8 * t.Width(), t.IsSigned());
    Sequences.NarrowInWide(Sequences.Denote(x, 8 * t.Width(), t.IsSigned()), t);
    Sequences.WriteScalar(Sequences.Denote(x, 8 * t.Width(), t.IsSigned()), t.IsSigned())
  }

  /** The field of a word: flags, floats of each width, and integers. */
  function NumberField(t: Type, x: nat): (f: Field)
    requires t.Width() > 0 && x < Pow2(8 * t.Width()) && (t.kind == KBool ==> x <= 1)
    ensures f.Valid()
  {
    hide Pow2, IntegerField;
    WordFits(t, x);
    if t.kind == KBool then Field(2, 0, x, None)
    else if t.kind == KF16 then Field(10, 0, x, None)
    else if t.kind == KF32 then Field(5, 5, x, None)
    else if t.kind == KF64 then Field(6, 1, x, None)
    else IntegerField(t, x)
  }

  /** A field of bytes. */
  function BytesField(tag: nat, b: seq<byte>): (f: Field)
    requires 0 < tag < 16 && |b| < Pow2(64)
    ensures f.Valid() && f.tag == tag && f.data == Some(b)
  {
    hide Pow2;
    Powers();
    Pow2Mono(8, 64);
    Field(tag, 2, 0, Some(b))
  }

  /** A cell that has a scalar: nothing but a blank under a null, words and strings that fit,
      and a message of at most 2^64 bytes at every level. */
  predicate Writable(lib: Libraries, t: Type, c: Cell)
    decreases t, 1
  {
    if t.kind == KExtension then t.storage.Some? && Writable(lib, t.storage.value, c)
    else
      && Supported(t)
      && if !c.valid then (t.nullable || t.kind == KNull) && c.data == Blank(t).data
         else if t.kind == KStruct then
           && c.data.Record? && |c.data.cells| == |t.fields| <= MAX_FIELDS
           && (forall k: nat | k < |t.fields| :: Writable(lib, t.fields[k], c.data.cells[k]))
           && (forall k: nat | k < |t.fields| :: |WriteCell(lib, t.fields[k], c.data.cells[k])| < Pow2(64))
           && |WriteFields(lib, t.fields, c.data.cells)| < Pow2(64)
         else if IsString(t) then
           c.data.Text? && |c.data.text| < Pow2(64) && CheckOf(lib, t).Allows(c.data.text)
         else
           && t.Width() > 0 && c.data.Word? && c.data.word < Pow2(8 * t.Width())
           && (t.kind == KBool ==> c.data.word <= 1)
  }

  /** The bytes of a scalar: nothing for a null, and otherwise one field. */
  function WriteCell(lib: Libraries, t: Type, c: Cell): seq<byte>
    requires Writable(lib, t, c)
    decreases t, 2
  {
    if t.kind == KExtension then WriteCell(lib, t.storage.value, c)
    else if !c.valid then []
    else if t.kind == KStruct then Serialize([BytesField(9, WriteFields(lib, t.fields, c.data.cells))])
    else if IsString(t) then Serialize([BytesField(if t.kind == KUtf8 then 7 else 8, c.data.text)])
    else Serialize([NumberField(t, c.data.word)])
  }

  /** The scalars of the fields of a struct, as a list of messages. */
  function WriteFields(lib: Libraries, types: seq<Type>, cells: seq<Cell>): seq<byte>
    requires |cells| == |types|
    requires forall k: nat | k < |types| :: Writable(lib, types[k], cells[k])
    requires forall k: nat | k < |types| :: |WriteCell(lib, types[k], cells[k])| < Pow2(64)
    decreases types, 1
  {
    Serialize(ListOf(lib, types, cells))
  }

  function ListOf(lib: Libraries, types: seq<Type>, cells: seq<Cell>): (fields: seq<Field>)
    requires |cells| == |types|
    requires forall k: nat | k < |types| :: Writable(lib, types[k], cells[k])
    requires forall k: nat | k < |types| :: |WriteCell(lib, types[k], cells[k])| < Pow2(64)
    ensures |fields| == |types| && forall f | f in fields :: f.Valid()
    decreases types, 0
  {
    hide Field.Valid, BytesField, Pow2;
    seq(|types|, k requires 0 <= k < |types| => BytesField(1, WriteCell(lib, types[k], cells[k])))
  }

  lemma {:induction false} NumberRead(t: Type, x: nat)
    requires t.Width() > 0 && x < Pow2(8 * t.Width()) && (t.kind == KBool ==> x <= 1)
    ensures NumberScalar([NumberField(t, x)], t) == Some(x) && !NullScalar([NumberField(t, x)])
    ensures Parse(Serialize([NumberField(t, x)]), 0) == Some([NumberField(t, x)])
  {
    hide Pow2, Parse, Serialize, Sequences.WordOf, Field.Valid;
    var f := NumberField(t, x);
    Sequences.ScalarRead(f);
    if t.IsInteger() {
      hide Sequences.Denote;
      var z := Sequences.Denote(x, 8 * t.Width(), t.IsSigned());
      Sequences.DenoteInRange(x, 8 * t.Width(), t.IsSigned());
      Sequences.NarrowInWide(z, t);
      IntegerRead(z, t);
    } else {
      LowSmall(x, 8 * t.Width());
    }
  }

  lemma {:induction false} IntegerRead(z: int, t: Type)
    requires t.IsInteger() && Sequences.InRange(z, 8 * t.Width(), t.IsSigned())
    requires Sequences.InRange(z, 64, t.IsSigned())
    ensures Sequences.IntegerScalar([Sequences.WriteScalar(z, t.IsSigned())], t)
            == Some(Sequences.WordOf(z, 8 * t.Width()))
    ensures !NullScalar([Sequences.WriteScalar(z, t.IsSigned())])
  {
    hide Pow2, Sequences.WordOf, Sequences.Denote;
    Sequences.ScalarRead(Sequences.WriteScalar(z, t.IsSigned()));
    Sequences.BaseRead(z, t);
    Sequences.DenoteInRange(Sequences.IntegerScalar([Sequences.WriteScalar(z, t.IsSigned())], t).value, 8 * t.Width(),
                            t.IsSigned());
  }

  lemma {:induction false} OneField(f: Field)
    requires f.Valid() && f.tag != 1
    ensures Parse(Serialize([f]), 0) == Some([f]) && !NullScalar([f]) && Get([f], f.tag) == Some(f)
  {
    hide Parse, Serialize, Field.Valid;
    Sequences.ScalarRead(f);
  }

  /** Scalars, end to end: whatever cell is written, at every nested field, is read back. */
  lemma {:induction false} ScalarRoundTrip(lib: Libraries, t: Type, c: Cell)
    requires Writable(lib, t, c)
    ensures Scalar(lib, t, WriteCell(lib, t, c)) == Some(c)
    decreases t
  {
    hide Pow2, Parse, Serialize, Get, NumberScalar, NullScalar, NumberField, WriteFields, Blank, Supported;
    if t.kind == KExtension {
      ScalarRoundTrip(lib, t.storage.value, c);
    } else if !c.valid {
      assert Parse([], 0) == Some([]) && NullScalar([]) by { NothingIsNull(); }
    } else if t.kind == KStruct {
      StructRead(lib, t, c);
    } else if IsString(t) {
      OneField(BytesField(if t.kind == KUtf8 then 7 else 8, c.data.text));
    } else {
      NumberRead(t, c.data.word);
    }
  }

  lemma {:induction false} NothingIsNull()
    ensures Parse([], 0) == Some([]) && NullScalar([])
  {
  }

  lemma {:induction false} StructRead(lib: Libraries, t: Type, c: Cell)
    requires t.kind == KStruct && c.valid && Writable(lib, t, c)
    ensures Scalar(lib, t, WriteCell(lib, t, c)) == Some(c)
    decreases t, 0
  {
    hide Pow2, Parse, Serialize, Get, NumberScalar, NullScalar, Supported, Field.Valid;
    var list, fields := WriteFields(lib, t.fields, c.data.cells), ListOf(lib, t.fields, c.data.cells);
    RoundTrip(fields);
    OneField(BytesField(9, list));
    forall k | 0 <= k < |t.fields| ensures Scalar(lib, t.fields[k], ScalarOf(fields[k])) == Some(c.data.cells[k]) {
      ScalarRoundTrip(lib, t.fields[k], c.data.cells[k]);
    }
    assert Scalar(lib, t, WriteCell(lib, t, c)).value.data.cells == c.data.cells;
  }

  /** Constants, end to end: every row is the written cell. */
  lemma {:induction false} ConstantNodeReads(lib: Libraries, t: Type, c: Cell, n: nat)
    requires Writable(lib, t, c) && n <= MAX_ROWS && (t.nullable || t.kind == KNull || c.valid)
    ensures Reading(lib, Node(Constant, [], [], [WriteCell(lib, t, c)]), t, n) == Some(seq(n, _ => c))
  {
    hide Scalar, WriteCell, Writable, AllValid;
    ScalarRoundTrip(lib, t, c);
    var node := Node(Constant, [], [], [WriteCell(lib, t, c)]);
    assert Parse([], 0) == Some([]);
    assert ConstantReading(lib, t, node.buffers[0], n).value == seq(n, _ => c);
    SameRows(c, n);
  }

  lemma {:induction false} SameRows(c: Cell, n: nat)
    ensures c.valid ==> AllValid(seq(n, _ => c))
  {
  }

  // ------------------------------------------------------------------------- flags

  /** Booleans, end to end: the bits of the buffer from the slice offset on. */
  lemma {:induction false} BooleanNodeReads(lib: Libraries, node: Node, m: seq<Field>, t: Type,
                                            bits: BitStrings.Bits, mask: seq<bool>)
    requires node.encoding == Boolean && t.kind == KBool && Parse(node.metadata, 0) == Some(m) && Num(m, 1) < 8
    requires |bits| % 8 == 0 && node.buffers == [BitStrings.Pack(bits)] && Num(m, 1) + |mask| <= |bits|
    requires |mask| <= MAX_ROWS && Allows(t, mask) && MaskReading(lib, node, 0, |mask|) == Some(mask)
    ensures Reading(lib, node, t, |mask|) == Some(WordRows(mask, BitWords(bits[Num(m, 1)..Num(m, 1) + |mask|])))
  {
    hide Parse, Num, Encoded, Reading, MaskReading, BitStrings.Pack, BufferBit, WordRows;
    var off, n := Num(m, 1), |mask|;
    forall i: nat | i < n ensures BufferBits(node.buffers[0], off, n)[i] == BitWords(bits[off..off + n])[i] {
      PackedBit(bits, off + i);
    }
    assert BufferBits(node.buffers[0], off, n) == BitWords(bits[off..off + n]);
    assert BooleanReading(lib, node, m, t, n) == Some(WordRows(mask, BitWords(bits[off..off + n])));
    EncodedIs(lib, node, m, t, n);
    AllowedReading(lib, node, m, t, n, mask, BitWords(bits[off..off + n]));
  }

  /** Byte booleans, end to end: a byte of 0 or 1 for every row, and no other byte. */
  lemma {:induction false} ByteBoolNodeReads(lib: Libraries, node: Node, m: seq<Field>, t: Type, b: seq<byte>,
                                             mask: seq<bool>)
    requires node.encoding == ByteBool && t.kind == KBool && Parse(node.metadata, 0) == Some(m) && Num(m, 1) < 8
    requires node.buffers == [b] && |b| == |mask| <= MAX_ROWS && Allows(t, mask)
    requires MaskReading(lib, node, 0, |mask|) == Some(mask)
    ensures Reading(lib, node, t, |mask|)
            == if forall i: nat | i < |b| :: b[i] == 0 || b[i] == 1 then Some(WordRows(mask, b)) else None
  {
    hide Parse, Num, MaskReading, WordRows;
    var n := |mask|;
    assert ByteWords(b) == b;
    EncodedIs(lib, node, m, t, n);
    if forall i: nat | i < |b| :: b[i] == 0 || b[i] == 1 {
      AllowedReading(lib, node, m, t, n, mask, b);
    } else {
      var i: nat :| i < |b| && b[i] != 0 && b[i] != 1;
      assert b[i] in b;
    }
  }
}
