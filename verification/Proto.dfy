/** The protobuf wire reader: fields of the wire types 0, 1, 2 and 5, last-one-wins
    lookup, and repeated integers in packed or unpacked form. The messages are those of
    the Protocol Buffers Encoding specification, sections "Message Structure",
    "Last One Wins" and "Packed Repeated Fields". */
module Proto {
  import opened Wrappers
  import opened Words
  import opened BitStrings

  const MAX_FIELDS := 0x4_0000

  /** `protoField`: `data` is present exactly for a length-delimited field. */
  datatype Field = Field(tag: nat, wire: nat, num: nat, data: Option<seq<byte>>) {
    /** The fields that have a wire form. */
    predicate Valid() {
      && 0 < tag && wire < 8 && tag * 8 + wire < Pow2(64)
      && match wire
         case 0 => num < Pow2(64) && data.None?
         case 1 => num < Pow2(64) && data.None?
         case 2 => num == 0 && data.Some? && |data.value| < Pow2(64)
         case 5 => num < Pow2(32) && data.None?
         case _ => false
    }
  }

  // ------------------------------------------------------------------ varints

  /** `binary.Uvarint`, `i` bytes into the number: the value and its length, at most
      ten bytes and 64 bits. */
  function Uvarint(b: seq<byte>, i: nat): (r: Option<(nat, nat)>)
    ensures r.Some? ==> 0 < r.value.1 <= |b|
    decreases |b|
  {
    if b == [] || i >= 10 then None
    else if b[0] < 128 then (if i == 9 && b[0] > 1 then None else Some((b[0], 1)))
    else
      match Uvarint(b[1..], i + 1)
      case None => None
      case Some(r) => Some((b[0] - 128 + 128 * r.0, r.1 + 1))
  }

  function Varint(x: nat): (b: seq<byte>)
    ensures b != []
  {
    if x < 128 then [x] else [x % 128 + 128] + Varint(x / 128)
  }

  lemma {:induction false} Pow2Seven(n: nat)
    requires n >= 7
    ensures Pow2(n) == 128 * Pow2(n - 7)
  {
    Pow2Add(7, n - 7);
    assert Pow2(7) == 128;
  }

  /** A number that is read fits into 64 bits. */
  lemma {:induction false} UvarintRange(b: seq<byte>, i: nat)
    requires i <= 9 && Uvarint(b, i).Some?
    ensures Uvarint(b, i).value.0 < Pow2(64 - 7 * i)
    decreases |b|
  {
    hide Pow2;
    Powers();
    if i < 9 { Pow2Seven(64 - 7 * i); }
    if b[0] >= 128 { UvarintRange(b[1..], i + 1); }
  }

  /** A varint, digit by digit: at most ten bytes, each but the last with its top bit set,
      whose low seven bits are the digits of the number, the lowest first. */
  lemma {:induction false} UvarintDigits(b: seq<byte>, i: nat, k: nat)
    requires i <= 9 && Uvarint(b, i).Some? && k < Uvarint(b, i).value.1
    ensures Uvarint(b, i).value.1 <= 10 - i && (b[k] < 128 <==> k == Uvarint(b, i).value.1 - 1)
    ensures Low(Shr(Uvarint(b, i).value.0, 7 * k), 7) == b[k] % 128
    decreases |b|
  {
    hide Shr, Low;
    var x := Uvarint(b, i).value.0;
    if b[0] >= 128 {
      var rest := Uvarint(b[1..], i + 1).value.0;
      if k > 0 {
        UvarintDigits(b[1..], i + 1, k - 1);
        SevenBits(b[0] - 128, rest);
        ShrShr(x, 7, 7 * (k - 1));
      } else {
        UvarintDigits(b[1..], i + 1, 0);
        SevenBits(b[0] - 128, rest);
        ShrNothing(x);
      }
    } else {
      ShrNothing(x);
      SevenBits(b[0], 0);
    }
  }

  lemma {:induction false} SevenBits(low: nat, high: nat)
    requires low < 128
    ensures Low(low + 128 * high, 7) == low && Shr(low + 128 * high, 7) == high
  {
    hide Pow2, Low, Shr, Shl;
    assert Pow2(7) == 128 by { Pow2Seven(7); assert Pow2(0) == 1 by { NoPower(); } }
    LowIsMod(low + 128 * high, 7);
    ShlProduct(high, 7);
    ShlSucc(high, 7);
    ShrUnique(low + 128 * high, 7, high);
  }

  lemma {:induction false} NoPower()
    ensures Pow2(0) == 1
  {
  }

  lemma {:induction false} UvarintWritten(x: nat, i: nat, rest: seq<byte>)
    requires i <= 9 && x < Pow2(64 - 7 * i)
    ensures Uvarint(Varint(x) + rest, i) == Some((x, |Varint(x)|))
    decreases x
  {
    hide Pow2;
    Powers();
    if x >= 128 {
      Pow2Seven(64 - 7 * i);
      UvarintWritten(x / 128, i + 1, rest);
      assert (Varint(x) + rest)[1..] == Varint(x / 128) + rest;
    }
  }

  /** What follows a number does not change how it is read. */
  lemma {:induction false} UvarintExtends(b: seq<byte>, i: nat, rest: seq<byte>)
    requires Uvarint(b, i).Some?
    ensures Uvarint(b + rest, i) == Uvarint(b, i)
    decreases |b|
  {
    if b[0] >= 128 {
      UvarintExtends(b[1..], i + 1, rest);
      assert (b + rest)[1..] == b[1..] + rest;
    }
  }

  // ------------------------------------------------------------------- fields

  /** The payload of a field after its key, and the number of bytes it takes. */
  function Payload(tag: nat, wire: nat, b: seq<byte>): (r: Option<(Field, nat)>)
    ensures r.Some? ==> r.value.1 <= |b| && r.value.0.tag == tag && r.value.0.wire == wire
  {
    match wire
    case 0 => (match Uvarint(b, 0)
               case None => None
               case Some(v) => Some((Field(tag, 0, v.0, None), v.1)))
    case 1 => if |b| < 8 then None else Some((Field(tag, 1, LittleEndian(b, 8), None), 8))
    case 2 => (match Uvarint(b, 0)
               case None => None
               case Some(v) =>
                 if v.0 > |b| - v.1 then None
                 else Some((Field(tag, 2, 0, Some(b[v.1..v.1 + v.0])), v.1 + v.0)))
    case 5 => if |b| < 4 then None else Some((Field(tag, 5, LittleEndian(b, 4), None), 4))
    case _ => None
  }

  /** One field and the number of bytes it takes. */
  function ParseOne(b: seq<byte>): (r: Option<(Field, nat)>)
    ensures r.Some? ==> 0 < r.value.1 <= |b|
  {
    match Uvarint(b, 0)
    case None => None
    case Some(k) =>
      if k.0 / 8 == 0 then None
      else
        match Payload(k.0 / 8, k.0 % 8, b[k.1..])
        case None => None
        case Some(p) => Some((p.0, k.1 + p.1))
  }

  /** All fields of `b` when `count` fields came before it. */
  function Parse(b: seq<byte>, count: nat): (r: Option<seq<Field>>)
    decreases |b|
  {
    if b == [] then Some([])
    else
      match ParseOne(b)
      case None => None
      case Some(p) =>
        if count >= MAX_FIELDS then None
        else
          Append(Some([p.0]), Parse(b[p.1..], count + 1))
  }

  /** A field begins with a varint of the tag and three bits of wire type. */
  lemma {:induction false} FieldKey(b: seq<byte>)
    requires ParseOne(b).Some?
    ensures Uvarint(b, 0).Some?
    ensures var (f, size) := ParseOne(b).value;
            var (key, k) := Uvarint(b, 0).value;
            && key == 8 * f.tag + f.wire && f.tag > 0 && f.wire < 8 && k <= size <= |b|
            && Payload(f.tag, f.wire, b[k..]) == Some((f, size - k))
  {
    hide Uvarint, LittleEndian;
  }

  /** After it come a varint, eight bytes, the length of a string and the string, or four
      bytes, by the wire type; there is no other. */
  lemma {:induction false} PayloadBytes(tag: nat, wire: nat, b: seq<byte>)
    requires Payload(tag, wire, b).Some?
    ensures wire == 0 || wire == 1 || wire == 2 || wire == 5
    ensures var (f, size) := Payload(tag, wire, b).value;
            && size <= |b|
            && (wire == 0 ==> f.data.None? && Uvarint(b, 0) == Some((f.num, size)))
            && (wire == 1 ==> f.data.None? && size == 8 && f.num == LittleEndian(b, 8))
            && (wire == 5 ==> f.data.None? && size == 4 && f.num == LittleEndian(b, 4))
            && (wire == 2 ==>
                  && Uvarint(b, 0).Some? && f.num == 0 && f.data.Some?
                  && var (length, k) := Uvarint(b, 0).value;
                     size == k + length && f.data.value == b[k..size])
  {
    hide Uvarint, LittleEndian;
  }

  lemma {:induction false} ParseStep(b: seq<byte>, count: nat)
    requires ParseOne(b).Some?
    ensures var p := ParseOne(b).value;
            Parse(b, count) == if count >= MAX_FIELDS then None else Append(Some([p.0]), Parse(b[p.1..], count + 1))
  {
    hide ParseOne;
  }

  /** `parseProto`: the loop that consumes the bytes field by field. */
  method ParseProto(b: seq<byte>) returns (r: Option<seq<Field>>)
    ensures r == Parse(b, 0)
  {
    hide ParseOne;
    var rest, out := b, [];
    AppendEmpty(Parse(b, 0));
    while rest != []
      invariant Parse(b, 0) == Append(Some(out), Parse(rest, |out|))
      decreases |rest|
    {
      var p := ParseOne(rest);
      if p.None? { return None; }
      if |out| >= MAX_FIELDS { return None; }
      AppendAssoc(out, Some([p.value.0]), Parse(rest[p.value.1..], |out| + 1));
      rest := rest[p.value.1..];
      out := out + [p.value.0];
    }
    AppendNothing(out);
    r := Some(out);
  }

  // --------------------------------------------------------------- round trip

  function WritePayload(f: Field): seq<byte>
    requires f.Valid()
  {
    match f.wire
    case 0 => Varint(f.num)
    case 1 => WriteLittleEndian(f.num, 8)
    case 2 => Varint(|f.data.value|) + f.data.value
    case _ => WriteLittleEndian(f.num, 4)
  }

  function WriteField(f: Field): (b: seq<byte>)
    requires f.Valid()
    ensures b != []
  {
    Varint(f.tag * 8 + f.wire) + WritePayload(f)
  }

  function Serialize(fields: seq<Field>): seq<byte>
    requires forall f | f in fields :: f.Valid()
  {
    if fields == [] then [] else WriteField(fields[0]) + Serialize(fields[1..])
  }

  lemma {:induction false} PayloadWritten(f: Field, rest: seq<byte>)
    requires f.Valid()
    ensures Payload(f.tag, f.wire, WritePayload(f) + rest) == Some((f, |WritePayload(f)|))
  {
    hide Pow2, Uvarint, Varint, LittleEndian, WriteLittleEndian;
    var b := WritePayload(f) + rest;
    if f.wire == 0 {
      UvarintWritten(f.num, 0, rest);
    } else if f.wire == 1 {
      LittleEndianWritten(f.num, 8, rest);
    } else if f.wire == 2 {
      var data := f.data.value;
      UvarintWritten(|data|, 0, data + rest);
      assert b == Varint(|data|) + (data + rest);
      assert b[|Varint(|data|)|..|Varint(|data|)| + |data|] == data;
    } else {
      LittleEndianWritten(f.num, 4, rest);
    }
  }

  lemma {:induction false} FieldWritten(f: Field, rest: seq<byte>)
    requires f.Valid()
    ensures ParseOne(WriteField(f) + rest) == Some((f, |WriteField(f)|))
  {
    hide Pow2, Uvarint, Varint, Payload, WritePayload;
    var key := f.tag * 8 + f.wire;
    var b := WriteField(f) + rest;
    UvarintWritten(key, 0, WritePayload(f) + rest);
    assert b == Varint(key) + (WritePayload(f) + rest);
    assert b[|Varint(key)|..] == WritePayload(f) + rest;
    PayloadWritten(f, rest);
    assert key / 8 == f.tag && key % 8 == f.wire;
  }

  lemma {:induction false} SerializedFrom(fields: seq<Field>, count: nat)
    requires forall f | f in fields :: f.Valid()
    ensures Parse(Serialize(fields), count)
         == if fields == [] || count + |fields| <= MAX_FIELDS then Some(fields) else None
    decreases |fields|
  {
    hide ParseOne, WriteField, Field.Valid;
    if fields != [] {
      var rest := Serialize(fields[1..]);
      FieldWritten(fields[0], rest);
      SerializedFrom(fields[1..], count + 1);
      assert Serialize(fields)[|WriteField(fields[0])|..] == rest;
      assert [fields[0]] + fields[1..] == fields;
    }
  }

  /** Round trip: a serialized message is accepted exactly when it has at most 2^18
      fields, and parsing it gives the fields back. */
  lemma {:induction false} RoundTrip(fields: seq<Field>)
    requires forall f | f in fields :: f.Valid()
    ensures Parse(Serialize(fields), 0) == if |fields| <= MAX_FIELDS then Some(fields) else None
  {
    SerializedFrom(fields, 0);
  }

  lemma {:induction false} ParsedOne(b: seq<byte>)
    requires ParseOne(b).Some?
    ensures ParseOne(b).value.0.Valid()
  {
    hide Pow2, Uvarint, LittleEndian;
    UvarintRange(b, 0);
    var k := Uvarint(b, 0).value;
    var rest := b[k.1..];
    if k.0 % 8 == 0 || k.0 % 8 == 2 { UvarintRange(rest, 0); }
  }

  /** Whatever is accepted, well-formed or not in the writer's eyes, has a canonical
      form: its fields are valid, are at most 2^18, and serialize to a message that
      parses to the same fields. */
  lemma {:induction false} ParseThenSerialize(b: seq<byte>, count: nat)
    requires Parse(b, count).Some?
    ensures var fields := Parse(b, count).value;
            && (forall f | f in fields :: f.Valid())
            && (fields == [] || count + |fields| <= MAX_FIELDS)
            && Parse(Serialize(fields), count) == Some(fields)
    decreases |b|
  {
    hide ParseOne, Field.Valid, WriteField;
    if b != [] {
      var p := ParseOne(b).value;
      ParsedOne(b);
      ParseThenSerialize(b[p.1..], count + 1);
    }
    SerializedFrom(Parse(b, count).value, count);
  }

  // ------------------------------------------------------------ concatenation

  lemma {:induction false} PayloadExtends(tag: nat, wire: nat, b: seq<byte>, rest: seq<byte>)
    requires Payload(tag, wire, b).Some?
    ensures Payload(tag, wire, b + rest) == Payload(tag, wire, b)
  {
    hide Pow2, Uvarint, LittleEndian;
    if wire == 0 || wire == 2 {
      UvarintExtends(b, 0, rest);
      var v := Uvarint(b, 0).value;
      if wire == 2 { assert (b + rest)[v.1..v.1 + v.0] == b[v.1..v.1 + v.0]; }
    } else {
      var w := if wire == 1 then 8 else 4;
      LittleEndianExtends(b, w, rest);
    }
  }

  lemma {:induction false} LittleEndianExtends(b: seq<byte>, w: nat, rest: seq<byte>)
    requires w <= |b|
    ensures LittleEndian(b + rest, w) == LittleEndian(b, w)
  {
    assert (b + rest)[..w] == b[..w];
  }

  lemma {:induction false} ParseOneExtends(b: seq<byte>, rest: seq<byte>)
    requires ParseOne(b).Some?
    ensures ParseOne(b + rest) == ParseOne(b)
  {
    hide Uvarint, Payload;
    UvarintExtends(b, 0, rest);
    var k := Uvarint(b, 0).value;
    assert (b + rest)[k.1..] == b[k.1..] + rest;
    PayloadExtends(k.0 / 8, k.0 % 8, b[k.1..], rest);
  }

  /** The fields of a concatenation are the fields of the parts, one after the other;
      it is accepted exactly when the second part is, after the fields of the first. */
  lemma {:induction false} ParseConcat(a: seq<byte>, b: seq<byte>, count: nat)
    requires Parse(a, count).Some?
    ensures Parse(a + b, count)
         == Append(Parse(a, count), Parse(b, count + |Parse(a, count).value|))
    decreases |a|, 1
  {
    hide ParseOne;
    if a == [] {
      assert a + b == b;
      AppendEmpty(Parse(b, count));
    } else {
      ParseConcatStep(a, b, count);
    }
  }

  lemma {:induction false} ParseConcatStep(a: seq<byte>, b: seq<byte>, count: nat)
    requires a != [] && Parse(a, count).Some?
    ensures Parse(a + b, count)
         == Append(Parse(a, count), Parse(b, count + |Parse(a, count).value|))
    decreases |a|, 0
  {
    hide ParseOne, Parse;
    ParsedStep(a, count);
    var p := ParseOne(a).value;
    ParseOneExtends(a, b);
    ParseConcat(a[p.1..], b, count + 1);
    ParseStep(a, count);
    ParseStep(a + b, count);
    assert (a + b)[p.1..] == a[p.1..] + b;
    var head := Parse(a[p.1..], count + 1);
    AppendAssoc([p.0], head, Parse(b, count + 1 + |head.value|));
  }

  lemma {:induction false} ParsedStep(b: seq<byte>, count: nat)
    requires b != [] && Parse(b, count).Some?
    ensures ParseOne(b).Some? && count < MAX_FIELDS && Parse(b[ParseOne(b).value.1..], count + 1).Some?
  {
    hide ParseOne;
  }

  // ------------------------------------------------------------------ lookups

  /** The last field with a tag. */
  function Get(fields: seq<Field>, tag: nat): (r: Option<Field>)
    ensures r.None? ==> forall f | f in fields :: f.tag != tag
    ensures r.Some? ==> r.value in fields && r.value.tag == tag
  {
    if fields == [] then None
    else if fields[|fields| - 1].tag == tag then Some(fields[|fields| - 1])
    else Get(fields[..|fields| - 1], tag)
  }

  /** `get`: the search from the end. */
  method FindLast(fields: seq<Field>, tag: nat) returns (r: Option<Field>)
    ensures r == Get(fields, tag)
    ensures r.Some? ==> exists i | 0 <= i < |fields| ::
              fields[i] == r.value && fields[i].tag == tag && forall j | i < j < |fields| :: fields[j].tag != tag
  {
    var i := |fields| - 1;
    assert fields[..|fields|] == fields;
    while i >= 0
      invariant -1 <= i < |fields|
      invariant Get(fields, tag) == Get(fields[..i + 1], tag)
      invariant forall j | i < j < |fields| :: fields[j].tag != tag
    {
      if fields[i].tag == tag { return Some(fields[i]); }
      assert fields[..i + 1][..i] == fields[..i];
      i := i - 1;
    }
    r := None;
  }

  function Num(fields: seq<Field>, tag: nat): nat {
    match Get(fields, tag) case None => 0 case Some(f) => f.num
  }

  function Data(fields: seq<Field>, tag: nat): Option<seq<byte>> {
    match Get(fields, tag) case None => None case Some(f) => f.data
  }

  predicate Has(fields: seq<Field>, tag: nat) { Get(fields, tag).Some? }

  /** A missing field counts as the number 0 and as no bytes. */
  lemma {:induction false} Defaults(fields: seq<Field>, tag: nat)
    ensures Has(fields, tag) <==> exists f :: f in fields && f.tag == tag
    ensures !Has(fields, tag) ==> Num(fields, tag) == 0 && Data(fields, tag) == None
    ensures Has(fields, tag) ==>
              exists f :: f in fields && f.tag == tag && Num(fields, tag) == f.num && Data(fields, tag) == f.data
  {
  }

  /** Last one wins: appending a message overrides exactly the tags it has. */
  lemma {:induction false} GetConcat(a: seq<Field>, b: seq<Field>, tag: nat)
    ensures Get(a + b, tag) == if Has(b, tag) then Get(b, tag) else Get(a, tag)
    decreases |b|
  {
    if b == [] {
      assert a + b == a;
    } else {
      assert (a + b)[..|a + b| - 1] == a + b[..|b| - 1];
      GetConcat(a, b[..|b| - 1], tag);
    }
  }

  // --------------------------------------------------------- repeated integers

  /** The numbers of a packed field. */
  function Packed(b: seq<byte>): (r: Option<seq<nat>>)
    decreases |b|
  {
    if b == [] then Some([])
    else
      match Uvarint(b, 0)
      case None => None
      case Some(x) =>
        Append(Some([x.0]), Packed(b[x.1..]))
  }

  /** The numbers of one field of a repeated integer. */
  function Numbers(f: Field): Option<seq<nat>> {
    if f.wire == 0 then Some([f.num])
    else if f.wire != 2 then None
    else Packed(if f.data.Some? then f.data.value else [])
  }

  function Repeated(fields: seq<Field>, tag: nat): Option<seq<nat>> {
    if fields == [] then Some([])
    else Append(if fields[0].tag != tag then Some([]) else Numbers(fields[0]), Repeated(fields[1..], tag))
  }

  /** `repeated`: the loop over the fields and, in a packed field, over its numbers. */
  method RepeatedNumbers(fields: seq<Field>, tag: nat) returns (r: Option<seq<nat>>)
    ensures r == Repeated(fields, tag)
  {
    hide Uvarint;
    var v: seq<nat> := [];
    AppendEmpty(Repeated(fields, tag));
    assert fields[0..] == fields;
    for i := 0 to |fields|
      invariant Repeated(fields, tag) == Append(Some(v), Repeated(fields[i..], tag))
    {
      var f := fields[i];
      ghost var later := Repeated(fields[i..][1..], tag);
      assert fields[i..][1..] == fields[i + 1..];
      if f.tag != tag {
        AppendEmpty(later);
        continue;
      }
      if f.wire == 0 {
        AppendAssoc(v, Some([f.num]), later);
        v := v + [f.num];
        continue;
      }
      if f.wire != 2 { return None; }
      var b := if f.data.Some? then f.data.value else [];
      ghost var before, all := v, Packed(b);
      while b != []
        invariant Append(Some(before), all) == Append(Some(v), Packed(b))
        decreases |b|
      {
        var x := Uvarint(b, 0);
        if x.None? { return None; }
        AppendAssoc(v, Some([x.value.0]), Packed(b[x.value.1..]));
        v := v + [x.value.0];
        b := b[x.value.1..];
      }
      AppendNothing(v);
      AppendAssoc(before, all, later);
    }
    AppendNothing(v);
    r := Some(v);
  }

  lemma {:induction false} RepeatedConcat(a: seq<Field>, b: seq<Field>, tag: nat)
    ensures Repeated(a + b, tag) == Append(Repeated(a, tag), Repeated(b, tag))
    decreases |a|
  {
    if a == [] {
      assert a + b == b;
      AppendEmpty(Repeated(b, tag));
    } else {
      assert (a + b)[1..] == a[1..] + b;
      RepeatedConcat(a[1..], b, tag);
      var head := if a[0].tag != tag then Some([]) else Numbers(a[0]);
      if head.Some? { AppendAssoc(head.value, Repeated(a[1..], tag), Repeated(b, tag)); }
    }
  }

  function Varints(xs: seq<nat>): seq<byte> {
    if xs == [] then [] else Varint(xs[0]) + Varints(xs[1..])
  }

  lemma {:induction false} PackedWritten(xs: seq<nat>)
    requires forall x | x in xs :: x < Pow2(64)
    ensures Packed(Varints(xs)) == Some(xs)
  {
    hide Pow2, Uvarint, Varint;
    if xs != [] {
      assert xs[0] in xs && [xs[0]] + xs[1..] == xs;
      assert forall x | x in xs[1..] :: x in xs;
      UvarintWritten(xs[0], 0, Varints(xs[1..]));
      PackedWritten(xs[1..]);
      assert Varints(xs)[|Varint(xs[0])|..] == Varints(xs[1..]);
    }
  }

  /** How a writer may store a repeated integer: runs of numbers, each run packed into
      one field or spread over one field per number. */
  datatype Run = Run(xs: seq<nat>, packed: bool) {
    function Fields(tag: nat): seq<Field> {
      if packed then [Field(tag, 2, 0, Some(Varints(xs)))]
      else seq(|xs|, i requires 0 <= i < |xs| => Field(tag, 0, xs[i], None))
    }
  }

  function RunFields(runs: seq<Run>, tag: nat): seq<Field> {
    if runs == [] then [] else runs[0].Fields(tag) + RunFields(runs[1..], tag)
  }

  function RunNumbers(runs: seq<Run>): seq<nat> {
    if runs == [] then [] else runs[0].xs + RunNumbers(runs[1..])
  }

  lemma {:induction false} UnpackedNumbers(tag: nat, xs: seq<nat>)
    ensures Repeated(Run(xs, false).Fields(tag), tag) == Some(xs)
  {
    if xs != [] {
      UnpackedNumbers(tag, xs[1..]);
      assert [xs[0]] + xs[1..] == xs;
      assert Run(xs, false).Fields(tag)[1..] == Run(xs[1..], false).Fields(tag);
    }
  }

  lemma {:induction false} PackedNumbers(tag: nat, xs: seq<nat>)
    requires forall x | x in xs :: x < Pow2(64)
    ensures Repeated(Run(xs, true).Fields(tag), tag) == Some(xs)
  {
    hide Pow2, Packed;
    PackedWritten(xs);
    var f := Field(tag, 2, 0, Some(Varints(xs)));
    assert Numbers(f) == Some(xs) && [f][1..] == [] && xs + [] == xs;
  }

  /** Packed and unpacked repeated integers give the same list: however the numbers are
      cut into packed and unpacked runs, the reader returns all of them in order. */
  lemma {:induction false} PackedOrUnpacked(runs: seq<Run>, tag: nat)
    requires forall r | r in runs :: forall x | x in r.xs :: x < Pow2(64)
    ensures Repeated(RunFields(runs, tag), tag) == Some(RunNumbers(runs))
  {
    hide Pow2, Packed, Run.Fields;
    if runs != [] {
      if runs[0].packed { PackedNumbers(tag, runs[0].xs); } else { UnpackedNumbers(tag, runs[0].xs); }
      PackedOrUnpacked(runs[1..], tag);
      RepeatedConcat(runs[0].Fields(tag), RunFields(runs[1..], tag), tag);
    }
  }
}
