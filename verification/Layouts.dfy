/** Layout trees of a file, and the recursive reader that decodes a whole layout. */
module Layouts {
  import opened Wrappers
  import opened Words
  import opened Types

  datatype Error = Invalid | Unsupported

  const MIN_INT64: int := -0x8000_0000_0000_0000
  const MAX_INT64: int := 0x7fff_ffff_ffff_ffff

  type int64 = x: int | MIN_INT64 <= x <= MAX_INT64

  /** One value of a decoded array; rows of struct arrays hold one cell a field. */
  datatype Cell =
    | Null
    | Int(value: int64)
    | UInt(number: nat)
    | Bool(flag: bool)
    | Bytes(bytes: seq<byte>)
    | Row(cells: seq<Cell>)

  type Array = seq<Cell>

  datatype LayoutId = Flat | Chunked | Struct | Zoned | Stats | Dict | OtherLayout

  datatype Layout = Layout(id: LayoutId, rows: nat, metadata: seq<byte>, children: seq<Layout>, segments: seq<nat>)

  /** What `zoneSchema` finds in the metadata of a zoned layout: the zone length, the type of
      the statistics table, and the names of its columns. */
  datatype ZoneSchema = ZoneSchema(zoneLen: nat, dtype: Type, names: seq<string>)

  /** An open file. Decoding a flat layout and parsing layout metadata are
      functions of the file's immutable bytes. */
  datatype File = File(
    root: Layout,
    dtype: Type,
    flat: (Layout, Type) -> Result<Array, Error>,
    codeType: (Layout, Type) -> Result<Type, Error>,
    zoneSchema: (Layout, Type) -> Option<ZoneSchema>
  ) {
    /** Decoding a flat layout yields one cell per row. */
    ghost predicate Valid() {
      forall l, t :: flat(l, t).Ok? ==> |flat(l, t).value| == l.rows
    }
  }

  const MAX_AUXILIARY_ROWS: nat := 0x200_0000

  // ------------------------------------------------------------ dictionaries

  /** The dictionary value a code cell names. */
  function Lookup(values: Array, code: Cell): Option<Cell> {
    match code
    case Null => Some(Null)
    case UInt(u) => if u < |values| then Some(values[u]) else None
    case Int(v) => if 0 <= v < |values| then Some(values[v]) else None
    case _ => None
  }

  predicate InRange(values: Array, codes: Array) {
    forall i | 0 <= i < |codes| :: Lookup(values, codes[i]).Some?
  }

  function Taken(values: Array, codes: Array): (r: Array)
    requires InRange(values, codes)
    ensures |r| == |codes|
  {
    seq(|codes|, i requires 0 <= i < |codes| => Lookup(values, codes[i]).value)
  }

  predicate NoNulls(a: Array) {
    forall i | 0 <= i < |a| :: a[i] != Null
  }

  /** `takeDictionary`: codes replaced by values; a null is an error in a
      non-nullable column. */
  function TakeDictionary(values: Array, codes: Array, t: Type): (r: Result<Array, Error>)
    ensures r.Ok? ==> |r.value| == |codes|
  {
    if !InRange(values, codes) then Err(Invalid)
    else if !t.nullable && t.kind != KNull && !NoNulls(Taken(values, codes)) then Err(Invalid)
    else Ok(Taken(values, codes))
  }

  /** Taking distributes over concatenation of the codes, errors included. */
  lemma {:induction false} TakeConcat(values: Array, a: Array, b: Array, t: Type)
    ensures TakeDictionary(values, a + b, t)
         == if TakeDictionary(values, a, t).Ok? && TakeDictionary(values, b, t).Ok?
            then Ok(TakeDictionary(values, a, t).value + TakeDictionary(values, b, t).value)
            else Err(Invalid)
  {
    InRangeConcat(values, a, b);
    if InRange(values, a) && InRange(values, b) {
      assert Taken(values, a + b) == Taken(values, a) + Taken(values, b);
      NoNullsConcat(Taken(values, a), Taken(values, b));
    }
  }

  lemma {:induction false} InRangeConcat(values: Array, a: Array, b: Array)
    ensures InRange(values, a + b) <==> InRange(values, a) && InRange(values, b)
  {
    if InRange(values, a + b) {
      forall i | 0 <= i < |a| ensures Lookup(values, a[i]).Some? { assert (a + b)[i] == a[i]; }
      forall i | 0 <= i < |b| ensures Lookup(values, b[i]).Some? { assert (a + b)[|a| + i] == b[i]; }
    }
  }

  lemma {:induction false} NoNullsConcat(a: Array, b: Array)
    ensures NoNulls(a + b) <==> NoNulls(a) && NoNulls(b)
  {
    if NoNulls(a + b) {
      forall i | 0 <= i < |a| ensures a[i] != Null { assert (a + b)[i] == a[i]; }
      forall i | 0 <= i < |b| ensures b[i] != Null { assert (a + b)[|a| + i] == b[i]; }
    }
  }

  // ------------------------------------------------------------ struct arrays

  /** Column `k` of struct rows; None if the array is not a struct array with
      such a column. */
  function Project(a: Array, k: nat): (r: Option<Array>)
    ensures r.Some? ==> |r.value| == |a|
  {
    if forall i | 0 <= i < |a| :: a[i].Row? && k < |a[i].cells|
    then Some(seq(|a|, i requires 0 <= i < |a| => a[i].cells[k]))
    else None
  }

  lemma {:induction false} ProjectConcat(a: Array, b: Array, k: nat)
    ensures Project(a + b, k)
         == if Project(a, k).Some? && Project(b, k).Some?
            then Some(Project(a, k).value + Project(b, k).value) else None
  {
    if Project(a + b, k).Some? {
      forall i | 0 <= i < |a| ensures a[i].Row? && k < |a[i].cells| { assert (a + b)[i] == a[i]; }
      forall i | 0 <= i < |b| ensures b[i].Row? && k < |b[i].cells| { assert (a + b)[|a| + i] == b[i]; }
      assert Project(a + b, k).value == Project(a, k).value + Project(b, k).value;
    }
  }

  /** A struct array of columns of equal length. */
  function Zip(columns: seq<Array>, rows: nat): (r: Array)
    requires forall k | 0 <= k < |columns| :: |columns[k]| == rows
    ensures |r| == rows
  {
    seq(rows, i requires 0 <= i < rows =>
      Row(seq(|columns|, k requires 0 <= k < |columns| => columns[k][i])))
  }

  lemma {:induction false} ProjectZip(columns: seq<Array>, rows: nat, k: nat)
    requires forall k | 0 <= k < |columns| :: |columns[k]| == rows
    requires k < |columns|
    ensures Project(Zip(columns, rows), k) == Some(columns[k])
  {
    assert Project(Zip(columns, rows), k).value == columns[k];
  }

  // ------------------------------------------------------- recursive decoding

  /** `decodeLayout`: the whole array of a layout. */
  function DecodeLayout(f: File, l: Layout, t: Type): (r: Result<Array, Error>)
    requires f.Valid()
    ensures r.Ok? ==> |r.value| == l.rows
    decreases l, 1
  {
    if l.rows > MAX_AUXILIARY_ROWS then Err(Unsupported)
    else match l.id
      case Flat => f.flat(l, t)
      case Zoned => DecodeZoned(f, l, t)
      case Stats => DecodeZoned(f, l, t)
      case Struct =>
        if t.kind != KStruct || t.nullable || |l.children| != |t.fields| then Err(Invalid)
        else (match DecodeColumns(f, l.children, t.fields, l.rows)
              case Err(e) => Err(e)
              case Ok(columns) => if columns == [] then Err(Invalid) else Ok(Zip(columns, l.rows)))
      case Chunked => DecodeChunks(f, l.children, t, l.rows)
      case Dict =>
        if |l.children| != 2 || l.children[1].rows != l.rows then Err(Invalid)
        else (match f.codeType(l, t)
              case Err(e) => Err(e)
              case Ok(codesType) =>
                match DecodeLayout(f, l.children[0], t)
                case Err(e) => Err(e)
                case Ok(values) =>
                  match DecodeLayout(f, l.children[1], codesType)
                  case Err(e) => Err(e)
                  case Ok(codes) => TakeDictionary(values, codes, t))
      case OtherLayout => Err(Unsupported)
  }

  function DecodeZoned(f: File, l: Layout, t: Type): (r: Result<Array, Error>)
    requires f.Valid()
    ensures r.Ok? ==> |r.value| == l.rows
    decreases l, 0
  {
    if |l.children| != 2 || l.children[0].rows != l.rows then Err(Invalid)
    else DecodeLayout(f, l.children[0], t)
  }

  /** The chunks one after the other; their rows must add up to `rows`. */
  function DecodeChunks(f: File, chunks: seq<Layout>, t: Type, rows: nat): (r: Result<Array, Error>)
    requires f.Valid()
    ensures r.Ok? ==> |r.value| == rows
    decreases chunks, 0
  {
    if chunks == [] then (if rows == 0 then Ok([]) else Err(Invalid))
    else if chunks[0].rows > rows then Err(Invalid)
    else match DecodeLayout(f, chunks[0], t)
         case Err(e) => Err(e)
         case Ok(first) =>
           match DecodeChunks(f, chunks[1..], t, rows - chunks[0].rows)
           case Err(e) => Err(e)
           case Ok(rest) => Ok(first + rest)
  }

  /** The columns of a struct layout, each with all rows. */
  function DecodeColumns(f: File, columns: seq<Layout>, types: seq<Type>, rows: nat): (r: Result<seq<Array>, Error>)
    requires f.Valid() && |columns| == |types|
    ensures r.Ok? ==> |r.value| == |columns|
    ensures r.Ok? ==> forall k | 0 <= k < |columns| :: |r.value[k]| == rows
    decreases columns, 0
  {
    if columns == [] then Ok([])
    else if columns[0].rows != rows then Err(Invalid)
    else match DecodeLayout(f, columns[0], types[0])
         case Err(e) => Err(e)
         case Ok(first) =>
           match DecodeColumns(f, columns[1..], types[1..], rows)
           case Err(e) => Err(e)
           case Ok(rest) => Ok([first] + rest)
  }

  /** A code names the value at its number; a null names nothing. */
  predicate Names(code: Cell, values: Array, x: Cell) {
    match code
    case Null => x == Null
    case UInt(u) => u < |values| && x == values[u]
    case Int(v) => 0 <= v < |values| && x == values[v]
    case _ => false
  }

  /** A dictionary layout, row by row: its first child holds the values and its second the
      codes; it decodes exactly when every code names a value, and a non-nullable column
      has no null. */
  lemma {:induction false} DictionaryRows(f: File, l: Layout, t: Type, values: Array, codes: Array, x: Array)
    requires f.Valid() && l.id == Dict && l.rows <= MAX_AUXILIARY_ROWS && |l.children| == 2
    requires l.children[1].rows == l.rows && f.codeType(l, t).Ok? && |x| == |codes|
    requires DecodeLayout(f, l.children[0], t) == Ok(values)
    requires DecodeLayout(f, l.children[1], f.codeType(l, t).value) == Ok(codes)
    ensures DecodeLayout(f, l, t) == Ok(x)
            <==> (forall i | 0 <= i < |x| :: Names(codes[i], values, x[i]))
                 && (t.nullable || t.kind == KNull || Null !in x)
  {
    if forall i | 0 <= i < |x| :: Names(codes[i], values, x[i]) {
      forall i | 0 <= i < |x| ensures Lookup(values, codes[i]) == Some(x[i]) { assert Names(codes[i], values, x[i]); }
      assert Taken(values, codes) == x;
    }
    if DecodeLayout(f, l, t) == Ok(x) {
      forall i | 0 <= i < |x| ensures Names(codes[i], values, x[i]) { assert x[i] == Taken(values, codes)[i]; }
    }
  }

  /** A struct layout, row by row: the cells of a row come from the columns, in order. */
  lemma {:induction false} StructRows(f: File, l: Layout, t: Type, k: nat, i: nat)
    requires f.Valid() && l.id == Struct && DecodeLayout(f, l, t).Ok? && k < |l.children| && i < l.rows
    ensures |l.children| == |t.fields| && l.children[k].rows == l.rows
    ensures DecodeLayout(f, l.children[k], t.fields[k]).Ok?
    ensures var row := DecodeLayout(f, l, t).value[i];
            && row.Row? && |row.cells| == |l.children|
            && row.cells[k] == DecodeLayout(f, l.children[k], t.fields[k]).value[i]
  {
    ColumnAt(f, l.children, t.fields, l.rows, k);
  }

  /** The rows of the first `k` chunks. */
  function RowsBefore(chunks: seq<Layout>, k: nat): nat
    requires k <= |chunks|
  {
    if k == 0 then 0 else RowsBefore(chunks, k - 1) + chunks[k - 1].rows
  }

  /** A chunked layout, row by row: every chunk has its own rows, after those of the chunks
      before it, and nothing is left over. */
  lemma {:induction false} ChunkRows(f: File, l: Layout, t: Type, k: nat, i: nat)
    requires f.Valid() && l.id == Chunked && DecodeLayout(f, l, t).Ok? && k < |l.children| && i < l.children[k].rows
    ensures RowsBefore(l.children, |l.children|) == l.rows && RowsBefore(l.children, k) + i < l.rows
    ensures DecodeLayout(f, l.children[k], t).Ok?
    ensures DecodeLayout(f, l, t).value[RowsBefore(l.children, k) + i] == DecodeLayout(f, l.children[k], t).value[i]
  {
    hide DecodeLayout;
    ChunkedIs(f, l, t);
    ChunkIn(f, l.children, t, l.rows, k, i);
  }

  lemma {:induction false} ChunkedIs(f: File, l: Layout, t: Type)
    requires f.Valid() && l.id == Chunked && DecodeLayout(f, l, t).Ok?
    ensures DecodeLayout(f, l, t) == DecodeChunks(f, l.children, t, l.rows)
  {
  }

  lemma {:induction false} RowsBeforeTail(chunks: seq<Layout>, k: nat)
    requires 0 < k <= |chunks|
    ensures RowsBefore(chunks, k) == chunks[0].rows + RowsBefore(chunks[1..], k - 1)
  {
    if k > 1 { RowsBeforeTail(chunks, k - 1); }
  }

  lemma {:induction false} ChunkIn(f: File, chunks: seq<Layout>, t: Type, rows: nat, k: nat, i: nat)
    requires f.Valid() && DecodeChunks(f, chunks, t, rows).Ok? && k < |chunks| && i < chunks[k].rows
    ensures RowsBefore(chunks, |chunks|) == rows && RowsBefore(chunks, k) + i < rows
    ensures DecodeLayout(f, chunks[k], t).Ok?
    ensures DecodeChunks(f, chunks, t, rows).value[RowsBefore(chunks, k) + i]
            == DecodeLayout(f, chunks[k], t).value[i]
    decreases |chunks|
  {
    hide DecodeLayout;
    var left := rows - chunks[0].rows;
    RowsBeforeTail(chunks, |chunks|);
    ChunksAddUp(f, chunks[1..], t, left);
    if k > 0 {
      RowsBeforeTail(chunks, k);
      ChunkIn(f, chunks[1..], t, left, k - 1, i);
    }
  }

  lemma {:induction false} ChunksAddUp(f: File, chunks: seq<Layout>, t: Type, rows: nat)
    requires f.Valid() && DecodeChunks(f, chunks, t, rows).Ok?
    ensures RowsBefore(chunks, |chunks|) == rows
    decreases |chunks|
  {
    hide DecodeLayout;
    if chunks != [] {
      RowsBeforeTail(chunks, |chunks|);
      ChunksAddUp(f, chunks[1..], t, rows - chunks[0].rows);
    }
  }

  lemma {:induction false} ColumnAt(f: File, columns: seq<Layout>, types: seq<Type>, rows: nat, k: nat)
    requires f.Valid() && |columns| == |types| && k < |columns|
    requires DecodeColumns(f, columns, types, rows).Ok?
    ensures columns[k].rows == rows
    ensures DecodeLayout(f, columns[k], types[k]) == Ok(DecodeColumns(f, columns, types, rows).value[k])
    decreases k
  {
    if k > 0 { ColumnAt(f, columns[1..], types[1..], rows, k - 1); }
  }
}
