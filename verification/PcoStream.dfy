/** A whole Pco column: header, chunk metadata and pages, decoded into little-endian
    values; and the writer it inverts. */
module PcoStream {
  import opened Wrappers
  import opened Words
  import opened BitStrings
  import opened Types
  import opened PcoReader
  import opened PcoDelta
  import opened PcoModes
  import opened PcoPage
  import opened PcoChunks
  import opened PcoChunkRoundTrip
  import opened PcoExpressible

  const MAX_VALUES: nat := 0x100_0000

  // ------------------------------------------------------------------- counting

  function Sum(xs: seq<nat>): nat {
    if xs == [] then 0 else Sum(xs[..|xs| - 1]) + xs[|xs| - 1]
  }

  /** The number of values of all pages. */
  function Total(counts: seq<seq<nat>>): nat {
    if counts == [] then 0 else Total(counts[..|counts| - 1]) + Sum(counts[|counts| - 1])
  }

  /** The number of pages. */
  function PageCount(counts: seq<seq<nat>>): nat {
    if counts == [] then 0 else |counts[0]| + PageCount(counts[1..])
  }

  lemma {:induction false} PageCountMore(counts: seq<seq<nat>>, i: nat)
    requires i < |counts|
    ensures PageCount(counts[..i + 1]) == PageCount(counts[..i]) + |counts[i]|
    decreases i
  {
    if i == 0 {
      assert counts[..1] == [counts[0]] && counts[..1][1..] == [];
    } else {
      PageCountMore(counts[1..], i - 1);
      assert counts[..i + 1][1..] == counts[1..][..i] && counts[..i][1..] == counts[1..][..i - 1];
    }
  }

  /** No page holds more than 2^24 values. */
  predicate PagesSmall(counts: seq<seq<nat>>) {
    forall i, j | 0 <= i < |counts| && 0 <= j < |counts[i]| :: counts[i][j] <= MAX_VALUES
  }

  // -------------------------------------------------------------------- decoding

  /** The width and the kind of the values of a type. */
  function Shape(kind: Types.Kind): Option<(nat, PcoModes.Kind)> {
    match kind
    case KI8 => Some((8, Signed))
    case KU8 => Some((8, Unsigned))
    case KI16 => Some((16, Signed))
    case KU16 => Some((16, Unsigned))
    case KF16 => Some((16, Floating))
    case KI32 => Some((32, Signed))
    case KU32 => Some((32, Unsigned))
    case KF32 => Some((32, Floating))
    case KI64 => Some((64, Signed))
    case KU64 => Some((64, Unsigned))
    case KF64 => Some((64, Floating))
    case _ => None
  }

  /** Integers and floats have a shape: the bits of a value, and how they are read. */
  lemma {:induction false} ShapeIs(kind: Types.Kind)
    ensures Shape(kind).Some? <==> Plain(kind, false).IsInteger() || kind == KF16 || kind == KF32 || kind == KF64
    ensures Shape(kind).Some? ==>
              && Shape(kind).value.0 == 8 * Plain(kind, false).Width()
              && (Shape(kind).value.1 == Signed <==> Plain(kind, false).IsSigned())
              && (Shape(kind).value.1 == Floating <==> !Plain(kind, false).IsInteger())
  {
  }

  predicate HeaderOk(header: seq<byte>) {
    && header != [] && 1 <= header[0] <= 4
    && (if header[0] == 4 then |header| == 2 && header[1] <= 1 else |header| == 1)
  }

  /** The words of the pages of one chunk. */
  ghost function PageWords(c: Chunk, pages: seq<seq<byte>>, counts: seq<nat>): (r: Option<seq<nat>>)
    requires c.Valid() && |pages| == |counts|
    ensures r.Some? ==> AllBelow(r.value, Pow2(c.width))
  {
    if pages == [] then Some([])
    else Append(Page(c, pages[0], counts[0]), PageWords(c, pages[1..], counts[1..]))
  }

  /** The words of all chunks. */
  ghost function ChunkWords(fl: Floats, version: nat, shape: (nat, PcoModes.Kind), chunks: seq<seq<byte>>,
                            pages: seq<seq<byte>>, counts: seq<seq<nat>>): (r: Option<seq<nat>>)
    requires IsWidth(shape.0) && |chunks| == |counts| && PageCount(counts) == |pages|
    ensures r.Some? ==> AllBelow(r.value, Pow2(shape.0))
  {
    hide ParseChunk, Chunk.Valid, PageWords;
    if chunks == [] then Some([])
    else
      match ParseChunk(fl, chunks[0], version, shape.0, shape.1)
      case None => None
      case Some(c) =>
        ParsedChunkValid(fl, chunks[0], version, shape.0, shape.1);
        var n := |counts[0]|;
        Append(PageWords(c, pages[..n], counts[0]),
               ChunkWords(fl, version, shape, chunks[1..], pages[n..], counts[1..]))
  }

  /** The words of a column, or None where `Decode` reports an error. */
  ghost function Column(fl: Floats, header: seq<byte>, chunks: seq<seq<byte>>, pages: seq<seq<byte>>,
                        counts: seq<seq<nat>>, kind: Types.Kind): (r: Option<seq<nat>>)
    ensures r.Some? ==> Shape(kind).Some? && AllBelow(r.value, Pow2(Shape(kind).value.0))
  {
    if Shape(kind).None? || !HeaderOk(header) || |chunks| != |counts| || !PagesSmall(counts) then None
    else if PageCount(counts) != |pages| || Total(counts) > MAX_VALUES then None
    else ChunkWords(fl, header[0], Shape(kind).value, chunks, pages, counts)
  }

  /** The values of the first `k` pages of a chunk. */
  function ValuesBefore(counts: seq<nat>, k: nat): nat
    requires k <= |counts|
  {
    if k == 0 then 0 else ValuesBefore(counts, k - 1) + counts[k - 1]
  }

  lemma {:induction false} ValuesBeforeTail(counts: seq<nat>, k: nat)
    requires 0 < k <= |counts|
    ensures ValuesBefore(counts, k) == counts[0] + ValuesBefore(counts[1..], k - 1)
  {
    if k > 1 { ValuesBeforeTail(counts, k - 1); }
  }

  /** Every page has its own values, after those of the pages before it. */
  lemma {:induction false} PageValues(c: Chunk, pages: seq<seq<byte>>, counts: seq<nat>, k: nat, i: nat)
    requires c.Valid() && |pages| == |counts| && PageWords(c, pages, counts).Some? && k < |pages| && i < counts[k]
    ensures Page(c, pages[k], counts[k]).Some? && ValuesBefore(counts, k) + i < |PageWords(c, pages, counts).value|
    ensures PageWords(c, pages, counts).value[ValuesBefore(counts, k) + i] == Page(c, pages[k], counts[k]).value[i]
    decreases |pages|
  {
    hide Page, Chunk.Valid;
    if k > 0 {
      ValuesBeforeTail(counts, k);
      PageValues(c, pages[1..], counts[1..], k - 1, i);
    }
  }

  /** The first chunk of a column has the first pages, as many as it has counts, and its
      values come first; the other chunks have the other pages. */
  lemma {:induction false} ChunkValues(fl: Floats, version: nat, shape: (nat, PcoModes.Kind), chunks: seq<seq<byte>>,
                                       pages: seq<seq<byte>>, counts: seq<seq<nat>>)
    requires IsWidth(shape.0) && |chunks| == |counts| > 0 && PageCount(counts) == |pages|
    requires ChunkWords(fl, version, shape, chunks, pages, counts).Some?
    ensures |counts[0]| <= |pages| && PageCount(counts[1..]) == |pages| - |counts[0]|
    ensures ParseChunk(fl, chunks[0], version, shape.0, shape.1).Some?
    ensures ParseChunk(fl, chunks[0], version, shape.0, shape.1).value.Valid()
    ensures var c, n := ParseChunk(fl, chunks[0], version, shape.0, shape.1).value, |counts[0]|;
            Some(ChunkWords(fl, version, shape, chunks, pages, counts).value)
            == Append(PageWords(c, pages[..n], counts[0]),
                      ChunkWords(fl, version, shape, chunks[1..], pages[n..], counts[1..]))
  {
    hide ParseChunk, Chunk.Valid, PageWords;
    ParsedChunkValid(fl, chunks[0], version, shape.0, shape.1);
  }

  /** Little-endian values, one after the other. */
  function WordBytes(words: seq<nat>, size: nat): (b: seq<byte>)
    ensures |b| == |words| * size
  {
    if words == [] then []
    else
      var last := |words| - 1;
      Distribute(last, 1, size);
      WordBytes(words[..last], size) + WriteLittleEndian(words[last], size)
  }

  // ------------------------------------------------------------------- the loops

  method CountPages(counts: seq<seq<nat>>) returns (total: Option<(nat, nat)>)
    ensures total.Some? <==> PagesSmall(counts)
    ensures total.Some? ==> total.value == (Total(counts), PageCount(counts))
  {
    var sum, pages := 0, 0;
    for i := 0 to |counts|
      invariant sum == Total(counts[..i]) && pages == PageCount(counts[..i])
      invariant forall k, j | 0 <= k < i && 0 <= j < |counts[k]| :: counts[k][j] <= MAX_VALUES
    {
      ghost var before := sum;
      for j := 0 to |counts[i]|
        invariant sum == before + Sum(counts[i][..j]) && pages == PageCount(counts[..i]) + j
        invariant forall k | 0 <= k < j :: counts[i][k] <= MAX_VALUES
      {
        if counts[i][j] > MAX_VALUES { return None; }
        assert counts[i][..j + 1][..j] == counts[i][..j];
        sum := sum + counts[i][j];
        pages := pages + 1;
      }
      assert counts[i][..|counts[i]|] == counts[i];
      assert counts[..i + 1][..i] == counts[..i];
      PageCountMore(counts, i);
    }
    assert counts[..|counts|] == counts;
    total := Some((sum, pages));
  }

  /** The inner loop of `Decode`: the pages of one chunk. */
  method DecodePages(c: Chunk, pages: seq<seq<byte>>, counts: seq<nat>) returns (words: Option<seq<nat>>)
    requires c.Valid() && |pages| == |counts|
    ensures words == PageWords(c, pages, counts)
  {
    hide Chunk.Valid, Page;
    var out: seq<nat> := [];
    ghost var all := PageWords(c, pages, counts);
    AppendEmpty(all);
    assert pages[0..] == pages && counts[0..] == counts;
    for i := 0 to |pages|
      invariant all == Append(Some(out), PageWords(c, pages[i..], counts[i..]))
    {
      var page := DecodePage(c, pages[i], counts[i]);
      assert pages[i..][1..] == pages[i + 1..] && counts[i..][1..] == counts[i + 1..];
      if page.None? { return None; }
      AppendAssoc(out, page, PageWords(c, pages[i + 1..], counts[i + 1..]));
      out := out + page.value;
    }
    AppendNothing(out);
    words := Some(out);
  }

  /** The loop of `Decode` over the chunks. */
  method DecodeChunks(fl: Floats, version: nat, shape: (nat, PcoModes.Kind), chunks: seq<seq<byte>>,
                      pages: seq<seq<byte>>, counts: seq<seq<nat>>) returns (words: Option<seq<nat>>)
    requires IsWidth(shape.0) && |chunks| == |counts| && PageCount(counts) == |pages|
    ensures words == ChunkWords(fl, version, shape, chunks, pages, counts)
  {
    hide Chunk.Valid, PageWords, ParseChunk;
    var out: seq<nat> := [];
    var at := 0;
    ghost var all := ChunkWords(fl, version, shape, chunks, pages, counts);
    AppendEmpty(all);
    assert chunks[0..] == chunks && pages[0..] == pages && counts[0..] == counts;
    for i := 0 to |chunks|
      invariant at <= |pages| && PageCount(counts[i..]) == |pages| - at
      invariant all == Append(Some(out), ChunkWords(fl, version, shape, chunks[i..], pages[at..], counts[i..]))
    {
      var c := ReadChunk(fl, chunks[i], version, shape.0, shape.1);
      assert chunks[i..][1..] == chunks[i + 1..] && counts[i..][1..] == counts[i + 1..];
      var n := |counts[i]|;
      if c.None? { return None; }
      ParsedChunkValid(fl, chunks[i], version, shape.0, shape.1);
      assert pages[at..][..n] == pages[at..at + n] && pages[at..][n..] == pages[at + n..];
      var page := DecodePages(c.value, pages[at..at + n], counts[i]);
      if page.None? { return None; }
      AppendAssoc(out, page, ChunkWords(fl, version, shape, chunks[i + 1..], pages[at + n..], counts[i + 1..]));
      out := out + page.value;
      at := at + n;
    }
    AppendNothing(out);
    words := Some(out);
  }

  /** `Decode`: packed little-endian values. */
  method Decode(fl: Floats, header: seq<byte>, chunks: seq<seq<byte>>, pages: seq<seq<byte>>,
                counts: seq<seq<nat>>, kind: Types.Kind) returns (raw: Option<seq<byte>>)
    ensures match Column(fl, header, chunks, pages, counts, kind)
            case None => raw.None?
            case Some(words) => Shape(kind).Some? && raw == Some(WordBytes(words, Shape(kind).value.0 / 8))
  {
    hide ChunkWords, Total, PageCount, PagesSmall, WordBytes, Pow2;
    var shape := Shape(kind);
    if shape.None? || !HeaderOk(header) || |chunks| != |counts| { return None; }
    var total := CountPages(counts);
    if total.None? || total.value.1 != |pages| || total.value.0 > MAX_VALUES { return None; }
    var words := DecodeChunks(fl, header[0], shape.value, chunks, pages, counts);
    if words.None? { return None; }
    var out := WriteWords(words.value, shape.value.0 / 8);
    raw := Some(out);
  }

  /** The loop that appends the values. */
  method WriteWords(words: seq<nat>, size: nat) returns (out: seq<byte>)
    ensures out == WordBytes(words, size)
  {
    hide WriteLittleEndian;
    out := [];
    for i := 0 to |words|
      invariant out == WordBytes(words[..i], size)
    {
      assert words[..i + 1][..i] == words[..i];
      out := out + WriteLittleEndian(words[i], size);
    }
    assert words[..|words|] == words;
  }

  // -------------------------------------------------------------------- round trip

  /** One chunk of a column: its metadata and the words of its pages. */
  datatype Part = Part(info: ChunkInfo, pages: seq<seq<nat>>)

  function Flat(xs: seq<seq<nat>>): seq<nat> {
    if xs == [] then [] else xs[0] + Flat(xs[1..])
  }

  function Lengths(xs: seq<seq<nat>>): (r: seq<nat>)
    ensures |r| == |xs|
  {
    seq(|xs|, i requires 0 <= i < |xs| => |xs[i]|)
  }

  /** All words of a column. */
  function AllWords(parts: seq<Part>): seq<nat> {
    if parts == [] then [] else Flat(parts[0].pages) + AllWords(parts[1..])
  }

  function CountsOf(parts: seq<Part>): (r: seq<seq<nat>>)
    ensures |r| == |parts|
  {
    seq(|parts|, i requires 0 <= i < |parts| => Lengths(parts[i].pages))
  }

  /** The metadata is acceptable and the chunk can express the words of every page. */
  ghost predicate PartOk(fl: Floats, version: nat, shape: (nat, PcoModes.Kind), p: Part) {
    && p.info.Ok(fl, version, shape.0, shape.1)
    && (WrittenChunkValid(fl, p.info, version, shape.0, shape.1);
        forall i | 0 <= i < |p.pages| :: Expressible(p.info.Chunk(fl, version, shape.0, shape.1), p.pages[i]))
  }

  ghost predicate PartsOk(fl: Floats, version: nat, shape: (nat, PcoModes.Kind), parts: seq<Part>) {
    forall i | 0 <= i < |parts| :: PartOk(fl, version, shape, parts[i])
  }

  ghost function MetadataOf(fl: Floats, version: nat, shape: (nat, PcoModes.Kind), parts: seq<Part>)
    : (r: seq<seq<byte>>)
    requires PartsOk(fl, version, shape, parts)
    ensures |r| == |parts|
  {
    seq(|parts|, i requires 0 <= i < |parts| =>
      assert PartOk(fl, version, shape, parts[i]);
      parts[i].info.Write(version, shape.0))
  }

  lemma {:induction false} PagesWritten(c: Chunk, xs: seq<seq<nat>>) returns (pages: seq<seq<byte>>)
    requires c.Valid() && forall i | 0 <= i < |xs| :: Expressible(c, xs[i])
    ensures |pages| == |xs| && PageWords(c, pages, Lengths(xs)) == Some(Flat(xs))
  {
    hide Chunk.Valid, Expressible, Page;
    if xs == [] {
      pages := [];
    } else {
      PagesAreExpressible(c, xs[0]);
      var data: seq<byte> :| Page(c, data, |xs[0]|) == Some(xs[0]);
      var rest := PagesWritten(c, xs[1..]);
      pages := [data] + rest;
      assert pages[1..] == rest && Lengths(xs)[1..] == Lengths(xs[1..]);
    }
  }

  lemma {:induction false} ChunksWritten(fl: Floats, version: nat, shape: (nat, PcoModes.Kind), parts: seq<Part>)
    returns (pages: seq<seq<byte>>)
    requires IsWidth(shape.0) && PartsOk(fl, version, shape, parts)
    ensures PageCount(CountsOf(parts)) == |pages|
    ensures ChunkWords(fl, version, shape, MetadataOf(fl, version, shape, parts), pages, CountsOf(parts))
            == Some(AllWords(parts))
  {
    hide ChunkInfo.Ok, ChunkInfo.Chunk, ChunkInfo.Write, Chunk.Valid, Expressible, PageWords, ParseChunk;
    if parts == [] {
      pages := [];
    } else {
      var p := parts[0];
      assert PartOk(fl, version, shape, p);
      WrittenChunkValid(fl, p.info, version, shape.0, shape.1);
      ChunkWritten(fl, p.info, version, shape.0, shape.1);
      var first := PagesWritten(p.info.Chunk(fl, version, shape.0, shape.1), p.pages);
      var rest := ChunksWritten(fl, version, shape, parts[1..]);
      pages := first + rest;
      assert pages[..|first|] == first && pages[|first|..] == rest;
      var counts, data := CountsOf(parts), MetadataOf(fl, version, shape, parts);
      assert counts[1..] == CountsOf(parts[1..]) && counts[0] == Lengths(p.pages);
      assert data[1..] == MetadataOf(fl, version, shape, parts[1..]);
    }
  }

  /** Column round trip: whatever the chunks, their modes, deltas and bins, words that the
      chunks can express have pages from which `Decode` gives exactly these words back. */
  lemma {:induction false} ColumnRoundTrip(fl: Floats, header: seq<byte>, parts: seq<Part>, kind: Types.Kind)
    returns (pages: seq<seq<byte>>)
    requires Shape(kind).Some? && HeaderOk(header) && PartsOk(fl, header[0], Shape(kind).value, parts)
    requires PagesSmall(CountsOf(parts)) && Total(CountsOf(parts)) <= MAX_VALUES
    ensures Column(fl, header, MetadataOf(fl, header[0], Shape(kind).value, parts), pages, CountsOf(parts), kind)
            == Some(AllWords(parts))
  {
    hide PartsOk, ChunkWords, Total, PageCount, PagesSmall;
    pages := ChunksWritten(fl, header[0], Shape(kind).value, parts);
  }
}
