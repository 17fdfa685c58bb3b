/** Written nodes that store the values of the valid rows only read back as the column: Pco
    with its chunks and pages, and Zstd with its frames. Both describe their buffers in
    nested metadata messages and keep the validity in a child. */
module PagedNodes {
  import opened Wrappers
  import opened Words
  import opened Types
  import opened Proto
  import opened Arrays
  import opened Readings
  import opened NodeRoundTrips
  import opened StoredNodes
  import opened PcoStream
  import NullExpansion

  // ------------------------------------------------------------- nested messages

  predicate Wellformed(fields: seq<Field>) { |fields| <= MAX_FIELDS && forall f | f in fields :: f.Valid() }

  /** One length-delimited field per message. */
  function Messages(tag: nat, msgs: seq<seq<Field>>): (fields: seq<Field>)
    requires forall msg | msg in msgs :: Wellformed(msg)
    ensures |fields| == |msgs| && forall f | f in fields :: f.tag == tag
  {
    seq(|msgs|, i requires 0 <= i < |msgs| =>
      assert Wellformed(msgs[i]);
      Field(tag, 2, 0, Some(Serialize(msgs[i]))))
  }

  lemma {:induction false} NoPayloads(fields: seq<Field>, tag: nat)
    requires forall f | f in fields :: f.tag != tag
    ensures Payloads(fields, tag) == Some([])
  {
    hide Parse;
    if fields != [] {
      assert fields[|fields| - 1] in fields;
      NoPayloads(fields[..|fields| - 1], tag);
      AppendNothing<seq<Field>>([]);
    }
  }

  lemma {:induction false} MessageRead(msg: seq<Field>)
    requires Wellformed(msg)
    ensures Parse(Serialize(msg), 0) == Some(msg)
  {
    hide Parse, Serialize, Field.Valid;
    RoundTrip(msg);
  }

  /** The messages are read back, whatever other fields come before them. */
  lemma {:induction false} MessagesRead(first: seq<Field>, tag: nat, msgs: seq<seq<Field>>)
    requires forall f | f in first :: f.tag != tag
    requires forall msg | msg in msgs :: Wellformed(msg)
    ensures Payloads(first + Messages(tag, msgs), tag) == Some(msgs)
    decreases |msgs|
  {
    hide Parse, Serialize, Wellformed;
    if msgs == [] {
      assert first + Messages(tag, msgs) == first;
      NoPayloads(first, tag);
    } else {
      var last := |msgs| - 1;
      var all := first + Messages(tag, msgs);
      assert msgs[last] in msgs;
      assert all[..|all| - 1] == first + Messages(tag, msgs[..last]);
      MessagesRead(first, tag, msgs[..last]);
      MessageRead(msgs[last]);
      SplitLast(msgs);
    }
  }

  // --------------------------------------------------------- lengths of the messages

  lemma {:induction false} SerializedLength(fields: seq<Field>, k: nat)
    requires forall f | f in fields :: f.Valid() && |WriteField(f)| <= k
    ensures |Serialize(fields)| <= |fields| * k
  {
    hide WriteField, Field.Valid;
    if fields != [] {
      SerializedLength(fields[1..], k);
      Distribute(|fields| - 1, 1, k);
    }
  }

  lemma {:induction false} MessageLength(tag: nat, data: seq<byte>)
    requires 0 < tag < 8 && |data| < Pow2(32)
    ensures Field(tag, 2, 0, Some(data)).Valid()
    ensures |WriteField(Field(tag, 2, 0, Some(data)))| <= 34 + |data|
  {
    hide Pow2, Len;
    Pow2Mono(32, 64);
    Powers();
    VarintLength(|data|);
    LenLess(|data|, 32);
    assert tag * 8 + 2 < 128;
  }

  // ------------------------------------------------------------- the metadata of Pco

  /** The message of a page: its number of values. */
  function PageMessage(count: nat): seq<Field> { [Field(1, 0, count, None)] }

  lemma {:induction false} PageMessageOk(count: nat)
    requires count <= MAX_VALUES
    ensures Wellformed(PageMessage(count)) && |Serialize(PageMessage(count))| <= 34
  {
    hide Pow2, Len;
    Pow2Mono(32, 64);
    Powers();
    var f := Field(1, 0, count, None);
    assert f.Valid();
    VarintLength(count);
    LenLess(count, 32);
    assert [f][1..] == [];
    assert Serialize([f]) == WriteField(f);
  }

  /** The message of a chunk: its pages. */
  function ChunkMessage(counts: seq<nat>): (fields: seq<Field>)
    requires forall c | c in counts :: c <= MAX_VALUES
  {
    Messages(1, PageMessages(counts))
  }

  function PageMessages(counts: seq<nat>): (msgs: seq<seq<Field>>)
    requires forall c | c in counts :: c <= MAX_VALUES
    ensures |msgs| == |counts| && forall msg | msg in msgs :: Wellformed(msg)
  {
    hide Wellformed;
    forall i | 0 <= i < |counts| ensures Wellformed(PageMessage(counts[i])) {
      assert counts[i] in counts;
      PageMessageOk(counts[i]);
    }
    seq(|counts|, i requires 0 <= i < |counts| => PageMessage(counts[i]))
  }

  lemma {:induction false} ChunkMessageOk(counts: seq<nat>)
    requires |counts| <= MAX_FIELDS && forall c | c in counts :: c <= MAX_VALUES
    ensures Wellformed(ChunkMessage(counts)) && |Serialize(ChunkMessage(counts))| < Pow2(32)
    ensures Payloads(ChunkMessage(counts), 1) == Some(PageMessages(counts)) && Counts(PageMessages(counts)) == counts
  {
    hide Pow2, Serialize, WriteField, Field.Valid, Payloads;
    Powers();
    var fields := ChunkMessage(counts);
    forall f | f in fields ensures f.Valid() && |WriteField(f)| <= 68 {
      var i :| 0 <= i < |fields| && fields[i] == f;
      assert counts[i] in counts;
      PageMessageOk(counts[i]);
      MessageLength(1, Serialize(PageMessage(counts[i])));
    }
    SerializedLength(fields, 68);
    MessagesRead([], 1, PageMessages(counts));
    assert [] + fields == fields;
    forall i | 0 <= i < |counts| ensures Counts(PageMessages(counts))[i] == counts[i] {
      assert Get(PageMessage(counts[i]), 1) == Some(Field(1, 0, counts[i], None));
    }
  }

  /** Page counts that fit into a message. */
  predicate CountsFit(counts: seq<seq<nat>>) {
    |counts| < MAX_FIELDS && PagesSmall(counts) && forall c | c in counts :: |c| <= MAX_FIELDS
  }

  function ChunkMessages(counts: seq<seq<nat>>): (msgs: seq<seq<Field>>)
    requires CountsFit(counts)
    ensures |msgs| == |counts| && forall msg | msg in msgs :: Wellformed(msg)
  {
    hide Wellformed;
    forall i | 0 <= i < |counts|
      ensures (forall c | c in counts[i] :: c <= MAX_VALUES) && Wellformed(ChunkMessage(counts[i]))
    {
      SmallCounts(counts, i);
      ChunkMessageOk(counts[i]);
    }
    seq(|counts|, i requires 0 <= i < |counts| => ChunkMessage(counts[i]))
  }

  lemma {:induction false} SmallCounts(counts: seq<seq<nat>>, i: nat)
    requires i < |counts| && CountsFit(counts)
    ensures counts[i] in counts && |counts[i]| <= MAX_FIELDS && forall c | c in counts[i] :: c <= MAX_VALUES
  {
    assert counts[i] in counts;
  }

  /** The metadata of a Pco node: the header and the chunks. */
  function PcoFields(header: seq<byte>, counts: seq<seq<nat>>): seq<Field>
    requires CountsFit(counts)
  {
    [Field(1, 2, 0, Some(header))] + Messages(2, ChunkMessages(counts))
  }

  /** It parses back to the header and the page counts. */
  lemma {:induction false} PcoFieldsRead(header: seq<byte>, counts: seq<seq<nat>>)
    requires CountsFit(counts) && |header| <= 2
    ensures forall f | f in PcoFields(header, counts) :: f.Valid()
    ensures Parse(Serialize(PcoFields(header, counts)), 0) == Some(PcoFields(header, counts))
    ensures DataOr(PcoFields(header, counts), 1) == header && PageCounts(PcoFields(header, counts)) == Some(counts)
  {
    hide Pow2, Parse, Serialize, Field.Valid, Payloads, ChunkMessage;
    var first, rest := [Field(1, 2, 0, Some(header))], Messages(2, ChunkMessages(counts));
    Powers();
    MessageLength(1, header);
    forall f | f in rest ensures f.Valid() {
      var i :| 0 <= i < |rest| && rest[i] == f;
      SmallCounts(counts, i);
      ChunkMessageOk(counts[i]);
      MessageLength(2, Serialize(ChunkMessage(counts[i])));
    }
    RoundTrip(first + rest);
    MessagesRead(first, 2, ChunkMessages(counts));
    GetConcat(first, rest, 1);
    ChunksCounted(counts);
  }

  lemma {:induction false} ChunksCounted(counts: seq<seq<nat>>)
    requires CountsFit(counts)
    ensures ChunkCounts(ChunkMessages(counts)) == Some(counts)
    decreases |counts|
  {
    hide ChunkMessage, ChunkMessages, ChunkCounts, Payloads, Wellformed, PageMessages, Counts, CountsFit;
    if counts == [] {
      assert ChunkMessages(counts) == [] && ChunkCounts([]) == Some([]) by { NoChunks(); }
    } else {
      var last, msgs := |counts| - 1, ChunkMessages(counts);
      FewerFit(counts, last);
      ChunksCounted(counts[..last]);
      SmallCounts(counts, last);
      ChunkMessageOk(counts[last]);
      LastMessage(counts);
      OneMoreChunk(msgs[..last], msgs[last], counts[..last], PageMessages(counts[last]));
      SplitLast(counts);
      SplitLast(msgs);
    }
  }

  lemma {:induction false} SplitLast<T>(s: seq<T>)
    requires s != []
    ensures s[..|s| - 1] + [s[|s| - 1]] == s
  {
  }

  lemma {:induction false} NoChunks()
    ensures ChunkCounts([]) == Some([])
  {
  }

  lemma {:induction false} LastMessage(counts: seq<seq<nat>>)
    requires CountsFit(counts) && counts != []
    ensures var last := |counts| - 1;
            && CountsFit(counts[..last]) && (forall c | c in counts[last] :: c <= MAX_VALUES)
            && ChunkMessages(counts)[..last] == ChunkMessages(counts[..last])
            && ChunkMessages(counts)[last] == ChunkMessage(counts[last])
  {
    hide ChunkMessage, Wellformed, CountsFit;
    FewerFit(counts, |counts| - 1);
    SmallCounts(counts, |counts| - 1);
  }

  lemma {:induction false} OneMoreChunk(before: seq<seq<Field>>, chunk: seq<Field>, counts: seq<seq<nat>>,
                                        pages: seq<seq<Field>>)
    requires ChunkCounts(before) == Some(counts) && Payloads(chunk, 1) == Some(pages)
    ensures ChunkCounts(before + [chunk]) == Some(counts + [Counts(pages)])
  {
    hide Payloads;
    assert (before + [chunk])[..|before|] == before;
  }

  lemma {:induction false} FewerFit(counts: seq<seq<nat>>, n: nat)
    requires CountsFit(counts) && n <= |counts|
    ensures CountsFit(counts[..n])
  {
    forall c | c in counts[..n] ensures |c| <= MAX_FIELDS { assert c in counts; }
  }

  // ---------------------------------------------------------------- a whole Pco node

  lemma {:induction false} SumFirst(xs: seq<nat>)
    requires xs != []
    ensures Sum(xs) == xs[0] + Sum(xs[1..])
    decreases |xs|
  {
    var last := |xs| - 1;
    if last > 0 {
      SumFirst(xs[..last]);
      assert xs[1..][..last - 1] == xs[..last][1..];
    }
  }

  lemma {:induction false} TotalFirst(counts: seq<seq<nat>>)
    requires counts != []
    ensures Total(counts) == Sum(counts[0]) + Total(counts[1..])
    decreases |counts|
  {
    hide Sum;
    var last := |counts| - 1;
    if last > 0 {
      TotalFirst(counts[..last]);
      assert counts[1..][..last - 1] == counts[..last][1..];
    }
  }

  lemma {:induction false} FlatLength(pages: seq<seq<nat>>)
    ensures |Flat(pages)| == Sum(Lengths(pages))
  {
    hide Sum;
    if pages == [] {
      assert Sum([]) == 0 by { SumNone(); }
    } else {
      FlatLength(pages[1..]);
      SumFirst(Lengths(pages));
      assert Lengths(pages)[1..] == Lengths(pages[1..]);
    }
  }

  lemma {:induction false} SumNone()
    ensures Sum([]) == 0
  {
  }

  lemma {:induction false} WordsCounted(parts: seq<Part>)
    ensures |AllWords(parts)| == Total(CountsOf(parts))
  {
    hide Sum, Flat;
    if parts != [] {
      FlatLength(parts[0].pages);
      WordsCounted(parts[1..]);
      TotalFirst(CountsOf(parts));
      assert CountsOf(parts)[1..] == CountsOf(parts[1..]);
    }
  }

  /** The words of the valid rows, and 0 in the others. */
  function StoredRows(x: seq<nat>, mask: seq<bool>): (rows: seq<Cell>)
    requires |mask| == |x|
    ensures |rows| == |x|
  {
    WordRows(mask, Stored(x, mask))
  }

  function Stored(x: seq<nat>, mask: seq<bool>): (words: seq<nat>)
    requires |mask| == |x|
    ensures |words| == |x|
  {
    seq<nat>(|x|, i requires 0 <= i < |x| => if mask[i] then x[i] else 0)
  }

  lemma {:induction false} SpreadBack(x: seq<nat>, mask: seq<bool>)
    requires |mask| == |x|
    ensures SpreadRows(NumberItems(NullExpansion.Project(x, Some(mask), |x|)), mask, NullExpansion.Number(0))
            == StoredRows(x, mask)
  {
    hide NullExpansion.Project, NullExpansion.Count;
    var items := NumberItems(NullExpansion.Project(x, Some(mask), |x|));
    var rows := SpreadRows(items, mask, NullExpansion.Number(0));
    forall i: nat | i < |x| ensures rows[i] == StoredRows(x, mask)[i] {
      if mask[i] { NullExpansion.ProjectAt(x, Some(mask), |x|, i); }
    }
  }

  /** Pco, end to end: however the values of the valid rows are cut into chunks and pages
      that can express them, a node of these chunks reads as the values in the valid rows
      and nulls in the others. */
  lemma {:induction false} PcoNodeReads(lib: Libraries, t: Type, header: seq<byte>, parts: seq<Part>, x: seq<nat>,
                                        mask: seq<bool>) returns (node: Node)
    requires Shape(t.kind).Some? && HeaderOk(header)
    requires PartsOk(lib.floats, header[0], Shape(t.kind).value, parts)
    requires CountsFit(CountsOf(parts)) && Total(CountsOf(parts)) <= MAX_VALUES
    requires |mask| == |x| <= MAX_ROWS && Allows(t, mask)
    requires AllWords(parts) == NullExpansion.Project(x, Some(mask), |x|)
    ensures node.encoding == Pco && Reading(lib, node, t, |x|) == Some(StoredRows(x, mask))
  {
    hide PartsOk, MetadataOf, AllWords, CountsOf, CountsFit, Total, PcoFields, Parse, Serialize, Column, BitsNode,
      MaskReading, PageCounts, DataOr, Reading, Encoded, StoredRows, SpreadRows, NumberItems, NullExpansion.Project,
      NullExpansion.Count, HeaderOk, Shape;
    var counts, n := CountsOf(parts), |x|;
    HeaderShort(header, t.kind);
    PcoFieldsRead(header, counts);
    var pages := PagesOf(lib, t, header, parts);
    var chunks := MetadataOf(lib.floats, header[0], Shape(t.kind).value, parts);
    var m := PcoFields(header, counts);
    node := Node(Pco, Serialize(m), [BitsNode(mask)], chunks + pages);
    assert node.buffers[..|counts|] == chunks && node.buffers[|counts|..] == pages;
    MaskIs(lib, node, 0, mask);
    WordsCounted(parts);
    SpreadBack(x, mask);
    assert PcoReading(lib, node, m, t, n) == Some(StoredRows(x, mask));
    EncodedIs(lib, node, m, t, n);
    StoredReading(lib, node, m, t, x, mask);
  }

  lemma {:induction false} HeaderShort(header: seq<byte>, kind: Kind)
    requires HeaderOk(header) && Shape(kind).Some?
    ensures 0 < |header| <= 2 && kind != KBool && Plain(kind, false).Width() > 0
  {
  }

  lemma {:induction false} PagesOf(lib: Libraries, t: Type, header: seq<byte>, parts: seq<Part>)
    returns (pages: seq<seq<byte>>)
    requires Shape(t.kind).Some? && HeaderOk(header)
    requires PartsOk(lib.floats, header[0], Shape(t.kind).value, parts)
    requires CountsFit(CountsOf(parts)) && Total(CountsOf(parts)) <= MAX_VALUES
    ensures Column(lib.floats, header, MetadataOf(lib.floats, header[0], Shape(t.kind).value, parts), pages,
                   CountsOf(parts), t.kind) == Some(AllWords(parts))
  {
    hide PartsOk, MetadataOf, AllWords, Total, Column;
    pages := ColumnRoundTrip(lib.floats, header, parts, t.kind);
  }

  lemma {:induction false} StoredReading(lib: Libraries, node: Node, m: seq<Field>, t: Type, x: seq<nat>,
                                         mask: seq<bool>)
    requires Parse(node.metadata, 0) == Some(m) && |mask| == |x| <= MAX_ROWS && Allows(t, mask)
    requires Encoded(lib, node, m, t, |x|) == Some(StoredRows(x, mask))
    ensures Reading(lib, node, t, |x|) == Some(StoredRows(x, mask))
  {
    hide Parse, Encoded, Reading;
    AllowedReading(lib, node, m, t, |x|, mask, Stored(x, mask));
  }

  // --------------------------------------------------------------------------- Zstd

  /** The message of a frame: its bytes and its number of values. */
  function FrameMessage(f: NullExpansion.Frame): seq<Field> {
    [Field(1, 0, |f.raw|, None), Field(2, 0, f.declared, None)]
  }

  /** Frames that their metadata can describe. */
  predicate FramesFit(frames: seq<NullExpansion.Frame>) {
    |frames| < MAX_FIELDS && forall f | f in frames :: |f.raw| < Pow2(64) && f.declared < Pow2(64)
  }

  function FrameMessages(frames: seq<NullExpansion.Frame>): (msgs: seq<seq<Field>>)
    requires FramesFit(frames)
    ensures |msgs| == |frames| && forall msg | msg in msgs :: Wellformed(msg)
  {
    hide Wellformed;
    forall i | 0 <= i < |frames| ensures Wellformed(FrameMessage(frames[i])) { FrameMessageOk(frames, i); }
    seq(|frames|, i requires 0 <= i < |frames| => FrameMessage(frames[i]))
  }

  lemma {:induction false} FrameMessageOk(frames: seq<NullExpansion.Frame>, i: nat)
    requires FramesFit(frames) && i < |frames|
    ensures Wellformed(FrameMessage(frames[i])) && |Serialize(FrameMessage(frames[i]))| < Pow2(32)
    ensures Num(FrameMessage(frames[i]), 1) == |frames[i].raw| && Num(FrameMessage(frames[i]), 2) == frames[i].declared
  {
    hide Pow2, Len;
    Powers();
    assert frames[i] in frames;
    var fields := FrameMessage(frames[i]);
    Pow2Mono(8, 64);
    forall f | f in fields ensures f.Valid() && |WriteField(f)| <= 66 {
      VarintLength(f.num);
      LenLess(f.num, 64);
    }
    SerializedLength(fields, 66);
    LastTwo(fields[0], fields[1]);
  }

  /** Buffers that declare the sizes of the frames and decompress to them with a dictionary. */
  predicate Compressed(lib: Libraries, dict: seq<byte>, buffers: seq<seq<byte>>, frames: seq<NullExpansion.Frame>) {
    |buffers| == |frames| && forall i: nat | i < |frames| ::
      lib.contentSize(buffers[i]) == Some(|frames[i].raw|) && lib.inflate(dict, buffers[i]) == Some(frames[i].raw)
  }

  /** The size of the dictionary, if there is one. */
  function DictionaryField(dict: seq<byte>): (fields: seq<Field>)
    ensures |fields| <= 1 && forall f | f in fields :: f.tag == 1
  {
    if dict == [] then [] else [Field(1, 0, |dict|, None)]
  }

  lemma {:induction false} DictionaryFieldRead(dict: seq<byte>)
    requires |dict| < Pow2(64)
    ensures (forall f | f in DictionaryField(dict) :: f.Valid()) && Num(DictionaryField(dict), 1) == |dict|
  {
    hide Pow2;
    Powers();
    Pow2Mono(8, 64);
  }

  /** The metadata of a Zstd node. */
  function ZstdFields(dict: seq<byte>, frames: seq<NullExpansion.Frame>): seq<Field>
    requires FramesFit(frames)
  {
    DictionaryField(dict) + Messages(2, FrameMessages(frames))
  }

  /** The frames are read back. */
  lemma {:induction false} FramesRead(lib: Libraries, dict: seq<byte>, buffers: seq<seq<byte>>,
                                      frames: seq<NullExpansion.Frame>)
    requires FramesFit(frames) && Compressed(lib, dict, buffers, frames) && |dict| < Pow2(64)
    ensures var m := ZstdFields(dict, frames);
            && (forall f | f in m :: f.Valid()) && Parse(Serialize(m), 0) == Some(m)
            && Num(m, 1) == |dict| && FramesOf(lib, m, dict, buffers) == Some(frames)
  {
    hide Pow2, Parse, Serialize, Field.Valid, Payloads, Wellformed, FramesFit, DictionaryField;
    var first, rest, ps := DictionaryField(dict), Messages(2, FrameMessages(frames)), FrameMessages(frames);
    forall f | f in rest ensures f.Valid() {
      var i :| 0 <= i < |rest| && rest[i] == f;
      FrameMessageOk(frames, i);
      SerializableField(2, ps[i]);
    }
    DictionaryFieldRead(dict);
    FewFrames(frames);
    RoundTrip(first + rest);
    MessagesRead(first, 2, ps);
    GetConcat(first, rest, 1);
    forall i: nat | i < |frames|
      ensures FrameOk(lib, dict, buffers[i], ps[i])
      ensures NullExpansion.Frame(lib.inflate(dict, buffers[i]).value, Num(ps[i], 2)) == frames[i]
    {
      FrameMessageOk(frames, i);
    }
    assert FramesOf(lib, first + rest, dict, buffers).value == frames;
  }

  lemma {:induction false} FewFrames(frames: seq<NullExpansion.Frame>)
    requires FramesFit(frames)
    ensures |frames| < MAX_FIELDS
  {
  }

  lemma {:induction false} SerializableField(tag: nat, msg: seq<Field>)
    requires 0 < tag < 8 && Wellformed(msg) && |Serialize(msg)| < Pow2(32)
    ensures Field(tag, 2, 0, Some(Serialize(msg))).Valid()
  {
    hide Serialize, Pow2, Field.Valid;
    MessageLength(tag, Serialize(msg));
  }

  /** Items in the valid rows, and blanks in the others. */
  function ItemRows(column: seq<NullExpansion.Item>, mask: seq<bool>, blank: NullExpansion.Item): (rows: seq<Cell>)
    requires |mask| == |column|
    ensures |rows| == |column|
  {
    seq(|column|, i requires 0 <= i < |column| => CellOf(mask[i], if mask[i] then column[i] else blank))
  }

  /** Strings are stored after their lengths, and words in the bytes of their type. */
  function ValueLayout(lib: Libraries, t: Type): NullExpansion.Layout {
    if IsString(t) then NullExpansion.Prefixed(CheckOf(lib, t)) else NullExpansion.Fixed(t.Width())
  }

  lemma {:induction false} LayoutIs(lib: Libraries, t: Type)
    requires IsString(t) || t.Width() > 0
    ensures LayoutOf(lib, t) == ValueLayout(lib, t) && ValueLayout(lib, t).Valid()
    ensures BlankItem(LayoutOf(lib, t)) == if IsString(t) then NullExpansion.Text([]) else NullExpansion.Number(0)
  {
  }

  /** Zstd, end to end: however the values of the valid rows are cut into frames, buffers
      that decompress to the frames, after a dictionary if there is one, make a node that
      reads as the values in the valid rows and nulls in the others. */
  lemma {:induction false} ZstdNodeReads(lib: Libraries, t: Type, groups: seq<seq<NullExpansion.Item>>,
                                         column: seq<NullExpansion.Item>, mask: seq<bool>, dict: seq<byte>,
                                         buffers: seq<seq<byte>>)
    returns (node: Node)
    requires (IsString(t) || t.Width() > 0) && |dict| < Pow2(64)
    requires forall g | g in groups :: NullExpansion.FitAll(ValueLayout(lib, t), g)
    requires FramesFit(NullExpansion.WriteFrames(ValueLayout(lib, t), groups))
    requires Compressed(lib, dict, buffers, NullExpansion.WriteFrames(ValueLayout(lib, t), groups))
    requires |mask| == |column| <= MAX_ROWS && Allows(t, mask)
    requires NullExpansion.Concat(groups) == NullExpansion.Project(column, Some(mask), |column|)
    ensures node.encoding == Zstd && node.buffers == if dict == [] then buffers else [dict] + buffers
    ensures var blank := if IsString(t) then NullExpansion.Text([]) else NullExpansion.Number(0);
            Reading(lib, node, t, |column|) == Some(ItemRows(column, mask, blank))
  {
    hide FramesFit, Compressed, Parse, Serialize, FramesOf, BitsNode, MaskReading, Reading, Encoded, ZstdFields, Pow2,
      NullExpansion.WriteFrames, NullExpansion.FitAll, NullExpansion.Stored, NullExpansion.Project,
      NullExpansion.Count, NullExpansion.Layout.Items, ItemRows, SpreadRows, Num;
    var layout, n := ValueLayout(lib, t), |column|;
    LayoutIs(lib, t);
    var frames := NullExpansion.WriteFrames(layout, groups);
    var m := ZstdFields(dict, frames);
    FramesRead(lib, dict, buffers, frames);
    NullExpansion.FramesWritten(layout, groups);
    node := Node(Zstd, Serialize(m), [BitsNode(mask)], if dict == [] then buffers else [dict] + buffers);
    assert dict != [] ==> node.buffers[0] == dict && node.buffers[1..] == buffers;
    MaskIs(lib, node, 0, mask);
    ItemsBack(column, mask, BlankItem(layout));
    assert ZstdReading(lib, node, m, t, n) == Some(ItemRows(column, mask, BlankItem(layout)));
    EncodedIs(lib, node, m, t, n);
    AllowedItems(t, column, mask, BlankItem(layout));
    ReadingIs(lib, node, m, t, n);
  }

  lemma {:induction false} AllowedItems(t: Type, column: seq<NullExpansion.Item>, mask: seq<bool>,
                                        blank: NullExpansion.Item)
    requires |mask| == |column| && Allows(t, mask)
    ensures t.nullable || AllValid(ItemRows(column, mask, blank))
  {
  }

  lemma {:induction false} ItemsBack(column: seq<NullExpansion.Item>, mask: seq<bool>, blank: NullExpansion.Item)
    requires |mask| == |column|
    ensures SpreadRows(NullExpansion.Project(column, Some(mask), |column|), mask, blank)
            == ItemRows(column, mask, blank)
  {
    hide NullExpansion.Project, NullExpansion.Count;
    var rows := SpreadRows(NullExpansion.Project(column, Some(mask), |column|), mask, blank);
    forall i: nat | i < |column| ensures rows[i] == ItemRows(column, mask, blank)[i] {
      if mask[i] { NullExpansion.ProjectAt(column, Some(mask), |column|, i); }
    }
  }
}
