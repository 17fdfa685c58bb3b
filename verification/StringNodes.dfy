/** Written string columns read back as their strings: ranges between offsets, and views
    that hold short strings themselves and point into buffers for long ones. */
module StringNodes {
  import opened Wrappers
  import opened Words
  import opened Types
  import opened Proto
  import opened Arrays
  import opened Readings
  import opened NodeRoundTrips
  import opened StoredNodes
  import BitStrings

  lemma {:induction false} AllowedTexts(t: Type, mask: seq<bool>, texts: seq<seq<byte>>)
    requires |texts| == |mask| && Allows(t, mask)
    ensures t.nullable || AllValid(StringRows(mask, texts))
  {
  }

  /** UTF-8 is asked of the valid rows of text columns, and of no others. */
  lemma {:induction false} WhichTextsAllowed(lib: Libraries, t: Type, mask: seq<bool>, texts: seq<seq<byte>>)
    requires |texts| == |mask|
    ensures TextsAllowed(lib, t, mask, texts)
            <==> t.kind == KUtf8 ==> forall i: nat | i < |mask| && mask[i] :: lib.utf8(texts[i])
  {
    if TextsAllowed(lib, t, mask, texts) && t.kind == KUtf8 {
      forall i: nat | i < |mask| && mask[i] ensures lib.utf8(texts[i]) { assert CheckOf(lib, t).Allows(texts[i]); }
    }
  }

  // ------------------------------------------------------------------------ ranges

  /** A range of bytes is a string. */
  predicate IsCut(b: seq<byte>, from: nat, to: nat, text: seq<byte>) { from <= to <= |b| && b[from..to] == text }

  predicate CutAt(b: seq<byte>, offsets: seq<nat>, i: nat, text: seq<byte>)
    requires i + 1 < |offsets|
  {
    IsCut(b, offsets[i], offsets[i + 1], text)
  }

  /** The ranges between consecutive offsets hold the strings. */
  predicate Cuts(b: seq<byte>, offsets: seq<nat>, texts: seq<seq<byte>>) {
    |offsets| == |texts| + 1 && forall i: nat | i < |texts| :: CutAt(b, offsets, i, texts[i])
  }

  lemma {:induction false} RangesCut(b: seq<byte>, offsets: seq<nat>, texts: seq<seq<byte>>)
    requires Cuts(b, offsets, texts)
    ensures RangesOf(b, offsets, |texts|) == Some(texts)
  {
    forall i: nat | i < |texts| ensures Range(b, offsets[i], offsets[i + 1]) == Some(texts[i]) {
      assert CutAt(b, offsets, i, texts[i]);
    }
    assert RangesOf(b, offsets, |texts|).value == texts;
  }

  /** VarBin, end to end: over any children that read as the offsets and the validity, the
      node reads as the strings between the offsets. */
  lemma {:induction false} VarBinNodeReads(lib: Libraries, node: Node, m: seq<Field>, t: Type, offsets: seq<nat>,
                                           texts: seq<seq<byte>>, mask: seq<bool>)
    requires node.encoding == VarBin && IsString(t) && |node.buffers| == 1 && Parse(node.metadata, 0) == Some(m)
    requires |mask| == |texts| <= MAX_ROWS && Allows(t, mask) && TextsAllowed(lib, t, mask, texts)
    requires Cuts(node.buffers[0], offsets, texts) && IntegerType(Num(m, 1), false).Some?
    requires WordsReading(lib, node, 0, IntegerType(Num(m, 1), false).value, |offsets|) == Some(offsets)
    requires MaskReading(lib, node, 1, |texts|) == Some(mask)
    ensures Reading(lib, node, t, |texts|) == Some(StringRows(mask, texts))
  {
    hide Parse, Num, Encoded, Reading, WordsReading, MaskReading, TextsAllowed, StringRows, Cuts, RangesOf;
    assert |offsets| == |texts| + 1 by { CutsCount(node.buffers[0], offsets, texts); }
    RangesCut(node.buffers[0], offsets, texts);
    assert VarBinReading(lib, node, m, t, |texts|) == Some(StringRows(mask, texts));
    EncodedIs(lib, node, m, t, |texts|);
    AllowedTexts(t, mask, texts);
    ReadingIs(lib, node, m, t, |texts|);
  }

  lemma {:induction false} CutsCount(b: seq<byte>, offsets: seq<nat>, texts: seq<seq<byte>>)
    requires Cuts(b, offsets, texts)
    ensures |offsets| == |texts| + 1
  {
  }

  // ------------------------------------------------------------------------- views

  /** Where a string of more than 12 bytes is: a buffer and an offset in it. */
  datatype Place = Place(buffer: nat, offset: nat)

  /** A string that a view can describe: a short one, or one that is at its place. */
  predicate Placed(buffers: seq<seq<byte>>, text: seq<byte>, at: Place) {
    |text| > 12 ==>
      && |text| < Pow2(32) && at.buffer < |buffers| && at.buffer < Pow2(32) && at.offset < Pow2(32)
      && at.offset + |text| <= |buffers[at.buffer]|
      && buffers[at.buffer][at.offset..at.offset + |text|] == text
  }

  /** The 16 bytes of a view: the length, and then the string itself with any padding, or
      its first four bytes, its buffer and its offset. */
  function WriteView(text: seq<byte>, at: Place, padding: seq<byte>): (v: seq<byte>)
    requires |text| <= 12 ==> |padding| == 12 - |text|
    ensures |v| == 16
  {
    BitStrings.WriteLittleEndian(|text|, 4)
    + if |text| <= 12 then text + padding
      else text[..4] + (BitStrings.WriteLittleEndian(at.buffer, 4) + BitStrings.WriteLittleEndian(at.offset, 4))
  }

  lemma {:induction false} ViewRead(buffers: seq<seq<byte>>, views: seq<byte>, text: seq<byte>, at: Place,
                                    padding: seq<byte>)
    requires Placed(buffers, text, at) && (|text| <= 12 ==> |padding| == 12 - |text|)
    ensures ViewText(buffers + [views], WriteView(text, at, padding)) == Some(text)
  {
    hide Pow2, BitStrings.LittleEndian, BitStrings.WriteLittleEndian;
    var v := WriteView(text, at, padding);
    Powers();
    if |text| <= 12 {
      BitStrings.LittleEndianWritten(|text|, 4, text + padding);
      assert v[4..4 + |text|] == text;
    } else {
      var k, o := BitStrings.WriteLittleEndian(at.buffer, 4), BitStrings.WriteLittleEndian(at.offset, 4);
      BitStrings.LittleEndianWritten(|text|, 4, text[..4] + (k + o));
      BitStrings.LittleEndianWritten(at.buffer, 4, o);
      BitStrings.LittleEndianWritten(at.offset, 4, []);
      assert v[8..] == k + o && v[12..] == o + [] && v[4..8] == text[..4];
    }
  }

  /** A column of strings with the views that a writer makes of them. */
  datatype Views = Views(buffers: seq<seq<byte>>, texts: seq<seq<byte>>, places: seq<Place>, padding: seq<seq<byte>>,
                         mask: seq<bool>)
  {
    predicate Valid() {
      && |places| == |padding| == |mask| == |texts|
      && (forall i: nat | i < |texts| :: Placed(buffers, texts[i], places[i]))
      && (forall i: nat | i < |texts| :: |texts[i]| <= 12 ==> |padding[i]| == 12 - |texts[i]|)
    }

    function Node(): (node: Readings.Node)
      requires Valid()
      ensures node.encoding == VarBinView && |node.buffers| == |buffers| + 1
      ensures |node.buffers[|buffers|]| == 16 * |texts|
    {
      var f := (i: nat) requires i < |texts| => WriteView(texts[i], places[i], padding[i]);
      BitStrings.FlattenPiece(f, |texts|, 16, 0);
      Readings.Node(VarBinView, [], [BitsNode(mask)], buffers + [BitStrings.Flatten(f, |texts|)])
    }

    /** The strings of the valid rows; a null row has none. */
    function Texts(): (r: seq<seq<byte>>)
      requires Valid()
      ensures |r| == |mask|
    {
      seq(|texts|, i requires 0 <= i < |texts| => if mask[i] then texts[i] else [])
    }

    lemma {:induction false} ViewsRead(i: nat)
      requires Valid() && i < |texts|
      ensures ViewAt(Node().buffers, mask, i) == Some(Texts()[i])
    {
      hide WriteView, Placed, ViewText, BitsNode;
      var f := (i: nat) requires i < |texts| => WriteView(texts[i], places[i], padding[i]);
      BitStrings.FlattenPiece(f, |texts|, 16, i);
      var views := BitStrings.Flatten(f, |texts|);
      ViewRead(buffers, views, texts[i], places[i], padding[i]);
    }
  }

  /** Views, end to end: however the strings are placed in however many buffers, the node
      with their views reads as the strings and nulls. */
  lemma {:induction false} ViewNodeReads(lib: Libraries, t: Type, v: Views)
    requires v.Valid() && IsString(t) && |v.texts| <= MAX_ROWS && Allows(t, v.mask)
    requires TextsAllowed(lib, t, v.mask, v.Texts())
    ensures Reading(lib, v.Node(), t, |v.texts|) == Some(StringRows(v.mask, v.Texts()))
  {
    hide Encoded, Reading, MaskReading, TextsAllowed, StringRows, ViewAt, BitsNode, Views.Texts;
    var node, n := v.Node(), |v.texts|;
    assert Parse([], 0) == Some([]);
    MaskIs(lib, node, 0, v.mask);
    forall i: nat | i < n ensures ViewAt(node.buffers, v.mask, i) == Some(v.Texts()[i]) { v.ViewsRead(i); }
    TextsFound(lib, node, t, v.mask, v.Texts());
    EncodedIs(lib, node, [], t, n);
    AllowedTexts(t, v.mask, v.Texts());
    ReadingIs(lib, node, [], t, n);
  }

  lemma {:induction false} TextsFound(lib: Libraries, node: Node, t: Type, mask: seq<bool>, texts: seq<seq<byte>>)
    requires IsString(t) && |texts| == |mask| && MaskReading(lib, node, 0, |mask|) == Some(mask)
    requires |node.buffers| > 0 && |node.buffers[|node.buffers| - 1]| == |mask| * 16
    requires forall i: nat | i < |mask| :: ViewAt(node.buffers, mask, i) == Some(texts[i])
    requires TextsAllowed(lib, t, mask, texts)
    ensures ViewReading(lib, node, t, |mask|) == Some(StringRows(mask, texts))
  {
    hide MaskReading, StringRows, ViewAt, TextsAllowed;
    var found := seq(|mask|, i requires 0 <= i < |mask| => ViewAt(node.buffers, mask, i).value);
    assert found == texts;
  }
}
