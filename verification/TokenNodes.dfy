/** Written nodes of strings made of tokens read back as their strings: FSST, whatever cover
    the writer chose, and OnPair, whatever tokens the dictionary has. */
module TokenNodes {
  import opened Wrappers
  import opened Words
  import opened Types
  import opened Proto
  import opened Arrays
  import opened Readings
  import opened NodeRoundTrips
  import opened StoredNodes
  import opened StringNodes
  import Tokens

  function LengthsOf(texts: seq<seq<byte>>): (lens: seq<nat>)
    ensures |lens| == |texts|
  {
    seq<nat>(|texts|, i requires 0 <= i < |texts| => |texts[i]|)
  }

  /** Strings, empty in null rows, and a writer's cover of every valid one by the symbols
      and escapes of a table. */
  datatype Cover = Cover(table: Tokens.Table, tokens: seq<seq<Tokens.Token>>, texts: seq<seq<byte>>, mask: seq<bool>) {
    predicate InTable() {
      table.Valid() && forall i: nat | i < |tokens| :: forall x | x in tokens[i] :: x.In(table)
    }

    predicate Valid() {
      && InTable() && |tokens| == |texts| == |mask|
      && forall i: nat | i < |tokens| :: texts[i] == if mask[i] then Tokens.Meaning(table, tokens[i]) else []
    }

    function Codes(): (codes: seq<seq<byte>>)
      requires InTable()
      ensures |codes| == |tokens|
    {
      seq(|tokens|, i requires 0 <= i < |tokens| => Tokens.Codes(table, tokens[i]))
    }

    lemma {:induction false} Expands(lib: Libraries, t: Type)
      requires Valid() && TextsAllowed(lib, t, mask, texts)
      ensures Tokens.AllExpand(table, Codes(), LengthsOf(texts), Some(mask), CheckOf(lib, t))
      ensures Expanded(table, StringRows(mask, Codes())) == StringRows(mask, texts)
    {
      hide Tokens.Table.Expand, Tokens.Table.Valid, CheckOf, Tokens.Codes, Tokens.Meaning, Tokens.Token.In;
      var codes, rows := Codes(), Expanded(table, StringRows(mask, Codes()));
      forall i: nat | i < |texts|
        ensures mask[i] ==> table.Expand(codes[i]) == Some(texts[i])
        ensures rows[i] == StringRows(mask, texts)[i]
      {
        if mask[i] { Tokens.CoverDecodes(table, tokens[i]); }
      }
    }
  }

  lemma {:induction false} CodesBack(mask: seq<bool>, codes: seq<seq<byte>>)
    requires |codes| == |mask|
    ensures TextsOf(StringRows(mask, codes)) == codes && ValidsOf(StringRows(mask, codes)) == mask
  {
  }

  /** The codes of a cover as a child, or as ranges of a third buffer; and the lengths of the
      strings. */
  ghost predicate CoverStored(lib: Libraries, node: Node, m: seq<Field>, t: Type, c: Cover, offsets: seq<nat>)
    requires c.Valid()
  {
    && IntegerType(Num(m, 1), false).Some?
    && var lt, n := IntegerType(Num(m, 1), false).value, |c.texts|;
       if node.buffers == [c.table.symbols, c.table.sizes] then
         && ChildReading(lib, node, 0, Plain(KBinary, t.nullable), n) == Some(StringRows(c.mask, c.Codes()))
         && WordsReading(lib, node, 1, lt, n) == Some(LengthsOf(c.texts))
       else
         && |node.buffers| == 3 && node.buffers[..2] == [c.table.symbols, c.table.sizes]
         && IntegerType(Num(m, 2), false).Some? && Cuts(node.buffers[2], offsets, c.Codes())
         && WordsReading(lib, node, 0, lt, n) == Some(LengthsOf(c.texts))
         && WordsReading(lib, node, 1, IntegerType(Num(m, 2), false).value, n + 1) == Some(offsets)
         && MaskReading(lib, node, 2, n) == Some(c.mask)
  }

  lemma {:induction false} CoverFound(lib: Libraries, node: Node, m: seq<Field>, t: Type, c: Cover, offsets: seq<nat>)
    requires c.Valid() && CoverStored(lib, node, m, t, c, offsets)
    ensures FsstCells(lib, node, m, t, |c.texts|) == Some((StringRows(c.mask, c.Codes()), LengthsOf(c.texts)))
    ensures |node.buffers| >= 2 && node.buffers[0] == c.table.symbols && node.buffers[1] == c.table.sizes
  {
    hide Num, ChildReading, WordsReading, MaskReading, StringRows, Cover.Codes, LengthsOf, RangesOf, Cuts;
    if node.buffers != [c.table.symbols, c.table.sizes] {
      CutsCount(node.buffers[2], offsets, c.Codes());
      RangesCut(node.buffers[2], offsets, c.Codes());
      assert node.buffers[..2][0] == node.buffers[0] && node.buffers[..2][1] == node.buffers[1];
    }
  }

  /** FSST, end to end: over any children that read as the codes of a cover, or as the
      offsets and the validity of codes in a buffer, and as the lengths of the strings, the
      node reads as the strings. */
  lemma {:induction false} FsstNodeReads(lib: Libraries, node: Node, m: seq<Field>, t: Type, c: Cover,
                                         offsets: seq<nat>)
    requires node.encoding == Fsst && IsString(t) && Parse(node.metadata, 0) == Some(m)
    requires c.Valid() && |c.texts| <= MAX_ROWS && Allows(t, c.mask) && TextsAllowed(lib, t, c.mask, c.texts)
    requires CoverStored(lib, node, m, t, c, offsets)
    ensures Reading(lib, node, t, |c.texts|) == Some(StringRows(c.mask, c.texts))
  {
    hide Parse, Encoded, Reading, FsstCells, CoverStored, TextsAllowed, Cover.Codes, LengthsOf, StringRows,
      Tokens.Table.Expand, Tokens.Table.Valid, Expanded, CheckOf, Tokens.AllExpand;
    var n := |c.texts|;
    CoverFound(lib, node, m, t, c, offsets);
    CodesBack(c.mask, c.Codes());
    c.Expands(lib, t);
    assert FsstReading(lib, node, m, t, n) == Some(StringRows(c.mask, c.texts));
    EncodedIs(lib, node, m, t, n);
    AllowedTexts(t, c.mask, c.texts);
    ReadingIs(lib, node, m, t, n);
  }

  // ------------------------------------------------------------------------ OnPair

  /** The tokens that some codes name. */
  function Picked(tokens: seq<seq<byte>>, codes: seq<nat>): (r: seq<seq<byte>>)
    requires forall k | 0 <= k < |codes| :: codes[k] < |tokens|
    ensures |r| == |codes|
  {
    seq(|codes|, k requires 0 <= k < |codes| => tokens[codes[k]])
  }

  lemma {:induction false} NamedIsPicked(tokens: seq<seq<byte>>, codes: seq<nat>, rest: seq<nat>)
    requires forall k | 0 <= k < |codes| :: codes[k] < |tokens|
    ensures Tokens.Named(tokens, codes + rest)
            == Append(Some(Tokens.Blob(Picked(tokens, codes))), Tokens.Named(tokens, rest))
    decreases |codes|
  {
    if codes == [] {
      assert codes + rest == rest;
      AppendEmpty(Tokens.Named(tokens, rest));
    } else {
      var last := |codes| - 1;
      var before, picked := codes[..last], Picked(tokens, codes);
      NamedIsPicked(tokens, before, [codes[last]] + rest);
      assert codes + rest == before + ([codes[last]] + rest);
      assert ([codes[last]] + rest)[1..] == rest;
      assert picked[..last] == Picked(tokens, before);
      AppendAssoc(Tokens.Blob(picked[..last]), Some(picked[last]), Tokens.Named(tokens, rest));
    }
  }

  /** A dictionary of tokens, a stream of codes, where the codes of every row begin, and the
      strings of the rows, empty in null rows. */
  datatype Naming = Naming(tokens: seq<seq<byte>>, codes: seq<nat>, bounds: seq<nat>, texts: seq<seq<byte>>,
                           mask: seq<bool>)
  {
    predicate RowOk(i: nat)
      requires i < |texts| == |mask| && |bounds| == |texts| + 1
    {
      if mask[i] then
        && bounds[i] <= bounds[i + 1] <= |codes|
        && (forall k: nat | bounds[i] <= k < bounds[i + 1] :: codes[k] < |tokens|)
        && texts[i] == Tokens.Blob(Picked(tokens, codes[bounds[i]..bounds[i + 1]]))
      else texts[i] == []
    }

    predicate Valid() {
      && (forall x | x in tokens :: x != []) && |mask| == |texts| && |bounds| == |texts| + 1
      && forall i: nat | i < |texts| :: RowOk(i)
    }

    lemma {:induction false} RowSpelled(i: nat)
      requires Valid() && i < |texts| && mask[i]
      ensures Tokens.RowText(tokens, codes, bounds[i], bounds[i + 1]) == Some(texts[i])
    {
      hide Tokens.Blob, Tokens.Named, Picked;
      assert RowOk(i);
      var row := codes[bounds[i]..bounds[i + 1]];
      NamedIsPicked(tokens, row, []);
      assert row + [] == row && Tokens.Named(tokens, []) == Some([]) by { NothingNamed(tokens); }
      AppendNothing(Tokens.Blob(Picked(tokens, row)));
    }

    lemma {:induction false} Spelled(lib: Libraries, t: Type)
      requires Valid() && TextsAllowed(lib, t, mask, texts)
      ensures Tokens.AllName(tokens, codes, bounds, LengthsOf(texts), Some(mask), CheckOf(lib, t))
      ensures NamedRows(tokens, codes, bounds, mask) == StringRows(mask, texts)
    {
      hide Tokens.RowText, CheckOf;
      forall i: nat | i < |texts|
        ensures mask[i] ==>
                  Tokens.RowNames(tokens, codes, bounds[i], bounds[i + 1], LengthsOf(texts)[i], CheckOf(lib, t))
        ensures NamedRows(tokens, codes, bounds, mask)[i] == StringRows(mask, texts)[i]
      {
        if mask[i] { RowSpelled(i); } else { assert RowOk(i); }
      }
    }
  }

  lemma {:induction false} NothingNamed(tokens: seq<seq<byte>>)
    ensures Tokens.Named(tokens, []) == Some([])
  {
  }

  /** The tokens of a written dictionary. */
  lemma {:induction false} TokensFound(tokens: seq<seq<byte>>, m: seq<Field>)
    requires (forall x | x in tokens :: x != []) && Num(m, 3) == |tokens| && UnsignedType(Num(m, 6), false).Some?
    requires var width := UnsignedType(Num(m, 6), false).value.Width(); width < 8 ==> |tokens| <= Pow2(8 * width)
    ensures TokensOf(Tokens.Blob(tokens), m, Tokens.Offsets(tokens)) == Some(tokens)
  {
    hide Tokens.Blob, Tokens.Offsets, Num, UnsignedType, Pow2, Tokens.Ranges;
    Tokens.DictionaryRoundTrip(tokens);
    assert TokensOf(Tokens.Blob(tokens), m, Tokens.Offsets(tokens)).value == tokens;
  }

  /** The dictionary's offsets, the codes, and the bounds and lengths of the rows as children,
      and the validity after them. */
  ghost predicate NamingStored(lib: Libraries, node: Node, m: seq<Field>, c: Naming) {
    && (forall k: nat | k == 1 || 5 <= k <= 7 :: UnsignedType(Num(m, k), false).Some?)
    && Num(m, 3) == |c.tokens| <= MAX_ROWS && Num(m, 4) == |c.codes| && |c.bounds| == |c.texts| + 1
    && WordsReading(lib, node, 0, UnsignedType(Num(m, 5), false).value, |c.tokens| + 1)
       == Some(Tokens.Offsets(c.tokens))
    && WordsReading(lib, node, 1, UnsignedType(Num(m, 6), false).value, |c.codes|) == Some(c.codes)
    && WordsReading(lib, node, 2, UnsignedType(Num(m, 7), false).value, |c.bounds|) == Some(c.bounds)
    && WordsReading(lib, node, 3, UnsignedType(Num(m, 1), false).value, |c.texts|) == Some(LengthsOf(c.texts))
    && MaskReading(lib, node, 4, |c.texts|) == Some(c.mask)
  }

  lemma {:induction false} NamingFound(lib: Libraries, node: Node, m: seq<Field>, c: Naming)
    requires NamingStored(lib, node, m, c)
    ensures OnPairColumns(lib, node, m, |c.texts|)
            == Some(OnPairCells(Tokens.Offsets(c.tokens), c.codes, c.bounds, LengthsOf(c.texts)))
    ensures MaskReading(lib, node, 4, |c.texts|) == Some(c.mask) && |c.mask| == |c.texts|
    ensures Num(m, 3) == |c.tokens| && UnsignedType(Num(m, 6), false).Some?
  {
    hide Num, WordsReading, MaskReading, UnsignedType, LengthsOf, Tokens.Offsets;
  }

  /** OnPair, end to end: over any children that read as its columns, the node reads as the
      strings that the codes spell. */
  lemma {:induction false} OnPairNodeReads(lib: Libraries, node: Node, m: seq<Field>, t: Type, c: Naming)
    requires node.encoding == OnPair && IsString(t) && node.buffers == [Tokens.Blob(c.tokens)]
    requires Parse(node.metadata, 0) == Some(m) && c.Valid() && |c.texts| <= MAX_ROWS
    requires Allows(t, c.mask) && TextsAllowed(lib, t, c.mask, c.texts) && NamingStored(lib, node, m, c)
    requires var width := UnsignedType(Num(m, 6), false).value.Width(); width < 8 ==> |c.tokens| <= Pow2(8 * width)
    ensures Reading(lib, node, t, |c.texts|) == Some(StringRows(c.mask, c.texts))
  {
    hide Parse, Num, Encoded, Reading, MaskReading, OnPairColumns, NamingStored, TextsAllowed, UnsignedType,
      StringRows, TokensOf, Tokens.Blob, Tokens.Offsets, Tokens.AllName, NamedRows, CheckOf, LengthsOf, Naming.RowOk;
    var n := |c.texts|;
    NamingFound(lib, node, m, c);
    TokensFound(c.tokens, m);
    c.Spelled(lib, t);
    assert OnPairReading(lib, node, m, t, n) == Some(StringRows(c.mask, c.texts));
    EncodedIs(lib, node, m, t, n);
    AllowedTexts(t, c.mask, c.texts);
    ReadingIs(lib, node, m, t, n);
  }
}
