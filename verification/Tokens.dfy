/** String encodings whose rows name tokens of a table: FSST, with escapes, and OnPair,
    with a dictionary of token ranges. Decoding concatenates the named tokens. */
module Tokens {
  import opened Wrappers
  import opened Words
  import opened Decoders

  /** UTF-8 validation, by a library, applies to text columns only. */
  datatype Check = Check(text: bool, utf8: seq<byte> -> bool) {
    predicate Allows(b: seq<byte>) { text ==> utf8(b) }
  }

  /** Bytes declared by the valid rows below `n`. */
  function Declared(lens: seq<nat>, valid: Option<seq<bool>>, n: nat): nat
    requires n <= |lens| && (valid.Some? ==> |valid.value| == |lens|)
  {
    if n == 0 then 0
    else Declared(lens, valid, n - 1) + (if IsValid(valid, n - 1) then lens[n - 1] else 0)
  }

  predicate IsValid(valid: Option<seq<bool>>, i: nat)
    requires valid.Some? ==> i < |valid.value|
  {
    valid.None? || valid.value[i]
  }

  lemma {:induction false} DeclaredMono(lens: seq<nat>, valid: Option<seq<bool>>, i: nat, n: nat)
    requires i <= n <= |lens| && (valid.Some? ==> |valid.value| == |lens|)
    ensures Declared(lens, valid, i) <= Declared(lens, valid, n)
    decreases n
  {
    if i < n { DeclaredMono(lens, valid, i, n - 1); }
  }

  // ------------------------------------------------------------------------ FSST

  const ESCAPE: nat := 255

  /** Eight bytes a symbol, of which the first `sizes[code]` count. */
  datatype Table = Table(symbols: seq<byte>, sizes: seq<byte>) {
    predicate Valid() {
      |symbols| == 8 * |sizes| && |sizes| <= 255 && forall s | s in sizes :: s <= 8
    }

    predicate Has(code: nat) { code < |sizes| && sizes[code] != 0 }

    function Symbol(code: nat): (b: seq<byte>)
      requires Valid() && Has(code)
      ensures 0 < |b| <= 8
    {
      assert sizes[code] in sizes;
      symbols[code * 8..code * 8 + sizes[code]]
    }

    /** The string of a row of codes, if all its codes are good. */
    function Expand(c: seq<byte>): (r: Option<seq<byte>>)
      requires Valid()
    {
      if c == [] then Some([])
      else if c[0] == ESCAPE then
        if |c| < 2 then None else Append(Some([c[1]]), Expand(c[2..]))
      else if !Has(c[0]) then None
      else Append(Some(Symbol(c[0])), Expand(c[1..]))
    }
  }

  /** What one code stands for: 255 for the byte after it, and a code of the table for its
      first `sizes[code]` bytes of eight; an unused code and a lone 255 stand for nothing. */
  lemma {:induction false} CodeMeans(table: Table, code: nat, rest: seq<byte>)
    requires table.Valid() && code < 256
    ensures code == 255 ==>
              table.Expand([code] + rest)
              == if rest == [] then None else Append(Some([rest[0]]), table.Expand(rest[1..]))
    ensures code < |table.sizes| && table.sizes[code] > 0 ==>
              8 * code + table.sizes[code] <= |table.symbols|
              && table.Expand([code] + rest)
                 == Append(Some(table.symbols[8 * code..8 * code + table.sizes[code]]), table.Expand(rest))
    ensures code < 255 && (code >= |table.sizes| || table.sizes[code] == 0) ==> table.Expand([code] + rest) == None
    ensures table.Expand([]) == Some([])
  {
    var c := [code] + rest;
    assert c[1..] == rest;
    if rest != [] { assert c[2..] == rest[1..]; }
    if code < |table.sizes| { assert table.sizes[code] in table.sizes; }
  }

  /** The loop over the codes of one row. */
  method ExpandRow(table: Table, c: seq<byte>, expected: nat) returns (r: Option<seq<byte>>)
    requires table.Valid()
    ensures r.Some? <==> table.Expand(c).Some? && |table.Expand(c).value| == expected
    ensures r.Some? ==> r == table.Expand(c)
  {
    hide Table.Symbol, Table.Has;
    var b: seq<byte>, j := [], 0;
    AppendEmpty(table.Expand(c));
    assert c[0..] == c;
    while j < |c|
      invariant 0 <= j <= |c| && |b| <= expected
      invariant table.Expand(c) == Append(Some(b), table.Expand(c[j..]))
    {
      var code := c[j];
      if code == ESCAPE {
        j := j + 1;
        if j >= |c| { return None; }
        assert c[j - 1..][2..] == c[j + 1..] && c[j - 1..][1] == c[j];
        AppendAssoc(b, Some([c[j]]), table.Expand(c[j + 1..]));
        if |b| + 1 > expected { return None; }
        b := b + [c[j]];
      } else {
        if !table.Has(code) { return None; }
        assert c[j..][1..] == c[j + 1..];
        AppendAssoc(b, Some(table.Symbol(code)), table.Expand(c[j + 1..]));
        if |b| + |table.Symbol(code)| > expected { return None; }
        b := b + table.Symbol(code);
      }
      j := j + 1;
    }
    AppendNothing(b);
    if |b| != expected { return None; }
    r := Some(b);
  }

  /** A row is good when its codes expand to a string of the declared length. */
  predicate RowExpands(table: Table, c: seq<byte>, expected: nat, check: Check)
    requires table.Valid()
  {
    var b := table.Expand(c);
    b.Some? && |b.value| == expected && check.Allows(b.value)
  }

  /** Every valid row is good. */
  predicate AllExpand(table: Table, codes: seq<seq<byte>>, lens: seq<nat>, valid: Option<seq<bool>>, check: Check)
    requires table.Valid() && |lens| == |codes| && (valid.Some? ==> |valid.value| == |codes|)
  {
    forall i: nat | i < |codes| && IsValid(valid, i) :: RowExpands(table, codes[i], lens[i], check)
  }

  /** The loop of `fsst` over the rows: accepted exactly when every valid row is good and
      the declared bytes fit into the budget, which pays for exactly those bytes. */
  method ExpandRows(d: Decoder, table: Table, codes: seq<seq<byte>>, lens: seq<nat>, valid: Option<seq<bool>>,
      check: Check)
    returns (r: Option<seq<seq<byte>>>)
    requires table.Valid() && |lens| == |codes| && (valid.Some? ==> |valid.value| == |codes|)
    modifies d`remaining, d`refused
    ensures d.remaining <= old(d.remaining)
    ensures r.Some? <==> Declared(lens, valid, |lens|) <= old(d.remaining)
                         && AllExpand(table, codes, lens, valid, check)
    ensures r.Some? ==> d.remaining == old(d.remaining) - Declared(lens, valid, |lens|) && d.refused == old(d.refused)
    ensures r.None? ==> d.refused || !AllExpand(table, codes, lens, valid, check)
    ensures old(d.remaining) <= d.remaining + Declared(lens, valid, |lens|)
    ensures Declared(lens, valid, |lens|) <= old(d.remaining) ==> d.refused == old(d.refused)
    ensures r.Some? ==> |r.value| == |codes| && forall i: nat | i < |codes| ::
              Some(r.value[i]) == if IsValid(valid, i) then table.Expand(codes[i]) else Some([])
  {
    hide Table.Expand, Table.Valid, Check.Allows;
    var out: seq<seq<byte>> := [];
    for i := 0 to |codes|
      invariant |out| == i && Declared(lens, valid, i) <= old(d.remaining)
      invariant d.remaining == old(d.remaining) - Declared(lens, valid, i) && d.refused == old(d.refused)
      invariant forall k: nat | k < i ::
                  if IsValid(valid, k) then
                    RowExpands(table, codes[k], lens[k], check) && Some(out[k]) == table.Expand(codes[k])
                  else out[k] == []
    {
      if !IsValid(valid, i) {
        out := out + [[]];
        continue;
      }
      DeclaredMono(lens, valid, i + 1, |lens|);
      var ok := d.Reserve(lens[i]);
      if !ok { return None; }
      var b := ExpandRow(table, codes[i], lens[i]);
      if b.None? || !check.Allows(b.value) { return None; }
      out := out + [b.value];
    }
    r := Some(out);
  }

  /** A writer's cover of a string. */
  datatype Token = Symbol(code: nat) | Escaped(b: byte) {
    predicate In(table: Table) { Symbol? ==> table.Has(code) }

    function Codes(table: Table): seq<byte>
      requires table.Valid() && In(table)
    {
      if Symbol? then [code] else [ESCAPE, b]
    }

    function Meaning(table: Table): seq<byte>
      requires table.Valid() && In(table)
    {
      if Symbol? then table.Symbol(code) else [b]
    }
  }

  function Codes(table: Table, tokens: seq<Token>): seq<byte>
    requires table.Valid() && forall t | t in tokens :: t.In(table)
  {
    if tokens == [] then [] else tokens[0].Codes(table) + Codes(table, tokens[1..])
  }

  function Meaning(table: Table, tokens: seq<Token>): seq<byte>
    requires table.Valid() && forall t | t in tokens :: t.In(table)
  {
    if tokens == [] then [] else tokens[0].Meaning(table) + Meaning(table, tokens[1..])
  }

  /** Any cover of a string by symbols and escapes decodes back to the string. */
  lemma {:induction false} CoverDecodes(table: Table, tokens: seq<Token>)
    requires table.Valid() && forall t | t in tokens :: t.In(table)
    ensures table.Expand(Codes(table, tokens)) == Some(Meaning(table, tokens))
  {
    if tokens != [] {
      assert tokens[0] in tokens;
      CoverDecodes(table, tokens[1..]);
      var c, rest := Codes(table, tokens), Codes(table, tokens[1..]);
      if tokens[0].Symbol? {
        assert c == [tokens[0].code] + rest && c[1..] == rest && table.Has(c[0]) && c[0] != ESCAPE;
        assert table.Expand(c) == Append(Some(table.Symbol(c[0])), table.Expand(rest));
      } else {
        assert c == [ESCAPE, tokens[0].b] + rest && c[2..] == rest && c[1] == tokens[0].b;
      }
    }
  }

  ghost predicate Covers(table: Table, c: seq<byte>, b: seq<byte>, tokens: seq<Token>)
    requires table.Valid()
  {
    (forall t | t in tokens :: t.In(table)) && Codes(table, tokens) == c && Meaning(table, tokens) == b
  }

  /** A row decodes to a string exactly when it is a cover of that string. */
  lemma {:induction false} ExpandsIffCovered(table: Table, c: seq<byte>, b: seq<byte>)
    requires table.Valid()
    ensures table.Expand(c) == Some(b) <==> exists tokens :: Covers(table, c, b, tokens)
  {
    hide Table.Expand, Table.Valid;
    if table.Expand(c) == Some(b) { var tokens := CoverOf(table, c); }
    if tokens :| Covers(table, c, b, tokens) { CoverDecodes(table, tokens); }
  }

  lemma {:induction false} CoverOf(table: Table, c: seq<byte>) returns (tokens: seq<Token>)
    requires table.Valid() && table.Expand(c).Some?
    ensures Covers(table, c, table.Expand(c).value, tokens)
    decreases |c|
  {
    hide Table.Symbol;
    if c == [] {
      tokens := [];
    } else if c[0] == ESCAPE {
      var rest := CoverOf(table, c[2..]);
      tokens := [Escaped(c[1])] + rest;
      assert tokens[1..] == rest && c == [c[0], c[1]] + c[2..];
    } else {
      var rest := CoverOf(table, c[1..]);
      tokens := [Symbol(c[0])] + rest;
      assert tokens[1..] == rest && c == [c[0]] + c[1..];
    }
  }

  // ---------------------------------------------------------------------- OnPair

  /** Token `i` is the non-empty range between two consecutive offsets. */
  predicate Resolvable(dict: seq<byte>, offsets: seq<nat>) {
    |offsets| > 0 && forall i: nat | i < |offsets| - 1 :: Ranges(dict, offsets, i)
  }

  predicate Ranges(dict: seq<byte>, offsets: seq<nat>, i: nat)
    requires i + 1 < |offsets|
  {
    offsets[i] < offsets[i + 1] <= |dict|
  }

  /** `token` is the range between offsets `i` and `i + 1`. */
  predicate IsToken(dict: seq<byte>, offsets: seq<nat>, i: nat, token: seq<byte>)
    requires i + 1 < |offsets|
  {
    offsets[i] < offsets[i + 1] <= |dict| && token == dict[offsets[i]..offsets[i + 1]]
  }

  /** The loop that resolves the dictionary. */
  method Resolve(dict: seq<byte>, offsets: seq<nat>) returns (r: Option<seq<seq<byte>>>)
    requires |offsets| > 0
    ensures r.Some? <==> Resolvable(dict, offsets)
    ensures r.Some? ==> |r.value| == |offsets| - 1
    ensures r.Some? ==> forall i: nat | i < |r.value| :: IsToken(dict, offsets, i, r.value[i])
  {
    var tokens: seq<seq<byte>>, prev := [], 0;
    for i := 0 to |offsets| - 1
      invariant |tokens| == i && (i > 0 ==> prev == offsets[i]) && (i == 0 ==> prev == 0)
      invariant forall k: nat | k < i :: IsToken(dict, offsets, k, tokens[k]) && Ranges(dict, offsets, k)
    {
      var a, b := offsets[i], offsets[i + 1];
      assert Ranges(dict, offsets, i) == (a < b <= |dict|);
      if a < prev || a > b || b > |dict| { return None; }
      if a == b { return None; }
      prev := b;
      tokens := tokens + [dict[a..b]];
    }
    r := Some(tokens);
  }

  /** The named tokens one after the other, if all codes name a token. */
  function Named(tokens: seq<seq<byte>>, codes: seq<nat>): Option<seq<byte>> {
    if codes == [] then Some([])
    else if codes[0] >= |tokens| then None
    else Append(Some(tokens[codes[0]]), Named(tokens, codes[1..]))
  }

  /** A string of non-empty tokens has at least as many bytes as codes. */
  lemma {:induction false} NamedLength(tokens: seq<seq<byte>>, codes: seq<nat>)
    requires Named(tokens, codes).Some? && forall t | t in tokens :: t != []
    ensures |codes| <= |Named(tokens, codes).value|
  {
    if codes != [] {
      NamedLength(tokens, codes[1..]);
      assert tokens[codes[0]] in tokens;
    }
  }

  /** The loop over the codes of one row; `work` counts the codes it looks at. */
  method NameRow(tokens: seq<seq<byte>>, codes: seq<nat>, expected: nat) returns (r: Option<seq<byte>>, ghost work: nat)
    ensures r.Some? <==> Named(tokens, codes).Some? && |Named(tokens, codes).value| == expected
    ensures r.Some? ==> r == Named(tokens, codes)
    ensures work <= |codes|
  {
    var v: seq<byte> := [];
    work := 0;
    AppendEmpty(Named(tokens, codes));
    assert codes[0..] == codes;
    for i := 0 to |codes|
      invariant |v| <= expected && work == i
      invariant Named(tokens, codes) == Append(Some(v), Named(tokens, codes[i..]))
    {
      work := work + 1;
      assert codes[i..][1..] == codes[i + 1..];
      if codes[i] >= |tokens| { return None, work; }
      var token := tokens[codes[i]];
      AppendAssoc(v, Some(token), Named(tokens, codes[i + 1..]));
      if |v| + |token| > expected { return None, work; }
      v := v + token;
    }
    AppendNothing(v);
    if |v| != expected { return None, work; }
    r := Some(v);
  }

  /** The string of a row whose bounds lie in the code stream. */
  function RowText(tokens: seq<seq<byte>>, codes: seq<nat>, a: nat, b: nat): Option<seq<byte>> {
    if a <= b <= |codes| then Named(tokens, codes[a..b]) else None
  }

  /** A row is good when its codes name a string of the declared length. */
  predicate RowNames(tokens: seq<seq<byte>>, codes: seq<nat>, a: nat, b: nat, expected: nat, check: Check) {
    var v := RowText(tokens, codes, a, b);
    v.Some? && |v.value| == expected && check.Allows(v.value)
  }

  /** One valid row: its checks, its budget and its codes. The test that it names no more
      codes than bytes rejects no good row. */
  method DecodeRow(d: Decoder, tokens: seq<seq<byte>>, codes: seq<nat>, a: nat, b: nat, expected: nat, check: Check)
    returns (r: Option<seq<byte>>, ghost work: nat)
    requires forall t | t in tokens :: t != []
    modifies d`remaining, d`refused
    ensures d.remaining <= old(d.remaining) && work <= old(d.remaining) - d.remaining
    ensures r.Some? <==> expected <= old(d.remaining) && RowNames(tokens, codes, a, b, expected, check)
    ensures r.Some? ==> d.remaining == old(d.remaining) - expected && r == RowText(tokens, codes, a, b)
    ensures r.Some? ==> d.refused == old(d.refused)
    ensures r.None? ==> d.refused || !RowNames(tokens, codes, a, b, expected, check)
    ensures old(d.remaining) <= d.remaining + expected
    ensures expected <= old(d.remaining) ==> d.refused == old(d.refused)
  {
    hide Named, Check.Allows;
    work := 0;
    if a > b || b > |codes| { return None, work; }
    if Named(tokens, codes[a..b]).Some? { NamedLength(tokens, codes[a..b]); }
    if b - a > expected { return None, work; }
    var ok := d.Reserve(expected);
    if !ok { return None, work; }
    r, work := NameRow(tokens, codes[a..b], expected);
    if r.Some? && !check.Allows(r.value) { r := None; }
  }

  /** Every valid row is good. */
  predicate AllName(tokens: seq<seq<byte>>, codes: seq<nat>, bounds: seq<nat>, lens: seq<nat>,
                    valid: Option<seq<bool>>, check: Check)
    requires |bounds| == |lens| + 1 && (valid.Some? ==> |valid.value| == |lens|)
  {
    forall i: nat | i < |lens| && IsValid(valid, i) ::
      RowNames(tokens, codes, bounds[i], bounds[i + 1], lens[i], check)
  }

  /** The string of row `i`, empty for a null row. */
  predicate NamedRow(tokens: seq<seq<byte>>, codes: seq<nat>, bounds: seq<nat>, valid: Option<seq<bool>>, i: nat,
                     text: seq<byte>)
    requires i + 1 < |bounds| && (valid.Some? ==> i < |valid.value|)
  {
    Some(text) == if IsValid(valid, i) then RowText(tokens, codes, bounds[i], bounds[i + 1]) else Some([])
  }

  /** The loop of `onpair` over the rows: accepted exactly when every valid row is good
      and the declared bytes fit into the budget. It looks at no more codes than it takes
      bytes from the budget, whether it succeeds or not. */
  method NameRows(d: Decoder, tokens: seq<seq<byte>>, codes: seq<nat>, bounds: seq<nat>, lens: seq<nat>,
                  valid: Option<seq<bool>>, check: Check)
    returns (r: Option<seq<seq<byte>>>, ghost work: nat)
    requires |bounds| == |lens| + 1 && (valid.Some? ==> |valid.value| == |lens|)
    requires forall t | t in tokens :: t != []
    modifies d`remaining, d`refused
    ensures d.remaining <= old(d.remaining) && work <= old(d.remaining) - d.remaining
    ensures r.Some? <==> Declared(lens, valid, |lens|) <= old(d.remaining)
                         && AllName(tokens, codes, bounds, lens, valid, check)
    ensures r.Some? ==> d.remaining == old(d.remaining) - Declared(lens, valid, |lens|) && d.refused == old(d.refused)
    ensures r.None? ==> d.refused || !AllName(tokens, codes, bounds, lens, valid, check)
    ensures old(d.remaining) <= d.remaining + Declared(lens, valid, |lens|)
    ensures Declared(lens, valid, |lens|) <= old(d.remaining) ==> d.refused == old(d.refused)
    ensures r.Some? ==> |r.value| == |lens|
    ensures r.Some? ==> forall i: nat | i < |lens| :: NamedRow(tokens, codes, bounds, valid, i, r.value[i])
  {
    hide RowText, RowNames;
    var out: seq<seq<byte>> := [];
    work := 0;
    for i := 0 to |lens|
      invariant |out| == i && Declared(lens, valid, i) <= old(d.remaining)
      invariant d.remaining == old(d.remaining) - Declared(lens, valid, i) && d.refused == old(d.refused)
      invariant work <= Declared(lens, valid, i)
      invariant forall k: nat | k < i && IsValid(valid, k) ::
                  RowNames(tokens, codes, bounds[k], bounds[k + 1], lens[k], check)
      invariant forall k: nat | k < i :: NamedRow(tokens, codes, bounds, valid, k, out[k])
    {
      if !IsValid(valid, i) {
        out := out + [[]];
        continue;
      }
      DeclaredMono(lens, valid, i + 1, |lens|);
      var v, steps := DecodeRow(d, tokens, codes, bounds[i], bounds[i + 1], lens[i], check);
      work := work + steps;
      if v.None? { return None, work; }
      out := out + [v.value];
    }
    r := Some(out);
  }

  // ------------------------------------------------------------- OnPair writer

  function Blob(tokens: seq<seq<byte>>): seq<byte> {
    if tokens == [] then [] else Blob(tokens[..|tokens| - 1]) + tokens[|tokens| - 1]
  }

  function Offsets(tokens: seq<seq<byte>>): (offsets: seq<nat>)
    ensures |offsets| == |tokens| + 1
  {
    seq(|tokens| + 1, i requires 0 <= i < |tokens| + 1 => |Blob(tokens[..i])|)
  }

  lemma {:induction false} BlobPrefix(tokens: seq<seq<byte>>, i: nat)
    requires i <= |tokens|
    ensures Blob(tokens[..i]) <= Blob(tokens)
    decreases |tokens|
  {
    if i < |tokens| {
      BlobPrefix(tokens[..|tokens| - 1], i);
      assert tokens[..|tokens| - 1][..i] == tokens[..i];
    } else {
      assert tokens[..i] == tokens;
    }
  }

  /** Any dictionary of non-empty tokens is resolved from its blob and offsets. */
  lemma {:induction false} DictionaryRoundTrip(tokens: seq<seq<byte>>)
    requires forall t | t in tokens :: t != []
    ensures Resolvable(Blob(tokens), Offsets(tokens))
    ensures forall i: nat | i < |tokens| :: IsToken(Blob(tokens), Offsets(tokens), i, tokens[i])
  {
    hide Blob;
    forall i: nat | i < |tokens|
      ensures Ranges(Blob(tokens), Offsets(tokens), i)
      ensures IsToken(Blob(tokens), Offsets(tokens), i, tokens[i])
    {
      assert tokens[i] in tokens;
      TokenInBlob(tokens, i);
    }
  }

  lemma {:induction false} TokenInBlob(tokens: seq<seq<byte>>, i: nat)
    requires i < |tokens| && tokens[i] != []
    ensures |Blob(tokens[..i])| < |Blob(tokens[..i + 1])| <= |Blob(tokens)|
    ensures Blob(tokens)[|Blob(tokens[..i])|..|Blob(tokens[..i + 1])|] == tokens[i]
  {
    BlobPrefix(tokens, i + 1);
    assert tokens[..i + 1][..i] == tokens[..i];
  }
}
