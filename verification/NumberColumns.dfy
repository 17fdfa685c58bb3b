/** Loops over the words of a numeric column: run-length indices, frames of reference,
    zigzag, numeric patches, and the two integer parts of ALPRD values. */
module NumberColumns {
  import opened Wrappers
  import opened Words
  import opened Sequences
  import opened Overrides

  // -------------------------------------------------------- run-length indices

  /** The decoded children of an RLE array: values, the index of every row inside its
      chunk's values, and where each chunk's values begin. */
  datatype Rle = Rle(vals: seq<nat>, idx: seq<nat>, valid: Option<seq<bool>>, offsets: seq<nat>) {
    predicate Valid() { valid.Some? ==> |valid.value| == |idx| }

    /** The shape check for rows [off, off + n). */
    predicate Accepts(off: nat, n: nat) {
      off < 1024 && off + n <= |idx| && |idx| % 1024 == 0 && |offsets| == |idx| / 1024
    }

    predicate IsNull(j: nat)
      requires Valid() && j < |idx|
    {
      valid.Some? && !valid.value[j]
    }

    function Start(j: nat): nat
      requires j < |idx| && Accepts(0, 0)
    {
      offsets[j / 1024]
    }

    function End(j: nat): nat
      requires j < |idx| && Accepts(0, 0)
    {
      if j / 1024 + 1 < |offsets| then offsets[j / 1024 + 1] else |vals|
    }

    /** A chunk with one value needs no indices. */
    function Code(j: nat): nat
      requires j < |idx| && Accepts(0, 0)
    {
      if End(j) - Start(j) == 1 then 0 else idx[j]
    }

    predicate InBounds(j: nat)
      requires j < |idx| && Accepts(0, 0)
    {
      Start(j) < End(j) <= |vals| && Code(j) < End(j) - Start(j)
    }

    predicate RowDecodes(off: nat, n: nat, i: nat)
      requires Valid() && Accepts(off, n) && i < n
    {
      IsNull(off + i) || InBounds(off + i)
    }

    /** Rows [off, off + n) can be decoded. */
    ghost predicate Decodes(off: nat, n: nat) {
      Valid() && Accepts(off, n) && forall i: nat | i < n :: RowDecodes(off, n, i)
    }

    function Value(j: nat): nat
      requires j < |idx| && Accepts(0, 0) && InBounds(j)
    {
      vals[Start(j) + Code(j)]
    }

    /** The word of row `i` of the slice, 0 if it is null. */
    ghost function WordAt(off: nat, n: nat, i: nat): nat
      requires Decodes(off, n) && i < n
    {
      assert RowDecodes(off, n, i);
      if IsNull(off + i) then 0 else Value(off + i)
    }

    /** The words of rows [off, off + n). */
    ghost function Words(off: nat, n: nat): (words: seq<nat>)
      requires Decodes(off, n)
      ensures |words| == n
    {
      seq<nat>(n, i requires 0 <= i < n => WordAt(off, n, i))
    }

    function Valids(off: nat, n: nat): (valid: seq<bool>)
      requires Valid() && Accepts(off, n)
      ensures |valid| == n
    {
      seq(n, i requires 0 <= i < n => !IsNull(off + i))
    }

    /** Slice law: a slice of decodable rows is decodable, and its rows are the rows of
        the whole, for values and for nulls. */
    lemma {:induction false} SliceLaw(off: nat, n: nat)
      requires Decodes(0, off + n) && off < 1024
      ensures Decodes(off, n)
      ensures Words(off, n) == Words(0, off + n)[off..] && Valids(off, n) == Valids(0, off + n)[off..]
    {
      forall k: nat | k < n ensures RowDecodes(off, n, k) {
        assert RowDecodes(0, off + n, off + k);
      }
    }
  }

  /** The loop of `rle`. */
  method ExpandRle(a: Rle, off: nat, n: nat) returns (r: Option<(seq<nat>, seq<bool>)>)
    requires a.Valid()
    ensures r.Some? <==> a.Decodes(off, n)
    ensures r.Some? ==> r.value == (a.Words(off, n), a.Valids(off, n))
  {
    if !(off < 1024 && off + n <= |a.idx| && |a.idx| % 1024 == 0 && |a.offsets| == |a.idx| / 1024) { return None; }
    var words, valid := new nat[n](_ => 0), new bool[n](_ => true);
    for i := 0 to n
      invariant forall k: nat | k < i ::
                  a.RowDecodes(off, n, k) && valid[k] == !a.IsNull(off + k)
                  && words[k] == if a.IsNull(off + k) then 0 else a.Value(off + k)
      invariant forall k | i <= k < n :: valid[k] && words[k] == 0
    {
      var j := off + i;
      assert a.RowDecodes(off, n, i) == (a.IsNull(j) || a.InBounds(j));
      if a.IsNull(j) {
        valid[i] := false;
        continue;
      }
      var chunk := j / 1024;
      var start, end := a.offsets[chunk], |a.vals|;
      if chunk + 1 < |a.offsets| { end := a.offsets[chunk + 1]; }
      if start >= end || end > |a.vals| { return None; }
      var code := a.idx[j];
      if end - start == 1 { code := 0; }
      if code >= end - start { return None; }
      words[i] := a.vals[start + code];
    }
    assert words[..] == a.Words(off, n) && valid[..] == a.Valids(off, n);
    r := Some((words[..], valid[..]));
  }

  // ----------------------------------------------- frame of reference and zigzag

  /** The loop of `fastlanes.for`. */
  method AddReference(words: seq<nat>, base: nat, bits: nat) returns (r: seq<nat>)
    ensures |r| == |words| && forall i | 0 <= i < |r| :: r[i] == Low(words[i] + base, bits)
  {
    var out := new nat[|words|](_ => 0);
    for i := 0 to |words|
      invariant forall k | 0 <= k < i :: out[k] == Low(words[k] + base, bits)
    {
      out[i] := Low(words[i] + base, bits);
    }
    r := out[..];
  }

  /** Adding the reference undoes subtracting it, for every word and reference. */
  lemma {:induction false} ReferenceRoundTrip(x: nat, base: nat, bits: nat)
    requires x < Pow2(bits)
    ensures Low(Sub(x, base, bits) + base, bits) == x
  {
    SubAdd(x, base, bits);
  }

  /** The loop of `vortex.zigzag`. */
  method UndoZigZag(words: seq<nat>, bits: nat) returns (r: seq<nat>)
    ensures |r| == |words| && forall i | 0 <= i < |r| :: r[i] == WordOf(ZigZag(words[i]), bits)
  {
    var out := new nat[|words|](_ => 0);
    for i := 0 to |words|
      invariant forall k | 0 <= k < i :: out[k] == WordOf(ZigZag(words[k]), bits)
    {
      out[i] := WordOf(ZigZag(words[i]), bits);
    }
    r := out[..];
  }

  /** Every unsigned word decodes to a signed integer of the same width, and every
      signed integer of that width comes from the word that zigzag assigns to it. */
  lemma {:induction false} ZigZagRoundTrip(z: int, x: nat, bits: nat)
    requires bits > 0
    ensures InRange(z, bits, true) ==>
              WriteZigZag(z) < Pow2(bits) && Denote(WordOf(ZigZag(WriteZigZag(z)), bits), bits, true) == z
    ensures x < Pow2(bits) ==>
              InRange(ZigZag(x), bits, true) && Denote(WordOf(ZigZag(x), bits), bits, true) == ZigZag(x)
  {
    if InRange(z, bits, true) { DenoteOfWord(z, bits, true); }
    if x < Pow2(bits) { DenoteOfWord(ZigZag(x), bits, true); }
  }

  // -------------------------------------------------------------- numeric patches

  /** The loop of `applyPatches` that corrects numeric parts only. */
  method PatchNumbers(was: seq<nat>, idx: seq<nat>, vals: seq<nat>, off: nat) returns (r: Option<seq<nat>>)
    requires |vals| == |idx|
    ensures r.Some? <==> Placed(idx, off, |was|)
    ensures r.Some? ==> r.value == Override(was, idx, vals, off)
  {
    hide OverriddenTo;
    var out: seq<nat> := was;
    OverrideStart(was, idx, vals, off);
    for i := 0 to |idx|
      invariant |out| == |was|
      invariant OverriddenTo(out, was, idx, vals, off, i)
      invariant forall k | 0 <= k < i :: off <= idx[k] < off + |was|
      invariant forall j, k | 0 <= j < k < i :: idx[j] < idx[k]
    {
      if idx[i] < off || idx[i] - off >= |was| { return None; }
      if i > 0 && idx[i] <= idx[i - 1] { return None; }
      OverrideStep(out, was, idx, vals, off, i);
      out := out[idx[i] - off := vals[i]];
    }
    OverrideIs(out, was, idx, vals, off);
    r := Some(out);
  }

  // ------------------------------------------------------------------------ ALPRD

  /** The left part of every valid row: its dictionary entry. */
  method LookupLeft(codes: seq<nat>, valid: seq<bool>, dict: seq<nat>) returns (r: Option<seq<nat>>)
    requires |valid| == |codes|
    ensures r.Some? <==> forall i | 0 <= i < |codes| && valid[i] :: codes[i] < |dict|
    ensures r.Some? ==> |r.value| == |codes| && forall i | 0 <= i < |codes| ::
              r.value[i] == if valid[i] then dict[codes[i]] else codes[i]
  {
    var left: seq<nat> := codes;
    for i := 0 to |codes|
      invariant |left| == |codes|
      invariant forall k | 0 <= k < i && valid[k] :: codes[k] < |dict|
      invariant forall k | 0 <= k < |codes| :: left[k] == if k < i && valid[k] then dict[codes[k]] else codes[k]
    {
      if !valid[i] { continue; }
      if codes[i] >= |dict| { return None; }
      left := left[i := dict[codes[i]]];
    }
    r := Some(left);
  }

  /** The left part above `bw` right bits, in a 64-bit word. */
  function Combine(left: nat, right: nat, bw: nat): nat { right + Low(Shl(left, bw), 64) }

  /** The last loop of `alprd`: a valid row's parts must fit and are combined. */
  method CombineParts(left: seq<nat>, right: seq<nat>, valid: seq<bool>, bw: nat) returns (r: Option<seq<nat>>)
    requires |left| == |right| == |valid|
    ensures r.Some? <==> forall i | 0 <= i < |left| && valid[i] :: left[i] <= 65535 && right[i] < Pow2(bw)
    ensures r.Some? ==> |r.value| == |left| && forall i | 0 <= i < |left| ::
              r.value[i] == if valid[i] then Combine(left[i], right[i], bw) else right[i]
  {
    hide Pow2, Combine;
    var out: seq<nat> := right;
    for i := 0 to |left|
      invariant |out| == |left|
      invariant forall k | 0 <= k < i && valid[k] :: left[k] <= 65535 && right[k] < Pow2(bw)
      invariant forall k | 0 <= k < |left| ::
          out[k] == if k < i && valid[k] then Combine(left[k], right[k], bw) else right[k]
    {
      if !valid[i] { continue; }
      if left[i] > 65535 || right[i] >= Pow2(bw) { return None; }
      out := out[i := Combine(left[i], right[i], bw)];
    }
    r := Some(out);
  }

  /** How a writer splits the words: right parts, left codes into a dictionary, and
      patches for the left parts that the dictionary lacks. */
  ghost predicate Splits(x: seq<nat>, bw: nat, dict: seq<nat>, codes: seq<nat>, idx: seq<nat>, vals: seq<nat>) {
    && |codes| == |x| && |vals| == |idx| && Placed(idx, 0, |x|)
    && (forall i | 0 <= i < |x| :: codes[i] < |dict| && (dict[codes[i]] == Shr(x[i], bw) || i in idx))
    && (forall k | 0 <= k < |idx| :: vals[k] == Shr(x[idx[k]], bw))
  }

  /** ALPRD round trip: whatever dictionary the writer chose and whichever rows it
      patched, the parts of 64-bit words of at most `bw + 16` bits combine to the words. */
  lemma {:induction false} SplitRoundTrip(x: seq<nat>, bw: nat, dict: seq<nat>, codes: seq<nat>,
                                          idx: seq<nat>, vals: seq<nat>, left: seq<nat>, i: nat)
    requires Splits(x, bw, dict, codes, idx, vals) && |left| == |x|
    requires i < |x| && x[i] < Pow2(bw + 16) && x[i] < Pow2(64)
    requires left == Override(seq<nat>(|x|, k requires 0 <= k < |x| => dict[codes[k]]), idx, vals, 0)
    ensures left[i] <= 65535 && Low(x[i], bw) < Pow2(bw)
    ensures Combine(left[i], Low(x[i], bw), bw) == x[i]
  {
    hide Pow2, Shr, Low, Shl;
    assert left[i] == Shr(x[i], bw);
    ShrBelow(x[i], bw, bw + 16);
    Powers();
    LowAndShr(x[i], bw);
    LowSmall(Shl(left[i], bw), 64);
  }
}
