/** Latent variables of a Pco chunk: their metadata, and the batches of values
    that are coded with four interleaved tANS states. */
module PcoLatents {
  import opened Wrappers
  import opened Words
  import opened BitStrings
  import opened AnsTable
  import opened PcoReader

  datatype Latent = Latent(width: nat, log: nat, bins: seq<Bin>, table: seq<Node>, delta: bool) {
    ghost predicate Valid() {
      && 1 <= width <= 64
      && Accepted(bins, log, width)
      && table == TableOf(bins, log)
    }
  }

  // ------------------------------------------------------------------ metadata

  function ParseBin(c: Cursor, log: nat, width: nat): (r: (Bin, Cursor))
    ensures 1 <= r.0.weight && r.0.lower < Pow2(width)
  {
    var (weight, c1) := c.Take(log);
    var (lower, c2) := c1.Take(width);
    var (offset, c3) := c2.Take(Len(width));
    (Bin(1 + weight, lower, offset), c3)
  }

  function Prepend(bins: seq<Bin>, r: Option<(seq<Bin>, Cursor)>): Option<(seq<Bin>, Cursor)> {
    match r
    case None => None
    case Some((more, end)) => Some((bins + more, end))
  }

  lemma {:induction false} PrependNothing(r: Option<(seq<Bin>, Cursor)>)
    ensures Prepend([], r) == r
  {
    if r.Some? { assert [] + r.value.0 == r.value.0; }
  }

  lemma {:induction false} PrependNoMore(bins: seq<Bin>, c: Cursor)
    ensures Prepend(bins, Some(([], c))) == Some((bins, c))
  {
    assert bins + [] == bins;
  }

  lemma {:induction false} PrependMore(bins: seq<Bin>, b: Bin, r: Option<(seq<Bin>, Cursor)>)
    ensures Prepend(bins, Prepend([b], r)) == Prepend(bins + [b], r)
  {
    if r.Some? { assert bins + ([b] + r.value.0) == (bins + [b]) + r.value.0; }
  }

  function ParseBins(c: Cursor, log: nat, width: nat, n: nat): (r: Option<(seq<Bin>, Cursor)>)
    ensures r.Some? ==> |r.value.0| == n
    decreases n
  {
    if n == 0 then Some(([], c))
    else
      var (b, next) := ParseBin(c, log, width);
      if b.offset > width then None else Prepend([b], ParseBins(next, log, width, n - 1))
  }

  /** The table size, the bins and the position after the metadata of one latent,
      or None where `parseLatent` reports an error. */
  function Parse(c: Cursor, width: nat): (r: Option<(nat, seq<Bin>, Cursor)>)
  {
    var (log, c1) := c.Take(4);
    var (n, c2) := c1.Take(15);
    if !c2.ok || log > 14 || n > Pow2(log) || (n <= 1 && log != 0) then None
    else match ParseBins(c2, log, width, n)
         case None => None
         case Some((bins, end)) =>
           if !end.ok || (n > 0 && Total(bins) != Pow2(log)) then None
           else Some((log, bins, end))
  }

  lemma {:induction false} ParseBinsFields(c: Cursor, log: nat, width: nat, n: nat)
    requires ParseBins(c, log, width, n).Some?
    ensures forall b | b in ParseBins(c, log, width, n).value.0 ::
              1 <= b.weight && b.lower < Pow2(width) && b.offset <= width
    decreases n
  {
    if n > 0 {
      ParseBinsFields(ParseBin(c, log, width).1, log, width, n - 1);
    }
  }

  /** Whatever the input bits are, accepted metadata satisfies `Accepted`. */
  lemma {:induction false} ParseAccepts(c: Cursor, width: nat)
    requires Parse(c, width).Some?
    ensures Accepted(Parse(c, width).value.1, Parse(c, width).value.0, width)
  {
    var (log, c1) := c.Take(4);
    var (n, c2) := c1.Take(15);
    ParseBinsFields(c2, log, width, n);
  }

  function WriteBin(b: Bin, log: nat, width: nat): Bits
    requires b.weight > 0
  {
    FromNat(b.weight - 1, log) + (FromNat(b.lower, width) + FromNat(b.offset, Len(width)))
  }

  function WriteBins(bins: seq<Bin>, log: nat, width: nat): Bits
    requires forall b | b in bins :: b.weight > 0
  {
    if bins == [] then [] else WriteBin(bins[0], log, width) + WriteBins(bins[1..], log, width)
  }

  function Write(bins: seq<Bin>, log: nat, width: nat): Bits
    requires forall b | b in bins :: b.weight > 0
  {
    FromNat(log, 4) + (FromNat(|bins|, 15) + WriteBins(bins, log, width))
  }

  lemma {:induction false} Assoc(a: Bits, b: Bits, c: Bits)
    ensures (a + b) + c == a + (b + c)
  {
  }

  lemma {:induction false} LenAtMost64(width: nat)
    requires width <= 64
    ensures Len(width) <= 7
  {
    LenMono(width, 64);
    assert Len(64) == 7;
  }

  lemma {:induction false} ParseWrittenBin(b: Bin, log: nat, width: nat, after: Bits, pos: nat)
    requires log <= 14 && 1 <= width <= 64
    requires 1 <= b.weight <= Pow2(log) && b.lower < Pow2(width) && b.offset <= width
    ensures ParseBin(Cursor(WriteBin(b, log, width) + after, pos, true), log, width)
            == (b, Cursor(after, pos + |WriteBin(b, log, width)|, true))
  {
    hide FromNat, Cursor.Take, Len, Pow2;
    var w0, w1, w2 := FromNat(b.weight - 1, log), FromNat(b.lower, width), FromNat(b.offset, Len(width));
    LenAtMost64(width);
    LenBounds(width);
    Assoc(w0, w1 + w2, after);
    Assoc(w1, w2, after);
    TakeWritten(b.weight - 1, log, w1 + (w2 + after), pos);
    TakeWritten(b.lower, width, w2 + after, pos + log);
    TakeWritten(b.offset, Len(width), after, pos + log + width);
  }

  lemma {:induction false} ParseNoBins(log: nat, width: nat, after: Bits, pos: nat)
    ensures ParseBins(Cursor(WriteBins([], log, width) + after, pos, true), log, width, 0)
            == Some(([], Cursor(after, pos, true)))
  {
    assert WriteBins([], log, width) + after == after;
  }

  lemma {:induction false} ParseFirstBin(c: Cursor, log: nat, width: nat, b: Bin, c1: Cursor, bins: seq<Bin>,
      end: Cursor)
    requires ParseBin(c, log, width) == (b, c1) && b.offset <= width
    requires ParseBins(c1, log, width, |bins|) == Some((bins, end))
    ensures ParseBins(c, log, width, |bins| + 1) == Some(([b] + bins, end))
  {
  }

  lemma {:induction false} ParseWrittenBins(bins: seq<Bin>, log: nat, width: nat, after: Bits, pos: nat)
    requires log <= 14 && 1 <= width <= 64
    requires forall b | b in bins :: 1 <= b.weight <= Pow2(log) && b.lower < Pow2(width) && b.offset <= width
    ensures ParseBins(Cursor(WriteBins(bins, log, width) + after, pos, true), log, width, |bins|)
            == Some((bins, Cursor(after, pos + |WriteBins(bins, log, width)|, true)))
    decreases |bins|
  {
    hide ParseBin, ParseBins, WriteBin;
    if bins == [] {
      ParseNoBins(log, width, after, pos);
    } else {
      var head, rest := WriteBin(bins[0], log, width), WriteBins(bins[1..], log, width);
      Assoc(head, rest, after);
      ParseWrittenBin(bins[0], log, width, rest + after, pos);
      ParseWrittenBins(bins[1..], log, width, after, pos + |head|);
      ParseFirstBin(Cursor(head + (rest + after), pos, true), log, width, bins[0],
                    Cursor(rest + after, pos + |head|, true), bins[1..],
                    Cursor(after, pos + |head| + |rest|, true));
      assert [bins[0]] + bins[1..] == bins;
    }
  }

  lemma {:induction false} TotalBounds(bins: seq<Bin>, k: nat)
    requires k < |bins|
    ensures bins[k].weight <= Total(bins)
  {
    if k > 0 { TotalBounds(bins[1..], k - 1); }
  }

  /** Metadata round trip: every bin list that `parseLatent` may accept is
      parsed back from its serialized form. */
  lemma {:induction false} ParseWritten(bins: seq<Bin>, log: nat, width: nat, after: Bits, pos: nat)
    requires 1 <= width <= 64 && Accepted(bins, log, width)
    ensures Parse(Cursor(Write(bins, log, width) + after, pos, true), width)
            == Some((log, bins, Cursor(after, pos + |Write(bins, log, width)|, true)))
  {
    hide ParseBins, WriteBins, Parse, FromNat, Cursor.Take, Pow2;
    forall b | b in bins ensures b.weight <= Pow2(log) {
      var k :| 0 <= k < |bins| && bins[k] == b;
      TotalBounds(bins, k);
    }
    var w0, w1, rest := FromNat(log, 4), FromNat(|bins|, 15), WriteBins(bins, log, width);
    Assoc(w0, w1 + rest, after);
    Assoc(w1, rest, after);
    SmallHeader(bins, log);
    TakeWritten(log, 4, w1 + (rest + after), pos);
    TakeWritten(|bins|, 15, rest + after, pos + 4);
    ParseWrittenBins(bins, log, width, after, pos + 4 + 15);
    ParseHeader(Cursor(w0 + (w1 + (rest + after)), pos, true), width, log, bins,
                Cursor(w1 + (rest + after), pos + 4, true), Cursor(rest + after, pos + 4 + 15, true),
                Cursor(after, pos + 4 + 15 + |rest|, true));
  }

  lemma {:induction false} ParseHeader(c: Cursor, width: nat, log: nat, bins: seq<Bin>, c1: Cursor, c2: Cursor,
      end: Cursor)
    requires Accepted(bins, log, width)
    requires c.Take(4) == (log, c1) && c1.Take(15) == (|bins|, c2) && c2.ok && end.ok
    requires ParseBins(c2, log, width, |bins|) == Some((bins, end))
    ensures Parse(c, width) == Some((log, bins, end))
  {
  }

  lemma {:induction false} SmallHeader(bins: seq<Bin>, log: nat)
    requires log <= 14 && |bins| <= Pow2(log)
    ensures log < Pow2(4) && |bins| < Pow2(15)
  {
    Pow2Mono(log, 14);
    assert Pow2(4) == 16 && Pow2(15) == 2 * Pow2(14);
  }

  // ---------------------------------------------------------- parsing methods

  method ReadBin(r: Reader, log: nat, width: nat) returns (b: Bin)
    requires r.Valid()
    modifies r
    ensures r.Valid() && (b, r.View()) == ParseBin(old(r.View()), log, width)
  {
    var weight := r.Read(log);
    var lower := r.Read(width);
    var offset := r.Read(Len(width));
    b := Bin(1 + weight, lower, offset);
  }

  method ReadBins(r: Reader, log: nat, width: nat, n: nat) returns (bins: Option<seq<Bin>>)
    requires r.Valid()
    modifies r
    ensures r.Valid()
    ensures match ParseBins(old(r.View()), log, width, n)
            case None => bins.None?
            case Some((bs, end)) => bins == Some(bs) && r.View() == end
  {
    hide ParseBin;
    var out: seq<Bin> := [];
    ghost var start := r.View();
    PrependNothing(ParseBins(start, log, width, n));
    var i := 0;
    while i < n
      invariant i <= n && r.Valid() && |out| == i
      invariant ParseBins(start, log, width, n) == Prepend(out, ParseBins(r.View(), log, width, n - i))
    {
      var b := ReadBin(r, log, width);
      if b.offset > width { return None; }
      PrependMore(out, b, ParseBins(r.View(), log, width, n - i - 1));
      out := out + [b];
      i := i + 1;
    }
    PrependNoMore(out, r.View());
    return Some(out);
  }

  /** Distributes the bins over the slots with an odd stride. */
  method SpreadBins(bins: seq<Bin>, log: nat) returns (symbols: array<int>)
    requires Total(bins) == Pow2(log)
    ensures fresh(symbols) && symbols[..] == Spread(bins, log)
  {
    var size := Pow2(log);
    symbols := new int[size](_ => 0);
    var stride := 3 * size / 5;
    if stride % 2 == 0 { stride := stride + 1; }
    var step, s := 0, 0;
    FirstOfAll(bins);
    while s < |bins|
      invariant s <= |bins| && step == First(bins, s) <= Total(bins)
      invariant Agrees(symbols[..], Place(bins, size, step))
    {
      var used := 0;
      FirstMono(bins, s + 1, |bins|);
      while used < bins[s].weight
        invariant used <= bins[s].weight && step == First(bins, s) + used <= Total(bins)
        invariant Agrees(symbols[..], Place(bins, size, step))
      {
        PlaceNext(bins, size, step, s, symbols[..]);
        symbols[SlotOf(size, stride, step)] := s;
        step := step + 1;
        used := used + 1;
      }
      s := s + 1;
    }
    AgreesFully(bins, log, symbols[..]);
  }

  /** `symbols` holds the right bin in every slot assigned so far. */
  ghost predicate Agrees(symbols: seq<int>, slots: seq<int>) {
    |symbols| == |slots| && forall j | 0 <= j < |slots| && slots[j] != -1 :: symbols[j] == slots[j]
  }

  lemma {:induction false} PlaceNext(bins: seq<Bin>, size: nat, step: nat, s: nat, symbols: seq<int>)
    requires size > 0 && s < |bins| && First(bins, s) <= step < First(bins, s) + bins[s].weight
    requires step < Total(bins) && Agrees(symbols, Place(bins, size, step))
    ensures Agrees(symbols[SlotAt(size, step) := s], Place(bins, size, step + 1))
  {
    BinAtRange(bins, step, s);
  }

  lemma {:induction false} AgreesFully(bins: seq<Bin>, log: nat, symbols: seq<int>)
    requires Total(bins) == Pow2(log) && Agrees(symbols, Spread(bins, log))
    ensures symbols == Spread(bins, log)
  {
    assert bins != [];
    SpreadOwnership(bins, log, 0);
    assert forall j | 0 <= j < |symbols| :: Spread(bins, log)[j] != -1;
  }

  method BuildTable(bins: seq<Bin>, log: nat, symbols: array<int>) returns (table: seq<Node>)
    requires bins != [] && Total(bins) == Pow2(log) && symbols[..] == Spread(bins, log)
    requires forall b | b in bins :: b.weight > 0
    ensures table == TableOf(bins, log)
  {
    var size := Pow2(log);
    hide Spread, TableOf, Count, Shl, Len, First, Total;
    var next := new nat[|bins|](i requires 0 <= i < |bins| => bins[i].weight);
    var nodes := new Node[size](_ => Node(0, 0, 0, 0));
    ghost var spread, target := Spread(bins, log), TableOf(bins, log);
    TurnsStart(bins, spread, next[..]);
    var i := 0;
    while i < size
      invariant i <= size
      invariant Turns(bins, spread[..i], next[..])
      invariant forall j | 0 <= j < i :: nodes[j] == target[j]
    {
      var s := symbols[i];
      assert s == spread[i];
      TableAt(bins, log, i);
      LenOfSize(log);
      var nb := Len(size) - Len(next[s]);
      IntervalBounds(log, next[s]);
      nodes[i] := Node(Shl(next[s], nb) - size, nb, bins[s].offset, bins[s].lower);
      TurnsNext(bins, spread, i, next[..]);
      next[s] := next[s] + 1;
      i := i + 1;
    }
    table := nodes[..];
  }

  /** `next[s]` is the turn of the next slot of bin `s` after the slots in `done`. */
  ghost predicate Turns(bins: seq<Bin>, done: seq<int>, next: seq<nat>) {
    |next| == |bins| && forall s: nat | s < |bins| :: next[s] == bins[s].weight + Count(done, s)
  }

  lemma {:induction false} TurnsStart(bins: seq<Bin>, spread: seq<int>, next: seq<nat>)
    requires |next| == |bins| && forall s: nat | s < |bins| :: next[s] == bins[s].weight
    ensures Turns(bins, spread[..0], next)
  {
  }

  lemma {:induction false} TurnsNext(bins: seq<Bin>, spread: seq<int>, i: nat, next: seq<nat>)
    requires i < |spread| && 0 <= spread[i] < |bins| && Turns(bins, spread[..i], next)
    ensures Turns(bins, spread[..i + 1], next[spread[i] := next[spread[i]] + 1])
  {
    assert spread[..i + 1][..i] == spread[..i];
  }

  lemma {:induction false} LenOfSize(log: nat)
    ensures Len(Pow2(log)) == log + 1
  {
    LenUnique(Pow2(log), log);
  }

  method ParseLatent(r: Reader, width: nat, delta: bool) returns (v: Option<Latent>)
    requires r.Valid() && 1 <= width <= 64
    modifies r
    ensures r.Valid()
    ensures v.Some? ==> v.value.Valid()
    ensures match Parse(old(r.View()), width)
            case None => v.None?
            case Some((log, bins, end)) =>
              && r.View() == end
              && v.Some? && v.value.(table := []) == Latent(width, log, bins, [], delta)
  {
    ghost var start := r.View();
    var log := r.Read(4);
    var n := r.Read(15);
    if r.failed { return None; }
    if log > 14 || n > Pow2(log) || (n <= 1 && log != 0) { return None; }
    var parsed := ReadBins(r, log, width, n);
    if parsed.None? { return None; }
    var bins := parsed.value;
    if r.failed { return None; }
    if n > 0 && Total(bins) != Pow2(log) { return None; }
    ParseAccepts(start, width);
    if n == 0 { return Some(Latent(width, log, bins, [], delta)); }
    var symbols := SpreadBins(bins, log);
    var table := BuildTable(bins, log, symbols);
    return Some(Latent(width, log, bins, table, delta));
  }
}
