/** FastLanes delta encoding: whole chunks of 1024 values are differenced per
    lane in transposed order; a tail shorter than a chunk is differenced in
    plain order. */
module LaneDelta {
  import opened Wrappers
  import opened Words
  import opened FastLanes

  /** The decoded children of a delta array: bases, differences and the validity
      of the differences. */
  datatype Encoded = Encoded(bits: nat, bases: seq<nat>, deltas: seq<nat>, valid: Option<seq<bool>>) {

    function Chunks(): nat { |deltas| / 1024 }

    predicate Valid() {
      && IsWidth(bits)
      && |bases| == Chunks() * Lanes(bits) + (if |deltas| % 1024 != 0 then 1 else 0)
      && (valid.Some? ==> |valid.value| == |deltas|)
    }

    /** The base of a lane. */
    function Base(chunk: nat, lane: nat): nat
      requires Valid() && chunk < Chunks() && lane < Lanes(bits)
    {
      LaneInRange(chunk, lane);
      bases[chunk * Lanes(bits) + lane]
    }

    lemma {:induction false} LaneInRange(chunk: nat, lane: nat)
      requires Valid() && chunk < Chunks() && lane < Lanes(bits)
      ensures chunk * Lanes(bits) + lane < |bases|
    {
      hide Lanes;
      MulMono(chunk + 1, Chunks(), Lanes(bits));
      Distribute(chunk, 1, Lanes(bits));
    }

    /** The running value of a lane after its first `row` differences. */
    function Lane(chunk: nat, lane: nat, row: nat): nat
      requires Valid() && chunk < Chunks() && lane < Lanes(bits) && row <= bits
    {
      if row == 0 then Base(chunk, lane)
      else Low(Lane(chunk, lane, row - 1) + deltas[chunk * 1024 + Index(bits, row - 1, lane)], bits)
    }

    /** The value at position `t` of a whole chunk. */
    function Block(chunk: nat, t: nat): nat
      requires Valid() && chunk < Chunks() && t < 1024
    {
      Lane(chunk, LaneOf(bits, Untranspose(t)), RowOf(bits, Untranspose(t)) + 1)
    }

    /** The running value of the tail before row `i`. */
    function Tail(i: nat): nat
      requires Valid() && Chunks() * 1024 <= i <= |deltas| && |deltas| % 1024 != 0
    {
      if i == Chunks() * 1024 then bases[|bases| - 1]
      else Low(Tail(i - 1) + deltas[i - 1], bits)
    }

    /** The decoded value of row `i`. */
    function Value(i: nat): nat
      requires Valid() && i < |deltas|
    {
      if i / 1024 < Chunks() then Block(i / 1024, i % 1024) else Tail(i + 1)
    }

    /** Whatever the children hold, a decoded value is truncated to the width. */
    lemma {:induction false} ValueBelow(i: nat)
      requires Valid() && i < |deltas|
      ensures Value(i) < Pow2(bits)
    {
      hide Pow2;
    }

    /** The decoded validity of row `i`: read through the transpose. */
    predicate IsValid(i: nat)
      requires Valid() && i < |deltas|
    {
      valid.None? ||
      if i / 1024 < Chunks() then valid.value[(i / 1024) * 1024 + Transpose(i % 1024)] else valid.value[i]
    }

    /** Rows [off, off + n) are decodable: the check of `delta`. */
    predicate Accepts(off: nat, n: nat) {
      off < 1024 && off + n <= |deltas|
    }

    function Values(off: nat, n: nat): (r: seq<nat>)
      requires Valid() && off + n <= |deltas|
      ensures |r| == n
    {
      seq<nat>(n, i requires 0 <= i < n => Value(off + i))
    }

    function Validity(off: nat, n: nat): (r: Option<seq<bool>>)
      requires Valid() && off + n <= |deltas|
      ensures r.Some? ==> |r.value| == n
    {
      if valid.None? then None else Some(seq(n, i requires 0 <= i < n => IsValid(off + i)))
    }

    /** Slice law: a slice of an accepted array is accepted and equals the slice of
        the decoded rows, for values and for nulls. */
    lemma {:induction false} SliceLaw(off: nat, n: nat)
      requires Valid() && Accepts(0, off + n) && off < 1024
      ensures Accepts(off, n)
      ensures Values(off, n) == Values(0, off + n)[off..]
      ensures Validity(off, n) == if valid.None? then None else Some(Validity(0, off + n).value[off..])
    {
      hide Value, IsValid;
      if valid.Some? { assert Validity(off, n).value == Validity(0, off + n).value[off..]; }
    }
  }

  // ----------------------------------------------------------------- decoding

  /** The lane and row loops for one chunk: every element of the reused block is
      overwritten with the chunk's own value. */
  method FillBlock(e: Encoded, chunk: nat, block: array<nat>)
    requires e.Valid() && chunk < e.Chunks() && block.Length == 1024
    modifies block
    ensures forall t | 0 <= t < 1024 :: block[t] == e.Block(chunk, t)
  {
    hide Index, Transpose, Lanes, Low, Filled;
    AllLanes(e, chunk, block[..]);
    for lane := 0 to Lanes(e.bits)
      invariant Filled(e, chunk, block[..], lane, 0)
    {
      e.LaneInRange(chunk, lane);
      var prev := e.bases[chunk * Lanes(e.bits) + lane];
      for row := 0 to e.bits
        invariant prev == e.Lane(chunk, lane, row)
        invariant Filled(e, chunk, block[..], lane, row)
      {
        var idx := Index(e.bits, row, lane);
        prev := Low(prev + e.deltas[chunk * 1024 + idx], e.bits);
        FilledNext(e, chunk, block[..], lane, row);
        block[Transpose(idx)] := prev;
      }
      LaneFilled(e, chunk, block[..], lane);
    }
    AllLanes(e, chunk, block[..]);
  }

  /** The positions of all lanes before `lane`, and of its first `row` rows, hold the
      chunk's own values. */
  ghost predicate Filled(e: Encoded, chunk: nat, block: seq<nat>, lane: nat, row: nat)
    requires e.Valid() && chunk < e.Chunks() && |block| == 1024
  {
    forall t: nat | t < 1024 && Before(e.bits, t, lane, row) :: block[t] == e.Block(chunk, t)
  }

  predicate Before(bits: nat, t: nat, lane: nat, row: nat)
    requires IsWidth(bits) && t < 1024
  {
    var idx := Untranspose(t);
    LaneOf(bits, idx) < lane || (LaneOf(bits, idx) == lane && RowOf(bits, idx) < row)
  }

  /** Row `row` of a lane is written to its own position, and to no other. */
  lemma {:induction false} FilledNext(e: Encoded, chunk: nat, block: seq<nat>, lane: nat, row: nat)
    requires e.Valid() && chunk < e.Chunks() && |block| == 1024 && lane < Lanes(e.bits) && row < e.bits
    requires Filled(e, chunk, block, lane, row)
    ensures var target := Transpose(Index(e.bits, row, lane));
            Filled(e, chunk, block[target := e.Lane(chunk, lane, row + 1)], lane, row + 1)
  {
    hide Index, Transpose, Untranspose, RowOf, LaneOf, Lanes, Encoded.Lane;
    var target := Transpose(Index(e.bits, row, lane));
    TransposeInverse(Index(e.bits, row, lane));
    IndexInverse(e.bits, row, lane);
    forall t: nat | t < 1024 && t != target && Before(e.bits, t, lane, row + 1) ensures Before(e.bits, t, lane, row) {
      TransposeInverse(t);
      RowLaneInverse(e.bits, Untranspose(t));
    }
  }

  lemma {:induction false} LaneFilled(e: Encoded, chunk: nat, block: seq<nat>, lane: nat)
    requires e.Valid() && chunk < e.Chunks() && |block| == 1024 && Filled(e, chunk, block, lane, e.bits)
    ensures Filled(e, chunk, block, lane + 1, 0)
  {
    hide Untranspose, RowOf, LaneOf, Encoded.Block;
    forall t: nat | t < 1024 && Before(e.bits, t, lane + 1, 0) ensures Before(e.bits, t, lane, e.bits) { }
  }

  /** Before the first lane there is nothing; after the last lane there is the block. */
  lemma {:induction false} AllLanes(e: Encoded, chunk: nat, block: seq<nat>)
    requires e.Valid() && chunk < e.Chunks() && |block| == 1024
    ensures Filled(e, chunk, block, 0, 0)
    ensures Filled(e, chunk, block, Lanes(e.bits), 0) ==> forall t: nat | t < 1024 :: block[t] == e.Block(chunk, t)
  {
    hide Untranspose, RowOf, LaneOf, Encoded.Block, Lanes;
    forall t: nat | t < 1024 ensures Before(e.bits, t, Lanes(e.bits), 0) && !Before(e.bits, t, 0, 0) { }
  }

  /** Copies the rows of one chunk that lie inside the slice. */
  method CopyBlock(e: Encoded, chunk: nat, block: array<nat>, off: nat, out: array<nat>, valid: array<bool>)
    requires e.Valid() && chunk < e.Chunks() && block.Length == 1024 && off + out.Length <= |e.deltas|
    requires block != out && (e.valid.Some? ==> valid.Length == out.Length)
    requires forall t | 0 <= t < 1024 :: block[t] == e.Block(chunk, t)
    requires Done(e, off, out, valid, chunk * 1024)
    modifies out, valid
    ensures Done(e, off, out, valid, (chunk + 1) * 1024)
  {
    hide Transpose, Encoded.Block, Encoded.Tail, Lanes;
    var start := if chunk * 1024 < off then off else chunk * 1024;
    var end := if (chunk + 1) * 1024 < off + out.Length then (chunk + 1) * 1024 else off + out.Length;
    var i := start;
    while i < end
      invariant start <= i && (i <= end || i == start)
      invariant Done(e, off, out, valid, i)
    {
      CopyRow(e, chunk, block, off, i, out, valid);
      i := i + 1;
    }
  }

  method CopyRow(e: Encoded, chunk: nat, block: array<nat>, off: nat, i: nat, out: array<nat>, valid: array<bool>)
    requires e.Valid() && chunk < e.Chunks() && block.Length == 1024 && off + out.Length <= |e.deltas|
    requires block != out && (e.valid.Some? ==> valid.Length == out.Length)
    requires forall t | 0 <= t < 1024 :: block[t] == e.Block(chunk, t)
    requires chunk * 1024 <= i < (chunk + 1) * 1024 && off <= i < off + out.Length
    requires Done(e, off, out, valid, i)
    modifies out, valid
    ensures Done(e, off, out, valid, i + 1)
  {
    hide Transpose, Encoded.Block, Encoded.Tail, Lanes;
    InChunk(chunk, i);
    out[i - off] := block[i - chunk * 1024];
    if e.valid.Some? {
      var physical := Transpose(i - chunk * 1024);
      valid[i - off] := e.valid.value[chunk * 1024 + physical];
    }
  }

  lemma {:induction false} InChunk(chunk: nat, i: nat)
    requires chunk * 1024 <= i < (chunk + 1) * 1024
    ensures i / 1024 == chunk && i % 1024 == i - chunk * 1024
  {
  }

  /** The rows of the slice below `limit` have their final value and validity. */
  ghost predicate Done(e: Encoded, off: nat, out: array<nat>, valid: array<bool>, limit: nat)
    requires e.Valid() && off + out.Length <= |e.deltas| && (e.valid.Some? ==> valid.Length == out.Length)
    reads out, valid
  {
    && (forall i | 0 <= i < out.Length && off + i < limit :: out[i] == e.Value(off + i))
    && (e.valid.Some? ==> forall i | 0 <= i < out.Length && off + i < limit :: valid[i] == e.IsValid(off + i))
  }

  /** The loops of `delta`: values and validity of rows [off, off + n). */
  method Decode(e: Encoded, off: nat, n: nat) returns (values: seq<nat>, validity: Option<seq<bool>>)
    requires e.Valid() && e.Accepts(off, n)
    ensures values == e.Values(off, n) && validity == e.Validity(off, n)
  {
    hide Encoded.Block, Encoded.Lane, Encoded.Value, Encoded.IsValid, Encoded.Valid, Encoded.Tail;
    var out := new nat[n](_ => 0);
    var valid := new bool[n](_ => true);
    var block := new nat[1024](_ => 0);
    for chunk := 0 to e.Chunks()
      invariant Done(e, off, out, valid, chunk * 1024)
    {
      FillBlock(e, chunk, block);
      CopyBlock(e, chunk, block, off, out, valid);
    }
    if |e.deltas| % 1024 != 0 { DecodeTail(e, off, out, valid); }
    assert Done(e, off, out, valid, |e.deltas|);
    values := out[..];
    validity := if e.valid.Some? then Some(valid[..]) else None;
    assert e.valid.Some? ==> valid[..] == e.Validity(off, n).value;
  }

  method DecodeTail(e: Encoded, off: nat, out: array<nat>, valid: array<bool>)
    requires e.Valid() && |e.deltas| % 1024 != 0 && off + out.Length <= |e.deltas|
    requires e.valid.Some? ==> valid.Length == out.Length
    requires Done(e, off, out, valid, e.Chunks() * 1024)
    modifies out, valid
    ensures Done(e, off, out, valid, |e.deltas|)
  {
    hide Encoded.Block, Lanes, Low, Done;
    var prev := e.bases[|e.bases| - 1];
    for i := e.Chunks() * 1024 to |e.deltas|
      invariant prev == e.Tail(i) && Done(e, off, out, valid, i)
    {
      prev := Low(prev + e.deltas[i], e.bits);
      StoreTail(e, off, i, prev, out, valid);
    }
  }

  /** Stores row `i` of the tail, if it lies inside the slice. */
  method StoreTail(e: Encoded, off: nat, i: nat, x: nat, out: array<nat>, valid: array<bool>)
    requires e.Valid() && e.Chunks() * 1024 <= i < |e.deltas| && off + out.Length <= |e.deltas|
    requires e.valid.Some? ==> valid.Length == out.Length
    requires Done(e, off, out, valid, i) && x == e.Tail(i + 1)
    modifies out, valid
    ensures Done(e, off, out, valid, i + 1)
  {
    hide Lanes, Encoded.Value, Encoded.IsValid, Encoded.Tail;
    TailRow(e, i);
    if off <= i < off + out.Length {
      out[i - off] := x;
      if e.valid.Some? { valid[i - off] := e.valid.value[i]; }
    }
  }

  lemma {:induction false} TailRow(e: Encoded, i: nat)
    requires e.Valid() && e.Chunks() * 1024 <= i < |e.deltas|
    ensures e.Value(i) == e.Tail(i + 1) && e.IsValid(i) == (e.valid.None? || e.valid.value[i])
  {
    hide Lanes, Encoded.Tail, Encoded.Block;
  }

  // --------------------------------------------------------------- round trip

  /** The differences a writer stores for the values `x` and the given bases. */
  function Differences(bits: nat, bases: seq<nat>, x: seq<nat>): (deltas: seq<nat>)
    requires Encoded(bits, bases, x, None).Valid()
    ensures |deltas| == |x|
  {
    seq(|x|, j requires 0 <= j < |x| => Difference(bits, bases, x, j))
  }

  /** The value before row `row` of a lane: the base or the row above. */
  function Above(bits: nat, bases: seq<nat>, x: seq<nat>, chunk: nat, row: nat, lane: nat): nat
    requires Encoded(bits, bases, x, None).Valid() && chunk < |x| / 1024 && row < bits && lane < Lanes(bits)
  {
    if row == 0 then Encoded(bits, bases, x, None).Base(chunk, lane)
    else x[chunk * 1024 + Transpose(Index(bits, row - 1, lane))]
  }

  /** The difference stored at physical position `j`. */
  function Difference(bits: nat, bases: seq<nat>, x: seq<nat>, j: nat): nat
    requires Encoded(bits, bases, x, None).Valid() && j < |x|
  {
    hide Lanes, RowOf, LaneOf, Transpose, Sub, Above;
    var chunk, idx := j / 1024, j % 1024;
    if chunk < |x| / 1024 then
      Sub(x[chunk * 1024 + Transpose(idx)], Above(bits, bases, x, chunk, RowOf(bits, idx), LaneOf(bits, idx)), bits)
    else
      Sub(x[j], if j == |x| / 1024 * 1024 then bases[|bases| - 1] else x[j - 1], bits)
  }

  lemma {:induction false} DifferenceAt(bits: nat, bases: seq<nat>, x: seq<nat>, chunk: nat, row: nat, lane: nat)
    requires Encoded(bits, bases, x, None).Valid() && chunk < |x| / 1024 && row < bits && lane < Lanes(bits)
    ensures var idx := Index(bits, row, lane);
            Differences(bits, bases, x)[chunk * 1024 + idx]
            == Sub(x[chunk * 1024 + Transpose(idx)], Above(bits, bases, x, chunk, row, lane), bits)
  {
    hide Index, Transpose, RowOf, LaneOf, Lanes, Sub, Above;
    IndexInverse(bits, row, lane);
    ChunkPosition(chunk, Index(bits, row, lane));
  }

  lemma {:induction false} LaneRestores(bits: nat, bases: seq<nat>, x: seq<nat>, chunk: nat, lane: nat, row: nat)
    requires Encoded(bits, bases, x, None).Valid()
    requires forall i | 0 <= i < |x| :: x[i] < Pow2(bits)
    requires chunk < |x| / 1024 && lane < Lanes(bits) && row < bits
    ensures var e := Encoded(bits, bases, Differences(bits, bases, x), None);
            e.Valid() && e.Lane(chunk, lane, row + 1) == x[chunk * 1024 + Transpose(Index(bits, row, lane))]
    decreases row
  {
    hide Index, Transpose, RowOf, LaneOf, Lanes, Low, Sub, Pow2, Differences, Difference;
    if row > 0 { LaneRestores(bits, bases, x, chunk, lane, row - 1); }
    DifferenceAt(bits, bases, x, chunk, row, lane);
    SubAdd(x[chunk * 1024 + Transpose(Index(bits, row, lane))], Above(bits, bases, x, chunk, row, lane), bits);
  }

  lemma {:induction false} ChunkPosition(chunk: nat, idx: nat)
    requires idx < 1024
    ensures (chunk * 1024 + idx) / 1024 == chunk && (chunk * 1024 + idx) % 1024 == idx
  {
  }

  lemma {:induction false} TailRestores(bits: nat, bases: seq<nat>, x: seq<nat>, i: nat)
    requires Encoded(bits, bases, x, None).Valid() && |x| % 1024 != 0
    requires forall k | 0 <= k < |x| :: x[k] < Pow2(bits)
    requires |x| / 1024 * 1024 <= i < |x|
    ensures var e := Encoded(bits, bases, Differences(bits, bases, x), None);
            e.Valid() && e.Tail(i + 1) == x[i]
    decreases i
  {
    hide Low, Sub, Pow2, Lanes;
    var e := Encoded(bits, bases, Differences(bits, bases, x), None);
    if i > e.Chunks() * 1024 { TailRestores(bits, bases, x, i - 1); }
    SubAdd(x[i], if i == e.Chunks() * 1024 then bases[|bases| - 1] else x[i - 1], bits);
  }

  /** The validity as a writer scatters it: logical row `l` of a whole chunk is
      stored at the transposed position. */
  function Scatter(valid: seq<bool>): (physical: seq<bool>)
    ensures |physical| == |valid|
  {
    seq(|valid|, j requires 0 <= j < |valid| =>
      if j / 1024 < |valid| / 1024 then valid[(j / 1024) * 1024 + Untranspose(j % 1024)] else valid[j])
  }

  /** Delta round trip: for every width, any words, any bases and any validity,
      decoding the stored differences and the scattered validity gives back every
      row, in whole chunks and in the tail. */
  lemma {:induction false} RoundTrip(bits: nat, bases: seq<nat>, x: seq<nat>, valid: Option<seq<bool>>, i: nat)
    requires Encoded(bits, bases, x, None).Valid() && i < |x|
    requires forall k | 0 <= k < |x| :: x[k] < Pow2(bits)
    requires valid.Some? ==> |valid.value| == |x|
    ensures var e := Encoded(bits, bases, Differences(bits, bases, x),
                             if valid.None? then None else Some(Scatter(valid.value)));
            e.Valid() && e.Value(i) == x[i] && (e.IsValid(i) <==> valid.None? || valid.value[i])
  {
    hide Lanes, Low, Sub, Pow2, Differences, Encoded.Value, Encoded.IsValid, Scatter;
    var plain := Encoded(bits, bases, Differences(bits, bases, x), None);
    ValueRestored(bits, bases, x, if valid.None? then None else Some(Scatter(valid.value)), i);
    if valid.Some? { ValidityRestored(plain, valid.value, i); } else { NoValidity(plain, i); }
  }

  lemma {:induction false} NoValidity(e: Encoded, i: nat)
    requires e.Valid() && e.valid.None? && i < |e.deltas|
    ensures e.IsValid(i)
  {
  }

  lemma {:induction false} ValidityRestored(e: Encoded, valid: seq<bool>, i: nat)
    requires e.Valid() && |valid| == |e.deltas| && i < |valid|
    ensures e.(valid := Some(Scatter(valid))).Valid()
    ensures e.(valid := Some(Scatter(valid))).IsValid(i) == valid[i]
  {
    hide Lanes, Transpose, Untranspose;
    TransposeInverse(i % 1024);
    ChunkPosition(i / 1024, Transpose(i % 1024));
  }

  lemma {:induction false} ValueRestored(bits: nat, bases: seq<nat>, x: seq<nat>, valid: Option<seq<bool>>, i: nat)
    requires Encoded(bits, bases, x, None).Valid() && i < |x|
    requires forall k | 0 <= k < |x| :: x[k] < Pow2(bits)
    requires valid.Some? ==> |valid.value| == |x|
    ensures var e := Encoded(bits, bases, Differences(bits, bases, x), valid);
            e.Valid() && e.Value(i) == x[i]
  {
    hide Lanes, Low, Sub, Pow2, Difference, Differences, Transpose, Untranspose, Index, RowOf, LaneOf, Encoded.Lane,
        Encoded.Tail;
    var plain := Encoded(bits, bases, Differences(bits, bases, x), None);
    var chunk, t := i / 1024, i % 1024;
    if chunk < |x| / 1024 {
      var idx := Untranspose(t);
      TransposeInverse(t);
      RowLaneInverse(bits, idx);
      LaneRestores(bits, bases, x, chunk, LaneOf(bits, idx), RowOf(bits, idx));
      SameLane(plain, valid, chunk, LaneOf(bits, idx), RowOf(bits, idx) + 1);
    } else {
      TailRestores(bits, bases, x, i);
      SameTail(plain, valid, i + 1);
    }
  }

  lemma {:induction false} SameLane(e: Encoded, valid: Option<seq<bool>>, chunk: nat, lane: nat, row: nat)
    requires e.Valid() && (valid.Some? ==> |valid.value| == |e.deltas|)
    requires chunk < e.Chunks() && lane < Lanes(e.bits) && row <= e.bits
    ensures e.(valid := valid).Lane(chunk, lane, row) == e.Lane(chunk, lane, row)
    decreases row
  {
    hide Low, Index, Lanes;
    if row > 0 { SameLane(e, valid, chunk, lane, row - 1); }
  }

  lemma {:induction false} SameTail(e: Encoded, valid: Option<seq<bool>>, i: nat)
    requires e.Valid() && (valid.Some? ==> |valid.value| == |e.deltas|)
    requires |e.deltas| % 1024 != 0 && e.Chunks() * 1024 <= i <= |e.deltas|
    ensures e.(valid := valid).Tail(i) == e.Tail(i)
    decreases i
  {
    hide Low, Lanes;
    if i > e.Chunks() * 1024 { SameTail(e, valid, i - 1); }
  }

  /** Values do not depend on validity. */
  lemma {:induction false} SameValue(e: Encoded, valid: Option<seq<bool>>, i: nat)
    requires e.Valid() && (valid.Some? ==> |valid.value| == |e.deltas|) && i < |e.deltas|
    ensures e.(valid := valid).Valid() && e.(valid := valid).Value(i) == e.Value(i)
  {
    hide Lanes, Untranspose, RowOf, LaneOf, Encoded.Lane, Encoded.Tail;
    if i / 1024 < e.Chunks() {
      var idx := Untranspose(i % 1024);
      SameLane(e, valid, i / 1024, LaneOf(e.bits, idx), RowOf(e.bits, idx) + 1);
    } else {
      SameTail(e, valid, i + 1);
    }
  }

  /** No validity vector is an all-valid one. */
  lemma {:induction false} AllValid(e: Encoded, mask: seq<bool>, i: nat)
    requires e.Valid() && |mask| == |e.deltas| && i < |e.deltas|
    requires if e.valid.Some? then mask == e.valid.value else forall k | 0 <= k < |mask| :: mask[k]
    ensures e.(valid := Some(mask)).Valid() && e.(valid := Some(mask)).IsValid(i) == e.IsValid(i)
  {
    hide Lanes, Transpose;
  }
}
