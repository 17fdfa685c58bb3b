/** Encodings that fill an array by copying rows: dictionaries, run ends and sparse
    patches. Each is tied to what it says about a single row. */
module RowCopies {
  import opened Wrappers
  import opened Types
  import opened Arrays
  import opened Decoders
  import opened Overrides

  // --------------------------------------------------------------- single rows

  /** `out` is being filled from rows of `src`, both of type `t`. */
  ghost predicate Filling(out: Values, n: nat, src: Values, m: nat, t: Type) {
    && Whole(out, t, n) && Whole(src, t, m)
    && out.Fits() && src.Fits() && out.n == n && src.n == m && SameShape(out, src) && Covers(out, src)
  }

  /** Every row of `b` is the row of `a`, except row `dst`. */
  ghost predicate OnlyAt(a: Values, b: Values, n: nat, dst: nat)
    requires a.Fits() && b.Fits() && a.n == n && b.n == n
  {
    forall k: nat | k < n && k != dst :: Row(b, k) == Row(a, k)
  }

  /** Copying one row, with everything a loop needs to know about it. */
  lemma {:induction false} CopyRow(out: Values, n: nat, dst: nat, src: Values, m: nat, i: nat, t: Type)
    requires Filling(out, n, src, m, t) && dst < n && i < m
    ensures var r := At(out, dst, src, i);
            && Filling(r, n, src, m, t) && r.valid.Some? == out.valid.Some?
            && Row(r, dst) == Row(src, i) && OnlyAt(out, r, n, dst)
            && (out.NoNulls() && src.NoNulls() ==> r.NoNulls())
  {
    hide Row, Whole, SameShape, Covers, Values.Fits;
    AtWhole(out, n, dst, src, m, i, t);
    AtCovers(out, dst, src, i);
    AtRow(out, dst, src, i, dst);
    ValidityKept(out, dst, src, i);
    forall k: nat | k < n && k != dst ensures Row(At(out, dst, src, i), k) == Row(out, k) {
      AtRow(out, dst, src, i, k);
    }
  }

  lemma {:induction false} ValidityKept(out: Values, dst: nat, src: Values, i: nat)
    requires out.Fits() && src.Fits() && SameShape(out, src) && dst < out.n && i < src.n
    ensures At(out, dst, src, i).valid.Some? == out.valid.Some? && At(out, dst, src, i).n == out.n
  {
  }

  function SetNull(v: Values, i: nat): Values
    requires v.valid.Some? && i < |v.valid.value|
  {
    v.(valid := Some(v.valid.value[i := false]))
  }

  lemma {:induction false} NullRow(out: Values, n: nat, dst: nat, src: Values, m: nat, t: Type)
    requires Filling(out, n, src, m, t) && dst < n && out.valid.Some?
    ensures |out.valid.value| == n
    ensures var r := SetNull(out, dst);
            && Filling(r, n, src, m, t) && r.valid.Some? && Row(r, dst) == Cell(false, Row(out, dst).data)
            && OnlyAt(out, r, n, dst)
  {
    hide FieldsSound, Shaped, EmptyOf;
    ShapedLength(out, t, n);
    RevalidatedWhole(out, t, n, Some(out.valid.value[dst := false]));
  }

  lemma {:induction false} ShapedLength(v: Values, t: Type, n: nat)
    requires Shaped(v, t, n)
    ensures v.n == n && (v.valid.Some? ==> |v.valid.value| == n)
  {
  }

  // ---------------------------------------------------------- a fresh array to fill

  /** What it charges to allocate an array that can hold rows of `src`, and nulls of its
      own when `nulls` is set. */
  ghost function AllocationCost(t: Type, n: nat, src: Values, nulls: bool): nat
    requires Supported(t) && SameShape(EmptyOf(t, n), src)
  {
    var v := EmptyOf(t, n);
    Decoder.EmptyCost(t, n) + Decoder.CoveringCost(v, src)
    + (if nulls then Decoder.MaskCost(Covering(v, src)) else 0)
  }

  lemma {:induction false} SourceShape(t: Type, n: nat, src: Values, m: nat)
    requires Relaxed(t) && Whole(src, t, m)
    ensures Supported(t) && Whole(EmptyOf(t, n), t, n) && SameShape(EmptyOf(t, n), src)
  {
    hide EmptyOf;
    ShapedSupported(src, t, m);
    EmptyWhole(t, n);
    ShapedAlike(EmptyOf(t, n), n, src, m, t);
  }

  lemma {:induction false} ShapedSupported(v: Values, t: Type, n: nat)
    requires Shaped(v, t, n)
    ensures Supported(t)
    decreases t
  {
    if t.kind == KExtension {
      ShapedSupported(v, t.storage.value, n);
    } else if t.kind == KStruct {
      forall k | 0 <= k < |t.fields| ensures Supported(t.fields[k]) { ShapedSupported(v.fields[k], t.fields[k], n); }
    }
  }

  /** The rows from `start` on are still those of an empty array. */
  ghost predicate StillBlank(v: Values, n: nat, t: Type, start: nat)
    requires v.Fits() && v.n == n && Supported(t)
  {
    forall i: nat | start <= i < n :: Row(v, i) == Blank(t)
  }

  /** `empty`, `copyValidityShape` and, for nulls of its own, `mask`. */
  method Allocate(d: Decoder, t: Type, n: nat, src: Values, m: nat, nulls: bool) returns (r: Option<Values>)
    requires Relaxed(t) && Whole(src, t, m) && n <= MAX_ROWS
    modifies d`remaining, d`refused
    ensures d.remaining <= old(d.remaining)
    ensures Supported(t) && SameShape(EmptyOf(t, n), src)
    ensures r.Some? <==> AllocationCost(t, n, src, nulls) <= old(d.remaining)
    ensures old(d.remaining) <= d.remaining + AllocationCost(t, n, src, nulls)
    ensures d.refused == (old(d.refused) || r.None?)
    ensures r.Some? ==> Filling(r.value, n, src, m, t) && (nulls ==> r.value.valid.Some?)
    ensures r.Some? ==> StillBlank(r.value, n, t, 0)
    ensures r.Some? && Root(t) != KNull ==> r.value.NoNulls()
  {
    hide Whole, Row, EmptyOf, Covering, SameShape, Covers, Supported, Decoder.EmptyCost, Decoder.CoveringCost,
      StillBlank, Blank;
    SourceShape(t, n, src, m);
    EmptyWhole(t, n);
    var empty := d.Empty(t, n);
    if empty.None? { return None; }
    var covering := d.CopyValidityShape(empty.value, src);
    if covering.None? { return None; }
    ReadyToFill(t, n, src, m);
    MaskedToFill(covering.value, n, src, m, t);
    if nulls {
      r := d.Mask(covering.value);
    } else {
      r := covering;
    }
  }

  lemma {:induction false} ReadyToFill(t: Type, n: nat, src: Values, m: nat)
    requires Relaxed(t) && Whole(src, t, m)
    ensures Supported(t) && SameShape(EmptyOf(t, n), src) && Filling(Covering(EmptyOf(t, n), src), n, src, m, t)
    ensures EmptyOf(t, n).NoNulls() ==> Covering(EmptyOf(t, n), src).NoNulls()
    ensures StillBlank(Covering(EmptyOf(t, n), src), n, t, 0)
  {
    hide EmptyOf, FieldsSound, Shaped, Covering, SameShape, Covers, Row, Blank;
    SourceShape(t, n, src, m);
    var v := EmptyOf(t, n);
    CoveringWhole(v, n, src, m, t);
    ShapedFits(Covering(v, src), t, n);
    ShapedFits(src, t, m);
    ShapedLength(Covering(v, src), t, n);
    ShapedLength(src, t, m);
    forall i: nat | i < n ensures Row(Covering(v, src), i) == Blank(t) {
      EmptyRow(t, n, i);
      CoveringRows(v, src, i);
    }
  }

  lemma {:induction false} MaskedToFill(v: Values, n: nat, src: Values, m: nat, t: Type)
    requires Filling(v, n, src, m, t) && Supported(t)
    ensures Filling(Masked(v), n, src, m, t) && (v.NoNulls() ==> Masked(v).NoNulls())
    ensures StillBlank(v, n, t, 0) ==> StillBlank(Masked(v), n, t, 0)
  {
    hide FieldsSound, Shaped, Supported;
    ShapedLength(v, t, n);
    RevalidatedWhole(v, t, n, Masked(v).valid);
    forall i: nat | i < n ensures Row(Masked(v), i) == Row(v, i) { }
  }

  // ------------------------------------------------------------------ dictionary

  predicate CodesNamed(codes: seq<Cell>, count: nat) {
    forall i: nat | i < |codes| && codes[i].valid :: WordOfCell(codes[i]) < count
  }

  /** Dictionary lookup: a null code gives a null row, another code the row it names. */
  function LookedUp(codes: seq<Cell>, dict: seq<Cell>, blank: Cell): (rows: seq<Cell>)
    requires CodesNamed(codes, |dict|)
    ensures |rows| == |codes|
  {
    seq(|codes|, i requires 0 <= i < |codes| =>
      if codes[i].valid then dict[WordOfCell(codes[i])] else Cell(false, blank.data))
  }

  /** The rows below `limit` are looked up. */
  ghost predicate Taken(out: Values, n: nat, codes: Values, dict: Values, t: Type, limit: nat)
    requires out.Fits() && out.n == n && codes.Fits() && codes.Numbers? && codes.n == n
    requires dict.Fits() && limit <= n && Supported(t)
  {
    forall i: nat | i < limit ::
      if codes.IsValid(i) then codes.words[i] < dict.n && Row(out, i) == Row(dict, codes.words[i])
      else Row(out, i) == Cell(false, Blank(t).data)
  }

  /** The loop of `dictionary`. */
  method TakeRows(d: Decoder, codes: Values, dict: Values, count: nat, t: Type, n: nat) returns (r: Option<Values>)
    requires Relaxed(t) && Whole(dict, t, count) && n <= MAX_ROWS
    requires codes.Fits() && codes.Numbers? && codes.n == n && dict.Fits() && dict.n == count
    modifies d`remaining, d`refused
    ensures d.remaining <= old(d.remaining)
    ensures Supported(t) && SameShape(EmptyOf(t, n), dict)
    ensures r.Some? <==> AllocationCost(t, n, dict, codes.valid.Some? || dict.valid.Some?) <= old(d.remaining)
                         && CodesNamed(Rows(codes), count)
    ensures r.Some? ==> Whole(r.value, t, n) && r.value.Fits() && r.value.n == n && d.refused == old(d.refused)
    ensures r.Some? ==> Rows(r.value) == LookedUp(Rows(codes), Rows(dict), Blank(t))
    ensures r.None? ==> d.refused || !CodesNamed(Rows(codes), count)
    ensures var cost := AllocationCost(t, n, dict, codes.valid.Some? || dict.valid.Some?);
            && old(d.remaining) <= d.remaining + cost
            && (cost <= old(d.remaining) ==> d.refused == old(d.refused))
  {
    hide Whole, Row, EmptyOf, SameShape, Covers, Supported, AllocationCost, Relaxed, Blank, Rows, CodesNamed;
    var a := Allocate(d, t, n, dict, count, codes.valid.Some? || dict.valid.Some?);
    if a.None? { return None; }
    var out := a.value;
    for i := 0 to n
      modifies {}
      invariant Filling(out, n, dict, count, t) && (codes.valid.Some? ==> out.valid.Some?)
      invariant Taken(out, n, codes, dict, t, i) && StillBlank(out, n, t, i)
    {
      if !codes.IsValid(i) {
        NullRow(out, n, i, dict, count, t);
        out := SetNull(out, i);
      } else {
        if codes.words[i] >= count {
          CodeOutside(codes, count, i);
          return None;
        }
        CopyRow(out, n, i, dict, count, codes.words[i], t);
        out := At(out, i, dict, codes.words[i]);
      }
    }
    TakenRows(out, n, codes, dict, t);
    r := Some(out);
  }

  lemma {:induction false} CodeOutside(codes: Values, count: nat, i: nat)
    requires codes.Fits() && codes.Numbers? && i < codes.n && codes.IsValid(i) && codes.words[i] >= count
    ensures !CodesNamed(Rows(codes), count)
  {
    NumberRows(codes);
    assert Rows(codes)[i].valid;
  }

  lemma {:induction false} TakenRows(out: Values, n: nat, codes: Values, dict: Values, t: Type)
    requires out.Fits() && out.n == n && codes.Fits() && codes.Numbers? && codes.n == n
    requires dict.Fits() && Supported(t) && Taken(out, n, codes, dict, t, n)
    ensures CodesNamed(Rows(codes), dict.n) && Rows(out) == LookedUp(Rows(codes), Rows(dict), Blank(t))
  {
    hide Row, Values.Fits, Blank, Supported;
    NumberRows(codes);
  }

  // -------------------------------------------------------------------- run ends

  /** The first run whose end lies beyond the position. */
  ghost predicate IsRun(ends: seq<nat>, at: nat, run: nat) {
    run < |ends| && at < ends[run] && forall k | 0 <= k < run :: ends[k] <= at
  }

  function RunAt(ends: seq<nat>, at: nat): (run: nat)
    requires ends != [] && at < ends[|ends| - 1]
    ensures IsRun(ends, at, run)
  {
    if at < ends[0] then 0 else 1 + RunAt(ends[1..], at)
  }

  predicate Increasing(ends: seq<nat>) {
    && (forall k | 0 <= k < |ends| :: ends[k] > 0)
    && (forall j, k | 0 <= j < k < |ends| :: ends[j] < ends[k])
  }

  /** The runs are in order and cover positions [off, off + n). */
  predicate RunsCover(ends: seq<nat>, off: nat, n: nat) {
    Increasing(ends) && (n > 0 ==> |ends| > 0 && off + n <= ends[|ends| - 1])
  }

  /** Row `i` of the slice is the value of the run of position `off + i`. */
  function RunRows(ends: seq<nat>, vals: seq<Cell>, off: nat, n: nat): (rows: seq<Cell>)
    requires |vals| == |ends| && RunsCover(ends, off, n)
    ensures |rows| == n
  {
    seq(n, i requires 0 <= i < n => vals[RunAt(ends, off + i)])
  }

  ghost predicate Expanded(out: Values, n: nat, ends: seq<nat>, vals: Values, off: nat, limit: nat)
    requires out.Fits() && out.n == n && vals.Fits() && vals.n == |ends| && limit <= n
  {
    forall i: nat, run: nat | i < limit && IsRun(ends, off + i, run) :: Row(out, i) == Row(vals, run)
  }

  /** `x == 0 || (i > 0 && x <= ends[i-1])` for no `i`. */
  method CheckIncreasing(ends: seq<nat>) returns (ok: bool)
    ensures ok == Increasing(ends)
  {
    for i := 0 to |ends|
      invariant forall k | 0 <= k < i :: ends[k] > 0
      invariant forall j, k | 0 <= j < k < i :: ends[j] < ends[k]
    {
      if ends[i] == 0 || (i > 0 && ends[i] <= ends[i - 1]) { return false; }
    }
    ok := true;
  }

  /** The loop of `runend`, with its cursor over the runs. */
  method ExpandRuns(d: Decoder, ends: seq<nat>, vals: Values, t: Type, off: nat, n: nat) returns (r: Option<Values>)
    requires Relaxed(t) && Whole(vals, t, |ends|) && n <= MAX_ROWS && vals.Fits() && vals.n == |ends|
    modifies d`remaining, d`refused
    ensures d.remaining <= old(d.remaining)
    ensures Supported(t) && SameShape(EmptyOf(t, n), vals)
    ensures r.Some? <==> AllocationCost(t, n, vals, false) <= old(d.remaining) && RunsCover(ends, off, n)
    ensures r.Some? ==> Whole(r.value, t, n) && r.value.Fits() && r.value.n == n && d.refused == old(d.refused)
    ensures r.Some? ==> Rows(r.value) == RunRows(ends, Rows(vals), off, n)
    ensures r.None? ==> d.refused || !RunsCover(ends, off, n)
    ensures old(d.remaining) <= d.remaining + AllocationCost(t, n, vals, false)
    ensures AllocationCost(t, n, vals, false) <= old(d.remaining) ==> d.refused == old(d.refused)
  {
    hide Whole, Row, EmptyOf, SameShape, Covers, Supported, AllocationCost, Relaxed, Blank, StillBlank, RunsCover,
      Increasing, RunRows;
    var a := Allocate(d, t, n, vals, |ends|, false);
    if a.None? { return None; }
    var out := a.value;
    var ok := CheckIncreasing(ends);
    RunsOrdered(ends, off, n);
    if !ok { return None; }
    var run := 0;
    for i := 0 to n
      modifies {}
      invariant run <= |ends| && forall k | 0 <= k < run :: ends[k] <= off + i
      invariant i > 0 ==> run < |ends| && off + i <= ends[run]
      invariant Filling(out, n, vals, |ends|, t) && Expanded(out, n, ends, vals, off, i)
    {
      while run < |ends| && ends[run] <= off + i
        modifies {}
        invariant run <= |ends| && forall k | 0 <= k < run :: ends[k] <= off + i
      {
        run := run + 1;
      }
      if run == |ends| {
        RunsShort(ends, off, n, i);
        return None;
      }
      assert IsRun(ends, off + i, run);
      CopyRow(out, n, i, vals, |ends|, run, t);
      out := At(out, i, vals, run);
    }
    RunsDone(ends, off, n, run);
    ExpandedRows(out, n, ends, vals, off);
    r := Some(out);
  }

  lemma {:induction false} RunsOrdered(ends: seq<nat>, off: nat, n: nat)
    ensures RunsCover(ends, off, n) ==> Increasing(ends)
  {
  }

  lemma {:induction false} RunsShort(ends: seq<nat>, off: nat, n: nat, i: nat)
    requires i < n && forall k | 0 <= k < |ends| :: ends[k] <= off + i
    ensures !RunsCover(ends, off, n)
  {
  }

  lemma {:induction false} RunsDone(ends: seq<nat>, off: nat, n: nat, run: nat)
    requires Increasing(ends) && (n > 0 ==> run < |ends| && off + n <= ends[run])
    ensures RunsCover(ends, off, n)
  {
  }

  lemma {:induction false} ExpandedRows(out: Values, n: nat, ends: seq<nat>, vals: Values, off: nat)
    requires out.Fits() && out.n == n && vals.Fits() && vals.n == |ends| && Expanded(out, n, ends, vals, off, n)
    requires RunsCover(ends, off, n)
    ensures Rows(out) == RunRows(ends, Rows(vals), off, n)
  {
    hide Row, Values.Fits;
    forall i: nat | i < n ensures Row(out, i) == Rows(vals)[RunAt(ends, off + i)] {
      RunInside(ends, off + i, RunAt(ends, off + i));
    }
  }

  lemma {:induction false} RunInside(ends: seq<nat>, at: nat, run: nat)
    requires IsRun(ends, at, run)
    ensures run < |ends|
  {
  }

  /** Slice law: runs that cover [0, off + n) cover the slice, whose rows are those of
      the whole; and whenever the budget allows the whole, it allows the slice. */
  lemma {:induction false} RunSliceLaw(ends: seq<nat>, off: nat, n: nat, t: Type, vals: Values)
    requires Relaxed(t) && Whole(vals, t, |ends|) && RunsCover(ends, 0, off + n)
    ensures vals.Fits() && |Rows(vals)| == |ends| && RunsCover(ends, off, n)
    ensures RunRows(ends, Rows(vals), off, n) == RunRows(ends, Rows(vals), 0, off + n)[off..]
    ensures Supported(t) && SameShape(EmptyOf(t, n), vals) && SameShape(EmptyOf(t, off + n), vals)
    ensures AllocationCost(t, n, vals, false) <= AllocationCost(t, off + n, vals, false)
  {
    hide Whole, EmptyOf, SameShape, Supported, AllocationCost, Relaxed, Row;
    WholeFits(vals, t, |ends|);
    SourceShape(t, n, vals, |ends|);
    SourceShape(t, off + n, vals, |ends|);
    AllocationMono(t, n, off + n, vals);
  }

  lemma {:induction false} WholeFits(v: Values, t: Type, n: nat)
    requires Whole(v, t, n)
    ensures v.Fits() && v.n == n
  {
    ShapedFits(v, t, n);
    ShapedLength(v, t, n);
  }

  /** A smaller allocation costs no more. */
  lemma {:induction false} AllocationMono(t: Type, n: nat, m: nat, src: Values)
    requires n <= m && Supported(t) && SameShape(EmptyOf(t, n), src) && SameShape(EmptyOf(t, m), src)
    ensures AllocationCost(t, n, src, false) <= AllocationCost(t, m, src, false)
  {
    hide EmptyOf, SameShape, Supported, Decoder.EmptyCost, Decoder.CoveringCost;
    EmptyMono(t, n, m);
    CoveringMono(t, n, m, src);
  }

  lemma {:induction false} EmptyMono(t: Type, n: nat, m: nat)
    requires n <= m
    ensures Decoder.EmptyCost(t, n) <= Decoder.EmptyCost(t, m)
    decreases t, 1
  {
    if t.kind == KExtension && t.storage.Some? { EmptyMono(t.storage.value, n, m); }
    else if t.kind == KStruct {
      FieldsMono(t, |t.fields|, n, m);
      assert t.fields[..|t.fields|] == t.fields;
    }
  }

  lemma {:induction false} FieldsMono(t: Type, k: nat, n: nat, m: nat)
    requires n <= m && k <= |t.fields|
    ensures Decoder.FieldsCost(t.fields[..k], n) <= Decoder.FieldsCost(t.fields[..k], m)
    decreases t, 0, k
  {
    if k > 0 {
      assert t.fields[..k][..k - 1] == t.fields[..k - 1];
      FieldsMono(t, k - 1, n, m);
      EmptyMono(t.fields[k - 1], n, m);
    }
  }

  lemma {:induction false} CoveringMono(t: Type, n: nat, m: nat, src: Values)
    requires n <= m && Supported(t) && SameShape(EmptyOf(t, n), src) && SameShape(EmptyOf(t, m), src)
    ensures Decoder.CoveringCost(EmptyOf(t, n), src) <= Decoder.CoveringCost(EmptyOf(t, m), src)
    decreases t, 1
  {
    if t.kind == KExtension {
      CoveringMono(t.storage.value, n, m, src);
      RetypedCost(EmptyOf(t.storage.value, n), t, src);
      RetypedCost(EmptyOf(t.storage.value, m), t, src);
    } else if t.kind == KStruct {
      CoveringFieldsMono(t, |t.fields|, n, m, src);
      var a, b := EmptyOf(t, n), EmptyOf(t, m);
      assert a.fields[..|t.fields|] == a.fields && b.fields[..|t.fields|] == b.fields;
      assert src.fields[..|t.fields|] == src.fields;
    }
  }

  lemma {:induction false} RetypedCost(v: Values, typ: Type, src: Values)
    requires SameShape(v, src)
    ensures SameShape(v.(typ := typ), src)
    ensures Decoder.CoveringCost(v.(typ := typ), src) == Decoder.CoveringCost(v, src)
  {
  }

  lemma {:induction false} CoveringFieldsMono(t: Type, k: nat, n: nat, m: nat, src: Values)
    requires n <= m && Supported(t) && t.kind == KStruct && k <= |t.fields|
    requires SameShape(EmptyOf(t, n), src) && SameShape(EmptyOf(t, m), src)
    ensures Decoder.CoveringFields(EmptyOf(t, n).fields[..k], src.fields[..k])
            <= Decoder.CoveringFields(EmptyOf(t, m).fields[..k], src.fields[..k])
    decreases t, 0, k
  {
    if k > 0 {
      var a, b := EmptyOf(t, n).fields, EmptyOf(t, m).fields;
      assert a[..k][..k - 1] == a[..k - 1] && b[..k][..k - 1] == b[..k - 1];
      assert src.fields[..k][..k - 1] == src.fields[..k - 1];
      CoveringFieldsMono(t, k - 1, n, m, src);
      CoveringMono(t.fields[k - 1], n, m, src.fields[k - 1]);
    }
  }

  // ---------------------------------------------------------------------- patches

  /** The loop of `applyPatches` that copies rows. */
  method Patch(d: Decoder, was: Values, n: nat, idx: seq<nat>, vals: Values, t: Type, off: nat)
    returns (r: Option<Values>)
    requires Whole(was, t, n) && Whole(vals, t, |idx|)
    requires was.Fits() && was.n == n && vals.Fits() && vals.n == |idx| && SameShape(was, vals)
    modifies d`remaining, d`refused
    ensures d.remaining <= old(d.remaining)
    ensures r.Some? <==> Decoder.CoveringCost(was, vals) <= old(d.remaining) && Placed(idx, off, n)
    ensures r.Some? ==> Whole(r.value, t, n) && r.value.Fits() && r.value.n == n && d.refused == old(d.refused)
    ensures r.Some? ==> Rows(r.value) == Override(Rows(was), idx, Rows(vals), off)
    ensures r.None? ==> d.refused || !Placed(idx, off, n)
    ensures old(d.remaining) <= d.remaining + Decoder.CoveringCost(was, vals)
    ensures Decoder.CoveringCost(was, vals) <= old(d.remaining) ==> d.refused == old(d.refused)
  {
    hide Whole, Row, Rows, At, SameShape, Covers, Covering, OverriddenTo, Decoder.CoveringCost, Values.Fits;
    var c := d.CopyValidityShape(was, vals);
    if c.None? { return None; }
    var out := c.value;
    CoveredToFill(was, n, vals, |idx|, t);
    SameRows(out, was, n);
    OverrideStart(Rows(was), idx, Rows(vals), off);
    for i := 0 to |idx|
      modifies {}
      invariant Filling(out, n, vals, |idx|, t)
      invariant forall k | 0 <= k < i :: off <= idx[k] < off + n
      invariant forall j, k | 0 <= j < k < i :: idx[j] < idx[k]
      invariant OverriddenTo(Rows(out), Rows(was), idx, Rows(vals), off, i)
    {
      if idx[i] < off || idx[i] - off >= n { return None; }
      if i > 0 && idx[i] <= idx[i - 1] { return None; }
      var at := idx[i] - off;
      CopyRow(out, n, at, vals, |idx|, i, t);
      OverrideStep(Rows(out), Rows(was), idx, Rows(vals), off, i);
      RowsAt(vals, i);
      OneRow(out, At(out, at, vals, i), n, at, Row(vals, i));
      out := At(out, at, vals, i);
    }
    OverrideIs(Rows(out), Rows(was), idx, Rows(vals), off);
    r := Some(out);
  }

  lemma {:induction false} SameRows(a: Values, b: Values, n: nat)
    requires a.Fits() && b.Fits() && a.n == n && b.n == n && forall i: nat | i < n :: Row(a, i) == Row(b, i)
    ensures Rows(a) == Rows(b)
  {
  }

  lemma {:induction false} RowsAt(v: Values, i: nat)
    requires v.Fits() && i < v.n
    ensures Rows(v)[i] == Row(v, i)
  {
  }

  lemma {:induction false} OneRow(a: Values, b: Values, n: nat, at: nat, row: Cell)
    requires a.Fits() && b.Fits() && a.n == n && b.n == n && at < n && Row(b, at) == row && OnlyAt(a, b, n, at)
    ensures Rows(b) == Rows(a)[at := row]
  {
    hide Row, Values.Fits;
  }

  lemma {:induction false} CoveredToFill(was: Values, n: nat, vals: Values, m: nat, t: Type)
    requires Whole(was, t, n) && Whole(vals, t, m)
    requires was.Fits() && was.n == n && vals.Fits() && vals.n == m && SameShape(was, vals)
    ensures Filling(Covering(was, vals), n, vals, m, t)
    ensures forall i: nat | i < n :: Row(Covering(was, vals), i) == Row(was, i)
  {
    hide FieldsSound, Shaped, Covering, SameShape, Covers, Row;
    CoveringWhole(was, n, vals, m, t);
    ShapedFits(Covering(was, vals), t, n);
    ShapedLength(Covering(was, vals), t, n);
    forall i: nat | i < n ensures Row(Covering(was, vals), i) == Row(was, i) { CoveringRows(was, vals, i); }
  }
}
