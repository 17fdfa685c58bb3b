/** Decoding one page of a Pco chunk: header, interleaved batches of 256 values,
    delta restoration and joining of the latents. */
module PcoPage {
  import opened Wrappers
  import opened Words
  import opened BitStrings
  import opened PcoReader
  import opened PcoLatents
  import opened PcoBatches
  import opened PcoDelta
  import opened PcoModes

  datatype DeltaKind =
    | NoDelta
    | Consecutive(order: nat)
    | Lookbacks(order: nat, window: nat)
    | Convolutional(bias: int, quant: nat, weights: seq<int>)

  /** A chunk as `parseChunk` returns it. */
  datatype Chunk = Chunk(width: nat, kind: Kind, mode: Mode, delta: DeltaKind, vars: seq<Latent>) {

    /** The number of initial values kept in a page's state. */
    function Order(): nat {
      match delta
      case NoDelta => 0
      case Consecutive(order) => order
      case Lookbacks(order, _) => order
      case Convolutional(_, _, weights) => |weights|
    }

    /** The index of the primary latent; a lookback variable comes before it. */
    function Primary(): nat { if delta.Lookbacks? then 1 else 0 }

    function PrimaryWidth(): nat { if mode.Dictionary? then 32 else width }

    /** The conditions that `parseChunk` has checked. */
    ghost predicate Valid() {
      && width in {8, 16, 32, 64}
      && mode.Valid(width)
      && |vars| == Primary() + (if mode.HasSecondary() then 2 else 1)
      && (forall i | 0 <= i < |vars| :: vars[i].Valid())
      && vars[Primary()].width == PrimaryWidth()
      && (vars[Primary()].delta <==> delta != NoDelta)
      && (mode.HasSecondary() ==>
            && vars[Primary() + 1].width == width
            && (vars[Primary() + 1].delta ==> delta.Consecutive? || delta.Lookbacks?))
      && (delta.Lookbacks? ==>
            && vars[0].width == 32 && !vars[0].delta
            && 1 <= delta.order <= delta.window
            && forall b | b in vars[0].bins :: 1 <= b.lower <= delta.window)
      && (delta.Convolutional? ==>
            && PrimaryWidth() <= 32 && 1 <= |delta.weights| <= 32
            && var w, k := PrimaryWidth(), |delta.weights|;
               Abs(delta.bias) + Pow2(w) * AbsSum(delta.weights, k) < Pow2(2 * w - 1))
    }

    /** Whether variable `i` stores only the values after the initial ones. */
    predicate Shortened(i: nat)
      requires i < |vars|
    {
      vars[i].delta || (delta.Lookbacks? && i == 0)
    }

    /** How many values variable `i` stores for a page of `n`. */
    function Count(i: nat, n: nat): nat
      requires i < |vars|
    {
      if Shortened(i) then (if n < Order() then 0 else n - Order()) else n
    }

    /** How many of them the round starting at `start` reads. */
    function Limit(i: nat, start: nat, n: nat): nat
      requires i < |vars| && start <= n
    {
      if Shortened(i)
      then Min(256, if n - start < Order() then 0 else n - start - Order())
      else Min(256, n - start)
    }

    /** A variable with a delta stores the values after the initial ones, and so does the
        variable of the lookbacks; the others store a value a row. A page without a delta
        has no initial values. */
    lemma {:induction false} StoredValues(i: nat, n: nat)
      requires Valid() && i < |vars|
      ensures Count(i, n) == if vars[i].delta || (delta.Lookbacks? && i == 0) then Max(n, Order()) - Order() else n
    {
    }

    lemma {:induction false} LimitsAddUp(i: nat, start: nat, n: nat)
      requires i < |vars| && start < n
      ensures Min(start, Count(i, n)) + Limit(i, start, n) == Min(start + 256, Count(i, n))
    {
    }
  }

  datatype PageVar = PageVar(state: seq<nat>, ans: seq<nat>, values: seq<nat>)

  // ------------------------------------------------------------- page header

  function ReadMany(c: Cursor, width: nat, count: nat): (r: (seq<nat>, Cursor))
    ensures |r.0| == count && AllBelow(r.0, Pow2(width))
    decreases count
  {
    if count == 0 then ([], c)
    else
      var (x, c1) := c.Take(width);
      var (xs, end) := ReadMany(c1, width, count - 1);
      ([x] + xs, end)
  }

  function StateSize(v: Latent, order: nat): nat { if v.delta then order else 0 }

  function ReadVar(c: Cursor, v: Latent, order: nat): (r: (PageVar, Cursor)) {
    var (state, c1) := ReadMany(c, v.width, StateSize(v, order));
    var (ans, c2) := ReadMany(c1, v.log, 4);
    (PageVar(state, ans, []), c2)
  }

  ghost function Header(c: Cursor, vars: seq<Latent>, order: nat): (r: (seq<PageVar>, Cursor))
    ensures |r.0| == |vars|
    decreases |vars|
  {
    if vars == [] then ([], c)
    else
      var (p, c1) := ReadVar(c, vars[0], order);
      var (ps, end) := Header(c1, vars[1..], order);
      ([p] + ps, end)
  }

  method ReadManyValues(r: Reader, width: nat, count: nat) returns (xs: seq<nat>)
    requires r.Valid()
    modifies r
    ensures r.Valid() && (xs, r.View()) == ReadMany(old(r.View()), width, count)
  {
    hide Cursor.Take, Reader.View, Pow2;
    xs := [];
    ghost var all := ReadMany(r.View(), width, count);
    ExtrasMore([], 0, all.0);
    for i := 0 to count
      invariant r.Valid()
      invariant all == (xs + ReadMany(r.View(), width, count - i).0, ReadMany(r.View(), width, count - i).1)
    {
      var x := r.Read(width);
      ExtrasMore(xs, x, ReadMany(r.View(), width, count - i - 1).0);
      xs := xs + [x];
    }
    assert xs + [] == xs;
  }

  method ReadHeader(r: Reader, vars: seq<Latent>, order: nat) returns (vs: seq<PageVar>)
    requires r.Valid()
    modifies r
    ensures r.Valid() && (vs, r.View()) == Header(old(r.View()), vars, order)
  {
    hide Reader.View, ReadMany;
    vs := [];
    ghost var all := Header(r.View(), vars, order);
    assert [] + all.0 == all.0 && vars[0..] == vars;
    for i := 0 to |vars|
      invariant r.Valid()
      invariant all == (vs + Header(r.View(), vars[i..], order).0, Header(r.View(), vars[i..], order).1)
    {
      var state := ReadManyValues(r, vars[i].width, StateSize(vars[i], order));
      var ans := ReadManyValues(r, vars[i].log, 4);
      var p := PageVar(state, ans, []);
      assert vars[i..][1..] == vars[i + 1..];
      HeaderMore(vs, p, Header(r.View(), vars[i + 1..], order).0);
      vs := vs + [p];
    }
    assert vs + [] == vs;
  }

  lemma {:induction false} HeaderMore(vs: seq<PageVar>, p: PageVar, more: seq<PageVar>)
    ensures vs + ([p] + more) == (vs + [p]) + more
  {
  }

  // ------------------------------------------------------------------ rounds

  /** The variables of a page after the rounds before `start`: each has exactly
      the values that the batch limits allow so far. */
  ghost predicate Progress(c: Chunk, vs: seq<PageVar>, start: nat, n: nat, done: nat) {
    && |vs| == |c.vars|
    && forall i | 0 <= i < |vs| ::
      && StatesOk(c.vars[i].table, vs[i].ans)
      && |vs[i].state| == StateSize(c.vars[i], c.Order())
      && AllBelow(vs[i].state, Pow2(c.vars[i].width))
      && |vs[i].values| == Min(if i < done then start + 256 else start, c.Count(i, n))
  }

  /** One variable's batch in the round at `start`. */
  ghost function BatchOf(c: Chunk, i: nat, p: PageVar, at: Cursor, start: nat, n: nat)
    : (r: Option<(PageVar, Cursor)>)
    requires c.Valid() && i < |c.vars| && start < n && StatesOk(c.vars[i].table, p.ans)
    ensures r.Some? ==> r.value.0.state == p.state && StatesOk(c.vars[i].table, r.value.0.ans)
    ensures r.Some? ==> |r.value.0.values| == |p.values| + c.Limit(i, start, n)
  {
    var limit := c.Limit(i, start, n);
    if limit > 0 && c.vars[i].bins == [] then None
    else
      var (values, ans, end) := Batch(c.vars[i], at, p.ans, limit);
      if end.ok then Some((PageVar(p.state, ans, p.values + values), end)) else None
  }

  lemma {:induction false} ProgressNext(c: Chunk, vs: seq<PageVar>, start: nat, n: nat, i: nat, p: PageVar)
    requires i < |c.vars| && start < n && Progress(c, vs, start, n, i)
    requires p.state == vs[i].state && StatesOk(c.vars[i].table, p.ans)
    requires |p.values| == |vs[i].values| + c.Limit(i, start, n)
    ensures Progress(c, vs[i := p], start, n, i + 1)
  {
    c.LimitsAddUp(i, start, n);
  }

  lemma {:induction false} ProgressRound(c: Chunk, vs: seq<PageVar>, start: nat, n: nat)
    requires Progress(c, vs, start, n, |c.vars|)
    ensures Progress(c, vs, start + 256, n, 0)
  {
  }

  /** After the last round every variable has all its values. */
  ghost predicate Complete(c: Chunk, vs: seq<PageVar>, n: nat) {
    && |vs| == |c.vars|
    && forall i | 0 <= i < |vs| ::
      && |vs[i].state| == StateSize(c.vars[i], c.Order())
      && AllBelow(vs[i].state, Pow2(c.vars[i].width))
      && |vs[i].values| == c.Count(i, n)
  }

  lemma {:induction false} ProgressComplete(c: Chunk, vs: seq<PageVar>, start: nat, n: nat)
    requires Progress(c, vs, start, n, 0) && start >= n
    ensures Complete(c, vs, n)
  {
  }

  /** The batches of variables `i` onwards in the round at `start`. */
  ghost function Round(c: Chunk, vs: seq<PageVar>, at: Cursor, start: nat, n: nat, i: nat)
    : (r: Option<(seq<PageVar>, Cursor)>)
    requires c.Valid() && start < n && i <= |c.vars| && Progress(c, vs, start, n, i)
    ensures r.Some? ==> Progress(c, r.value.0, start + 256, n, 0)
    decreases |c.vars| - i
  {
    if i == |c.vars| then
      ProgressRound(c, vs, start, n);
      Some((vs, at))
    else
      match BatchOf(c, i, vs[i], at, start, n)
      case None => None
      case Some((p, next)) =>
        ProgressNext(c, vs, start, n, i, p);
        Round(c, vs[i := p], next, start, n, i + 1)
  }

  /** All rounds from `start` on; on success every variable is complete. */
  ghost function Rounds(c: Chunk, vs: seq<PageVar>, at: Cursor, start: nat, n: nat)
    : (r: Option<(seq<PageVar>, Cursor)>)
    requires c.Valid() && Progress(c, vs, start, n, 0)
    ensures r.Some? ==> Complete(c, r.value.0, n)
    decreases if start < n then n - start else 0
  {
    if start >= n then
      ProgressComplete(c, vs, start, n);
      Some((vs, at))
    else match Round(c, vs, at, start, n, 0)
         case None => None
         case Some((next, end)) => Rounds(c, next, end, start + 256, n)
  }

  /** A page of at most 256 values has one round; a longer one goes on with the next 256. */
  lemma {:induction false} RoundsOf256(c: Chunk, vs: seq<PageVar>, at: Cursor, n: nat)
    requires c.Valid() && Progress(c, vs, 0, n, 0) && n > 0
    ensures Rounds(c, vs, at, 0, n)
            == match Round(c, vs, at, 0, n, 0)
               case None => None
               case Some((next, end)) => if n <= 256 then Some((next, end)) else Rounds(c, next, end, 256, n)
  {
    hide Chunk.Valid, Progress, Round;
    var first := Round(c, vs, at, 0, n, 0);
    if first.Some? && n <= 256 {
      assert Rounds(c, first.value.0, first.value.1, 256, n) == Some(first.value);
    }
  }

  method ReadBatch(r: Reader, c: Chunk, i: nat, p: PageVar, start: nat, n: nat) returns (next: Option<PageVar>)
    requires r.Valid() && c.Valid() && i < |c.vars| && start < n && StatesOk(c.vars[i].table, p.ans)
    modifies r
    ensures r.Valid()
    ensures match BatchOf(c, i, p, old(r.View()), start, n)
            case None => next.None?
            case Some((q, end)) => next == Some(q) && r.View() == end
  {
    var limit := c.Limit(i, start, n);
    var values, ans := ReadLatents(r, c.vars[i], p.ans, limit);
    if values.None? { return None; }
    next := Some(PageVar(p.state, ans, p.values + values.value));
  }

  method ReadRound(r: Reader, c: Chunk, before: seq<PageVar>, start: nat, n: nat) returns (vs: Option<seq<PageVar>>)
    requires r.Valid() && c.Valid() && start < n && Progress(c, before, start, n, 0)
    modifies r
    ensures r.Valid()
    ensures match Round(c, before, old(r.View()), start, n, 0)
            case None => vs.None?
            case Some((after, end)) => vs == Some(after) && r.View() == end
  {
    hide Chunk.Valid, Reader.View, BatchOf, Progress;
    var cur := before;
    ghost var all := Round(c, before, r.View(), start, n, 0);
    ProgressLength(c, before, start, n, 0);
    for i := 0 to |c.vars|
      invariant r.Valid() && Progress(c, cur, start, n, i) && |cur| == |c.vars|
      invariant all == Round(c, cur, r.View(), start, n, i)
    {
      ProgressStates(c, cur, start, n, i);
      var p := ReadBatch(r, c, i, cur[i], start, n);
      if p.None? { return None; }
      ProgressNext(c, cur, start, n, i, p.value);
      cur := cur[i := p.value];
    }
    return Some(cur);
  }

  lemma {:induction false} ProgressLength(c: Chunk, vs: seq<PageVar>, start: nat, n: nat, done: nat)
    requires Progress(c, vs, start, n, done)
    ensures |vs| == |c.vars|
  {
  }

  lemma {:induction false} ProgressStates(c: Chunk, vs: seq<PageVar>, start: nat, n: nat, i: nat)
    requires Progress(c, vs, start, n, i) && i < |c.vars| == |vs|
    ensures StatesOk(c.vars[i].table, vs[i].ans)
  {
  }

  method ReadRounds(r: Reader, c: Chunk, before: seq<PageVar>, n: nat) returns (vs: Option<seq<PageVar>>)
    requires r.Valid() && c.Valid() && Progress(c, before, 0, n, 0)
    modifies r
    ensures r.Valid()
    ensures match Rounds(c, before, old(r.View()), 0, n)
            case None => vs.None?
            case Some((after, end)) => vs == Some(after) && r.View() == end
  {
    hide Chunk.Valid, Reader.View, Round, Progress;
    var cur, start := before, 0;
    ghost var all := Rounds(c, before, r.View(), 0, n);
    while start < n
      invariant r.Valid() && Progress(c, cur, start, n, 0)
      invariant all == Rounds(c, cur, r.View(), start, n)
    {
      var next := ReadRound(r, c, cur, start, n);
      if next.None? { return None; }
      cur := next.value;
      start := start + 256;
    }
    return Some(cur);
  }

  // ------------------------------------------------- restoring and joining

  /** The latents of one variable after its delta has been undone. */
  function RestoreVar(c: Chunk, v: Latent, p: PageVar, looks: seq<nat>, n: nat): (r: Option<seq<nat>>)
    requires v.width > 0 && |p.state| == StateSize(v, c.Order())
    requires |p.values| == if v.delta && n >= c.Order() then n - c.Order() else if v.delta then 0 else n
    requires v.delta && c.delta.Lookbacks? ==> |looks| == |p.values|
    requires v.delta ==> c.delta != NoDelta
    ensures r.Some? ==> |r.value| == n
  {
    if !v.delta then Some(p.values)
    else match c.delta
         case Consecutive(_) => Some(RestoreConsecutive(p.values, p.state, n, v.width))
         case Lookbacks(_, window) => RestoreLookback(p.values, looks, p.state, window, n, v.width)
         case Convolutional(bias, quant, weights) =>
           Some(RestoreConvolution(p.values, p.state, weights, bias, quant, n, v.width))
  }

  /** One output word from the latents of its row. */
  function WordOf(c: Chunk, v: nat, s: nat): (r: Option<nat>)
    requires c.width > 0 && c.mode.Valid(c.width)
    ensures r.Some? ==> r.value < Pow2(c.width)
  {
    match Join(c.mode, c.width, v, s)
    case None => None
    case Some(u) => WordRoundTrip(c.kind, u, c.width); Some(ToWord(c.kind, u, c.width))
  }

  /** All output words, or None if any row fails. `s` is empty without a
      secondary latent. */
  function JoinAll(c: Chunk, p: seq<nat>, s: seq<nat>): (r: Option<seq<nat>>)
    requires c.width > 0 && c.mode.Valid(c.width) && (c.mode.HasSecondary() ==> |s| == |p|)
    ensures r.Some? ==> |r.value| == |p| && AllBelow(r.value, Pow2(c.width))
    decreases |p|
  {
    if p == [] then Some([])
    else
      var last := |p| - 1;
      var before := JoinAll(c, p[..last], if c.mode.HasSecondary() then s[..last] else s);
      if before.None? then None
      else match WordOf(c, p[last], if c.mode.HasSecondary() then s[last] else 0)
           case None => None
           case Some(x) => Some(before.value + [x])
  }

  /** Row by row: the mode joins the primary and the secondary latent of the row, and the kind
      says what the result means. */
  lemma {:induction false} JoinedRow(c: Chunk, p: seq<nat>, s: seq<nat>, i: nat)
    requires c.width > 0 && c.mode.Valid(c.width) && (c.mode.HasSecondary() ==> |s| == |p|)
    requires JoinAll(c, p, s).Some? && i < |p|
    ensures var u := Join(c.mode, c.width, p[i], if c.mode.HasSecondary() then s[i] else 0);
            u.Some? && JoinAll(c, p, s).value[i] == ToWord(c.kind, u.value, c.width)
    decreases |p|
  {
    hide Join, ToWord, Mode.Valid, Pow2;
    var last := |p| - 1;
    if i < last { JoinedRow(c, p[..last], if c.mode.HasSecondary() then s[..last] else s, i); }
  }

  /** The lookback distances of a page, shared by its delta variables. */
  ghost function Looks(c: Chunk, vs: seq<PageVar>): seq<nat>
    requires |vs| > 0
  {
    if c.delta.Lookbacks? then vs[0].values else []
  }

  /** The restored latents of variable `i`. */
  ghost function Restored(c: Chunk, vs: seq<PageVar>, n: nat, i: nat): (r: Option<seq<nat>>)
    requires c.Valid() && Complete(c, vs, n) && c.Primary() <= i < |c.vars|
    ensures r.Some? ==> |r.value| == n
  {
    RestoreVar(c, c.vars[i], vs[i], Looks(c, vs), n)
  }

  /** The page's words from its complete variables. */
  ghost function Reconstruct(c: Chunk, vs: seq<PageVar>, n: nat): (r: Option<seq<nat>>)
    requires c.Valid() && Complete(c, vs, n)
    ensures r.Some? ==> |r.value| == n && AllBelow(r.value, Pow2(c.width))
  {
    match Restored(c, vs, n, c.Primary())
    case None => None
    case Some(p) =>
      if !c.mode.HasSecondary() then JoinAll(c, p, [])
      else match Restored(c, vs, n, c.Primary() + 1)
           case None => None
           case Some(s) => JoinAll(c, p, s)
  }

  /** The meaning of `chunk.page`: the `n` words of the page, or None for every
      malformed stream. */
  ghost function Page(c: Chunk, data: seq<byte>, n: nat): (r: Option<seq<nat>>)
    requires c.Valid()
    ensures r.Some? ==> |r.value| == n && AllBelow(r.value, Pow2(c.width))
  {
    var (vs, c1) := Header(Cursor(BitsOf(data), 0, true), c.vars, c.Order());
    var c2 := c1.Align();
    HeaderProgress(c, Cursor(BitsOf(data), 0, true), n);
    if !c2.ok then None
    else match Rounds(c, vs, c2, 0, n)
         case None => None
         case Some((done, end)) => if end.Finished() then Reconstruct(c, done, n) else None
  }

  lemma {:induction false} HeaderProgress(c: Chunk, at: Cursor, n: nat)
    requires c.Valid()
    ensures Progress(c, Header(at, c.vars, c.Order()).0, 0, n, 0)
  {
    forall i: nat | i < |c.vars| ensures HeaderVarOk(c.vars[i], c.Order(), Header(at, c.vars, c.Order()).0[i]) {
      HeaderVars(at, c.vars, c.Order(), i);
    }
  }

  ghost predicate HeaderVarOk(v: Latent, order: nat, p: PageVar) {
    && StatesOk(v.table, p.ans) && p.values == []
    && |p.state| == StateSize(v, order) && AllBelow(p.state, Pow2(v.width))
  }

  lemma {:induction false} HeaderVars(at: Cursor, vars: seq<Latent>, order: nat, i: nat)
    requires i < |vars| && vars[i].Valid()
    ensures HeaderVarOk(vars[i], order, Header(at, vars, order).0[i])
    decreases i
  {
    var (p, c1) := ReadVar(at, vars[0], order);
    if i > 0 { HeaderVars(c1, vars[1..], order, i - 1); }
  }

  method Restore(c: Chunk, v: Latent, p: PageVar, looks: seq<nat>, n: nat) returns (r: Option<seq<nat>>)
    requires v.width > 0 && |p.state| == StateSize(v, c.Order()) && AllBelow(p.state, Pow2(v.width))
    requires |p.values| == if v.delta && n >= c.Order() then n - c.Order() else if v.delta then 0 else n
    requires v.delta && c.delta.Lookbacks? ==> |looks| == |p.values|
    requires v.delta ==> c.delta != NoDelta
    requires v.delta && c.delta.Convolutional? ==>
               Abs(c.delta.bias) + Pow2(v.width) * AbsSum(c.delta.weights, |c.delta.weights|) < Pow2(2 * v.width - 1)
    ensures r == RestoreVar(c, v, p, looks, n)
  {
    if !v.delta { return Some(p.values); }
    match c.delta {
      case Consecutive(_) =>
        var out := ConsecutiveLoop(p.values, p.state, n, v.width);
        r := Some(out[..]);
      case Lookbacks(_, window) =>
        r := LookbackLoop(p.values, looks, p.state, window, n, v.width);
      case Convolutional(bias, quant, weights) =>
        var out := ConvolutionLoop(p.values, p.state, weights, bias, quant, n, v.width);
        r := Some(out);
    }
  }

  method JoinLoop(c: Chunk, p: seq<nat>, s: seq<nat>) returns (out: Option<seq<nat>>)
    requires c.width > 0 && c.mode.Valid(c.width) && (c.mode.HasSecondary() ==> |s| == |p|)
    ensures out == JoinAll(c, p, s)
  {
    hide WordOf;
    var words: seq<nat> := [];
    ghost var two := c.mode.HasSecondary();
    for i := 0 to |p|
      invariant JoinAll(c, p[..i], if two then s[..i] else s) == Some(words)
    {
      var x := WordOf(c, p[i], if c.mode.HasSecondary() then s[i] else 0);
      JoinNext(c, p, s, i);
      if x.None? {
        JoinFails(c, p, s, i + 1);
        return None;
      }
      words := words + [x.value];
    }
    assert p[..|p|] == p && (two ==> s[..|p|] == s);
    return Some(words);
  }

  lemma {:induction false} JoinNext(c: Chunk, p: seq<nat>, s: seq<nat>, i: nat)
    requires c.width > 0 && c.mode.Valid(c.width) && (c.mode.HasSecondary() ==> |s| == |p|) && i < |p|
    ensures var two := c.mode.HasSecondary();
            var before := JoinAll(c, p[..i], if two then s[..i] else s);
            var x := WordOf(c, p[i], if two then s[i] else 0);
            JoinAll(c, p[..i + 1], if two then s[..i + 1] else s)
            == if before.None? || x.None? then None else Some(before.value + [x.value])
  {
    hide WordOf;
    assert p[..i + 1][..i] == p[..i];
    if c.mode.HasSecondary() { assert s[..i + 1][..i] == s[..i]; }
  }

  lemma {:induction false} JoinFails(c: Chunk, p: seq<nat>, s: seq<nat>, i: nat)
    requires c.width > 0 && c.mode.Valid(c.width) && (c.mode.HasSecondary() ==> |s| == |p|) && i <= |p|
    requires JoinAll(c, p[..i], if c.mode.HasSecondary() then s[..i] else s).None?
    ensures JoinAll(c, p, s).None?
    decreases |p| - i
  {
    hide JoinAll, WordOf;
    if i < |p| {
      JoinNext(c, p, s, i);
      JoinFails(c, p, s, i + 1);
    } else {
      assert p[..i] == p && (c.mode.HasSecondary() ==> s[..i] == s);
    }
  }

  method Rebuilt(c: Chunk, vs: seq<PageVar>, n: nat) returns (out: Option<seq<nat>>)
    requires c.Valid() && Complete(c, vs, n)
    ensures out == Reconstruct(c, vs, n)
  {
    hide JoinAll, RestoreVar, AbsSum, Abs, Pow2;
    var k := c.Primary();
    var looks := if c.delta.Lookbacks? then vs[0].values else [];
    var p := Restore(c, c.vars[k], vs[k], looks, n);
    if p.None? { return None; }
    if !c.mode.HasSecondary() {
      out := JoinLoop(c, p.value, []);
      return;
    }
    var s := Restore(c, c.vars[k + 1], vs[k + 1], looks, n);
    if s.None? { return None; }
    out := JoinLoop(c, p.value, s.value);
  }

  /** `chunk.page`. */
  method DecodePage(c: Chunk, data: seq<byte>, n: nat) returns (out: Option<seq<nat>>)
    requires c.Valid()
    ensures out == Page(c, data, n)
  {
    hide Chunk.Valid, Header, Rounds, Reconstruct, Progress, BitsOf, Cursor.Align;
    var r := new Reader(data);
    ghost var start := r.View();
    var vs := ReadHeader(r, c.vars, c.Order());
    HeaderProgress(c, start, n);
    r.Align();
    if r.failed { return None; }
    var rounds := ReadRounds(r, c, vs, n);
    if rounds.None? { return None; }
    var finished := r.Finish();
    if !finished { return None; }
    out := Rebuilt(c, rounds.value, n);
  }
}
