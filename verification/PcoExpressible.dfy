/** From output words to a page and back: exactly which sequences of words have a page
    that decodes to them. */
module PcoExpressible {
  import opened Wrappers
  import opened Words
  import opened AnsTable
  import opened BitStrings
  import opened PcoReader
  import opened PcoLatents
  import opened PcoBatches
  import opened PcoDelta
  import opened PcoModes
  import opened PcoPage
  import opened PcoPageRoundTrip

  // ------------------------------------------------------- undoing the delta

  /** The first value of each difference order below `k`, zero where there is none. */
  function FirstMoments(x: seq<nat>, k: nat, w: nat): (state: seq<nat>)
    ensures |state| == k
    decreases k
  {
    if k == 0 then []
    else [if x == [] then 0 else x[0]] + FirstMoments(Diff(x, w), k - 1, w)
  }

  lemma {:induction false} FirstMomentsOk(x: seq<nat>, k: nat, w: nat)
    requires AllBelow(x, Pow2(w))
    ensures Moments(x, FirstMoments(x, k, w), w) && AllBelow(FirstMoments(x, k, w), Pow2(w))
    decreases k
  {
    hide Low, Pow2;
    if k > 0 {
      FirstMomentsOk(Diff(x, w), k - 1, w);
    }
  }

  /** The initial values that the page state of variable `v` must hold for latents `x`. */
  function StateOf(c: Chunk, v: Latent, x: seq<nat>): (state: seq<nat>)
    requires v.delta ==> c.delta != NoDelta
    ensures |state| == StateSize(v, c.Order())
  {
    if !v.delta then []
    else
      var initial := Min(|x|, c.Order());
      match c.delta
      case Consecutive(order) => FirstMoments(x, order, v.width)
      case Lookbacks(order, _) => seq(order - initial, _ => 0) + x[..initial]
      case Convolutional(_, _, weights) => x[..initial] + seq(|weights| - initial, _ => 0)
  }

  /** The values that variable `v` stores for latents `x`. */
  function RawOf(c: Chunk, v: Latent, x: seq<nat>, looks: seq<nat>): (raw: seq<nat>)
    requires v.width > 0 && (v.delta ==> c.delta != NoDelta)
    ensures |raw| == if !v.delta then |x| else if |x| < c.Order() then 0 else |x| - c.Order()
  {
    if !v.delta then x
    else
      var initial := Min(|x|, c.Order());
      match c.delta
      case Consecutive(order) => FlipAll(DiffK(x, order, v.width), v.width)
      case Lookbacks(order, _) => Residuals(x, initial, Lookback(looks), v.width)
      case Convolutional(bias, quant, weights) =>
        Residuals(x, initial, Convolution(weights, bias, quant), v.width)
  }

  lemma {:induction false} StateBelow(c: Chunk, v: Latent, x: seq<nat>)
    requires (v.delta ==> c.delta != NoDelta) && AllBelow(x, Pow2(v.width))
    ensures AllBelow(StateOf(c, v, x), Pow2(v.width))
  {
    hide FirstMoments;
    if v.delta && c.delta.Consecutive? { FirstMomentsOk(x, c.delta.order, v.width); }
  }

  /** Each delta kind is undone for every page length and every lookback choice
      within the window. */
  lemma {:induction false} RestoreRaw(c: Chunk, v: Latent, x: seq<nat>, looks: seq<nat>, ans: seq<nat>)
    requires v.width > 0 && (v.delta ==> c.delta != NoDelta) && AllBelow(x, Pow2(v.width))
    requires v.delta && c.delta.Lookbacks? ==>
               |looks| == |RawOf(c, v, x, looks)| && LooksOk(looks, c.delta.window)
    ensures RestoreVar(c, v, PageVar(StateOf(c, v, x), ans, RawOf(c, v, x, looks)), looks, |x|) == Some(x)
  {
    hide FirstMoments, RestoreConsecutive, DiffK, FlipAll, Residuals, RestoreLookback, RestoreConvolution, Pow2;
    if v.delta {
      var initial, state := Min(|x|, c.Order()), StateOf(c, v, x);
      match c.delta
      case Consecutive(order) =>
        FirstMomentsOk(x, order, v.width);
        ConsecutiveRoundTrip(x, state, v.width);
      case Lookbacks(order, window) =>
        assert state[order - initial..] == x[..initial];
        LookbackRoundTrip(x, looks, state, window, v.width);
      case Convolutional(bias, quant, weights) =>
        assert state[..initial] == x[..initial];
        ConvolutionRoundTrip(x, state, weights, bias, quant, v.width);
    }
  }

  /** The stored values follow from the restored latents: `RestoreRaw` backwards. */
  lemma {:induction false} RawOfRestored(c: Chunk, v: Latent, p: PageVar, looks: seq<nat>, n: nat)
    requires v.width > 0 && |p.state| == StateSize(v, c.Order()) && (v.delta ==> c.delta != NoDelta)
    requires |p.values| == if v.delta && n >= c.Order() then n - c.Order() else if v.delta then 0 else n
    requires v.delta && c.delta.Lookbacks? ==> |looks| == |p.values|
    requires AllBelow(p.values, Pow2(v.width)) && AllBelow(p.state, Pow2(v.width))
    requires RestoreVar(c, v, p, looks, n).Some?
    ensures var x := RestoreVar(c, v, p, looks, n).value;
            AllBelow(x, Pow2(v.width)) && RawOf(c, v, x, looks) == p.values
  {
    hide RestoreConsecutive, DiffK, FlipAll, Residuals, Rebuild, Pow2;
    if v.delta {
      match c.delta
      case Consecutive(_) => ConsecutiveStored(p.values, p.state, n, v.width);
      case Lookbacks(order, _) =>
        RebuiltStored(p.state[order - Min(n, order)..], p.values, Lookback(looks), v.width);
      case Convolutional(bias, quant, weights) =>
        RebuiltStored(p.state[..Min(n, |weights|)], p.values, Convolution(weights, bias, quant), v.width);
    }
  }

  // ------------------------------------------------------ splitting the words

  /** The primary (or secondary) latents of output words. */
  function Latents(c: Chunk, x: seq<nat>, primary: bool): (r: seq<nat>)
    requires c.width > 0 && c.mode.Valid(c.width) && AllBelow(x, Pow2(c.width))
    ensures |r| == |x|
  {
    seq(|x|, i requires 0 <= i < |x| =>
      WordRoundTrip(c.kind, x[i], c.width);
      var parts := Split(c.mode, c.width, FromWord(c.kind, x[i], c.width));
      if primary then parts.0 else parts.1)
  }

  /** In dictionary mode only the dictionary's words can be expressed. */
  predicate InDictionary(c: Chunk, x: seq<nat>)
    requires c.width > 0 && AllBelow(x, Pow2(c.width))
  {
    c.mode.Dictionary? ==>
      forall i | 0 <= i < |x| :: FromWord(c.kind, x[i], c.width) in c.mode.dict
  }

  lemma {:induction false} JoinLatents(c: Chunk, x: seq<nat>)
    requires c.width > 0 && c.mode.Valid(c.width) && AllBelow(x, Pow2(c.width)) && InDictionary(c, x)
    ensures JoinAll(c, Latents(c, x, true), if c.mode.HasSecondary() then Latents(c, x, false) else []) == Some(x)
    decreases |x|
  {
    hide Split, FromWord, ToWord, Join, Pow2, Mode.Valid;
    if x != [] {
      var last := |x| - 1;
      JoinLatents(c, x[..last]);
      assert Latents(c, x, true)[..last] == Latents(c, x[..last], true);
      assert Latents(c, x, false)[..last] == Latents(c, x[..last], false);
      WordOfLatents(c, x[last]);
      assert x[..last] + [x[last]] == x;
    }
  }

  lemma {:induction false} WordOfLatents(c: Chunk, y: nat)
    requires c.width > 0 && c.mode.Valid(c.width) && y < Pow2(c.width)
    requires c.mode.Dictionary? ==> FromWord(c.kind, y, c.width) in c.mode.dict
    ensures FromWord(c.kind, y, c.width) < Pow2(c.width)
    ensures var parts := Split(c.mode, c.width, FromWord(c.kind, y, c.width));
            WordOf(c, parts.0, if c.mode.HasSecondary() then parts.1 else 0) == Some(y)
  {
    WordRoundTrip(c.kind, y, c.width);
    SplitJoin(c.mode, c.width, FromWord(c.kind, y, c.width));
  }

  lemma {:induction false} LatentsBelow(c: Chunk, x: seq<nat>)
    requires c.width > 0 && c.mode.Valid(c.width) && AllBelow(x, Pow2(c.width)) && InDictionary(c, x)
    ensures AllBelow(Latents(c, x, true), Pow2(c.PrimaryWidth()))
    ensures AllBelow(Latents(c, x, false), Pow2(c.width))
  {
    hide Split, FromWord;
    forall i | 0 <= i < |x|
      ensures Latents(c, x, true)[i] < Pow2(c.PrimaryWidth()) && Latents(c, x, false)[i] < Pow2(c.width)
    {
      WordRoundTrip(c.kind, x[i], c.width);
      var u := FromWord(c.kind, x[i], c.width);
      SplitJoin(c.mode, c.width, u);
      if c.mode.Dictionary? { DictionaryIndex(c.mode, c.width, u); }
    }
  }

  lemma {:induction false} DictionaryIndex(mode: Mode, w: nat, u: nat)
    requires w > 0 && mode.Valid(w) && u < Pow2(w) && mode.Dictionary?
    ensures Split(mode, w, u).0 < Pow2(32)
  {
    Pow2Mono(25, 32);
  }

  // ------------------------------------------------ the values that bins reach

  /** Some bin and offset of `v` stand for the word. */
  ghost predicate Reaches(v: Latent, u: nat) {
    exists code :: Fits(v, code) && Value(v, code) == u
  }

  ghost predicate ReachesAll(v: Latent, raw: seq<nat>) {
    forall j | 0 <= j < |raw| :: Reaches(v, raw[j])
  }

  ghost function CodeFor(v: Latent, u: nat): (code: Code)
    requires Reaches(v, u)
    ensures Fits(v, code) && Value(v, code) == u
  {
    var code :| Fits(v, code) && Value(v, code) == u;
    code
  }

  ghost function CodesFor(v: Latent, x: seq<nat>): (codes: seq<Code>)
    requires ReachesAll(v, x)
    ensures AllFit(v, codes) && Values(v, codes) == x
  {
    var codes := seq(|x|, i requires 0 <= i < |x| => CodeFor(v, x[i]));
    assert Values(v, codes) == x;
    codes
  }

  lemma {:induction false} ReachedBelow(v: Latent, raw: seq<nat>)
    requires ReachesAll(v, raw)
    ensures AllBelow(raw, Pow2(v.width))
  {
    hide Low, Pow2;
    forall j | 0 <= j < |raw| ensures raw[j] < Pow2(v.width) { var code := CodeFor(v, raw[j]); }
  }

  ghost predicate NodeOfBin(v: Latent, node: Node) {
    exists s: nat :: s < |v.bins| && node.lower == v.bins[s].lower && node.offset == v.bins[s].offset
  }

  lemma {:induction false} TableOfBins(v: Latent, i: nat)
    requires v.Valid() && i < |v.table|
    ensures NodeOfBin(v, v.table[i])
  {
    hide Spread, TableOf;
    TableAt(v.bins, v.log, i);
    SpreadOwnership(v.bins, v.log, 0);
    var s: nat := Spread(v.bins, v.log)[i];
    assert v.table[i].lower == v.bins[s].lower;
  }

  lemma {:induction false} StepsOfBins(v: Latent, c: Cursor, ans: seq<nat>, i: nat, n: nat)
    requires v.Valid() && Closed(v.table) && StatesOk(v.table, ans) && i <= n && (i < n ==> v.table != [])
    ensures forall k | 0 <= k < n - i :: NodeOfBin(v, Steps(v.table, c, ans, i, n).0[k])
    decreases n - i
  {
    hide Latent.Valid, Closed, NodeOfBin, Cursor.Take;
    if i < n {
      var node := v.table[ans[i % 4]];
      var (x, c1) := c.Take(node.read);
      TableOfBins(v, ans[i % 4]);
      StepsFirst(v.table, c, ans, i, n, x, c1);
      StepsOfBins(v, c1, ans[i % 4 := node.next + x], i + 1, n);
    }
  }

  lemma {:induction false} ExtrasReach(v: Latent, c: Cursor, nodes: seq<Node>)
    requires forall k | 0 <= k < |nodes| :: NodeOfBin(v, nodes[k])
    ensures ReachesAll(v, Extras(c, nodes, v.width).0)
    decreases |nodes|
  {
    hide Cursor.Take, Low, Pow2;
    if nodes != [] {
      var (x, c1) := c.Take(nodes[0].offset);
      var s: nat :| s < |v.bins| && nodes[0].lower == v.bins[s].lower && nodes[0].offset == v.bins[s].offset;
      assert Fits(v, Code(s, x)) && Value(v, Code(s, x)) == Low(nodes[0].lower + x, v.width);
      ExtrasReach(v, c1, nodes[1..]);
    }
  }

  /** Whatever bits a batch is read from, the bins reach its values. */
  lemma {:induction false} BatchReaches(v: Latent, c: Cursor, ans: seq<nat>, n: nat)
    requires v.Valid() && StatesOk(v.table, ans) && (n > 0 ==> v.bins != [])
    ensures ReachesAll(v, Batch(v, c, ans, n).0)
  {
    hide Latent.Valid, Closed, Steps, Extras, ReachesAll;
    ValidTableClosed(v);
    StepsOfBins(v, c, ans, 0, n);
    var (nodes, last, middle) := Steps(v.table, c, ans, 0, n);
    ExtrasReach(v, middle, nodes);
  }

  ghost predicate AllReached(c: Chunk, vs: seq<PageVar>) {
    |vs| == |c.vars| && forall i | 0 <= i < |vs| :: ReachesAll(c.vars[i], vs[i].values)
  }

  lemma {:induction false} BatchOfReaches(c: Chunk, i: nat, p: PageVar, at: Cursor, start: nat, n: nat)
    requires c.Valid() && i < |c.vars| && start < n && StatesOk(c.vars[i].table, p.ans)
    requires ReachesAll(c.vars[i], p.values) && BatchOf(c, i, p, at, start, n).Some?
    ensures ReachesAll(c.vars[i], BatchOf(c, i, p, at, start, n).value.0.values)
  {
    hide Batch, Reaches, Latent.Valid, Chunk.Limit;
    ChunkVarValid(c, i);
    BatchReaches(c.vars[i], at, p.ans, c.Limit(i, start, n));
  }

  lemma {:induction false} RoundReaches(c: Chunk, vs: seq<PageVar>, at: Cursor, start: nat, n: nat, i: nat)
    requires c.Valid() && start < n && i <= |c.vars| && Progress(c, vs, start, n, i) && AllReached(c, vs)
    requires Round(c, vs, at, start, n, i).Some?
    ensures AllReached(c, Round(c, vs, at, start, n, i).value.0)
    decreases |c.vars| - i
  {
    hide Chunk.Valid, BatchOf, ReachesAll, Progress;
    if i < |c.vars| {
      ProgressLength(c, vs, start, n, i);
      ProgressStates(c, vs, start, n, i);
      var (p, next) := BatchOf(c, i, vs[i], at, start, n).value;
      BatchOfReaches(c, i, vs[i], at, start, n);
      ProgressNext(c, vs, start, n, i, p);
      RoundReaches(c, vs[i := p], next, start, n, i + 1);
    }
  }

  lemma {:induction false} RoundsReach(c: Chunk, vs: seq<PageVar>, at: Cursor, start: nat, n: nat)
    requires c.Valid() && Progress(c, vs, start, n, 0) && AllReached(c, vs) && Rounds(c, vs, at, start, n).Some?
    ensures AllReached(c, Rounds(c, vs, at, start, n).value.0)
    decreases if start < n then n - start else 0
  {
    hide Chunk.Valid, Round, AllReached, Progress;
    if start < n {
      RoundReaches(c, vs, at, start, n, 0);
      var (next, end) := Round(c, vs, at, start, n, 0).value;
      RoundsReach(c, next, end, start + 256, n);
    }
  }

  // ------------------------------------------------------- expressible words

  /** What the variables of a page stand for: lookbacks, primary and secondary latents. */
  datatype Parts = Parts(looks: seq<nat>, primary: seq<nat>, secondary: seq<nat>)

  /** The latents of variable `i`. */
  function Column(c: Chunk, q: Parts, i: nat): seq<nat> {
    if i < c.Primary() then q.looks else if i == c.Primary() then q.primary else q.secondary
  }

  /** What variable `i` stores for the latents. */
  function Stored(c: Chunk, q: Parts, i: nat): (raw: seq<nat>)
    requires c.Valid() && i < |c.vars|
  {
    RawOf(c, c.vars[i], Column(c, q, i), q.looks)
  }

  /** There is one latent of each kind per row, and lookbacks for the rows after the
      initial values, inside the window. */
  ghost predicate Shaped(c: Chunk, q: Parts, n: nat)
    requires c.Valid()
  {
    && |q.primary| == n && AllBelow(q.primary, Pow2(c.PrimaryWidth()))
    && |q.secondary| == (if c.mode.HasSecondary() then n else 0) && AllBelow(q.secondary, Pow2(c.width))
    && (if c.delta.Lookbacks? then |q.looks| == c.Count(0, n) && LooksOk(q.looks, c.delta.window) else q.looks == [])
  }

  /** The latents join to the words, and every value they store is reached by a bin. */
  ghost predicate Expresses(c: Chunk, q: Parts, x: seq<nat>)
    requires c.Valid()
  {
    && Shaped(c, q, |x|) && JoinAll(c, q.primary, q.secondary) == Some(x)
    && forall i | 0 <= i < |c.vars| :: ReachesAll(c.vars[i], Stored(c, q, i))
  }

  ghost predicate Expressible(c: Chunk, x: seq<nat>)
    requires c.Valid()
  {
    exists q :: Expresses(c, q, x)
  }

  // ---------------------------------------------------- expressible words have a page

  /** The plan that stores the latents. */
  ghost predicate Writes(c: Chunk, plan: Plan, q: Parts, n: nat)
    requires c.Valid() && Shaped(c, q, n)
  {
    && PlanOk(c, plan, n)
    && forall i | 0 <= i < |c.vars| ::
      plan.states[i] == StateOf(c, c.vars[i], Column(c, q, i)) && Values(c.vars[i], plan.codes[i]) == Stored(c, q, i)
  }

  lemma {:induction false} ColumnShape(c: Chunk, q: Parts, n: nat, i: nat)
    requires c.Valid() && Shaped(c, q, n) && i < |c.vars|
    ensures c.vars[i].Valid() && (c.vars[i].delta ==> c.delta != NoDelta)
    ensures i < c.Primary() ==> Stored(c, q, i) == q.looks && StateOf(c, c.vars[i], q.looks) == []
    ensures i >= c.Primary() ==> |Column(c, q, i)| == n && AllBelow(Column(c, q, i), Pow2(c.vars[i].width))
    ensures |Stored(c, q, i)| == c.Count(i, n)
    ensures AllBelow(StateOf(c, c.vars[i], Column(c, q, i)), Pow2(c.vars[i].width))
  {
    hide StateOf, Latent.Valid, Pow2, AbsSum, LooksOk;
    if i >= c.Primary() { StateBelow(c, c.vars[i], Column(c, q, i)); }
    if i < c.Primary() { NoState(c, c.vars[i], q.looks); }
  }

  lemma {:induction false} NoState(c: Chunk, v: Latent, x: seq<nat>)
    requires !v.delta
    ensures StateOf(c, v, x) == []
  {
  }

  lemma {:induction false} PlanExists(c: Chunk, q: Parts, x: seq<nat>) returns (plan: Plan)
    requires c.Valid() && Expresses(c, q, x)
    ensures Writes(c, plan, q, |x|)
  {
    hide StateOf, Stored, Latent.Valid, Fits, JoinAll, Shaped, Reaches, Column, StateSize;
    forall i: nat | i < |c.vars|
      ensures c.vars[i].Valid() && |Stored(c, q, i)| == c.Count(i, |x|)
      ensures AllBelow(StateOf(c, c.vars[i], Column(c, q, i)), Pow2(c.vars[i].width))
      ensures c.vars[i].delta ==> c.delta != NoDelta
    {
      ColumnShape(c, q, |x|, i);
    }
    plan := Plan(seq(|c.vars|, i requires 0 <= i < |c.vars| => StateOf(c, c.vars[i], Column(c, q, i))),
                 seq(|c.vars|, i requires 0 <= i < |c.vars| => CodesFor(c.vars[i], Stored(c, q, i))));
  }

  lemma {:induction false} RestoreColumn(c: Chunk, plan: Plan, q: Parts, n: nat, i: nat)
    requires c.Valid() && Shaped(c, q, n) && Writes(c, plan, q, n) && c.Primary() <= i < |c.vars|
    ensures Restored(c, PlanVars(c, plan, n), n, i) == Some(Column(c, q, i))
  {
    hide StateOf, RawOf, RestoreVar, LooksOk, Values, Latent.Valid;
    ColumnShape(c, q, n, i);
    if c.delta.Lookbacks? { ColumnShape(c, q, n, 0); }
    RestoreRaw(c, c.vars[i], Column(c, q, i), q.looks, [0, 0, 0, 0]);
  }

  lemma {:induction false} ReconstructPlan(c: Chunk, plan: Plan, q: Parts, x: seq<nat>)
    requires c.Valid() && Expresses(c, q, x) && Writes(c, plan, q, |x|)
    ensures Reconstruct(c, PlanVars(c, plan, |x|), |x|) == Some(x)
  {
    hide Restored, PlanVars, Writes, JoinAll, Values, Latent.Valid, Stored;
    RestoreColumn(c, plan, q, |x|, c.Primary());
    if c.mode.HasSecondary() { RestoreColumn(c, plan, q, |x|, c.Primary() + 1); }
  }

  /** The page written for latents of `x` decodes to `x`: through the bits, the
      interleaved states, the batches, the delta and the mode. */
  lemma {:induction false} PageRoundTrip(c: Chunk, plan: Plan, q: Parts, x: seq<nat>)
    requires c.Valid() && Expresses(c, q, x) && Writes(c, plan, q, |x|)
    ensures Page(c, WritePage(c, plan, |x|), |x|) == Some(x)
  {
    hide Page, WritePage, Reconstruct, PlanVars, Chunk.Valid, Expresses, PlanOk;
    StreamRoundTrip(c, plan, |x|);
    ReconstructPlan(c, plan, q, x);
  }

  // ------------------------------------------------ decoded pages are expressible

  /** The complete variables of a page, whose values the bins reach. */
  ghost predicate Read(c: Chunk, vs: seq<PageVar>, n: nat) {
    Complete(c, vs, n) && AllReached(c, vs)
  }

  lemma {:induction false} PageRead(c: Chunk, data: seq<byte>, n: nat) returns (vs: seq<PageVar>)
    requires c.Valid() && Page(c, data, n).Some?
    ensures Read(c, vs, n) && Page(c, data, n) == Reconstruct(c, vs, n)
  {
    hide Chunk.Valid, Header, Rounds, Reconstruct, Progress, Complete, BitsOf, Cursor.Align, Cursor.Finished;
    var start := Cursor(BitsOf(data), 0, true);
    var (before, c1) := Header(start, c.vars, c.Order());
    HeaderProgress(c, start, n);
    HeaderReached(c, start);
    RoundsReach(c, before, c1.Align(), 0, n);
    vs := Rounds(c, before, c1.Align(), 0, n).value.0;
  }

  lemma {:induction false} HeaderReached(c: Chunk, at: Cursor)
    requires c.Valid()
    ensures AllReached(c, Header(at, c.vars, c.Order()).0)
  {
    hide ReadVar, Latent.Valid;
    var vs := Header(at, c.vars, c.Order()).0;
    forall i: nat | i < |vs| ensures ReachesAll(c.vars[i], vs[i].values) {
      HeaderVars(at, c.vars, c.Order(), i);
    }
  }

  /** What a restored variable stores is what was read for it. */
  lemma {:induction false} StoredIsRead(c: Chunk, vs: seq<PageVar>, n: nat, i: nat)
    requires c.Valid() && Read(c, vs, n) && c.Primary() <= i < |c.vars| && Restored(c, vs, n, i).Some?
    ensures var x := Restored(c, vs, n, i).value;
            && |x| == n && AllBelow(x, Pow2(c.vars[i].width))
            && c.vars[i].width > 0 && (c.vars[i].delta ==> c.delta != NoDelta)
            && RawOf(c, c.vars[i], x, Looks(c, vs)) == vs[i].values
  {
    hide RawOf, RestoreVar, Reaches, Pow2, AbsSum;
    ReachedBelow(c.vars[i], vs[i].values);
    RawOfRestored(c, c.vars[i], vs[i], Looks(c, vs), n);
  }

  lemma {:induction false} LooksAccepted(c: Chunk, vs: seq<PageVar>, n: nat)
    requires c.Valid() && Complete(c, vs, n) && c.delta.Lookbacks? && Restored(c, vs, n, 1).Some?
    ensures LooksOk(vs[0].values, c.delta.window)
  {
    hide Latent.Valid, Rebuild;
  }

  /** The latents of a page that was read. */
  ghost function PartsOf(c: Chunk, vs: seq<PageVar>, n: nat): Parts
    requires c.Valid() && Complete(c, vs, n) && Reconstruct(c, vs, n).Some?
  {
    Parts(Looks(c, vs), Restored(c, vs, n, c.Primary()).value,
          if c.mode.HasSecondary() then Restored(c, vs, n, c.Primary() + 1).value else [])
  }

  lemma {:induction false} ReadExpresses(c: Chunk, vs: seq<PageVar>, n: nat)
    requires c.Valid() && Read(c, vs, n) && Reconstruct(c, vs, n).Some?
    ensures Expresses(c, PartsOf(c, vs, n), Reconstruct(c, vs, n).value)
  {
    hide Restored, RawOf, JoinAll, Reaches, Latent.Valid, Pow2, AbsSum;
    var q := PartsOf(c, vs, n);
    StoredIsRead(c, vs, n, c.Primary());
    if c.mode.HasSecondary() { StoredIsRead(c, vs, n, c.Primary() + 1); }
    if c.delta.Lookbacks? {
      LooksAccepted(c, vs, n);
      NoDeltaStored(c, c.vars[0], q.looks);
    }
    forall i: nat | i < |c.vars| ensures ReachesAll(c.vars[i], Stored(c, q, i)) {
      assert Stored(c, q, i) == vs[i].values;
    }
  }

  lemma {:induction false} NoDeltaStored(c: Chunk, v: Latent, x: seq<nat>)
    requires v.width > 0 && !v.delta
    ensures RawOf(c, v, x, x) == x
  {
  }

  /** Exactly the expressible sequences of words have a page: a page decodes to `x` if
      and only if some latents join to `x` and store only values that bins reach. */
  lemma {:induction false} PagesAreExpressible(c: Chunk, x: seq<nat>)
    requires c.Valid()
    ensures (exists data: seq<byte> :: Page(c, data, |x|) == Some(x)) <==> Expressible(c, x)
  {
    hide Page, WritePage, Chunk.Valid, Expresses, PlanOk, Reconstruct, Writes, Read;
    if data: seq<byte> :| Page(c, data, |x|) == Some(x) {
      var vs := PageRead(c, data, |x|);
      assert Complete(c, vs, |x|) by { ReadComplete(c, vs, |x|); }
      ReadExpresses(c, vs, |x|);
    }
    if q :| Expresses(c, q, x) {
      var plan := PlanExists(c, q, x);
      PageRoundTrip(c, plan, q, x);
    }
  }

  lemma {:induction false} ReadComplete(c: Chunk, vs: seq<PageVar>, n: nat)
    requires Read(c, vs, n)
    ensures Complete(c, vs, n)
  {
  }

  /** The obvious way to split words into latents works whenever the bins reach what it
      stores; in dictionary mode the words must be entries of the dictionary. */
  lemma {:induction false} EveryPageCanBeWritten(c: Chunk, x: seq<nat>, looks: seq<nat>)
    requires c.Valid() && AllBelow(x, Pow2(c.width)) && InDictionary(c, x)
    requires if c.delta.Lookbacks?
             then |looks| == c.Count(0, |x|) && LooksOk(looks, c.delta.window) else looks == []
    requires var q := Parts(looks, Latents(c, x, true), if c.mode.HasSecondary() then Latents(c, x, false) else []);
             forall i | 0 <= i < |c.vars| :: ReachesAll(c.vars[i], Stored(c, q, i))
    ensures exists data: seq<byte> :: Page(c, data, |x|) == Some(x)
  {
    hide Page, Latents, Chunk.Valid, JoinAll, ReachesAll, Stored, InDictionary, LooksOk, Mode.Valid;
    ChunkModeValid(c);
    var q := Parts(looks, Latents(c, x, true), if c.mode.HasSecondary() then Latents(c, x, false) else []);
    JoinLatents(c, x);
    LatentsBelow(c, x);
    assert Expresses(c, q, x);
    PagesAreExpressible(c, x);
  }

  /** In classic mode the latents follow from the words, so whether words have a page can
      be read off the bins. */
  lemma {:induction false} ClassicPages(c: Chunk, x: seq<nat>)
    requires c.Valid() && c.mode.Classic? && !c.delta.Lookbacks? && AllBelow(x, Pow2(c.width))
    ensures c.vars != [] && c.vars[0].width > 0 && (c.vars[0].delta ==> c.delta != NoDelta)
    ensures (exists data: seq<byte> :: Page(c, data, |x|) == Some(x))
            <==> ReachesAll(c.vars[0], RawOf(c, c.vars[0], Latents(c, x, true), []))
  {
    hide Page, Latents, JoinAll, Reaches, RawOf, Latent.Valid, Pow2, AbsSum;
    PagesAreExpressible(c, x);
    var q := Parts([], Latents(c, x, true), []);
    JoinLatents(c, x);
    LatentsBelow(c, x);
    if ReachesAll(c.vars[0], Stored(c, q, 0)) { assert Expresses(c, q, x); }
    if p :| Expresses(c, p, x) {
      ClassicLatents(c, p.primary, x);
      assert p == q && ReachesAll(c.vars[0], Stored(c, p, 0));
    }
  }

  lemma {:induction false} ClassicLatents(c: Chunk, p: seq<nat>, x: seq<nat>)
    requires c.width > 0 && c.mode.Classic? && AllBelow(p, Pow2(c.width)) && AllBelow(x, Pow2(c.width))
    requires JoinAll(c, p, []) == Some(x)
    ensures p == Latents(c, x, true)
    decreases |p|
  {
    hide FromWord, ToWord, Pow2, Low;
    if p != [] {
      var last := |p| - 1;
      ClassicLatents(c, p[..last], x[..last]);
      LowSmall(p[last], c.width);
      WordRoundTrip(c.kind, p[last], c.width);
      assert Latents(c, x, true)[..last] == Latents(c, x[..last], true);
    }
  }

  lemma {:induction false} ChunkModeValid(c: Chunk)
    requires c.Valid()
    ensures c.width > 0 && c.mode.Valid(c.width)
  {
  }
}
