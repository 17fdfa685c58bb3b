/** A ghost writer for Pco pages, and the proof that `Page` inverts it: every
    sequence of words that the chunk's bins can express is decoded exactly. */
module PcoPageRoundTrip {
  import opened Wrappers
  import opened Words
  import opened BitStrings
  import opened PcoReader
  import opened PcoLatents
  import opened PcoBatches
  import opened PcoDelta
  import opened PcoModes
  import opened PcoPage

  // ------------------------------------------------------------ page header

  function WriteMany(xs: seq<nat>, width: nat): Bits {
    if xs == [] then [] else FromNat(xs[0], width) + WriteMany(xs[1..], width)
  }

  lemma {:induction false} ReadManyWritten(xs: seq<nat>, width: nat, tail: Bits, pos: nat)
    requires width <= 64 && AllBelow(xs, Pow2(width))
    ensures ReadMany(Cursor(WriteMany(xs, width) + tail, pos, true), width, |xs|)
            == (xs, Cursor(tail, pos + |WriteMany(xs, width)|, true))
    decreases |xs|
  {
    hide FromNat, Cursor.Take, Pow2;
    if xs == [] {
      assert WriteMany(xs, width) + tail == tail;
    } else {
      var head, rest := FromNat(xs[0], width), WriteMany(xs[1..], width);
      Assoc(head, rest, tail);
      TakeWritten(xs[0], width, rest + tail, pos);
      ReadManyWritten(xs[1..], width, tail, pos + width);
      assert [xs[0]] + xs[1..] == xs;
    }
  }

  function WriteVar(v: Latent, p: PageVar): Bits {
    WriteMany(p.state, v.width) + WriteMany(p.ans, v.log)
  }

  /** What a page header can hold for variable `v`. */
  predicate Writable(v: Latent, p: PageVar, order: nat) {
    && v.width <= 64 && v.log <= 14
    && |p.state| == StateSize(v, order) && AllBelow(p.state, Pow2(v.width))
    && |p.ans| == 4 && AllBelow(p.ans, Pow2(v.log))
    && p.values == []
  }

  lemma {:induction false} ReadVarWritten(v: Latent, p: PageVar, order: nat, tail: Bits, pos: nat)
    requires Writable(v, p, order)
    ensures ReadVar(Cursor(WriteVar(v, p) + tail, pos, true), v, order)
            == (p, Cursor(tail, pos + |WriteVar(v, p)|, true))
  {
    hide ReadMany, WriteMany, Pow2;
    var a, b := WriteMany(p.state, v.width), WriteMany(p.ans, v.log);
    Assoc(a, b, tail);
    ReadManyWritten(p.state, v.width, b + tail, pos);
    ReadManyWritten(p.ans, v.log, tail, pos + |a|);
  }

  function WriteHeader(vars: seq<Latent>, ps: seq<PageVar>): Bits
    requires |ps| == |vars|
  {
    if vars == [] then [] else WriteVar(vars[0], ps[0]) + WriteHeader(vars[1..], ps[1..])
  }

  lemma {:induction false} HeaderWritten(vars: seq<Latent>, ps: seq<PageVar>, order: nat, tail: Bits, pos: nat)
    requires |ps| == |vars| && forall i | 0 <= i < |vars| :: Writable(vars[i], ps[i], order)
    ensures Header(Cursor(WriteHeader(vars, ps) + tail, pos, true), vars, order)
            == (ps, Cursor(tail, pos + |WriteHeader(vars, ps)|, true))
    decreases |vars|
  {
    hide ReadVar, WriteVar, Writable;
    if vars == [] {
      assert WriteHeader(vars, ps) + tail == tail;
    } else {
      var head, rest := WriteVar(vars[0], ps[0]), WriteHeader(vars[1..], ps[1..]);
      Assoc(head, rest, tail);
      ReadVarWritten(vars[0], ps[0], order, rest + tail, pos);
      HeaderWritten(vars[1..], ps[1..], order, tail, pos + |head|);
      assert [ps[0]] + ps[1..] == ps;
    }
  }

  // -------------------------------------------------------- batches and rounds

  /** The codes of one round of one variable. */
  function Segment(codes: seq<Code>, start: nat): seq<Code> {
    codes[Min(start, |codes|)..Min(start + 256, |codes|)]
  }

  /** The lane states before the round at `start`, computed backwards from the
      end of the page. */
  ghost function AnsAt(v: Latent, codes: seq<Code>, start: nat): (ans: seq<nat>)
    requires v.Valid() && AllFit(v, codes)
    ensures StatesOk(v.table, ans)
    decreases if start < |codes| then |codes| - start else 0
  {
    if start >= |codes| then [0, 0, 0, 0]
    else WriteBatch(v, Segment(codes, start), AnsAt(v, codes, start + 256)).0
  }

  ghost function BatchBits(v: Latent, codes: seq<Code>, start: nat): Bits
    requires v.Valid() && AllFit(v, codes)
  {
    WriteBatch(v, Segment(codes, start), AnsAt(v, codes, start + 256)).1
  }

  lemma {:induction false} AnsBefore(v: Latent, codes: seq<Code>, start: nat)
    requires v.Valid() && AllFit(v, codes)
    ensures AnsAt(v, codes, start) == WriteBatch(v, Segment(codes, start), AnsAt(v, codes, start + 256)).0
  {
    if start >= |codes| {
      assert Segment(codes, start) == [];
    }
  }

  /** Initial values and codes for every variable of a page of `n` values. */
  datatype Plan = Plan(states: seq<seq<nat>>, codes: seq<seq<Code>>)

  ghost predicate PlanOk(c: Chunk, plan: Plan, n: nat) {
    && |plan.states| == |plan.codes| == |c.vars|
    && forall i | 0 <= i < |c.vars| ::
      && c.vars[i].Valid()
      && |plan.states[i]| == StateSize(c.vars[i], c.Order())
      && AllBelow(plan.states[i], Pow2(c.vars[i].width))
      && |plan.codes[i]| == c.Count(i, n)
      && AllFit(c.vars[i], plan.codes[i])
  }

  /** Variable `i` as the decoder holds it before the round at `start`. */
  ghost function VarAt(c: Chunk, plan: Plan, n: nat, i: nat, start: nat): PageVar
    requires PlanOk(c, plan, n) && i < |c.vars|
  {
    var v, codes := c.vars[i], plan.codes[i];
    PageVar(plan.states[i], AnsAt(v, codes, start), Values(v, codes[..Min(start, |codes|)]))
  }

  /** All variables when `done` of them have finished the round at `start`. */
  ghost function VarsAt(c: Chunk, plan: Plan, n: nat, start: nat, done: nat): (vs: seq<PageVar>)
    requires PlanOk(c, plan, n)
    ensures |vs| == |c.vars|
  {
    seq(|c.vars|, i requires 0 <= i < |c.vars| =>
      VarAt(c, plan, n, i, if i < done then start + 256 else start))
  }

  lemma {:induction false} VarsProgress(c: Chunk, plan: Plan, n: nat, start: nat, done: nat)
    requires PlanOk(c, plan, n)
    ensures Progress(c, VarsAt(c, plan, n, start, done), start, n, done)
  {
    forall i: nat | i < |c.vars|
      ensures |VarAt(c, plan, n, i, if i < done then start + 256 else start).values|
           == Min(if i < done then start + 256 else start, c.Count(i, n))
    {
      var at := if i < done then start + 256 else start;
      assert |plan.codes[i]| == c.Count(i, n);
      assert |plan.codes[i][..Min(at, |plan.codes[i]|)]| == Min(at, |plan.codes[i]|);
    }
  }

  lemma {:induction false} ValuesExtend(v: Latent, codes: seq<Code>, start: nat)
    requires AllFit(v, codes)
    ensures var m := Min(start, |codes|);
            AllFit(v, Segment(codes, start)) &&
            Values(v, codes[..m]) + Values(v, Segment(codes, start)) == Values(v, codes[..Min(start + 256, |codes|)])
  {
  }

  lemma {:induction false} BatchWritten(c: Chunk, plan: Plan, n: nat, i: nat, start: nat, tail: Bits, pos: nat)
    requires c.Valid() && PlanOk(c, plan, n) && i < |c.vars| && start < n
    ensures StatesOk(c.vars[i].table, VarAt(c, plan, n, i, start).ans)
    ensures var bits := BatchBits(c.vars[i], plan.codes[i], start);
            BatchOf(c, i, VarAt(c, plan, n, i, start), Cursor(bits + tail, pos, true), start, n)
            == Some((VarAt(c, plan, n, i, start + 256), Cursor(tail, pos + |bits|, true)))
  {
    hide Batch, WriteBatch, AnsAt, Latent.Valid, Chunk.Valid, Values;
    ChunkVarValid(c, i);
    var v, codes := c.vars[i], plan.codes[i];
    var segment := Segment(codes, start);
    c.LimitsAddUp(i, start, n);
    AnsBefore(v, codes, start);
    ValuesExtend(v, codes, start);
    BatchRoundTrip(v, segment, AnsAt(v, codes, start + 256), tail, pos);
  }

  lemma {:induction false} ChunkVarValid(c: Chunk, i: nat)
    requires c.Valid() && i < |c.vars|
    ensures c.vars[i].Valid()
  {
  }

  ghost function RoundBits(c: Chunk, plan: Plan, n: nat, start: nat, i: nat): Bits
    requires PlanOk(c, plan, n) && i <= |c.vars|
    decreases |c.vars| - i
  {
    if i == |c.vars| then []
    else BatchBits(c.vars[i], plan.codes[i], start) + RoundBits(c, plan, n, start, i + 1)
  }

  lemma {:induction false} VarsNext(c: Chunk, plan: Plan, n: nat, start: nat, i: nat)
    requires PlanOk(c, plan, n) && i < |c.vars|
    ensures VarsAt(c, plan, n, start, i)[i := VarAt(c, plan, n, i, start + 256)] == VarsAt(c, plan, n, start, i + 1)
  {
    hide VarAt, PlanOk;
  }

  lemma {:induction false} VarsRound(c: Chunk, plan: Plan, n: nat, start: nat)
    requires PlanOk(c, plan, n)
    ensures VarsAt(c, plan, n, start, |c.vars|) == VarsAt(c, plan, n, start + 256, 0)
  {
    hide VarAt, PlanOk;
  }

  lemma {:induction false} RoundWritten(c: Chunk, plan: Plan, n: nat, start: nat, i: nat, tail: Bits, pos: nat)
    requires c.Valid() && PlanOk(c, plan, n) && i <= |c.vars| && start < n
    ensures Progress(c, VarsAt(c, plan, n, start, i), start, n, i)
    ensures var bits := RoundBits(c, plan, n, start, i);
            Round(c, VarsAt(c, plan, n, start, i), Cursor(bits + tail, pos, true), start, n, i)
            == Some((VarsAt(c, plan, n, start + 256, 0), Cursor(tail, pos + |bits|, true)))
    decreases |c.vars| - i
  {
    hide VarAt, Chunk.Valid, Latent.Valid, AllFit, BatchBits, BatchOf, Progress;
    VarsProgress(c, plan, n, start, i);
    if i == |c.vars| {
      VarsRound(c, plan, n, start);
      assert [] + tail == tail;
    } else {
      var head, rest := BatchBits(c.vars[i], plan.codes[i], start), RoundBits(c, plan, n, start, i + 1);
      Assoc(head, rest, tail);
      BatchWritten(c, plan, n, i, start, rest + tail, pos);
      VarsNext(c, plan, n, start, i);
      RoundWritten(c, plan, n, start, i + 1, tail, pos + |head|);
    }
  }

  ghost function RoundsBits(c: Chunk, plan: Plan, n: nat, start: nat): Bits
    requires PlanOk(c, plan, n)
    decreases if start < n then n - start else 0
  {
    if start >= n then [] else RoundBits(c, plan, n, start, 0) + RoundsBits(c, plan, n, start + 256)
  }

  /** Some position at or past the end of the rounds that begin at `start`. */
  function EndOf(start: nat, n: nat): (end: nat)
    ensures end >= n
    decreases if start < n then n - start else 0
  {
    if start >= n then start else EndOf(start + 256, n)
  }

  lemma {:induction false} RoundsWritten(c: Chunk, plan: Plan, n: nat, start: nat, tail: Bits, pos: nat)
    requires c.Valid() && PlanOk(c, plan, n)
    ensures Progress(c, VarsAt(c, plan, n, start, 0), start, n, 0)
    ensures var bits := RoundsBits(c, plan, n, start);
            Rounds(c, VarsAt(c, plan, n, start, 0), Cursor(bits + tail, pos, true), start, n)
            == Some((VarsAt(c, plan, n, EndOf(start, n), 0), Cursor(tail, pos + |bits|, true)))
    decreases if start < n then n - start else 0
  {
    hide VarsAt, PlanOk, Chunk.Valid, Round, RoundBits, Progress;
    VarsProgress(c, plan, n, start, 0);
    if start >= n {
      assert [] + tail == tail;
    } else {
      var head, rest := RoundBits(c, plan, n, start, 0), RoundsBits(c, plan, n, start + 256);
      Assoc(head, rest, tail);
      RoundWritten(c, plan, n, start, 0, rest + tail, pos);
      RoundsWritten(c, plan, n, start + 256, tail, pos + |head|);
    }
  }

  // ------------------------------------------------------------- whole pages

  ghost function PageBits(c: Chunk, plan: Plan, n: nat): (bits: Bits)
    requires PlanOk(c, plan, n)
    ensures |bits| % 8 == 0
  {
    var head := WriteHeader(c.vars, VarsAt(c, plan, n, 0, 0));
    var body := RoundsBits(c, plan, n, 0);
    var start := |head| + |Padding(|head|)|;
    head + (Padding(|head|) + (body + Padding(start + |body|)))
  }

  /** The page a writer produces for `plan`. */
  ghost function WritePage(c: Chunk, plan: Plan, n: nat): seq<byte>
    requires PlanOk(c, plan, n)
  {
    Pack(PageBits(c, plan, n))
  }

  /** The variables of a decoded page: the initial values and the coded values. */
  ghost function PlanVars(c: Chunk, plan: Plan, n: nat): (vs: seq<PageVar>)
    requires PlanOk(c, plan, n)
    ensures Complete(c, vs, n)
  {
    seq(|c.vars|, i requires 0 <= i < |c.vars| =>
      PageVar(plan.states[i], [0, 0, 0, 0], Values(c.vars[i], plan.codes[i])))
  }

  lemma {:induction false} VarsAtEnd(c: Chunk, plan: Plan, n: nat, end: nat)
    requires PlanOk(c, plan, n) && end >= n
    ensures VarsAt(c, plan, n, end, 0) == PlanVars(c, plan, n)
  {
    forall i: nat | i < |c.vars| ensures VarAt(c, plan, n, i, end) == PlanVars(c, plan, n)[i] {
      assert plan.codes[i][..|plan.codes[i]|] == plan.codes[i];
    }
  }

  lemma {:induction false} HeaderWritable(c: Chunk, plan: Plan, n: nat, i: nat)
    requires c.Valid() && PlanOk(c, plan, n) && i < |c.vars|
    ensures Writable(c.vars[i], VarsAt(c, plan, n, 0, 0)[i], c.Order())
  {
    hide Chunk.Valid, Chunk.Order, Latent.Valid, AnsAt, Values, Writable, Fits;
    var v, codes := c.vars[i], plan.codes[i];
    VarWritable(v, plan.states[i], codes, c.Order());
    assert VarAt(c, plan, n, i, 0) == PageVar(plan.states[i], AnsAt(v, codes, 0), Values(v, codes[..Min(0, |codes|)]));
  }

  lemma {:induction false} VarWritable(v: Latent, state: seq<nat>, codes: seq<Code>, order: nat)
    requires v.Valid() && AllFit(v, codes) && |state| == StateSize(v, order) && AllBelow(state, Pow2(v.width))
    ensures Writable(v, PageVar(state, AnsAt(v, codes, 0), Values(v, codes[..Min(0, |codes|)])), order)
  {
    hide AnsAt, Fits, Pow2;
    TableNonempty(v, codes);
    if codes == [] { AnsOfNothing(v, codes); }
    assert |v.table| == if v.bins == [] then 0 else Pow2(v.log);
  }

  lemma {:induction false} AnsOfNothing(v: Latent, codes: seq<Code>)
    requires v.Valid() && codes == []
    ensures AnsAt(v, codes, 0) == [0, 0, 0, 0]
  {
  }

  /** Stream round trip: the decoder reads back exactly the initial values and
      coded values that were written, whatever the chunk and the page length. */
  lemma {:induction false} StreamRoundTrip(c: Chunk, plan: Plan, n: nat)
    requires c.Valid() && PlanOk(c, plan, n)
    ensures Page(c, WritePage(c, plan, n), n) == Reconstruct(c, PlanVars(c, plan, n), n)
  {
    hide Chunk.Valid, PlanOk, Header, WriteHeader, VarsAt, Rounds, RoundsBits, Cursor.Align, Cursor.Take,
      Reconstruct, PlanVars, Padding, Progress, Complete, Writable;
    var ps := VarsAt(c, plan, n, 0, 0);
    var head, body := WriteHeader(c.vars, ps), RoundsBits(c, plan, n, 0);
    var pad := Padding(|head|);
    var start := |head| + |pad|;
    var end := Padding(start + |body|);
    BitsOfPack(PageBits(c, plan, n));
    forall i: nat | i < |c.vars| ensures Writable(c.vars[i], ps[i], c.Order()) {
      HeaderWritable(c, plan, n, i);
    }
    HeaderWritten(c.vars, ps, c.Order(), pad + (body + end), 0);
    AlignWritten(body + end, |head|);
    RoundsWritten(c, plan, n, 0, end, start);
    VarsAtEnd(c, plan, n, EndOf(0, n));
    FinishWritten(start + |body|);
  }

  lemma {:induction false} FinishWritten(pos: nat)
    ensures Cursor(Padding(pos), pos, true).Finished()
  {
    AlignWritten([], pos);
    assert Padding(pos) + [] == Padding(pos);
  }
}
