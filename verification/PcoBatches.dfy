/** Batches of latent values: four interleaved tANS states choose the bins, then
    the offsets within the bins follow. The encoder here is a ghost: it says what
    bits a writer produces, and the decoder is proved to invert it. */
module PcoBatches {
  import opened Wrappers
  import opened Words
  import opened BitStrings
  import opened AnsTable
  import opened PcoReader
  import opened PcoLatents

  // ---------------------------------------------------------------- decoding

  ghost predicate Closed(table: seq<Node>) {
    forall i | 0 <= i < |table| :: table[i].next + Pow2(table[i].read) <= |table|
  }

  /** Four lane states, each a slot of the table (of a one-slot table if there
      are no bins, where the only state is 0). */
  ghost predicate StatesOk(table: seq<Node>, ans: seq<nat>) {
    |ans| == 4 && (table != [] ==> forall k | 0 <= k < 4 :: ans[k] < |table|)
  }

  lemma {:induction false} ValidTableClosed(v: Latent)
    requires v.Valid()
    ensures Closed(v.table) && (v.bins != [] ==> v.table != [])
  {
    if v.bins != [] {
      forall i | 0 <= i < |v.table|
        ensures v.table[i].next + Pow2(v.table[i].read) <= |v.table|
      {
        TableClosed(v.bins, v.log, i);
      }
    }
  }

  /** The table nodes visited by values `i` to `n`, the final states and the
      position after the state bits. */
  ghost function Steps(table: seq<Node>, c: Cursor, ans: seq<nat>, i: nat, n: nat)
    : (r: (seq<Node>, seq<nat>, Cursor))
    requires Closed(table) && StatesOk(table, ans) && i <= n && (i < n ==> table != [])
    ensures |r.0| == n - i && StatesOk(table, r.1)
    decreases n - i
  {
    if i == n then ([], ans, c)
    else
      var node := table[ans[i % 4]];
      var (x, c1) := c.Take(node.read);
      var (nodes, last, end) := Steps(table, c1, ans[i % 4 := node.next + x], i + 1, n);
      ([node] + nodes, last, end)
  }

  lemma {:induction false} StepsFirst(table: seq<Node>, c: Cursor, ans: seq<nat>, i: nat, n: nat, x: nat, c1: Cursor)
    requires Closed(table) && StatesOk(table, ans) && i < n && table != []
    requires c.Take(table[ans[i % 4]].read) == (x, c1)
    ensures StatesOk(table, ans[i % 4 := table[ans[i % 4]].next + x])
    ensures Steps(table, c, ans, i, n)
         == After([table[ans[i % 4]]], Steps(table, c1, ans[i % 4 := table[ans[i % 4]].next + x], i + 1, n))
  {
  }

  ghost function After(nodes: seq<Node>, r: (seq<Node>, seq<nat>, Cursor)): (seq<Node>, seq<nat>, Cursor) {
    (nodes + r.0, r.1, r.2)
  }

  lemma {:induction false} AfterMore(nodes: seq<Node>, a: Node, r: (seq<Node>, seq<nat>, Cursor))
    ensures After(nodes, After([a], r)) == After(nodes + [a], r)
  {
    assert nodes + ([a] + r.0) == (nodes + [a]) + r.0;
  }

  lemma {:induction false} AfterNothing(r: (seq<Node>, seq<nat>, Cursor))
    ensures After([], r) == r
  {
    assert [] + r.0 == r.0;
  }

  lemma {:induction false} StepsDone(table: seq<Node>, c: Cursor, ans: seq<nat>, i: nat, nodes: seq<Node>)
    requires Closed(table) && StatesOk(table, ans)
    ensures After(nodes, Steps(table, c, ans, i, i)) == (nodes, ans, c)
  {
    assert nodes + [] == nodes;
  }

  /** The values of the visited nodes: lower bound plus the offset bits. */
  ghost function Extras(c: Cursor, nodes: seq<Node>, width: nat): (r: (seq<nat>, Cursor))
    ensures |r.0| == |nodes|
    decreases |nodes|
  {
    if nodes == [] then ([], c)
    else
      var (x, c1) := c.Take(nodes[0].offset);
      var (values, end) := Extras(c1, nodes[1..], width);
      ([Low(nodes[0].lower + x, width)] + values, end)
  }

  ghost function Batch(v: Latent, c: Cursor, ans: seq<nat>, n: nat): (r: (seq<nat>, seq<nat>, Cursor))
    requires v.Valid() && StatesOk(v.table, ans) && (n > 0 ==> v.bins != [])
    ensures |r.0| == n && StatesOk(v.table, r.1)
  {
    ValidTableClosed(v);
    var (nodes, last, middle) := Steps(v.table, c, ans, 0, n);
    var (values, end) := Extras(middle, nodes, v.width);
    (values, last, end)
  }

  /** The node at the state that a node and some bits lead to. */
  predicate Leads(table: seq<Node>, from: Node, x: nat, to: Node) {
    x < Pow2(from.read) && from.next + x < |table| && table[from.next + x] == to
  }

  ghost predicate Follows(table: seq<Node>, from: Node, to: Node) { exists x: nat :: Leads(table, from, x, to) }

  /** The lanes take turns: value `k` is decoded in lane `k % 4`, from the lane's first state
      if it is one of the first four, and otherwise from the state that the value four
      before it led to. */
  lemma {:induction false} LanesInTurn(table: seq<Node>, c: Cursor, ans: seq<nat>, i: nat, n: nat, k: nat)
    requires Closed(table) && StatesOk(table, ans) && table != [] && i <= k < n
    ensures var nodes := Steps(table, c, ans, i, n).0;
            if k < i + 4 then nodes[k - i] == table[ans[k % 4]] else Follows(table, nodes[k - i - 4], nodes[k - i])
    decreases n - i
  {
    hide Cursor.Take, Pow2, Follows, Steps, Closed;
    var node := table[ans[i % 4]];
    var (x, c1) := c.Take(node.read);
    var next := ans[i % 4 := node.next + x];
    StepsFirst(table, c, ans, i, n, x, c1);
    if k == i {
      StepsHere(table, c1, next, i + 1, n, node);
    } else {
      LanesInTurn(table, c1, next, i + 1, n, k);
      StepsHere(table, c1, next, i + 1, n, node);
      if k < i + 4 { OtherLane(i, k); }
      if k == i + 4 { LaneLeads(table, node, x); }
    }
  }

  lemma {:induction false} OtherLane(i: nat, k: nat)
    requires i < k < i + 4
    ensures k % 4 != i % 4
  {
  }

  lemma {:induction false} StepsHere(table: seq<Node>, c: Cursor, ans: seq<nat>, i: nat, n: nat, node: Node)
    requires Closed(table) && StatesOk(table, ans) && table != [] && i <= n
    ensures var nodes := After([node], Steps(table, c, ans, i, n)).0;
            |nodes| == n - i + 1 && nodes[0] == node && nodes[1..] == Steps(table, c, ans, i, n).0
  {
    hide Steps, Closed;
  }

  lemma {:induction false} LaneLeads(table: seq<Node>, node: Node, x: nat)
    requires x < Pow2(node.read) && node.next + x < |table|
    ensures Follows(table, node, table[node.next + x])
  {
    assert Leads(table, node, x, table[node.next + x]);
  }

  /** One lane's table lookup and state transition. */
  method NextNode(r: Reader, v: Latent, ans: seq<nat>, lane: nat) returns (a: Node, next: seq<nat>)
    requires r.Valid() && v.Valid() && StatesOk(v.table, ans) && v.table != [] && lane < 4
    modifies r
    ensures r.Valid() && StatesOk(v.table, next)
    ensures a == v.table[ans[lane]]
    ensures (next[lane] - a.next, r.View()) == old(r.View()).Take(a.read)
    ensures next[lane] >= a.next && next == ans[lane := next[lane]]
  {
    ValidTableClosed(v);
    var state := ans[lane];
    if state >= |v.table| {
      assert false;  // "ANS state out of bounds" cannot be reached
    }
    a := v.table[state];
    var x := r.Read(a.read);
    next := ans[lane := a.next + x];
  }

  /** The first loop of `readLatents`: the nodes' lower bounds and offset widths. */
  method DecodeStates(r: Reader, v: Latent, start: seq<nat>, n: nat)
    returns (out: seq<nat>, widths: seq<nat>, ans: seq<nat>, ghost nodes: seq<Node>)
    requires r.Valid() && v.Valid() && StatesOk(v.table, start) && (n > 0 ==> v.bins != [])
    modifies r
    ensures r.Valid() && Closed(v.table)
    ensures (nodes, ans, r.View()) == Steps(v.table, old(r.View()), start, 0, n)
    ensures out == Lowers(nodes) && widths == Widths(nodes)
  {
    hide Latent.Valid, Closed, Steps, After, Cursor.Take, Reader.View, StatesOk;
    ValidTableClosed(v);
    out, widths, nodes, ans := [], [], [], start;
    ghost var all := Steps(v.table, r.View(), ans, 0, n);
    AfterNothing(all);
    for i := 0 to n
      invariant r.Valid() && StatesOk(v.table, ans)
      invariant all == After(nodes, Steps(v.table, r.View(), ans, i, n))
      invariant out == Lowers(nodes) && widths == Widths(nodes)
    {
      ghost var c := r.View();
      var a, next := NextNode(r, v, ans, i % 4);
      out, widths := out + [a.lower], widths + [a.offset];
      StepsFirst(v.table, c, ans, i, n, next[i % 4] - a.next, r.View());
      AfterMore(nodes, a, Steps(v.table, r.View(), next, i + 1, n));
      nodes := nodes + [a];
      ans := next;
    }
    StepsDone(v.table, r.View(), ans, n, nodes);
  }

  ghost function Lowers(nodes: seq<Node>): (s: seq<nat>)
    ensures |s| == |nodes|
  {
    seq(|nodes|, j requires 0 <= j < |nodes| => nodes[j].lower)
  }

  ghost function Widths(nodes: seq<Node>): (s: seq<nat>)
    ensures |s| == |nodes|
  {
    seq(|nodes|, j requires 0 <= j < |nodes| => nodes[j].offset)
  }

  /** The second loop of `readLatents`. */
  method AddExtras(r: Reader, v: Latent, lowers: seq<nat>, widths: seq<nat>, ghost nodes: seq<Node>)
    returns (out: seq<nat>)
    requires r.Valid() && v.Valid() && lowers == Lowers(nodes) && widths == Widths(nodes)
    modifies r
    ensures r.Valid() && (out, r.View()) == Extras(old(r.View()), nodes, v.width)
  {
    hide TableOf, Accepted;
    out := [];
    ghost var all := Extras(r.View(), nodes, v.width);
    assert nodes[0..] == nodes;
    ExtrasMore([], 0, all.0);
    for i := 0 to |lowers|
      invariant r.Valid()
      invariant all == (out + Extras(r.View(), nodes[i..], v.width).0, Extras(r.View(), nodes[i..], v.width).1)
    {
      var x := r.Read(widths[i]);
      LowLow(lowers[i] + x, v.width, 64);
      var value := Low(Low(lowers[i] + x, 64), v.width);
      ExtrasMore(out, value, Extras(r.View(), nodes[i + 1..], v.width).0);
      assert nodes[i..][1..] == nodes[i + 1..];
      out := out + [value];
    }
    assert out + [] == out;
  }

  lemma {:induction false} ExtrasMore(values: seq<nat>, x: nat, more: seq<nat>)
    ensures values + ([x] + more) == (values + [x]) + more
    ensures [] + more == more
  {
  }

  /** `readLatents`: the values (None is an error) and the lanes' next states. */
  method ReadLatents(r: Reader, v: Latent, start: seq<nat>, n: nat) returns (out: Option<seq<nat>>, ans: seq<nat>)
    requires r.Valid() && v.Valid() && StatesOk(v.table, start)
    modifies r
    ensures r.Valid() && StatesOk(v.table, ans)
    ensures n > 0 && v.bins == [] ==> out.None?
    ensures n == 0 || v.bins != [] ==>
              var (values, last, end) := Batch(v, old(r.View()), start, n);
              && ans == last && r.View() == end
              && out == if end.ok then Some(values) else None
  {
    ans := start;
    if n > 0 && v.bins == [] { return None, ans; }
    var lowers, widths, next, nodes := DecodeStates(r, v, start, n);
    var values := AddExtras(r, v, lowers, widths, nodes);
    ans := next;
    out := if r.failed then None else Some(values);
  }

  // ---------------------------------------------------------------- encoding

  /** A bin and an offset within it; `Value` is the latent they stand for. */
  datatype Code = Code(symbol: nat, extra: nat)

  predicate Fits(v: Latent, code: Code) {
    code.symbol < |v.bins| && code.extra < Pow2(v.bins[code.symbol].offset)
  }

  predicate AllFit(v: Latent, codes: seq<Code>) {
    forall j | 0 <= j < |codes| :: Fits(v, codes[j])
  }

  function Value(v: Latent, code: Code): nat
    requires Fits(v, code)
  {
    Low(v.bins[code.symbol].lower + code.extra, v.width)
  }

  function Values(v: Latent, codes: seq<Code>): (values: seq<nat>)
    requires AllFit(v, codes)
    ensures |values| == |codes|
  {
    seq(|codes|, j requires 0 <= j < |codes| => Value(v, codes[j]))
  }

  /** One encoder step: from state `t` back to the slot of the symbol that covers
      it, with the bits that lead from the slot to `t`. */
  ghost function StepBack(v: Latent, symbol: nat, t: nat): (r: (nat, Bits))
    requires v.Valid() && symbol < |v.bins| && t < |v.table|
    ensures r.0 < |v.table|
    ensures var node := v.table[r.0];
            && node.lower == v.bins[symbol].lower && node.offset == v.bins[symbol].offset
            && node.read <= 64 && node.next <= t < node.next + Pow2(node.read)
            && r.1 == FromNat(t - node.next, node.read)
  {
    var slot := Slot(v.bins, v.log, symbol, t);
    TableAt(v.bins, v.log, slot);
    TableClosed(v.bins, v.log, slot);
    var node := v.table[slot];
    (slot, FromNat(t - node.next, node.read))
  }

  /** Encodes the symbols from `i` on backwards, ending in states `after`: the
      states before them and the bits in the decoder's order. */
  ghost function WriteStates(v: Latent, codes: seq<Code>, i: nat, after: seq<nat>): (r: (seq<nat>, Bits))
    requires v.Valid() && i <= |codes| && AllFit(v, codes) && StatesOk(v.table, after)
    ensures StatesOk(v.table, r.0)
    decreases |codes| - i
  {
    if i == |codes| then (after, [])
    else
      var (next, bits) := WriteStates(v, codes, i + 1, after);
      var (slot, step) := StepBack(v, codes[i].symbol, next[i % 4]);
      (next[i % 4 := slot], step + bits)
  }

  function WriteExtras(v: Latent, codes: seq<Code>): Bits
    requires AllFit(v, codes)
  {
    if codes == [] then []
    else FromNat(codes[0].extra, v.bins[codes[0].symbol].offset) + WriteExtras(v, codes[1..])
  }

  ghost function WriteBatch(v: Latent, codes: seq<Code>, after: seq<nat>): (r: (seq<nat>, Bits))
    requires v.Valid() && AllFit(v, codes) && StatesOk(v.table, after)
    ensures StatesOk(v.table, r.0)
  {
    var (before, bits) := WriteStates(v, codes, 0, after);
    (before, bits + WriteExtras(v, codes))
  }

  // -------------------------------------------------------------- round trip

  ghost predicate NodesMatch(v: Latent, nodes: seq<Node>, codes: seq<Code>)
    requires AllFit(v, codes)
  {
    && |nodes| == |codes|
    && forall j | 0 <= j < |codes| ::
      && nodes[j].lower == v.bins[codes[j].symbol].lower
      && nodes[j].offset == v.bins[codes[j].symbol].offset
  }

  /** Decoding `bits` from states `before` visits `nodes`, ends in states `after`
      and stops in front of `tail`. */
  ghost predicate Decodes(table: seq<Node>, bits: Bits, tail: Bits, pos: nat, before: seq<nat>,
                          i: nat, n: nat, nodes: seq<Node>, after: seq<nat>)
    requires Closed(table) && StatesOk(table, before) && i <= n && (i < n ==> table != [])
  {
    Steps(table, Cursor(bits + tail, pos, true), before, i, n)
    == (nodes, after, Cursor(tail, pos + |bits|, true))
  }

  lemma {:induction false} DecodesNone(table: seq<Node>, tail: Bits, pos: nat, after: seq<nat>, n: nat)
    requires Closed(table) && StatesOk(table, after)
    ensures Decodes(table, [], tail, pos, after, n, n, [], after)
  {
    assert [] + tail == tail;
  }

  lemma {:induction false} DecodesStep(v: Latent, symbol: nat, bits: Bits, tail: Bits, pos: nat, next: seq<nat>,
                                       i: nat, n: nat, nodes: seq<Node>, after: seq<nat>)
    requires v.Valid() && Closed(v.table) && StatesOk(v.table, next) && i < n && symbol < |v.bins|
    requires v.table != []
    requires var step := StepBack(v, symbol, next[i % 4]).1;
             Decodes(v.table, bits, tail, pos + |step|, next, i + 1, n, nodes, after)
    ensures var (slot, step) := StepBack(v, symbol, next[i % 4]);
            && StatesOk(v.table, next[i % 4 := slot])
            && Decodes(v.table, step + bits, tail, pos, next[i % 4 := slot], i, n, [v.table[slot]] + nodes, after)
  {
    hide Latent.Valid, FromNat, Cursor.Take, Pow2, Steps;
    var (slot, step) := StepBack(v, symbol, next[i % 4]);
    var node, t := v.table[slot], next[i % 4];
    TakeWritten(t - node.next, node.read, bits + tail, pos);
    Assoc(step, bits, tail);
    StepsFirst(v.table, Cursor(step + (bits + tail), pos, true), next[i % 4 := slot], i, n,
               t - node.next, Cursor(bits + tail, pos + |step|, true));
    assert next[i % 4 := slot][i % 4 := t] == next;
  }

  lemma {:induction false} TableNonempty(v: Latent, codes: seq<Code>)
    requires v.Valid() && AllFit(v, codes)
    ensures codes != [] ==> v.bins != [] && v.table != []
  {
    if codes != [] { assert Fits(v, codes[0]); }
  }

  lemma {:induction false} NothingMatches(v: Latent, codes: seq<Code>)
    requires AllFit(v, codes)
    ensures AllFit(v, codes[|codes|..]) && NodesMatch(v, [], codes[|codes|..])
  {
  }

  lemma {:induction false} StatesRoundTrip(v: Latent, codes: seq<Code>, i: nat, after: seq<nat>, tail: Bits, pos: nat)
    returns (nodes: seq<Node>)
    requires v.Valid() && i <= |codes| && AllFit(v, codes) && StatesOk(v.table, after)
    ensures Closed(v.table) && (codes != [] ==> v.table != [])
    ensures NodesMatch(v, nodes, codes[i..])
    ensures var (before, bits) := WriteStates(v, codes, i, after);
            Decodes(v.table, bits, tail, pos, before, i, |codes|, nodes, after)
    decreases |codes| - i
  {
    hide Latent.Valid, Decodes, WriteStates, Steps, StepBack, Closed, NodesMatch, Fits;
    ValidTableClosed(v);
    TableNonempty(v, codes);
    WriteStatesCases(v, codes, i, after);
    if i == |codes| {
      nodes := [];
      NothingMatches(v, codes);
      DecodesNone(v.table, tail, pos, after, i);
    } else {
      var (next, bits) := WriteStates(v, codes, i + 1, after);
      var (slot, step) := StepBack(v, codes[i].symbol, next[i % 4]);
      nodes := StatesRoundTrip(v, codes, i + 1, after, tail, pos + |step|);
      DecodesStep(v, codes[i].symbol, bits, tail, pos, next, i, |codes|, nodes, after);
      MatchMore(v, v.table[slot], nodes, codes, i);
      nodes := [v.table[slot]] + nodes;
    }
  }

  lemma {:induction false} MatchMore(v: Latent, node: Node, nodes: seq<Node>, codes: seq<Code>, i: nat)
    requires i < |codes| && AllFit(v, codes) && AllFit(v, codes[i + 1..]) && NodesMatch(v, nodes, codes[i + 1..])
    requires Fits(v, codes[i])
    requires node.lower == v.bins[codes[i].symbol].lower && node.offset == v.bins[codes[i].symbol].offset
    ensures AllFit(v, codes[i..]) && NodesMatch(v, [node] + nodes, codes[i..])
  {
    assert codes[i..] == [codes[i]] + codes[i + 1..];
  }

  lemma {:induction false} WriteStatesCases(v: Latent, codes: seq<Code>, i: nat, after: seq<nat>)
    requires v.Valid() && i <= |codes| && AllFit(v, codes) && StatesOk(v.table, after)
    ensures i == |codes| ==> WriteStates(v, codes, i, after) == (after, [])
    ensures i < |codes| ==>
      var (next, bits) := WriteStates(v, codes, i + 1, after);
      && codes[i].symbol < |v.bins| && next[i % 4] < |v.table|
      && var (slot, step) := StepBack(v, codes[i].symbol, next[i % 4]);
         WriteStates(v, codes, i, after) == (next[i % 4 := slot], step + bits)
  {
    if i < |codes| { assert Fits(v, codes[i]); }
  }

  lemma {:induction false} ExtrasRoundTrip(v: Latent, nodes: seq<Node>, codes: seq<Code>, tail: Bits, pos: nat)
    requires v.Valid() && AllFit(v, codes) && NodesMatch(v, nodes, codes)
    ensures Extras(Cursor(WriteExtras(v, codes) + tail, pos, true), nodes, v.width)
            == (Values(v, codes), Cursor(tail, pos + |WriteExtras(v, codes)|, true))
    decreases |codes|
  {
    hide FromNat, Cursor.Take, Pow2, TableOf;
    if codes == [] {
      assert WriteExtras(v, codes) + tail == tail;
    } else {
      var head, rest := FromNat(codes[0].extra, v.bins[codes[0].symbol].offset), WriteExtras(v, codes[1..]);
      Assoc(head, rest, tail);
      assert v.bins[codes[0].symbol] in v.bins;
      TakeWritten(codes[0].extra, v.bins[codes[0].symbol].offset, rest + tail, pos);
      ExtrasRoundTrip(v, nodes[1..], codes[1..], tail, pos + |head|);
      assert Values(v, codes) == [Value(v, codes[0])] + Values(v, codes[1..]);
    }
  }

  /** Reading back a written batch gives the values and the encoder's final
      states, for any values, any states and whatever bits follow. */
  lemma {:induction false} BatchRoundTrip(v: Latent, codes: seq<Code>, after: seq<nat>, tail: Bits, pos: nat)
    requires v.Valid() && AllFit(v, codes) && StatesOk(v.table, after)
    ensures codes != [] ==> v.bins != []
    ensures var (before, bits) := WriteBatch(v, codes, after);
            Batch(v, Cursor(bits + tail, pos, true), before, |codes|)
            == (Values(v, codes), after, Cursor(tail, pos + |bits|, true))
  {
    hide TableOf, Accepted, Steps, Extras, WriteStates, WriteExtras, Values;
    var (before, bits) := WriteStates(v, codes, 0, after);
    var extras := WriteExtras(v, codes);
    Assoc(bits, extras, tail);
    var nodes := StatesRoundTrip(v, codes, 0, after, extras + tail, pos);
    assert codes[0..] == codes;
    if codes != [] { assert Fits(v, codes[0]); }
    ExtrasRoundTrip(v, nodes, codes, tail, pos + |bits|);
  }
}
