/** The decoding table of Pco's table-based asymmetric numeral system (tANS):
    how bins are spread over the slots and which state interval each slot covers. */
module AnsTable {
  import opened Words

  datatype Bin = Bin(weight: nat, lower: nat, offset: nat)
  datatype Node = Node(next: nat, read: nat, offset: nat, lower: nat)

  function Total(bins: seq<Bin>): nat {
    if bins == [] then 0 else bins[0].weight + Total(bins[1..])
  }

  /** What `parseLatent` accepts for latents of `width` bits. */
  predicate Accepted(bins: seq<Bin>, log: nat, width: nat) {
    && log <= 14
    && |bins| <= Pow2(log)
    && (|bins| <= 1 ==> log == 0)
    && (forall b | b in bins :: 1 <= b.weight && b.lower < Pow2(width) && b.offset <= width)
    && (bins != [] ==> Total(bins) == Pow2(log))
  }

  // ------------------------------------------------------- spreading the bins

  /** Sum of the weights of the bins before `s`. */
  function First(bins: seq<Bin>, s: nat): nat
    requires s <= |bins|
  {
    if s == 0 then 0 else First(bins, s - 1) + bins[s - 1].weight
  }

  lemma {:induction false} FirstOfTail(bins: seq<Bin>, s: nat)
    requires 1 <= s <= |bins|
    ensures First(bins, s) == bins[0].weight + First(bins[1..], s - 1)
  {
    if s > 1 { FirstOfTail(bins, s - 1); }
  }

  lemma {:induction false} FirstOfAll(bins: seq<Bin>)
    ensures First(bins, |bins|) == Total(bins)
  {
    if bins != [] {
      FirstOfTail(bins, |bins|);
      FirstOfAll(bins[1..]);
    }
  }

  lemma {:induction false} FirstMono(bins: seq<Bin>, s: nat, t: nat)
    requires s <= t <= |bins|
    ensures First(bins, s) <= First(bins, t)
  {
    if s < t { FirstMono(bins, s, t - 1); }
  }

  /** The bin that the spreading loop is handling at `step`. */
  function BinAt(bins: seq<Bin>, step: nat): (s: nat)
    requires step < Total(bins)
    ensures s < |bins|
  {
    if step < bins[0].weight then 0 else 1 + BinAt(bins[1..], step - bins[0].weight)
  }

  lemma {:induction false} BinAtRange(bins: seq<Bin>, step: nat, s: nat)
    requires step < Total(bins) && s < |bins|
    ensures BinAt(bins, step) == s <==> First(bins, s) <= step < First(bins, s) + bins[s].weight
  {
    if s > 0 {
      FirstOfTail(bins, s);
      if step >= bins[0].weight { BinAtRange(bins[1..], step - bins[0].weight, s - 1); }
    }
  }

  function Stride(size: nat): (stride: nat)
    ensures stride % 2 == 1
  {
    var s := 3 * size / 5;
    if s % 2 == 0 then s + 1 else s
  }

  /** `(step * stride) & (size - 1)` for a power of two `size`. */
  function SlotOf(size: nat, stride: nat, step: nat): (slot: nat)
    requires size > 0
    ensures slot < size
  {
    (step * stride) % size
  }

  /** The slot filled at `step`. */
  function SlotAt(size: nat, step: nat): (slot: nat)
    requires size > 0
    ensures slot < size
  {
    SlotOf(size, Stride(size), step)
  }

  /** An odd stride visits different slots at different steps. */
  lemma {:induction false} SlotsDistinct(log: nat, a: nat, b: nat)
    requires a < b < Pow2(log)
    ensures SlotAt(Pow2(log), a) != SlotAt(Pow2(log), b)
  {
    OddStrideInjective(log, a, b, Stride(Pow2(log)));
  }

  /** The slots after `step` assignments; -1 marks a slot not yet assigned. */
  ghost function Place(bins: seq<Bin>, size: nat, step: nat): (slots: seq<int>)
    requires size > 0 && step <= Total(bins)
    ensures |slots| == size
    ensures forall j | 0 <= j < size :: -1 <= slots[j] < |bins|
  {
    if step == 0 then seq(size, _ => -1)
    else Place(bins, size, step - 1)[SlotAt(size, step - 1) := BinAt(bins, step - 1)]
  }

  function Count(s: seq<int>, v: int): nat {
    if s == [] then 0 else Count(s[..|s| - 1], v) + if s[|s| - 1] == v then 1 else 0
  }

  lemma {:induction false} CountUpdate(s: seq<int>, i: nat, x: int, v: int)
    requires i < |s|
    ensures Count(s[i := x], v)
         == Count(s, v) - (if s[i] == v then 1 else 0) + (if x == v then 1 else 0)
  {
    var last := |s| - 1;
    if i == last {
      assert s[i := x][..last] == s[..last];
    } else {
      assert s[i := x][..last] == s[..last][i := x];
      CountUpdate(s[..last], i, x, v);
    }
  }

  lemma {:induction false} CountConstant(s: seq<int>, v: int)
    requires forall j | 0 <= j < |s| :: s[j] == -1
    ensures Count(s, v) == if v == -1 then |s| else 0
  {
    if s != [] { CountConstant(s[..|s| - 1], v); }
  }

  lemma {:induction false} CountZero(s: seq<int>, v: int, j: nat)
    requires Count(s, v) == 0 && j < |s|
    ensures s[j] != v
  {
    if j < |s| - 1 { CountZero(s[..|s| - 1], v, j); }
  }

  /** A slot that no earlier step visited is still unassigned. */
  lemma {:induction false} StillFree(bins: seq<Bin>, log: nat, step: nat, later: nat)
    requires step <= Total(bins) && step <= later < Pow2(log)
    ensures Place(bins, Pow2(log), step)[SlotAt(Pow2(log), later)] == -1
  {
    if step > 0 {
      StillFree(bins, log, step - 1, later);
      SlotsDistinct(log, step - 1, later);
    }
  }

  /** How many of the first `step` steps belong to bin `s`. */
  function Owned(bins: seq<Bin>, step: nat, s: nat): nat
    requires s < |bins|
  {
    var before := First(bins, s);
    if step < before then 0
    else if step - before < bins[s].weight then step - before
    else bins[s].weight
  }

  lemma {:induction false} PlaceCounts(bins: seq<Bin>, log: nat, step: nat, s: nat)
    requires step <= Total(bins) && step <= Pow2(log) && s < |bins|
    ensures Count(Place(bins, Pow2(log), step), s) == Owned(bins, step, s)
    ensures Count(Place(bins, Pow2(log), step), -1) == Pow2(log) - step
  {
    var size := Pow2(log);
    if step == 0 {
      CountConstant(Place(bins, size, 0), s);
      CountConstant(Place(bins, size, 0), -1);
    } else {
      var slots, slot, x := Place(bins, size, step - 1), SlotAt(size, step - 1), BinAt(bins, step - 1);
      PlaceCounts(bins, log, step - 1, s);
      StillFree(bins, log, step - 1, step - 1);
      CountUpdate(slots, slot, x, s);
      CountUpdate(slots, slot, x, -1);
      BinAtRange(bins, step - 1, s);
    }
  }

  /** The finished assignment of bins to slots. */
  ghost function Spread(bins: seq<Bin>, log: nat): (symbols: seq<int>)
    requires Total(bins) == Pow2(log)
    ensures |symbols| == Pow2(log)
  {
    Place(bins, Pow2(log), Pow2(log))
  }

  /** Every slot is assigned to a bin, and each bin owns exactly `weight` slots. */
  lemma {:induction false} SpreadOwnership(bins: seq<Bin>, log: nat, s: nat)
    requires Total(bins) == Pow2(log) && s < |bins|
    ensures forall j | 0 <= j < Pow2(log) :: 0 <= Spread(bins, log)[j] < |bins|
    ensures Count(Spread(bins, log), s) == bins[s].weight
  {
    PlaceCounts(bins, log, Pow2(log), s);
    forall j: nat | j < Pow2(log) ensures Spread(bins, log)[j] != -1 {
      CountZero(Spread(bins, log), -1, j);
    }
    FirstOfAll(bins);
    FirstMono(bins, s + 1, |bins|);
  }

  /** A slot keeps the bin of the step that filled it. */
  lemma {:induction false} PlacedStays(bins: seq<Bin>, log: nat, step: nat, filled: nat)
    requires filled < step <= Total(bins) && step <= Pow2(log)
    ensures Place(bins, Pow2(log), step)[SlotAt(Pow2(log), filled)] == BinAt(bins, filled)
  {
    hide SlotAt, BinAt;
    if filled < step - 1 {
      PlacedStays(bins, log, step - 1, filled);
      SlotsDistinct(log, filled, step - 1);
    }
  }

  /** The stride by what it is: the odd number whose fivefold is nearest to three table
      sizes. */
  lemma {:induction false} StrideIs(size: nat, t: nat)
    requires t % 2 == 1 && 3 * size - 5 < 5 * t <= 3 * size + 5
    ensures Stride(size) == t
  {
  }

  /** The finished table, slot by slot: for the odd `t` within a distance of one from three
      fifths of the table size, slot `step * t` modulo the size belongs to the bin whose
      range of cumulative weights contains `step`. */
  lemma {:induction false} SpreadBySteps(bins: seq<Bin>, log: nat, t: nat, step: nat, s: nat)
    requires Total(bins) == Pow2(log) && step < Pow2(log) && s < |bins|
    requires t % 2 == 1 && 3 * Pow2(log) - 5 < 5 * t <= 3 * Pow2(log) + 5
    requires First(bins, s) <= step < First(bins, s) + bins[s].weight
    ensures Spread(bins, log)[step * t % Pow2(log)] == s
  {
    hide Pow2, Place, First, Total, BinAt, Stride;
    StrideIs(Pow2(log), t);
    PlacedStays(bins, log, Pow2(log), step);
    BinAtRange(bins, step, s);
  }

  // ------------------------------------------------------- state intervals

  /** The states a slot covers, shifted up by the table size: the slot that is
      the `x`-th of its bin, counting from the bin's weight, covers
      [x * 2^bits, (x + 1) * 2^bits). */
  function ReadBits(log: nat, x: nat): int {
    log + 1 - Len(x)
  }

  predicate InInterval(log: nat, x: nat, t: nat) {
    var bits := ReadBits(log, x);
    bits >= 0 && Shl(x, bits) <= t < Shl(x + 1, bits)
  }

  lemma {:induction false} IntervalBounds(log: nat, x: nat)
    requires 0 < x < Pow2(log + 1)
    ensures 0 <= ReadBits(log, x) <= log
    ensures Pow2(log) <= Shl(x, ReadBits(log, x))
    ensures Shl(x + 1, ReadBits(log, x)) <= Pow2(log + 1)
  {
    LenBounds(x);
    var k := Len(x) - 1;
    Pow2Strict(k, log + 1);
    ShlMono(Pow2(k), x, log - k);
    ShlPow2(k, log - k);
    ShlMono(x + 1, Pow2(k + 1), log - k);
    ShlPow2(k + 1, log - k);
  }

  /** The one `x` in [weight, 2 * weight) whose interval contains `t`. */
  function Locate(log: nat, weight: nat, t: nat): nat
    requires 0 < weight <= Pow2(log)
  {
    LenBounds(weight);
    Pow2Strict(Len(weight) - 1, log + 1);
    var bits := ReadBits(log, weight);
    if Shl(weight, bits) <= t then Shr(t, bits)
    else if bits > 0 then Shr(t, bits - 1) else weight
  }

  lemma {:induction false} LocateFinds(log: nat, weight: nat, t: nat)
    requires 0 < weight <= Pow2(log) <= t < Pow2(log + 1)
    ensures weight <= Locate(log, weight, t) < 2 * weight
    ensures InInterval(log, Locate(log, weight, t), t)
  {
    IntervalBounds(log, weight);
    LenBounds(weight);
    var bits, k, x := ReadBits(log, weight), Len(weight) - 1, Locate(log, weight, t);
    if Shl(weight, bits) <= t {
      ShrBracket(t, bits);
      ShlStrict(weight, x + 1, bits);
      ShlPow2(k + 1, bits);
      ShlStrict(x, Pow2(k + 1), bits);
      LenUnique(x, k);
    } else {
      LocateLow(log, weight, t);
    }
  }

  lemma {:induction false} LocateLow(log: nat, weight: nat, t: nat)
    requires 0 < weight <= Pow2(log) <= t < Pow2(log + 1)
    requires ReadBits(log, weight) >= 0 && t < Shl(weight, ReadBits(log, weight))
    ensures ReadBits(log, weight) > 0
    ensures weight <= Shr(t, ReadBits(log, weight) - 1) < 2 * weight
    ensures InInterval(log, Shr(t, ReadBits(log, weight) - 1), t)
  {
    hide Len, Shr;
    LenBounds(weight);
    var bits, k := ReadBits(log, weight), Len(weight) - 1;
    if bits == 0 {
      assert false;
    }
    var x := Shr(t, bits - 1);
    ShrBracket(t, bits - 1);
    ShlDouble(weight, bits - 1);
    ShlStrict(x, 2 * weight, bits - 1);
    ShlPow2(k + 1, bits - 1);
    ShlStrict(Pow2(k + 1), x + 1, bits - 1);
    LenUnique(x, k + 1);
  }

  /** The intervals of one bin do not overlap. */
  lemma {:induction false} LocateUnique(log: nat, weight: nat, t: nat, x: nat)
    requires 0 < weight <= Pow2(log) <= t < Pow2(log + 1)
    requires weight <= x < 2 * weight && InInterval(log, x, t)
    ensures x == Locate(log, weight, t)
  {
    LenBounds(weight);
    LenBounds(x);
    var bits, k := ReadBits(log, weight), Len(weight) - 1;
    Pow2Strict(k, Len(x));
    Pow2Strict(Len(x) - 1, k + 2);
    if Len(x) == k + 1 {
      ShlMono(weight, x, bits);
      ShrUnique(t, bits, x);
    } else {
      ShlMono(x + 1, 2 * weight, bits - 1);
      ShlDouble(weight, bits - 1);
      ShrUnique(t, bits - 1, x);
    }
  }

  // ------------------------------------------------------- the table

  /** The node of a slot whose bin `b` has had `x - b.weight` slots before it. */
  function SlotNode(b: Bin, log: nat, x: nat): (node: Node)
    requires 0 < x < Pow2(log + 1)
  {
    IntervalBounds(log, x);
    var bits := ReadBits(log, x);
    Node(Shl(x, bits) - Pow2(log), bits, b.offset, b.lower)
  }

  /** `next[s]` when slot `i` is reached: the weight plus the earlier slots of `s`. */
  ghost function Turn(bins: seq<Bin>, symbols: seq<int>, i: nat): (x: nat)
    requires i < |symbols| && 0 <= symbols[i] < |bins|
  {
    bins[symbols[i]].weight + Count(symbols[..i], symbols[i])
  }

  lemma {:induction false} CountPrefix(s: seq<int>, v: int, i: nat, j: nat)
    requires i <= j <= |s|
    ensures Count(s[..i], v) <= Count(s[..j], v)
    ensures i < j && s[i] == v ==> Count(s[..i], v) < Count(s[..j], v)
  {
    if i < j {
      assert s[..j][..j - 1] == s[..j - 1];
      CountPrefix(s, v, i, j - 1);
    }
  }

  lemma {:induction false} TurnRange(bins: seq<Bin>, log: nat, i: nat)
    requires Total(bins) == Pow2(log) && i < Pow2(log)
    requires forall b | b in bins :: b.weight > 0
    ensures 0 <= Spread(bins, log)[i] < |bins|
    ensures var b := bins[Spread(bins, log)[i]];
            b.weight <= Turn(bins, Spread(bins, log), i) < 2 * b.weight
    ensures bins[Spread(bins, log)[i]].weight <= Pow2(log)
  {
    assert bins != [];
    SpreadOwnership(bins, log, 0);
    SpreadOwnership(bins, log, Spread(bins, log)[i]);
    TurnBelow(bins, Spread(bins, log), i);
    WeightBelow(bins, Spread(bins, log)[i]);
  }

  lemma {:induction false} TurnBelow(bins: seq<Bin>, symbols: seq<int>, i: nat)
    requires i < |symbols| && 0 <= symbols[i] < |bins|
    ensures Turn(bins, symbols, i) < bins[symbols[i]].weight + Count(symbols, symbols[i])
  {
    CountPrefix(symbols, symbols[i], i, |symbols|);
    assert symbols[..|symbols|] == symbols;
  }

  lemma {:induction false} WeightBelow(bins: seq<Bin>, s: nat)
    requires s < |bins|
    ensures First(bins, s) + bins[s].weight <= Total(bins)
  {
    FirstOfAll(bins);
    FirstMono(bins, s + 1, |bins|);
  }

  /** The table that `parseLatent` builds. */
  ghost function TableOf(bins: seq<Bin>, log: nat): (table: seq<Node>)
    requires bins != [] ==> Total(bins) == Pow2(log)
    requires forall b | b in bins :: b.weight > 0
    ensures |table| == if bins == [] then 0 else Pow2(log)
  {
    if bins == [] then []
    else
      seq(Pow2(log), i requires 0 <= i < Pow2(log) =>
        TurnRange(bins, log, i);
        SlotNode(bins[Spread(bins, log)[i]], log, Turn(bins, Spread(bins, log), i)))
  }

  /** The slot of bin `s` that has exactly `r` earlier slots of `s`. */
  ghost function FindSlot(symbols: seq<int>, s: nat, r: nat): (i: nat)
    requires r < Count(symbols, s)
    ensures i < |symbols| && symbols[i] == s && Count(symbols[..i], s) == r
  {
    var last := |symbols| - 1;
    if Count(symbols[..last], s) <= r then last
    else
      var i := FindSlot(symbols[..last], s, r);
      assert symbols[..last][..i] == symbols[..i];
      i
  }

  /** The state interval of one table node. */
  predicate Covers(node: Node, t: nat) {
    node.next <= t < node.next + Pow2(node.read)
  }

  lemma {:induction false} NodeCoversIff(b: Bin, log: nat, x: nat, t: nat)
    requires 0 < b.weight <= x < 2 * b.weight && b.weight <= Pow2(log) && t < Pow2(log)
    ensures Covers(SlotNode(b, log, x), t) <==> x == Locate(log, b.weight, t + Pow2(log))
  {
    IntervalBounds(log, x);
    ShlSucc(x, ReadBits(log, x));
    LocateFinds(log, b.weight, t + Pow2(log));
    if InInterval(log, x, t + Pow2(log)) {
      LocateUnique(log, b.weight, t + Pow2(log), x);
    }
  }

  /** Slot `home` is the only slot of bin `s` whose interval contains `t`. */
  ghost predicate OnlySlot(bins: seq<Bin>, log: nat, s: nat, t: nat, home: nat)
    requires Total(bins) == Pow2(log)
    requires forall b | b in bins :: b.weight > 0
  {
    && home < Pow2(log)
    && forall i: nat | i < Pow2(log) ::
      (Spread(bins, log)[i] == s && Covers(TableOf(bins, log)[i], t)) <==> i == home
  }

  /** For every bin, the intervals of its slots partition the states: each state
      lies in the interval of exactly one slot of the bin. */
  lemma {:induction false} StatePartition(bins: seq<Bin>, log: nat, s: nat, t: nat)
    requires s < |bins| && t < Pow2(log)
    requires Total(bins) == Pow2(log)
    requires forall b | b in bins :: b.weight > 0
    ensures exists home: nat :: OnlySlot(bins, log, s, t, home)
  {
    hide Spread, TableOf, Covers, Total, Locate, InInterval, Count;
    SpreadOwnership(bins, log, s);
    WeightBelow(bins, s);
    var weight := bins[s].weight;
    var x := Locate(log, weight, t + Pow2(log));
    LocateFinds(log, weight, t + Pow2(log));
    var home := FindSlot(Spread(bins, log), s, x - weight);
    forall i: nat | i < Pow2(log)
      ensures Spread(bins, log)[i] == s && Covers(TableOf(bins, log)[i], t) <==> i == home
    {
      OnlyHome(bins, log, s, t, home, i);
    }
    assert OnlySlot(bins, log, s, t, home);
  }

  /** The slot of bin `s` whose interval contains state `t`. */
  ghost function Slot(bins: seq<Bin>, log: nat, s: nat, t: nat): (home: nat)
    requires s < |bins| && t < Pow2(log)
    requires Total(bins) == Pow2(log)
    requires forall b | b in bins :: b.weight > 0
    ensures OnlySlot(bins, log, s, t, home)
  {
    StatePartition(bins, log, s, t);
    var home: nat :| OnlySlot(bins, log, s, t, home);
    home
  }

  lemma {:induction false} OnlyHome(bins: seq<Bin>, log: nat, s: nat, t: nat, home: nat, i: nat)
    requires s < |bins| && t < Pow2(log) && i < Pow2(log) && home < Pow2(log)
    requires Total(bins) == Pow2(log)
    requires forall b | b in bins :: b.weight > 0
    requires 0 < bins[s].weight <= Pow2(log)
    requires Spread(bins, log)[home] == s
    requires Turn(bins, Spread(bins, log), home) == Locate(log, bins[s].weight, t + Pow2(log))
    ensures Spread(bins, log)[i] == s && Covers(TableOf(bins, log)[i], t) <==> i == home
  {
    SlotCovers(bins, log, i, t);
    if Spread(bins, log)[i] == s && i != home {
      TurnInjective(bins, Spread(bins, log), i, home);
    }
  }

  lemma {:induction false} TurnInjective(bins: seq<Bin>, symbols: seq<int>, i: nat, j: nat)
    requires i < |symbols| && j < |symbols| && i != j
    requires symbols[i] == symbols[j] && 0 <= symbols[i] < |bins|
    ensures Turn(bins, symbols, i) != Turn(bins, symbols, j)
  {
    CountPrefix(symbols, symbols[i], if i < j then i else j, if i < j then j else i);
  }

  /** A slot covers exactly the states whose `Locate` is the slot's turn. */
  lemma {:induction false} SlotCovers(bins: seq<Bin>, log: nat, i: nat, t: nat)
    requires t < Pow2(log) && i < Pow2(log)
    requires Total(bins) == Pow2(log)
    requires forall b | b in bins :: b.weight > 0
    ensures 0 <= Spread(bins, log)[i] < |bins|
    ensures 0 < bins[Spread(bins, log)[i]].weight <= Pow2(log)
    ensures Covers(TableOf(bins, log)[i], t)
            <==> Turn(bins, Spread(bins, log), i)
                 == Locate(log, bins[Spread(bins, log)[i]].weight, t + Pow2(log))
  {
    TableAt(bins, log, i);
    var symbols := Spread(bins, log);
    NodeCoversIff(bins[symbols[i]], log, Turn(bins, symbols, i), t);
  }

  lemma {:induction false} TableAt(bins: seq<Bin>, log: nat, i: nat)
    requires Total(bins) == Pow2(log) && i < Pow2(log)
    requires forall b | b in bins :: b.weight > 0
    ensures 0 <= Spread(bins, log)[i] < |bins|
    ensures var b, x := bins[Spread(bins, log)[i]], Turn(bins, Spread(bins, log), i);
            && 0 < b.weight <= x < 2 * b.weight && b.weight <= Pow2(log)
            && TableOf(bins, log)[i] == SlotNode(b, log, x)
  {
    TurnRange(bins, log, i);
  }

  /** The slots of a bin count up from its weight: the first slot of the bin covers
      [weight * 2^read, (weight + 1) * 2^read), shifted down by the table size, and each
      further slot goes on with the next multiple. */
  lemma {:induction false} SlotsInOrder(bins: seq<Bin>, log: nat, i: nat, j: nat)
    requires Total(bins) == Pow2(log) && i < j < Pow2(log)
    requires forall b | b in bins :: b.weight > 0
    requires Spread(bins, log)[i] == Spread(bins, log)[j]
    requires forall k | i < k < j :: Spread(bins, log)[k] != Spread(bins, log)[i]
    ensures var table := TableOf(bins, log);
            Shr(table[j].next + Pow2(log), table[j].read) == Shr(table[i].next + Pow2(log), table[i].read) + 1
  {
    hide Spread, TableOf, Shr, Count, Total;
    TableAt(bins, log, i);
    TableAt(bins, log, j);
    var symbols := Spread(bins, log);
    var x := Turn(bins, symbols, i);
    NextTurn(symbols, symbols[i], i, j);
    NodeTurn(bins[symbols[i]], log, x);
    NodeTurn(bins[symbols[j]], log, x + 1);
  }

  lemma {:induction false} FirstSlot(bins: seq<Bin>, log: nat, i: nat)
    requires Total(bins) == Pow2(log) && i < Pow2(log)
    requires forall b | b in bins :: b.weight > 0
    requires forall k | 0 <= k < i :: Spread(bins, log)[k] != Spread(bins, log)[i]
    ensures 0 <= Spread(bins, log)[i] < |bins|
    ensures var node := TableOf(bins, log)[i];
            Shr(node.next + Pow2(log), node.read) == bins[Spread(bins, log)[i]].weight
  {
    hide Spread, TableOf, Shr, Count, Total;
    TableAt(bins, log, i);
    var symbols := Spread(bins, log);
    NoneBefore(symbols[..i], symbols[i]);
    NodeTurn(bins[symbols[i]], log, Turn(bins, symbols, i));
  }

  lemma {:induction false} NoneBefore(s: seq<int>, v: int)
    requires forall k | 0 <= k < |s| :: s[k] != v
    ensures Count(s, v) == 0
  {
    if s != [] { NoneBefore(s[..|s| - 1], v); }
  }

  lemma {:induction false} NextTurn(s: seq<int>, v: int, i: nat, j: nat)
    requires i < j <= |s| && s[i] == v && forall k | i < k < j :: s[k] != v
    ensures Count(s[..j], v) == Count(s[..i], v) + 1
  {
    assert s[..j][..j - 1] == s[..j - 1];
    if j > i + 1 { NextTurn(s, v, i, j - 1); }
  }

  lemma {:induction false} NodeTurn(b: Bin, log: nat, x: nat)
    requires 0 < x < Pow2(log + 1)
    ensures var node := SlotNode(b, log, x);
            Shr(node.next + Pow2(log), node.read) == x
  {
    hide Pow2, Shl, Shr, ReadBits;
    IntervalBounds(log, x);
    ShlSucc(x, ReadBits(log, x));
    ShrUnique(Shl(x, ReadBits(log, x)), ReadBits(log, x), x);
  }

  /** No input can drive a state out of the table: whatever `read` bits follow,
      the next state is again a slot. */
  lemma {:induction false} TableClosed(bins: seq<Bin>, log: nat, i: nat)
    requires Total(bins) == Pow2(log) && i < Pow2(log)
    requires forall b | b in bins :: b.weight > 0
    ensures var node := TableOf(bins, log)[i];
            node.next + Pow2(node.read) <= Pow2(log) && node.read <= log
  {
    TableAt(bins, log, i);
    var x := Turn(bins, Spread(bins, log), i);
    IntervalBounds(log, x);
    ShlSucc(x, ReadBits(log, x));
  }
}
