/** The FastLanes index permutations shared by bit-packing and delta encoding:
    a chunk of 1024 values is spread over lanes, one lane per word of a
    1024-bit register. */
module FastLanes {
  import opened Words

  /** Reverses the three bits of a number below 8. */
  function Order(k: nat): (r: nat)
    requires k < 8
    ensures r < 8
  {
    match k
    case 0 => 0
    case 1 => 4
    case 2 => 2
    case 3 => 6
    case 4 => 1
    case 5 => 5
    case 6 => 3
    case _ => 7
  }

  lemma {:induction false} OrderTwice(k: nat)
    requires k < 8
    ensures Order(Order(k)) == k
  {
  }

  function Lanes(bits: nat): (lanes: nat)
    requires IsWidth(bits)
    ensures 16 <= lanes <= 128
  {
    1024 / bits
  }

  lemma {:induction false} WholeBytes(bits: nat)
    requires IsWidth(bits)
    ensures bits % 8 == 0 && bits == 8 * (bits / 8)
  {
  }

  /** The transpose of a chunk: `(idx % 16) * 64 + order[(idx / 16) % 8] * 8 + idx / 128`. */
  function Transpose(idx: nat): (target: nat)
    requires idx < 1024
    ensures target < 1024
  {
    (idx % 16) * 64 + Order((idx / 16) % 8) * 8 + idx / 128
  }

  function Untranspose(target: nat): (idx: nat)
    requires target < 1024
    ensures idx < 1024
  {
    target / 64 + Order((target / 8) % 8) * 16 + (target % 8) * 128
  }

  lemma {:induction false} Digits16(a: nat, b: nat, c: nat)
    requires a < 16 && b < 8
    ensures var i := a + 16 * b + 128 * c;
            i % 16 == a && (i / 16) % 8 == b && i / 128 == c
  {
    var i := a + 16 * b + 128 * c;
    DivModUnique(i, 16, b + 8 * c, a);
    DivModUnique(b + 8 * c, 8, c, b);
    DivModUnique(i, 128, c, a + 16 * b);
  }

  lemma {:induction false} Digits8(a: nat, b: nat, c: nat)
    requires a < 8 && b < 8
    ensures var i := a + 8 * b + 64 * c;
            i % 8 == a && (i / 8) % 8 == b && i / 64 == c
  {
    var i := a + 8 * b + 64 * c;
    DivModUnique(i, 8, b + 8 * c, a);
    DivModUnique(b + 8 * c, 8, c, b);
    DivModUnique(i, 64, c, a + 8 * b);
  }

  /** The transpose is a permutation of 0..1023. */
  lemma {:induction false} TransposeInverse(i: nat)
    requires i < 1024
    ensures Untranspose(Transpose(i)) == i
    ensures Transpose(Untranspose(i)) == i
  {
    TransposeLeft(i);
    TransposeRight(i);
  }

  lemma {:induction false} TransposeLeft(i: nat)
    requires i < 1024
    ensures Untranspose(Transpose(i)) == i
  {
    hide Order;
    var a, b, c := i % 16, (i / 16) % 8, i / 128;
    Split16(i);
    Digits8(c, Order(b), a);
    OrderTwice(b);
  }

  lemma {:induction false} TransposeRight(i: nat)
    requires i < 1024
    ensures Transpose(Untranspose(i)) == i
  {
    hide Order;
    var x, y, z := i / 64, (i / 8) % 8, i % 8;
    Split8(i);
    Digits16(x, Order(y), z);
    OrderTwice(y);
  }

  lemma {:induction false} Split16(i: nat)
    ensures i == i % 16 + 16 * ((i / 16) % 8) + 128 * (i / 128)
  {
    assert i / 16 / 8 == i / 128;
  }

  lemma {:induction false} Split8(i: nat)
    ensures i == i % 8 + 8 * ((i / 8) % 8) + 64 * (i / 64)
  {
    assert i / 8 / 8 == i / 64;
  }

  /** The position of (row, lane) in the transposed order. */
  function Index(bits: nat, row: nat, lane: nat): (idx: nat)
    requires IsWidth(bits) && row < bits && lane < Lanes(bits)
    ensures idx < 1024
  {
    Order(row / 8) * 16 + (row % 8) * 128 + lane
  }

  /** The lane offsets of the row groups of a width. */
  lemma {:induction false} OrderStride(bits: nat, k: nat)
    requires IsWidth(bits) && k < bits / 8
    ensures (Order(k) * 16) % Lanes(bits) == 0 && Order(k) * 16 + Lanes(bits) <= 128
  {
  }

  /** The row group at a position within 128 values. */
  lemma {:induction false} OrderGroup(bits: nat, p: nat)
    requires IsWidth(bits) && p < 128
    ensures 0 <= p - p % Lanes(bits) && (p - p % Lanes(bits)) % 16 == 0
    ensures (p - p % Lanes(bits)) / 16 < 8 && Order((p - p % Lanes(bits)) / 16) < bits / 8
  {
    var lanes := Lanes(bits);
    if bits == 8 {
      assert p - p % 128 == 0;
    } else if bits == 16 {
      assert p - p % 64 == 64 * (p / 64);
    } else if bits == 32 {
      assert p - p % 32 == 32 * (p / 32);
    } else {
      assert p - p % 16 == 16 * (p / 16);
    }
  }

  lemma {:induction false} LaneOfLow(bits: nat, hi: nat, p: nat)
    requires IsWidth(bits) && p < 128
    ensures (hi * 128 + p) % Lanes(bits) == p % Lanes(bits)
    ensures (hi * 128 + p) % 128 == p && (hi * 128 + p) / 128 == hi
  {
    DivModUnique(hi * 128 + p, 128, hi, p);
    LowOfLanes(hi, p, Lanes(bits), if bits == 8 then 1 else if bits == 16 then 2 else if bits == 32 then 4 else 8);
  }

  lemma {:induction false} LowOfLanes(hi: nat, p: nat, lanes: nat, k: nat)
    requires lanes > 0 && k * lanes == 128
    ensures (hi * 128 + p) % lanes == p % lanes
  {
    MulAssoc(hi, k, lanes);
    ModAddMultiple(p, hi * k, lanes);
  }

  /** `order[(position - position/128*128 - position%lanes) / 16] * 8 + position/128`. */
  function RowOf(bits: nat, idx: nat): (row: nat)
    requires IsWidth(bits) && idx < 1024
    ensures row < bits
  {
    var p := idx % 128;
    OrderGroup(bits, p);
    LaneOfLow(bits, idx / 128, p);
    assert idx == (idx / 128) * 128 + p;
    Order((p - idx % Lanes(bits)) / 16) * 8 + idx / 128
  }

  function LaneOf(bits: nat, idx: nat): (lane: nat)
    requires IsWidth(bits) && idx < 1024
    ensures lane < Lanes(bits)
  {
    idx % Lanes(bits)
  }

  /** Positions and (row, lane) pairs correspond one to one, for every word width. */
  lemma {:induction false} IndexInverse(bits: nat, row: nat, lane: nat)
    requires IsWidth(bits) && row < bits && lane < Lanes(bits)
    ensures RowOf(bits, Index(bits, row, lane)) == row
    ensures LaneOf(bits, Index(bits, row, lane)) == lane
  {
    hide Order, Lanes, RowOf, LaneOf;
    var group := Order(row / 8) * 16;
    OrderStride(bits, row / 8);
    LaneOfLow(bits, row % 8, group + lane);
    StrideLane(group, lane, bits);
    OrderTwice(row / 8);
    RowOfParts(bits, row % 8, group + lane, lane, Order(row / 8));
  }

  /** The row and the lane of position `p` of stripe `hi`. */
  lemma {:induction false} RowOfParts(bits: nat, hi: nat, p: nat, lane: nat, group: nat)
    requires IsWidth(bits) && hi < 8 && p < 128 && group < 8 && p == group * 16 + lane && p % Lanes(bits) == lane
    ensures RowOf(bits, hi * 128 + p) == Order(group) * 8 + hi && LaneOf(bits, hi * 128 + p) == lane
  {
    hide Order, Lanes;
    LaneOfLow(bits, hi, p);
  }

  lemma {:induction false} StrideLane(x: nat, lane: nat, bits: nat)
    requires IsWidth(bits) && lane < Lanes(bits) && x % Lanes(bits) == 0
    ensures (x + lane) % Lanes(bits) == lane
  {
  }

  lemma {:induction false} RowLaneInverse(bits: nat, idx: nat)
    requires IsWidth(bits) && idx < 1024
    ensures Index(bits, RowOf(bits, idx), LaneOf(bits, idx)) == idx
  {
    hide Order, Lanes, RowOf, LaneOf, Index;
    var hi, p, lanes := idx / 128, idx % 128, Lanes(bits);
    var lane, group := p % lanes, (p - p % lanes) / 16;
    assert idx == hi * 128 + p;
    OrderGroup(bits, p);
    LaneOfLow(bits, hi, p);
    RowOfParts(bits, hi, p, lane, group);
    IndexOfParts(bits, hi, lane, group);
  }

  lemma {:induction false} IndexOfParts(bits: nat, hi: nat, lane: nat, group: nat)
    requires IsWidth(bits) && hi < 8 && group < 8 && Order(group) * 8 + hi < bits && lane < Lanes(bits)
    ensures Index(bits, Order(group) * 8 + hi, lane) == group * 16 + hi * 128 + lane
  {
    hide Order, Lanes;
    var row := Order(group) * 8 + hi;
    OrderTwice(group);
    assert row / 8 == Order(group) && row % 8 == hi;
  }

  // ------------------------------------------------------------ positions in digits

  /** A position below 1024 by its digits: stripe `s`, bits `a`, `b` and `c`, and `m`. */
  predicate Digits(s: nat, a: nat, b: nat, c: nat, m: nat) { s < 8 && a < 2 && b < 2 && c < 2 && m < 16 }

  function Position(s: nat, a: nat, b: nat, c: nat, m: nat): (i: nat)
    requires Digits(s, a, b, c, m)
    ensures i < 1024
  {
    128 * s + 64 * a + 32 * b + 16 * c + m
  }

  /** The row of a position: as many of the three bits as the width has row groups, the
      last bit first, above the stripe. */
  function RowDigits(bits: nat, s: nat, a: nat, b: nat, c: nat): (row: nat)
    requires IsWidth(bits) && Digits(s, a, b, c, 0)
    ensures row < bits
  {
    s + 8 * (if bits == 64 then 4 * c + 2 * b + a else if bits == 32 then 2 * b + a else if bits == 16 then a else 0)
  }

  /** The lane of a position: the other bits, above `m`. */
  function LaneDigits(bits: nat, a: nat, b: nat, c: nat, m: nat): (lane: nat)
    requires IsWidth(bits) && Digits(0, a, b, c, m)
    ensures lane < Lanes(bits)
  {
    m + (if bits == 64 then 0 else if bits == 32 then 16 * c else if bits == 16 then 32 * b + 16 * c
         else 64 * a + 32 * b + 16 * c)
  }

  /** Row and lane of every position, for every width, digit by digit. */
  lemma {:induction false} PositionInDigits(bits: nat, s: nat, a: nat, b: nat, c: nat, m: nat)
    requires IsWidth(bits) && Digits(s, a, b, c, m)
    ensures RowOf(bits, Position(s, a, b, c, m)) == RowDigits(bits, s, a, b, c)
    ensures LaneOf(bits, Position(s, a, b, c, m)) == LaneDigits(bits, a, b, c, m)
  {
    hide RowOf, LaneOf, Order;
    var p, lane := 64 * a + 32 * b + 16 * c + m, LaneDigits(bits, a, b, c, m);
    LaneInDigits(bits, a, b, c, m);
    var group := (p - lane) / 16;
    assert group == 4 * a + 2 * b + c - (lane - m) / 16;
    RowOfParts(bits, s, p, lane, group);
    OrderInDigits(a, b, c);
    OrderInDigits(a, b, 0);
    OrderInDigits(a, 0, 0);
    OrderInDigits(0, 0, 0);
  }

  lemma {:induction false} LaneInDigits(bits: nat, a: nat, b: nat, c: nat, m: nat)
    requires IsWidth(bits) && Digits(0, a, b, c, m)
    ensures var p, lane := 64 * a + 32 * b + 16 * c + m, LaneDigits(bits, a, b, c, m);
            p < 128 && p % Lanes(bits) == lane
  {
  }

  /** The order of the row groups reverses three bits. */
  lemma {:induction false} OrderInDigits(a: nat, b: nat, c: nat)
    requires a < 2 && b < 2 && c < 2
    ensures Order(4 * a + 2 * b + c) == 4 * c + 2 * b + a
  {
  }

  /** The transposed position of every position, digit by digit. */
  lemma {:induction false} TransposeInDigits(s: nat, a: nat, b: nat, c: nat, m: nat)
    requires Digits(s, a, b, c, m)
    ensures Transpose(Position(s, a, b, c, m)) == 64 * m + 32 * c + 16 * b + 8 * a + s
  {
    hide Order;
    var i := Position(s, a, b, c, m);
    assert i == m + 16 * (4 * a + 2 * b + c) + 128 * s;
    Digits16(m, 4 * a + 2 * b + c, s);
    OrderInDigits(a, b, c);
  }
}
