/** Rounding of natural numbers to float64, and the overflow bound that `parseChunk`
    computes in float64 for a convolution. */
module Float64 {
  import opened Words
  import opened PcoDelta

  /** Round to nearest, ties to even, with 53 significant bits. */
  function Rounded(x: nat): nat {
    if x < Pow2(53) then x
    else
      var e := Len(x) - 53;
      if e <= 0 then x
      else
        var q, r, half := Shr(x, e), Low(x, e), Pow2(e - 1);
        Shl(if r > half || (r == half && q % 2 == 1) then q + 1 else q, e)
  }

  /** Rounding does not cross a multiple of the rounding unit. */
  lemma {:induction false} MultipleKept(x: nat, t: nat, k: nat)
    requires Len(x) <= 53 + k
    ensures Shl(t, k) <= x ==> Shl(t, k) <= Rounded(x)
    ensures x <= Shl(t, k) ==> Rounded(x) <= Shl(t, k)
  {
    hide Pow2, Shl, Shr, Low, Len;
    if x >= Pow2(53) && Len(x) > 53 {
      var e := Len(x) - 53;
      var q := Shr(x, e);
      LowAndShr(x, e);
      ShlTwice(t, k - e, e);
      ShlMono(q, q + 1, e);
      if Shl(t, k) <= x {
        ShrAtLeast(x, Shl(t, k - e), e);
        ShlMono(Shl(t, k - e), q, e);
      }
      if Shl(q, e) < Shl(t, k) {
        ShlStrict(q, Shl(t, k - e), e);
        ShlMono(q + 1, Shl(t, k - e), e);
      }
    }
  }

  /** Rounding goes to the nearest multiple, and to the even one from halfway. */
  lemma {:induction false} Nearest(x: nat, s: nat, e: nat)
    requires e > 0 && Len(x) == 53 + e && x >= Pow2(53)
    ensures x < Shl(s, e) + Pow2(e - 1) || (x == Shl(s, e) + Pow2(e - 1) && s % 2 == 0)
            ==> Rounded(x) <= Shl(s, e)
    ensures x > Shl(s, e) + Pow2(e - 1) || (x == Shl(s, e) + Pow2(e - 1) && s % 2 == 1)
            ==> Rounded(x) >= Shl(s + 1, e)
  {
    hide Pow2, Shl, Shr, Low, Len;
    var q := Shr(x, e);
    LowAndShr(x, e);
    ShlMono(q, q + 1, e);
    ShlSucc(s, e);
    EvenPower(e);
    if q < s {
      ShlMono(q + 1, s, e);
      ShrBracket(x, e);
    } else if q > s {
      ShlMono(s + 1, q, e);
    }
  }

  /** Rounding never falls below a representable number. */
  lemma {:induction false} RoundedAbove(x: nat, t: nat, k: nat)
    requires t < Pow2(53) && Shl(t, k) <= x
    ensures Shl(t, k) <= Rounded(x)
  {
    hide Pow2, Shl, Shr, Low, Len;
    if Len(x) <= 53 + k {
      MultipleKept(x, t, k);
    } else if x >= Pow2(53) {
      var e := Len(x) - 53;
      var q := Shr(x, e);
      ShlMono(q, q + 1, e);
      QuotientLarge(x, e);
      ShlMono(t, Pow2(53), k);
      ShlPow2(53, k);
      ShlPow2(52, e);
      Pow2Mono(53 + k, 52 + e);
      ShlMono(Pow2(52), q, e);
    }
  }

  lemma {:induction false} ShlTwice(x: nat, a: nat, b: nat)
    ensures Shl(Shl(x, a), b) == Shl(x, a + b)
  {
    if b > 0 { ShlTwice(x, a, b - 1); }
  }

  lemma {:induction false} ShrAtLeast(x: nat, q: nat, k: nat)
    requires Shl(q, k) <= x
    ensures q <= Shr(x, k)
  {
    ShrBracket(x, k);
    ShlStrict(q, Shr(x, k) + 1, k);
  }

  lemma {:induction false} QuotientLarge(x: nat, e: nat)
    requires x > 0 && Len(x) == e + 53
    ensures Pow2(52) <= Shr(x, e)
  {
    hide Pow2, Shl, Shr, Len;
    LenBounds(x);
    ShlPow2(52, e);
    ShrAtLeast(x, Pow2(52), e);
  }

  /** The bound after the first `j` weights, each product and sum rounded. The products
      are exact: a weight has at most 32 bits. */
  function FloatBound(bias: int, weights: seq<int>, w: nat, j: nat): nat
    requires j <= |weights|
  {
    if j == 0 then Rounded(Abs(bias))
    else Rounded(FloatBound(bias, weights, w, j - 1) + Pow2(w) * Abs(weights[j - 1]))
  }

  /** The exact bound. */
  function ExactBound(bias: int, weights: seq<int>, w: nat, j: nat): nat
    requires j <= |weights|
  {
    Abs(bias) + Pow2(w) * AbsSum(weights, j)
  }

  /** Rounding cannot hide an overflow: whatever the order of rounding errors, a bound
      that is too large in exact integers is too large in float64. */
  lemma {:induction false} OverflowIsSeen(bias: int, weights: seq<int>, w: nat)
    requires 0 < w <= 32 && Pow2(2 * w - 1) <= ExactBound(bias, weights, w, |weights|)
    ensures Pow2(2 * w - 1) <= FloatBound(bias, weights, w, |weights|)
  {
    hide Pow2, AbsSum, Abs, Rounded, FloatBound, ExactBound;
    OverflowKept(bias, weights, w, |weights|);
    assert AbsSum(weights, |weights|) - AbsSum(weights, |weights|) == 0;
  }

  lemma {:induction false} OverflowKept(bias: int, weights: seq<int>, w: nat, j: nat)
    requires 0 < w <= 32 && j <= |weights|
    requires Pow2(2 * w - 1) <= ExactBound(bias, weights, w, |weights|)
    ensures Pow2(2 * w - 1)
            <= FloatBound(bias, weights, w, j) + Pow2(w) * (AbsSum(weights, |weights|) - AbsSum(weights, j))
  {
    hide Pow2, AbsSum, Abs, Rounded, Shl;
    var rest := AbsSum(weights, |weights|) - AbsSum(weights, j);
    AbsSumMono(weights, j, |weights|);
    if j == 0 {
      AbsSumNone(weights);
      RoundedPlus(Abs(bias), rest, w);
    } else {
      OverflowKept(bias, weights, w, j - 1);
      AbsSumMono(weights, j - 1, j);
      AbsSumLast(weights, j);
      MulSum(Pow2(w), Abs(weights[j - 1]), rest);
      RoundedPlus(FloatBound(bias, weights, w, j - 1) + Pow2(w) * Abs(weights[j - 1]), rest, w);
    }
  }

  lemma {:induction false} AbsSumNone(weights: seq<int>)
    ensures AbsSum(weights, 0) == 0
  {
  }

  lemma {:induction false} AbsSumLast(weights: seq<int>, j: nat)
    requires 0 < j <= |weights|
    ensures AbsSum(weights, j) == AbsSum(weights, j - 1) + Abs(weights[j - 1])
  {
  }

  /** A sum that reaches 2^(2w-1) still does after rounding, if the rest is a multiple of 2^w. */
  lemma {:induction false} RoundedPlus(x: nat, rest: nat, w: nat)
    requires 0 < w <= 32 && Pow2(2 * w - 1) <= x + Pow2(w) * rest
    ensures Pow2(2 * w - 1) <= Rounded(x) + Pow2(w) * rest
  {
    hide Pow2, Rounded, Shl;
    Pow2Add(w - 1, w);
    if rest <= Pow2(w - 1) {
      var t := Pow2(w - 1) - rest;
      ShlProduct(t, w);
      Distribute(Pow2(w - 1), rest, Pow2(w));
      MulComm(rest, Pow2(w));
      Pow2Mono(w, 53);
      Pow2Mono(w - 1, w);
      Pow2Below(w - 1, 53);
      RoundedAbove(x, t, w);
    } else {
      MulMono(Pow2(w - 1), rest, Pow2(w));
      MulComm(rest, Pow2(w));
    }
  }

  lemma {:induction false} Pow2Below(a: nat, b: nat)
    requires a < b
    ensures Pow2(a) < Pow2(b)
  {
    Pow2Mono(a, b - 1);
  }

  /** Below 2^53 nothing is rounded, and the float64 bound is the exact one. */
  lemma {:induction false} BoundExact(bias: int, weights: seq<int>, w: nat, j: nat)
    requires j <= |weights| && ExactBound(bias, weights, w, j) < Pow2(53)
    ensures FloatBound(bias, weights, w, j) == ExactBound(bias, weights, w, j)
  {
    hide Pow2, Abs, Shl;
    if j == 0 {
      assert AbsSum(weights, 0) == 0;
    } else {
      AbsSumLast(weights, j);
      MulSum(Pow2(w), AbsSum(weights, j - 1), Abs(weights[j - 1]));
      BoundExact(bias, weights, w, j - 1);
    }
  }

  // ------------------------------------------------------- the limit of each width

  /** Up to 27 bits the float64 test is the exact one. */
  lemma {:induction false} NarrowTestExact(bias: int, weights: seq<int>, w: nat)
    requires 0 < w <= 27
    ensures FloatBound(bias, weights, w, |weights|) < Pow2(2 * w - 1)
            <==> ExactBound(bias, weights, w, |weights|) < Pow2(2 * w - 1)
  {
    hide Pow2, FloatBound, ExactBound;
    Pow2Mono(2 * w - 1, 53);
    if ExactBound(bias, weights, w, |weights|) < Pow2(2 * w - 1) {
      BoundExact(bias, weights, w, |weights|);
    } else {
      OverflowIsSeen(bias, weights, w);
    }
  }

  lemma {:induction false} LargePowers()
    ensures Pow2(53) == 0x20_0000_0000_0000 && Pow2(61) == 0x2000_0000_0000_0000
    ensures Pow2(62) == 0x4000_0000_0000_0000 && Pow2(63) == 0x8000_0000_0000_0000
  {
    hide Pow2;
    Powers();
    Pow2Add(32, 16);
    Pow2Add(48, 5);
    Pow2Add(53, 8);
    EvenPower(62);
    EvenPower(63);
  }

  /** At 32 bits, with `rest` still to come, a rounding keeps a sum within 2^63 - 768. */
  lemma {:induction false} SafeKept(x: nat, rest: nat)
    requires x + 0x1_0000_0000 * rest <= Pow2(63) - 768
    ensures Rounded(x) + 0x1_0000_0000 * rest <= Pow2(63) - 768
  {
    hide Rounded, Pow2, Shl, Len;
    Powers();
    LargePowers();
    LenLess(x, 61);
    LenLess(x, 62);
    LenLess(x, 63);
    var t, s := 0x7F_FFFF_FFFF_FFFD - 0x100_0000 * rest, 0x1F_FFFF_FFFF_FFFF - 0x40_0000 * rest;
    ShlProduct(t, 8);
    ShlProduct(2 * s, 9);
    ShlProduct(s, 10);
    if Len(x) <= 61 {
      MultipleKept(x, t, 8);
    } else if Len(x) == 62 {
      Nearest(x, 2 * s, 9);
    } else {
      Nearest(x, s, 10);
    }
  }

  /** From 2^63 - 512 on it keeps the sum there, and takes a complete one to 2^63. */
  lemma {:induction false} TieKept(x: nat, rest: nat)
    requires x + 0x1_0000_0000 * rest >= Pow2(63) - 512
    ensures Rounded(x) + 0x1_0000_0000 * rest >= if rest == 0 then Pow2(63) else Pow2(63) - 512
  {
    hide Rounded, Pow2, Shl, Len;
    Powers();
    LargePowers();
    LenLess(x, 62);
    LenLess(x, 63);
    if Len(x) > 63 {
      LimitKept(x);
    } else if rest <= 0x7FFF_FFFF {
      var h := 0x0F_FFFF_FFFF_FFFF - 0x20_0000 * rest;
      ShlProduct(4 * h + 3, 9);
      ShlProduct(2 * h + 1, 10);
      ShlProduct(2 * h + 2, 10);
      if Len(x) <= 62 {
        MultipleKept(x, 4 * h + 3, 9);
      } else {
        Nearest(x, 2 * h + 1, 10);
      }
    }
  }

  lemma {:induction false} LimitKept(x: nat)
    requires x >= Pow2(63)
    ensures Rounded(x) >= Pow2(63)
  {
    hide Rounded, Pow2, Shl;
    ShlPow2(10, 53);
    Pow2Below(10, 53);
    RoundedAbove(x, Pow2(10), 53);
  }

  /** At 32 bits every exact bound of at most 2^63 - 768 passes the float64 test, and from
      2^63 - 512 on none does, in whatever order the weights come. */
  lemma {:induction false} WideTest(bias: int, weights: seq<int>)
    ensures ExactBound(bias, weights, 32, |weights|) <= Pow2(63) - 768
            ==> FloatBound(bias, weights, 32, |weights|) < Pow2(63)
    ensures ExactBound(bias, weights, 32, |weights|) >= Pow2(63) - 512
            ==> FloatBound(bias, weights, 32, |weights|) >= Pow2(63)
  {
    hide Pow2, AbsSum, FloatBound, ExactBound;
    var n := |weights|;
    if ExactBound(bias, weights, 32, n) <= Pow2(63) - 768 { SafeSums(bias, weights, n); }
    if ExactBound(bias, weights, 32, n) >= Pow2(63) - 512 { TieSums(bias, weights, n); }
  }

  lemma {:induction false} SafeSums(bias: int, weights: seq<int>, j: nat)
    requires j <= |weights| && ExactBound(bias, weights, 32, |weights|) <= Pow2(63) - 768
    ensures FloatBound(bias, weights, 32, j) + 0x1_0000_0000 * (AbsSum(weights, |weights|) - AbsSum(weights, j))
            <= Pow2(63) - 768
  {
    hide Pow2, AbsSum, Abs, Rounded;
    Powers();
    AbsSumMono(weights, j, |weights|);
    var rest := AbsSum(weights, |weights|) - AbsSum(weights, j);
    if j == 0 {
      AbsSumNone(weights);
      SafeKept(Abs(bias), rest);
    } else {
      SafeSums(bias, weights, j - 1);
      AbsSumLast(weights, j);
      SafeKept(FloatBound(bias, weights, 32, j - 1) + Pow2(32) * Abs(weights[j - 1]), rest);
    }
  }

  lemma {:induction false} TieSums(bias: int, weights: seq<int>, j: nat)
    requires j <= |weights| && ExactBound(bias, weights, 32, |weights|) >= Pow2(63) - 512
    ensures FloatBound(bias, weights, 32, j) + 0x1_0000_0000 * (AbsSum(weights, |weights|) - AbsSum(weights, j))
            >= if j == |weights| then Pow2(63) else Pow2(63) - 512
  {
    hide Pow2, AbsSum, Abs, Rounded;
    Powers();
    AbsSumMono(weights, j, |weights|);
    var rest := AbsSum(weights, |weights|) - AbsSum(weights, j);
    if j == 0 {
      AbsSumNone(weights);
      TieKept(Abs(bias), rest);
    } else {
      TieSums(bias, weights, j - 1);
      AbsSumLast(weights, j);
      TieKept(FloatBound(bias, weights, 32, j - 1) + Pow2(32) * Abs(weights[j - 1]), rest);
    }
  }

  /** A bias and weights as a chunk stores them. */
  predicate Stored(bias: int, weights: seq<int>) {
    && 0 - Pow2(63) <= bias < Pow2(63) && 1 <= |weights| <= 32
    && forall i | 0 <= i < |weights| :: 0 - Pow2(31) <= weights[i] < Pow2(31)
  }

  /** The parameters with a given exact bound between the two limits that pass: the sum
      is rounded once, downwards. */
  lemma {:induction false} BetweenPasses(total: nat)
    requires Pow2(63) - 768 < total < Pow2(63) - 512
    ensures var bias, weights := total - 0x7FFF_FFFF_0000_0000, [0x7FFF_FFFF];
            && Stored(bias, weights) && ExactBound(bias, weights, 32, 1) == total
            && FloatBound(bias, weights, 32, 1) < Pow2(63)
  {
    hide Rounded, Shl, Len, Pow2, ExactBound, FloatBound;
    EvenPower(32);
    Powers();
    LargePowers();
    LenLess(total, 62);
    LenLess(total, 63);
    var bias, weights := total - 0x7FFF_FFFF_0000_0000, [0x7FFF_FFFF];
    OneWeight(bias, 0x7FFF_FFFF);
    assert Rounded(bias) == bias by { SmallKept(bias); }
    ShlProduct(0x1F_FFFF_FFFF_FFFF, 10);
    Nearest(total, 0x1F_FFFF_FFFF_FFFF, 10);
  }

  /** And those that do not: the bias is rounded up by itself. */
  lemma {:induction false} BetweenFails(total: nat)
    requires Pow2(63) - 768 < total < Pow2(63) - 512
    ensures var bias, weights := total - 0x4000_0000_0000_0000, [0x4000_0000];
            && Stored(bias, weights) && ExactBound(bias, weights, 32, 1) == total
            && FloatBound(bias, weights, 32, 1) >= Pow2(63)
  {
    hide Rounded, Shl, Len, Pow2, ExactBound, FloatBound;
    EvenPower(32);
    Powers();
    LargePowers();
    var bias, weights := total - 0x4000_0000_0000_0000, [0x4000_0000];
    OneWeight(bias, 0x4000_0000);
    LenLess(bias, 61);
    LenLess(bias, 62);
    ShlProduct(0x1F_FFFF_FFFF_FFFE, 9);
    ShlProduct(0x1F_FFFF_FFFF_FFFF, 9);
    Nearest(bias, 0x1F_FFFF_FFFF_FFFE, 9);
    TieKept(Rounded(bias) + 0x4000_0000_0000_0000, 0);
  }

  lemma {:induction false} SmallKept(x: nat)
    requires x < Pow2(53)
    ensures Rounded(x) == x
  {
  }

  lemma {:induction false} OneWeight(bias: nat, x: nat)
    ensures ExactBound(bias, [x], 32, 1) == bias + 0x1_0000_0000 * x
    ensures FloatBound(bias, [x], 32, 1) == Rounded(Rounded(bias) + 0x1_0000_0000 * x)
  {
    hide Rounded, Pow2;
    Powers();
    assert AbsSum([x], 1) == AbsSum([x], 0) + x;
    assert FloatBound(bias, [x], 32, 0) == Rounded(bias);
  }

  /** Without weights the bias alone decides. */
  lemma {:induction false} ZeroWeights(bias: int, weights: seq<int>)
    requires AbsSum(weights, |weights|) == 0
    ensures FloatBound(bias, weights, 32, |weights|) < Pow2(63) <==> Abs(bias) < Pow2(63) - 512
  {
    hide Pow2, AbsSum, Abs, FloatBound;
    MulZero(Pow2(32), AbsSum(weights, |weights|));
    if Abs(bias) < Pow2(63) - 512 {
      ZeroWeightsPass(bias, weights, |weights|);
    } else {
      TieSums(bias, weights, |weights|);
    }
  }

  lemma {:induction false} MulZero(a: int, b: int)
    requires b == 0
    ensures a * b == 0
  {
  }

  lemma {:induction false} ZeroWeightsPass(bias: int, weights: seq<int>, j: nat)
    requires j <= |weights| && AbsSum(weights, |weights|) == 0 && Abs(bias) < Pow2(63) - 512
    ensures FloatBound(bias, weights, 32, j) < Pow2(63) - 512
  {
    hide Pow2, AbsSum, Abs, Rounded;
    if j == 0 {
      BelowTie(Abs(bias));
    } else {
      AbsSumMono(weights, j, |weights|);
      AbsSumLast(weights, j);
      MulZero(Pow2(32), Abs(weights[j - 1]));
      ZeroWeightsPass(bias, weights, j - 1);
      BelowTie(FloatBound(bias, weights, 32, j - 1));
    }
  }

  lemma {:induction false} BelowTie(x: nat)
    requires x < Pow2(63) - 512
    ensures Rounded(x) < Pow2(63) - 512
  {
    hide Rounded, Pow2, Shl, Len;
    Powers();
    LargePowers();
    LenLess(x, 62);
    LenLess(x, 63);
    ShlProduct(1, 62);
    ShlProduct(0x1F_FFFF_FFFF_FFFF, 10);
    if Len(x) <= 62 { MultipleKept(x, 1, 62); } else { Nearest(x, 0x1F_FFFF_FFFF_FFFF, 10); }
  }
}
