/** What the delta inversions of Pco compute, value by value: sums of binomial multiples,
    copies of earlier values, and weighted sums of the last values. */
module PcoPredictions {
  import opened Wrappers
  import opened Words
  import opened PcoDelta

  // ------------------------------------------------------------- consecutive delta

  function Choose(n: nat, k: nat): nat {
    if k == 0 then 1 else if n == 0 then 0 else Choose(n - 1, k - 1) + Choose(n - 1, k)
  }

  lemma {:induction false} ChooseNone(n: nat, k: nat)
    requires n < k
    ensures Choose(n, k) == 0
  {
    if n > 0 {
      ChooseNone(n - 1, k - 1);
      ChooseNone(n - 1, k);
    }
  }

  /** Newton's forward difference formula: the first `j` moments, each times a binomial. */
  function FromMoments(state: seq<nat>, i: nat, j: nat): int
    requires j <= |state|
  {
    if j == 0 then 0 else FromMoments(state, i, j - 1) + state[j - 1] * Choose(i, j - 1)
  }

  /** The first `m` differences of order `k`, each times a binomial. */
  function FromDifferences(d: seq<int>, k: nat, i: nat, m: nat): int
    requires m <= i && m <= |d| && k > 0
  {
    if m == 0 then 0 else FromDifferences(d, k, i, m - 1) + d[m - 1] * Choose(i - m, k - 1)
  }

  /** The stored differences: 2^(w-1) stands for no difference. */
  function Centered(raw: seq<nat>, w: nat): (d: seq<int>)
    requires w > 0
    ensures |d| == |raw|
  {
    seq(|raw|, i requires 0 <= i < |raw| => raw[i] - Pow2(w - 1))
  }

  /** Integration over the unbounded integers. */
  function Running(d: seq<int>, state: seq<nat>, i: nat): int
    requires i < |d|
    decreases |state|, i
  {
    if state == [] then d[i]
    else if i == 0 then state[0]
    else Running(d, state, i - 1) + Running(d, state[1..], i - 1)
  }

  lemma {:induction false} MomentsTail(state: seq<nat>, i: nat, j: nat)
    requires 0 < j <= |state| && i > 0
    ensures FromMoments(state, i, j) == FromMoments(state, i - 1, j) + FromMoments(state[1..], i - 1, j - 1)
  {
    hide Choose;
    if j > 1 {
      MomentsTail(state, i, j - 1);
      Pascal(i, j - 1);
      MulSum(state[j - 1], Choose(i - 1, j - 2), Choose(i - 1, j - 1));
    } else {
      ChooseZero(i);
      ChooseZero(i - 1);
      assert FromMoments(state, i, 1) == FromMoments(state, i, 0) + state[0] * Choose(i, 0);
    }
  }

  lemma {:induction false} ChooseZero(n: nat)
    ensures Choose(n, 0) == 1
  {
  }

  lemma {:induction false} Pascal(n: nat, k: nat)
    requires n > 0 && k > 0
    ensures Choose(n, k) == Choose(n - 1, k - 1) + Choose(n - 1, k)
  {
  }

  lemma {:induction false} DifferencesStep(d: seq<int>, k: nat, i: nat, m: nat)
    requires k > 1 && m < i && m <= |d|
    ensures FromDifferences(d, k, i, m) == FromDifferences(d, k, i - 1, m) + FromDifferences(d, k - 1, i - 1, m)
  {
    hide Choose;
    if m > 0 {
      DifferencesStep(d, k, i, m - 1);
      Pascal(i - m, k - 1);
      MulSum(d[m - 1], Choose(i - m - 1, k - 2), Choose(i - m - 1, k - 1));
    }
  }

  lemma {:induction false} FirstOrderStep(d: seq<int>, i: nat, m: nat)
    requires m < i && m <= |d|
    ensures FromDifferences(d, 1, i, m) == FromDifferences(d, 1, i - 1, m)
  {
    hide Choose;
    if m > 0 {
      FirstOrderStep(d, i, m - 1);
      ChooseZero(i - m);
      ChooseZero(i - m - 1);
    }
  }

  /** Repeated running sums in closed form. */
  lemma {:induction false} RunningIs(d: seq<int>, state: seq<nat>, i: nat)
    requires i < |d| && state != []
    ensures Running(d, state, i) == FromMoments(state, i, |state|) + FromDifferences(d, |state|, i, i)
    decreases |state|, i
  {
    hide Choose;
    if i == 0 {
      OnlyFirst(state, |state|);
    } else {
      RunningIs(d, state, i - 1);
      MomentsTail(state, i, |state|);
      LastDifference(d, |state|, i);
      if |state| > 1 {
        RunningIs(d, state[1..], i - 1);
        DifferencesStep(d, |state|, i, i - 1);
      } else {
        assert state[1..] == [];
        assert FromMoments(state[1..], i - 1, 0) == 0;
        FirstOrderStep(d, i, i - 1);
      }
    }
  }

  lemma {:induction false} OnlyFirst(state: seq<nat>, j: nat)
    requires 0 < j <= |state|
    ensures FromMoments(state, 0, j) == state[0]
  {
    hide Choose;
    if j > 1 {
      OnlyFirst(state, j - 1);
      ChooseNone(0, j - 1);
    } else {
      ChooseZero(0);
      assert FromMoments(state, 0, 1) == FromMoments(state, 0, 0) + state[0] * Choose(0, 0);
    }
  }

  lemma {:induction false} LastDifference(d: seq<int>, k: nat, i: nat)
    requires 0 < i <= |d| && k > 0
    ensures FromDifferences(d, k, i, i) == FromDifferences(d, k, i, i - 1) + (if k == 1 then d[i - 1] else 0)
  {
    hide Choose;
    if k == 1 { ChooseZero(0); } else { ChooseNone(0, k - 1); }
  }

  lemma {:induction false} SameSum(a: int, b: int, x: int, y: int, m: int)
    requires m > 0 && a % m == x % m && b % m == y % m
    ensures (a + b) % m == (x + y) % m
  {
    ModAddLeft(a, b, m);
    ModAddLeft(x, b, m);
    ModAddLeft(b, x, m);
    ModAddLeft(y, x, m);
  }

  /** Integrating modulo 2^w is integrating over the integers, modulo 2^w. */
  lemma {:induction false} IntegrateIsRunning(f: seq<nat>, d: seq<int>, state: seq<nat>, w: nat, i: nat)
    requires |f| == |d| && i < |d|
    requires forall k | 0 <= k < |d| :: f[k] % Pow2(w) == d[k] % Pow2(w)
    ensures IntegrateAll(f, state, w)[i] % Pow2(w) == Running(d, state, i) % Pow2(w)
    decreases |state|, i
  {
    hide Pow2, Low;
    if state != [] && i > 0 {
      var y := IntegrateAll(f, state[1..], w);
      IntegrateIsRunning(f, d, state, w, i - 1);
      IntegrateIsRunning(f, d, state[1..], w, i - 1);
      MomentNext(y, state[0], w, i - 1);
      LowIsMod(Moment(y, state[0], w, i - 1) + y[i - 1], w);
      SmallMod(Low(Moment(y, state[0], w, i - 1) + y[i - 1], w), Pow2(w));
      SameSum(Moment(y, state[0], w, i - 1), y[i - 1], Running(d, state, i - 1), Running(d, state[1..], i - 1),
              Pow2(w));
    }
  }

  lemma {:induction false} FlippedIsCentered(x: nat, w: nat)
    requires w > 0 && x < Pow2(w)
    ensures FlipTop(x, w) % Pow2(w) == (x - Pow2(w - 1)) % Pow2(w)
  {
    if x < Pow2(w - 1) { ModAddMultiple(x - Pow2(w - 1), 1, Pow2(w)); }
  }

  lemma {:induction false} PaddingUnseen(d: seq<int>, raw: seq<int>, k: nat, i: nat, m: nat)
    requires m <= i < |d| && |raw| <= |d| && d[..|raw|] == raw && k > 0 && |d| <= |raw| + k
    ensures FromDifferences(d, k, i, m) == FromDifferences(raw, k, i, Min(m, |raw|))
  {
    hide Choose;
    if m > 0 {
      PaddingUnseen(d, raw, k, i, m - 1);
      if m <= |raw| {
        assert d[m - 1] == d[..|raw|][m - 1];
      } else {
        ChooseNone(i - m, k - 1);
      }
    }
  }

  /** The consecutive delta in closed form: value `i` is the polynomial that the initial
      moments stand for, plus every stored difference below `i` times a binomial. */
  lemma {:induction false} ConsecutiveClosedForm(raw: seq<nat>, state: seq<nat>, n: nat, w: nat, i: nat)
    requires w > 0 && AllBelow(raw, Pow2(w)) && AllBelow(state, Pow2(w)) && state != [] && i < n
    requires |raw| == if |state| <= n then n - |state| else 0
    ensures RestoreConsecutive(raw, state, n, w)[i]
            == (FromMoments(state, i, |state|) + FromDifferences(Centered(raw, w), |state|, i, Min(i, |raw|))) % Pow2(w)
  {
    hide Pow2, IntegrateAll, FlipTop, FromMoments, FromDifferences, Running;
    var padded := raw + seq(n - |raw|, _ => 0);
    var f, d := FlipAll(padded, w), Centered(padded, w);
    forall k | 0 <= k < n ensures f[k] % Pow2(w) == d[k] % Pow2(w) { FlippedIsCentered(padded[k], w); }
    IntegrateIsRunning(f, d, state, w, i);
    RunningIs(d, state, i);
    PaddingUnseen(d, Centered(raw, w), |state|, i, i);
    ConsecutiveStored(raw, state, n, w);
    SmallMod(RestoreConsecutive(raw, state, n, w)[i], Pow2(w));
  }

  // ---------------------------------------------------------------------- lookback

  /** What every restored value is, in terms of the values before it. */
  lemma {:induction false} PredictedValue(out: seq<nat>, raw: seq<nat>, predict: Predictor, w: nat, i: nat)
    requires w > 0 && i < |raw| && raw[i] < Pow2(w)
    ensures var x, at := Rebuild(out, raw, 0, predict, w), |out| + i;
            x[at] == (predict(x[..at], i) + raw[i] - Pow2(w - 1)) % Pow2(w)
  {
    hide Pow2, Low, FlipTop;
    RebuildAt(out, raw, 0, predict, w, i);
    var x := Rebuild(out, raw, 0, predict, w);
    var p := predict(x[..|out| + i], i);
    LowIsMod(p + FlipTop(raw[i], w), w);
    FlippedIsCentered(raw[i], w);
    SameSum(p, FlipTop(raw[i], w), p, raw[i] - Pow2(w - 1), Pow2(w));
  }

  /** The lookback delta adds each residual to the value that many positions back, or to 0
      before the page's first value; the residual 2^(w-1) copies the value. */
  lemma {:induction false} LookbackValue(raw: seq<nat>, look: seq<nat>, state: seq<nat>, window: nat, n: nat, w: nat,
                                         i: nat)
    requires w > 0 && |look| == |raw| && i < |raw| && raw[i] < Pow2(w)
    requires LooksOk(look, window)
    ensures var x, at := RestoreLookback(raw, look, state, window, n, w).value, Min(n, |state|) + i;
            x[at] == ((if look[i] <= at then x[at - look[i]] else 0) + raw[i] - Pow2(w - 1)) % Pow2(w)
  {
    hide Pow2, Lookback, Rebuild;
    var out, at := state[|state| - Min(n, |state|)..], Min(n, |state|) + i;
    PredictedValue(out, raw, Lookback(look), w, i);
    var x := Rebuild(out, raw, 0, Lookback(look), w);
    LookbackAt(look, x[..at], i);
  }

  // ------------------------------------------------------------------- convolution

  /** The weighted sum is linear in the weights. */
  lemma {:induction false} DotLinear(out: seq<nat>, u: seq<int>, v: seq<int>, k: int, j: nat)
    requires j <= |u| == |v| <= |out|
    ensures var sum := seq(|u|, i requires 0 <= i < |u| => u[i] + k * v[i]);
            Dot(out, sum, j) == Dot(out, u, j) + k * Dot(out, v, j)
  {
    if j > 0 {
      DotLinear(out, u, v, k, j - 1);
      var x := out[|out| - |u| + j - 1];
      MulSum(x, u[j - 1], k * v[j - 1]);
      ThreeFactors(x, k, v[j - 1]);
      MulSum(k, Dot(out, v, j - 1), x * v[j - 1]);
    }
  }

  lemma {:induction false} ThreeFactors(x: int, k: int, y: int)
    ensures x * (k * y) == k * (x * y)
  {
    MulAssoc(x, k, y);
    MulAssoc(k, x, y);
    MulComm(x, k);
  }

  /** A single weight of 1 at `at`. */
  function Unit(n: nat, at: nat): (weights: seq<int>)
    ensures |weights| == n
  {
    seq(n, i requires 0 <= i < n => if i == at then 1 else 0)
  }

  /** Weight `at` belongs to the value at that place among the last |weights| values. */
  lemma {:induction false} DotUnit(out: seq<nat>, n: nat, at: nat, j: nat)
    requires at < n <= |out| && j <= n
    ensures Dot(out, Unit(n, at), j) == if at < j then out[|out| - n + at] else 0
  {
    if j > 0 { DotUnit(out, n, at, j - 1); }
  }

  /** The prediction: 0 for a negative sum of bias and weighted values, and otherwise the
      sum without its lowest `quant` bits. */
  lemma {:induction false} ConvolutionClamped(weights: seq<int>, bias: int, quant: nat, out: seq<nat>, i: nat)
    requires |weights| <= |out|
    ensures var sum, p := bias + Dot(out, weights, |weights|), Convolution(weights, bias, quant)(out, i);
            if sum < 0 then p == 0 else p * Pow2(quant) <= sum < (p + 1) * Pow2(quant)
  {
    hide Pow2, Shr, Shl, Dot, Convolution;
    ConvolutionAt(weights, bias, quant, out, i);
    ShrZero(quant);
    var sum := bias + Dot(out, weights, |weights|);
    if sum >= 0 {
      ShrBracket(sum, quant);
      ShlProduct(Shr(sum, quant), quant);
      ShlProduct(Shr(sum, quant) + 1, quant);
    }
  }

  /** With one weight of 1 at `at`, no bias and no quantization, the convolution adds each
      residual to the value |weights| - at positions back. */
  lemma {:induction false} ConvolutionCopies(raw: seq<nat>, state: seq<nat>, order: nat, at: nat, n: nat, w: nat,
                                             i: nat)
    requires w > 0 && at < order == |state| <= n && i < |raw| && raw[i] < Pow2(w)
    ensures var x := RestoreConvolution(raw, state, Unit(order, at), 0, 0, n, w);
            x[order + i] == (x[i + at] + raw[i] - Pow2(w - 1)) % Pow2(w)
  {
    hide Pow2, Rebuild, Dot, Convolution, Unit;
    var weights := Unit(order, at);
    PredictedValue(state[..Min(n, |state|)], raw, Convolution(weights, 0, 0), w, i);
    var x := RestoreConvolution(raw, state, weights, 0, 0, n, w);
    DotUnit(x[..order + i], order, at, order);
    ConvolutionAt(weights, 0, 0, x[..order + i], i);
    ShrNothing(x[i + at]);
  }

  /** Hence with the first weight alone and no residuals the values repeat with the number
      of weights as their period. */
  lemma {:induction false} ConvolutionRepeats(raw: seq<nat>, state: seq<nat>, n: nat, w: nat, i: nat)
    requires w > 0 && 0 < |state| <= n && |raw| == n - |state| && AllBelow(state, Pow2(w)) && i < n
    requires forall k | 0 <= k < |raw| :: raw[k] == Pow2(w - 1)
    ensures RestoreConvolution(raw, state, Unit(|state|, 0), 0, 0, n, w)[i] == state[i % |state|]
  {
    hide Pow2, Rebuild, Convolution;
    var k := |state|;
    var x := RestoreConvolution(raw, state, Unit(k, 0), 0, 0, n, w);
    if i < k {
      SmallMod(i, k);
      RebuildKeeps(state[..Min(n, k)], raw, Convolution(Unit(k, 0), 0, 0), w);
    } else {
      ConvolutionRepeats(raw, state, n, w, i - k);
      HalfBelow(w);
      ConvolutionCopies(raw, state, k, 0, n, w, i - k);
      SmallMod(x[i - k], Pow2(w));
      ModAddMultiple(i - k, 1, k);
    }
  }

  lemma {:induction false} HalfBelow(w: nat)
    requires w > 0
    ensures Pow2(w - 1) < Pow2(w)
  {
  }

  lemma {:induction false} RebuildKeeps(out: seq<nat>, raw: seq<nat>, predict: Predictor, w: nat)
    requires w > 0
    ensures out <= Rebuild(out, raw, 0, predict, w)
  {
  }
}
