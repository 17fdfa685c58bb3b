/** The three delta inversions of a Pco page, and the differencing they undo. */
module PcoDelta {
  import opened Wrappers
  import opened Words

  predicate AllBelow(s: seq<nat>, bound: nat) {
    forall i | 0 <= i < |s| :: s[i] < bound
  }

  function FlipAll(s: seq<nat>, w: nat): (r: seq<nat>)
    requires w > 0
    ensures |r| == |s|
  {
    seq(|s|, i requires 0 <= i < |s| => FlipTop(s[i], w))
  }

  // -------------------------------------------------------- consecutive delta

  /** The running moment after the first `i` differences. */
  function Moment(d: seq<nat>, start: nat, w: nat, i: nat): nat
    requires i <= |d|
  {
    if i == 0 then start else Low(Moment(d, start, w, i - 1) + d[i - 1], w)
  }

  /** One pass of `restore`: each difference is replaced by the moment before it. */
  function Integrate(d: seq<nat>, start: nat, w: nat): (r: seq<nat>)
    ensures |r| == |d|
  {
    seq(|d|, i requires 0 <= i < |d| => Moment(d, start, w, i))
  }

  /** All passes, the last moment first. */
  function IntegrateAll(d: seq<nat>, state: seq<nat>, w: nat): (r: seq<nat>)
    ensures |r| == |d|
  {
    if state == [] then d else Integrate(IntegrateAll(d, state[1..], w), state[0], w)
  }

  /** The differences of neighbours modulo 2^w. */
  function Diff(x: seq<nat>, w: nat): (r: seq<nat>)
    ensures |r| == if x == [] then 0 else |x| - 1
  {
    if x == [] then [] else seq(|x| - 1, i requires 0 <= i < |x| - 1 => Sub(x[i + 1], x[i], w))
  }

  /** `k`-fold differencing. */
  function DiffK(x: seq<nat>, k: nat, w: nat): (r: seq<nat>)
    ensures |r| == if k <= |x| then |x| - k else 0
    decreases k
  {
    if k == 0 then x else DiffK(Diff(x, w), k - 1, w)
  }

  /** `state` holds the first value of every difference order below |state|,
      as far as there is one; further entries are unconstrained. */
  predicate Moments(x: seq<nat>, state: seq<nat>, w: nat)
    decreases |state|
  {
    state == [] || x == [] || (state[0] == x[0] && Moments(Diff(x, w), state[1..], w))
  }

  /** The moments run through `x` as long as the differences are those of `x`. */
  lemma {:induction false} MomentIs(x: seq<nat>, d: seq<nat>, w: nat, i: nat)
    requires i < |x| && |x| <= |d| && AllBelow(x, Pow2(w))
    requires d[..|x| - 1] == Diff(x, w)
    ensures Moment(d, x[0], w, i) == x[i]
  {
    hide Low, Pow2, Sub;
    if i > 0 {
      MomentIs(x, d, w, i - 1);
      assert d[i - 1] == d[..|x| - 1][i - 1];
      SubAdd(x[i], x[i - 1], w);
    }
  }

  lemma {:induction false} IntegratePrefix(x: seq<nat>, d: seq<nat>, w: nat)
    requires 0 < |x| <= |d| && AllBelow(x, Pow2(w)) && d[..|x| - 1] == Diff(x, w)
    ensures Integrate(d, x[0], w)[..|x|] == x
  {
    forall i: nat | i < |x| ensures Integrate(d, x[0], w)[i] == x[i] {
      MomentIs(x, d, w, i);
    }
  }

  /** Only the first |x| - k differences matter: whatever follows them in `d`
      does not reach the first |x| restored values. */
  lemma {:induction false} IntegrateInvertsDiff(x: seq<nat>, d: seq<nat>, state: seq<nat>, w: nat)
    requires |x| <= |d| && AllBelow(x, Pow2(w)) && Moments(x, state, w)
    requires DiffK(x, |state|, w) <= d
    ensures IntegrateAll(d, state, w)[..|x|] == x
    decreases |state|
  {
    if state != [] && x != [] {
      IntegrateInvertsDiff(Diff(x, w), d, state[1..], w);
      IntegratePrefix(x, IntegrateAll(d, state[1..], w), w);
    }
  }

  /** What `restore` does for the consecutive delta: zero padding to `n` values,
      top bits flipped, then one pass per moment. */
  function RestoreConsecutive(raw: seq<nat>, state: seq<nat>, n: nat, w: nat): (r: seq<nat>)
    requires w > 0 && |raw| <= n
    ensures |r| == n
  {
    IntegrateAll(FlipAll(raw + seq(n - |raw|, _ => 0), w), state, w)
  }

  /** Order-k restore inverts k-fold differencing for every page length,
      including pages no longer than the order, and the padding is irrelevant. */
  lemma {:induction false} ConsecutiveRoundTrip(x: seq<nat>, state: seq<nat>, w: nat)
    requires w > 0 && AllBelow(x, Pow2(w)) && Moments(x, state, w)
    ensures RestoreConsecutive(FlipAll(DiffK(x, |state|, w), w), state, |x|, w) == x
  {
    hide IntegrateAll, DiffK, Moments;
    var diff := DiffK(x, |state|, w);
    DiffKBelow(x, |state|, w);
    var raw := FlipAll(diff, w);
    var padded := raw + seq(|x| - |raw|, _ => 0);
    var d := FlipAll(padded, w);
    forall i | 0 <= i < |diff| ensures d[i] == diff[i] {
      assert padded[i] == raw[i];
      FlipTopTwice(diff[i], w);
    }
    assert diff == d[..|diff|];
    IntegrateInvertsDiff(x, d, state, w);
    assert IntegrateAll(d, state, w)[..|x|] == IntegrateAll(d, state, w);
  }

  lemma {:induction false} DiffKBelow(x: seq<nat>, k: nat, w: nat)
    requires AllBelow(x, Pow2(w))
    ensures AllBelow(DiffK(x, k, w), Pow2(w))
    decreases k
  {
    hide Pow2, Diff, AllBelow;
    if k > 0 {
      DiffBelow(x, w);
      DiffKBelow(Diff(x, w), k - 1, w);
    }
  }

  lemma {:induction false} DiffBelow(x: seq<nat>, w: nat)
    ensures AllBelow(Diff(x, w), Pow2(w))
  {
    hide Pow2, Sub;
  }

  // ---------------------------------------- lookback and convolution deltas

  /** A prediction of the next value from the values so far and the index of the
      residual. */
  type Predictor = (seq<nat>, nat) -> nat

  /** Appends prediction plus residual, one residual at a time. */
  function Rebuild(out: seq<nat>, raw: seq<nat>, i: nat, predict: Predictor, w: nat): (r: seq<nat>)
    requires i <= |raw| && w > 0
    ensures |r| == |out| + |raw| - i && out <= r
    decreases |raw| - i
  {
    if i == |raw| then out
    else Rebuild(out + [Low(predict(out, i) + FlipTop(raw[i], w), w)], raw, i + 1, predict, w)
  }

  /** The residuals of `x` after its first `start` values. */
  function Residuals(x: seq<nat>, start: nat, predict: Predictor, w: nat): (r: seq<nat>)
    requires start <= |x| && w > 0
    ensures |r| == |x| - start
  {
    seq(|x| - start, i requires 0 <= i < |x| - start =>
      FlipTop(Sub(x[start + i], predict(x[..start + i], i), w), w))
  }

  lemma {:induction false} RebuildResiduals(x: seq<nat>, start: nat, i: nat, predict: Predictor, w: nat)
    requires start + i <= |x| && w > 0 && AllBelow(x, Pow2(w))
    ensures Rebuild(x[..start + i], Residuals(x, start, predict, w), i, predict, w) == x
    decreases |x| - i
  {
    hide Residuals, FlipTop, Low;
    if start + i == |x| {
      assert x[..start + i] == x;
    } else {
      ResidualAt(x, start, i, predict, w);
      assert x[..start + i] + [x[start + i]] == x[..start + i + 1];
      RebuildResiduals(x, start, i + 1, predict, w);
    }
  }

  lemma {:induction false} ResidualAt(x: seq<nat>, start: nat, i: nat, predict: Predictor, w: nat)
    requires start + i < |x| && w > 0 && x[start + i] < Pow2(w)
    ensures var p := predict(x[..start + i], i);
            Low(p + FlipTop(Residuals(x, start, predict, w)[i], w), w) == x[start + i]
  {
    hide Low, Pow2, FlipTop, Sub, Residuals;
    ResidualIs(x, start, i, predict, w);
    ResidualUndone(x[start + i], predict(x[..start + i], i), w);
  }

  lemma {:induction false} ResidualIs(x: seq<nat>, start: nat, i: nat, predict: Predictor, w: nat)
    requires start + i < |x| && w > 0
    ensures Residuals(x, start, predict, w)[i] == FlipTop(Sub(x[start + i], predict(x[..start + i], i), w), w)
  {
    hide Low, Pow2, FlipTop, Sub;
  }

  lemma {:induction false} ResidualUndone(x: nat, p: nat, w: nat)
    requires w > 0 && x < Pow2(w)
    ensures Low(p + FlipTop(FlipTop(Sub(x, p, w), w), w), w) == x
  {
    hide Low, Pow2, FlipTop, Sub;
    FlipTopTwice(Sub(x, p, w), w);
    SubAdd(x, p, w);
  }

  /** The lookback prediction: the value `look[i]` positions back, or 0 before the
      page's first value. */
  function Lookback(look: seq<nat>): Predictor {
    (out: seq<nat>, i: nat) =>
      if i < |look| && 0 < look[i] <= |out| then out[|out| - look[i]] else 0
  }

  predicate LooksOk(look: seq<nat>, window: nat) {
    forall i | 0 <= i < |look| :: 1 <= look[i] <= window
  }

  /** A short page keeps its initial values right-aligned in the state. */
  function RestoreLookback(raw: seq<nat>, look: seq<nat>, state: seq<nat>, window: nat, n: nat, w: nat)
    : (r: Option<seq<nat>>)
    requires w > 0 && |look| == |raw|
    ensures r.Some? ==> |r.value| == Min(n, |state|) + |raw|
  {
    if LooksOk(look, window)
    then Some(Rebuild(state[|state| - Min(n, |state|)..], raw, 0, Lookback(look), w))
    else None
  }

  lemma {:induction false} LookbackRoundTrip(x: seq<nat>, look: seq<nat>, state: seq<nat>, window: nat, w: nat)
    requires w > 0 && AllBelow(x, Pow2(w))
    requires var initial := Min(|x|, |state|);
             && state[|state| - initial..] == x[..initial]
             && |look| == |x| - initial
    ensures var raw := Residuals(x, Min(|x|, |state|), Lookback(look), w);
            RestoreLookback(raw, look, state, window, |x|, w)
            == if LooksOk(look, window) then Some(x) else None
  {
    var initial := Min(|x|, |state|);
    assert x[..initial + 0] == x[..initial];
    RebuildResiduals(x, initial, 0, Lookback(look), w);
  }

  /** The first `j` terms of the convolution sum over the last |weights| values. */
  function Dot(out: seq<nat>, weights: seq<int>, j: nat): int
    requires j <= |weights| <= |out|
  {
    if j == 0 then 0
    else Dot(out, weights, j - 1) + out[|out| - |weights| + j - 1] * weights[j - 1]
  }

  function Convolution(weights: seq<int>, bias: int, quant: nat): Predictor {
    (out: seq<nat>, i: nat) =>
      if |weights| > |out| then 0
      else
        var sum := bias + Dot(out, weights, |weights|);
        if sum < 0 then 0 else Shr(sum, quant)
  }

  function RestoreConvolution(raw: seq<nat>, state: seq<nat>, weights: seq<int>, bias: int, quant: nat, n: nat, w: nat)
    : (r: seq<nat>)
    requires w > 0
    ensures |r| == Min(n, |state|) + |raw|
  {
    Rebuild(state[..Min(n, |state|)], raw, 0, Convolution(weights, bias, quant), w)
  }

  lemma {:induction false} ConvolutionRoundTrip(x: seq<nat>, state: seq<nat>, weights: seq<int>, bias: int,
      quant: nat, w: nat)
    requires w > 0 && AllBelow(x, Pow2(w))
    requires state[..Min(|x|, |state|)] == x[..Min(|x|, |state|)]
    ensures var raw := Residuals(x, Min(|x|, |state|), Convolution(weights, bias, quant), w);
            RestoreConvolution(raw, state, weights, bias, quant, |x|, w) == x
  {
    var initial := Min(|x|, |state|);
    assert x[..initial + 0] == x[..initial];
    RebuildResiduals(x, initial, 0, Convolution(weights, bias, quant), w);
  }

  // ------------------------------------------- what the restored values stored

  lemma {:induction false} IntegrateBelow(d: seq<nat>, start: nat, w: nat)
    requires start < Pow2(w)
    ensures AllBelow(Integrate(d, start, w), Pow2(w))
  {
    forall i: nat | i < |d| ensures Integrate(d, start, w)[i] < Pow2(w) {
      MomentBelow(d, start, w, i);
    }
  }

  lemma {:induction false} MomentBelow(d: seq<nat>, start: nat, w: nat, i: nat)
    requires start < Pow2(w) && i <= |d|
    ensures Moment(d, start, w, i) < Pow2(w)
  {
  }

  /** The differences of the moments are the differences that were integrated. */
  lemma {:induction false} DiffIntegrate(d: seq<nat>, start: nat, w: nat)
    requires AllBelow(d, Pow2(w)) && start < Pow2(w) && d != []
    ensures Diff(Integrate(d, start, w), w) == d[..|d| - 1]
  {
    hide Low, Pow2, Sub, Moment;
    var x := Integrate(d, start, w);
    forall i: nat | i < |d| - 1 ensures Diff(x, w)[i] == d[i] {
      MomentNext(d, start, w, i);
      SubOfSum(x[i], d[i], w);
    }
  }

  lemma {:induction false} MomentNext(d: seq<nat>, start: nat, w: nat, i: nat)
    requires i < |d|
    ensures Moment(d, start, w, i + 1) == Low(Moment(d, start, w, i) + d[i], w)
  {
  }

  lemma {:induction false} SubOfSum(x: nat, f: nat, w: nat)
    requires f < Pow2(w)
    ensures Sub(Low(x + f, w), x, w) == f
  {
    hide Low, Pow2;
    LowIsMod(x + f, w);
    ModSubSame(x, f, Pow2(w));
  }

  lemma {:induction false} ModSubSame(x: int, f: int, m: int)
    requires 0 <= f < m
    ensures ((x + f) % m - x) % m == f
  {
    ModAddLeft(x + f, -x, m);
    DivModUnique(f, m, 0, f);
  }

  lemma {:induction false} DiffPrefix(x: seq<nat>, m: nat, k: nat, w: nat)
    requires m <= |x|
    ensures DiffK(x[..m], k, w) == DiffK(x, k, w)[..if k <= m then m - k else 0]
    decreases k
  {
    hide Sub;
    if k > 0 {
      var n := if m == 0 then 0 else m - 1;
      assert Diff(x[..m], w) == Diff(x, w)[..n];
      DiffPrefix(Diff(x, w), n, k - 1, w);
    }
  }

  /** Differencing undoes integration, up to the values that the state provides. */
  lemma {:induction false} DiffInvertsIntegrate(d: seq<nat>, state: seq<nat>, w: nat)
    requires AllBelow(d, Pow2(w)) && AllBelow(state, Pow2(w))
    ensures AllBelow(IntegrateAll(d, state, w), Pow2(w))
    ensures DiffK(IntegrateAll(d, state, w), |state|, w) == d[..if |state| <= |d| then |d| - |state| else 0]
    decreases |state|
  {
    hide Integrate, Diff, Pow2;
    if state == [] {
      assert d[..|d|] == d;
    } else {
      var y, k := IntegrateAll(d, state[1..], w), |state| - 1;
      DiffInvertsIntegrate(d, state[1..], w);
      IntegrateBelow(y, state[0], w);
      if d != [] {
        DiffIntegrate(y, state[0], w);
        DiffPrefix(y, |y| - 1, k, w);
      }
    }
  }

  /** The stored differences follow from the restored values. */
  lemma {:induction false} ConsecutiveStored(raw: seq<nat>, state: seq<nat>, n: nat, w: nat)
    requires w > 0 && AllBelow(raw, Pow2(w)) && AllBelow(state, Pow2(w))
    requires |raw| == if |state| <= n then n - |state| else 0
    ensures AllBelow(RestoreConsecutive(raw, state, n, w), Pow2(w))
    ensures FlipAll(DiffK(RestoreConsecutive(raw, state, n, w), |state|, w), w) == raw
  {
    hide IntegrateAll, DiffK, Pow2, FlipTop;
    var padded := raw + seq(n - |raw|, _ => 0);
    var d := FlipAll(padded, w);
    forall i: nat | i < n ensures d[i] < Pow2(w) && FlipTop(d[i], w) == padded[i] {
      FlipTopTwice(padded[i], w);
    }
    DiffInvertsIntegrate(d, state, w);
    forall i: nat | i < |raw| ensures FlipTop(d[..|raw|][i], w) == raw[i] {
      assert padded[i] == raw[i];
    }
  }

  /** The stored residuals follow from the rebuilt values. */
  lemma {:induction false} RebuiltStored(out: seq<nat>, raw: seq<nat>, predict: Predictor, w: nat)
    requires w > 0 && AllBelow(raw, Pow2(w)) && AllBelow(out, Pow2(w))
    ensures AllBelow(Rebuild(out, raw, 0, predict, w), Pow2(w))
    ensures Residuals(Rebuild(out, raw, 0, predict, w), |out|, predict, w) == raw
  {
    hide Low, Pow2, FlipTop, Sub, Residuals;
    var x := Rebuild(out, raw, 0, predict, w);
    forall j: nat | j < |raw| ensures Residuals(x, |out|, predict, w)[j] == raw[j] {
      RebuildAt(out, raw, 0, predict, w, j);
      ResidualIs(x, |out|, j, predict, w);
      FlipTopTwice(raw[j], w);
      SubOfSum(predict(x[..|out| + j], j), FlipTop(raw[j], w), w);
    }
    forall j: nat | j < |x| ensures x[j] < Pow2(w) {
      if j >= |out| { RebuildAt(out, raw, 0, predict, w, j - |out|); }
    }
  }

  lemma {:induction false} RebuildAt(out: seq<nat>, raw: seq<nat>, i: nat, predict: Predictor, w: nat, j: nat)
    requires i <= j < |raw| && w > 0
    ensures var x, at := Rebuild(out, raw, i, predict, w), |out| + j - i;
            x[at] == Low(predict(x[..at], j) + FlipTop(raw[j], w), w)
    decreases |raw| - i
  {
    hide Low, FlipTop;
    var next := out + [Low(predict(out, i) + FlipTop(raw[i], w), w)];
    var x := Rebuild(next, raw, i + 1, predict, w);
    assert next <= x && x == Rebuild(out, raw, i, predict, w);
    if i == j {
      assert x[..|out|] == out && x[|out|] == next[|out|];
    } else {
      RebuildAt(next, raw, i + 1, predict, w, j);
    }
  }

  /** Sum of the absolute weights. */
  function AbsSum(weights: seq<int>, j: nat): nat
    requires j <= |weights|
  {
    if j == 0 then 0 else AbsSum(weights, j - 1) + Abs(weights[j - 1])
  }

  function Abs(x: int): nat { if x < 0 then -x else x }

  /** The overflow check of `parseChunk`, over exact integers, keeps every partial
      sum of the convolution inside a signed accumulator of twice the width. */
  lemma {:induction false} ConvolutionInRange(out: seq<nat>, weights: seq<int>, bias: int, w: nat, j: nat)
    requires w > 0 && j <= |weights| <= |out| && AllBelow(out, Pow2(w))
    requires Abs(bias) + Pow2(w) * AbsSum(weights, |weights|) < Pow2(2 * w - 1)
    ensures Abs(bias + Dot(out, weights, j)) < Pow2(2 * w - 1)
  {
    hide Pow2, Dot, AbsSum;
    DotBound(out, weights, w, j);
    AbsSumMono(weights, j, |weights|);
    MulMono(AbsSum(weights, j), AbsSum(weights, |weights|), Pow2(w));
    MulComm(Pow2(w), AbsSum(weights, j));
    MulComm(Pow2(w), AbsSum(weights, |weights|));
  }

  lemma {:induction false} AbsSumMono(weights: seq<int>, i: nat, j: nat)
    requires i <= j <= |weights|
    ensures AbsSum(weights, i) <= AbsSum(weights, j)
  {
    if i < j { AbsSumMono(weights, i, j - 1); }
  }

  lemma {:induction false} DotBound(out: seq<nat>, weights: seq<int>, w: nat, j: nat)
    requires j <= |weights| <= |out| && AllBelow(out, Pow2(w))
    ensures Abs(Dot(out, weights, j)) <= Pow2(w) * AbsSum(weights, j)
  {
    if j > 0 {
      DotBound(out, weights, w, j - 1);
      var x, y := out[|out| - |weights| + j - 1], weights[j - 1];
      ProductBound(x, y, Pow2(w));
      MulSum(Pow2(w), AbsSum(weights, j - 1), Abs(y));
    }
  }

  lemma {:induction false} ProductBound(x: nat, y: int, bound: nat)
    requires x < bound
    ensures Abs(x * y) <= bound * Abs(y)
  {
    MulMono(x, bound, Abs(y));
    if y < 0 { assert x * y == -(x * -y); }
  }

  // ---------------------------------------------------------- the three loops

  /** One pass of the consecutive restore, in place. */
  method IntegrateInPlace(out: array<nat>, start: nat, w: nat)
    modifies out
    ensures out[..] == Integrate(old(out[..]), start, w)
  {
    hide Low, Pow2;
    ghost var d := out[..];
    var moment := start;
    for i := 0 to out.Length
      invariant moment == Moment(d, start, w, i)
      invariant forall j | 0 <= j < i :: out[j] == Moment(d, start, w, j)
      invariant forall j | i <= j < out.Length :: out[j] == d[j]
    {
      var delta := out[i];
      out[i] := moment;
      moment := Low(moment + delta, w);
    }
  }

  method ConsecutiveLoop(raw: seq<nat>, state: seq<nat>, n: nat, w: nat) returns (out: array<nat>)
    requires w > 0 && |raw| <= n
    ensures fresh(out) && out[..] == RestoreConsecutive(raw, state, n, w)
  {
    var padded := raw + seq(n - |raw|, _ => 0);
    out := new nat[n](i requires 0 <= i < n => FlipTop(padded[i], w));
    ghost var d := FlipAll(padded, w);
    assert out[..] == d;
    assert state[|state|..] == [];
    for k := |state| downto 0
      invariant out[..] == IntegrateAll(d, state[k..], w)
    {
      IntegrateInPlace(out, state[k], w);
      assert state[k..][1..] == state[k + 1..];
    }
    assert state[0..] == state;
  }

  method LookbackLoop(raw: seq<nat>, look: seq<nat>, state: seq<nat>, window: nat, n: nat, w: nat)
    returns (r: Option<seq<nat>>)
    requires w > 0 && |look| == |raw|
    ensures r == RestoreLookback(raw, look, state, window, n, w)
  {
    hide Low, FlipTop, Lookback;
    var initial := Min(n, |state|);
    var out := state[|state| - initial..];
    ghost var predict := Lookback(look);
    ghost var whole := Rebuild(out, raw, 0, predict, w);
    for i := 0 to |raw|
      invariant whole == Rebuild(out, raw, i, predict, w)
      invariant forall k | 0 <= k < i :: 1 <= look[k] <= window
    {
      var back, pos := look[i], |out|;
      if back == 0 || back > window { return None; }
      var prev := if back <= pos then out[pos - back] else 0;
      LookbackAt(look, out, i);
      out := out + [Low(prev + FlipTop(raw[i], w), w)];
    }
    return Some(out);
  }

  lemma {:induction false} LookbackAt(look: seq<nat>, out: seq<nat>, i: nat)
    requires i < |look|
    ensures Lookback(look)(out, i) == if 0 < look[i] <= |out| then out[|out| - look[i]] else 0
  {
  }

  method ConvolutionLoop(raw: seq<nat>, state: seq<nat>, weights: seq<int>, bias: int, quant: nat, n: nat, w: nat)
    returns (out: seq<nat>)
    requires w > 0 && |raw| + Min(n, |state|) == n && |state| == |weights| && AllBelow(state, Pow2(w))
    requires Abs(bias) + Pow2(w) * AbsSum(weights, |weights|) < Pow2(2 * w - 1)
    ensures out == RestoreConvolution(raw, state, weights, bias, quant, n, w)
  {
    hide Pow2, Low, AbsSum, Abs, Dot, FlipTop, Shr, Convolution;
    out := state[..Min(n, |state|)];
    ghost var predict := Convolution(weights, bias, quant);
    ghost var whole := Rebuild(out, raw, 0, predict, w);
    for i := 0 to |raw|
      invariant |out| == Min(n, |state|) + i && AllBelow(out, Pow2(w))
      invariant whole == Rebuild(out, raw, i, predict, w)
    {
      var sum := ConvolutionSum(out, weights, bias, w);
      if sum < 0 { sum := 0; }
      ConvolutionAt(weights, bias, quant, out, i);
      out := out + [Low(Shr(sum, quant) + FlipTop(raw[i], w), w)];
    }
  }

  lemma {:induction false} ConvolutionAt(weights: seq<int>, bias: int, quant: nat, out: seq<nat>, i: nat)
    requires |weights| <= |out|
    ensures var sum := bias + Dot(out, weights, |weights|);
            Convolution(weights, bias, quant)(out, i) == Shr(if sum < 0 then 0 else sum, quant)
  {
    if bias + Dot(out, weights, |weights|) < 0 { ShrZero(quant); }
  }

  lemma {:induction false} ShrZero(k: nat)
    ensures Shr(0, k) == 0
  {
    if k > 0 { ShrZero(k - 1); }
  }

  /** The inner loop of the convolution; the accumulator never leaves the signed
      range of twice the latent width. */
  method ConvolutionSum(out: seq<nat>, weights: seq<int>, bias: int, w: nat) returns (sum: int)
    requires w > 0 && |weights| <= |out| && AllBelow(out, Pow2(w))
    requires Abs(bias) + Pow2(w) * AbsSum(weights, |weights|) < Pow2(2 * w - 1)
    ensures sum == bias + Dot(out, weights, |weights|)
  {
    hide Pow2, AbsSum;
    sum := bias;
    var start := |out| - |weights|;
    for j := 0 to |weights|
      invariant sum == bias + Dot(out, weights, j)
    {
      ConvolutionInRange(out, weights, bias, w, j + 1);
      sum := sum + out[start + j] * weights[j];
      assert Abs(sum) < Pow2(2 * w - 1);
    }
  }
}
