/** Unsigned machine words as naturals, with the powers of two and the modular
    arithmetic that the decoders rely on. */
module Words {

  type byte = x: int | 0 <= x < 256

  function Pow2(n: nat): (p: nat)
    ensures p > 0
  {
    if n == 0 then 1 else 2 * Pow2(n - 1)
  }

  /** The widths of machine words. */
  predicate IsWidth(bits: nat) { bits == 8 || bits == 16 || bits == 32 || bits == 64 }

  /** Go's `x << k`, without truncation. */
  function Shl(x: nat, k: nat): nat {
    if k == 0 then x else 2 * Shl(x, k - 1)
  }

  /** Go's `x >> k`. */
  function Shr(x: nat, k: nat): nat {
    if k == 0 then x else Shr(x / 2, k - 1)
  }

  /** The low `w` bits of `x`: Go's `x & mask(w)` and every truncating conversion. */
  function Low(x: nat, w: nat): (r: nat)
    ensures r < Pow2(w)
  {
    if w == 0 then 0 else x % 2 + 2 * Low(x / 2, w - 1)
  }

  /** Subtraction modulo 2^w. */
  function Sub(x: nat, y: nat, w: nat): (r: nat)
    ensures r < Pow2(w)
  {
    (x - y) % Pow2(w)
  }

  /** The value of `x ^ (1 << (w-1))` for a `w`-bit word `x`. */
  function FlipTop(x: nat, w: nat): nat
    requires w > 0
  {
    if x < Pow2(w - 1) then x + Pow2(w - 1)
    else x - Pow2(w - 1)
  }

  /** Go's `bits.Len`: the number of bits needed to write `x`. */
  function Len(x: nat): nat {
    if x == 0 then 0 else 1 + Len(x / 2)
  }

  // ---------------------------------------------------------------- powers of two

  lemma {:induction false} Pow2Add(a: nat, b: nat)
    ensures Pow2(a + b) == Pow2(a) * Pow2(b)
  {
    if a > 0 {
      Pow2Add(a - 1, b);
      MulAssoc(2, Pow2(a - 1), Pow2(b));
    }
  }

  lemma {:induction false} Pow2Mono(a: nat, b: nat)
    requires a <= b
    ensures Pow2(a) <= Pow2(b)
  {
    if a < b {
      Pow2Mono(a, b - 1);
    }
  }

  lemma {:induction false} Pow2Strict(a: nat, b: nat)
    requires Pow2(a) < Pow2(b)
    ensures a < b
  {
    if b <= a { Pow2Mono(b, a); }
  }

  lemma {:induction false} EvenPower(k: nat)
    requires k > 0
    ensures Pow2(k) == 2 * Pow2(k - 1)
  {
  }

  lemma {:induction false} Powers()
    ensures Pow2(1) == 2 && Pow2(3) == 8 && Pow2(4) == 16 && Pow2(5) == 32 && Pow2(6) == 64 && Pow2(8) == 256
    ensures Pow2(9) == 512 && Pow2(10) == 1024 && Pow2(16) == 0x1_0000 && Pow2(32) == 0x1_0000_0000
  {
    Pow2Add(8, 8);
    Pow2Add(16, 16);
  }

  lemma {:induction false} ShlMono(x: nat, y: nat, k: nat)
    requires x <= y
    ensures Shl(x, k) <= Shl(y, k)
  {
    if k > 0 { ShlMono(x, y, k - 1); }
  }

  lemma {:induction false} ShlStrict(x: nat, y: nat, k: nat)
    requires Shl(x, k) < Shl(y, k)
    ensures x < y
  {
    if y <= x { ShlMono(y, x, k); }
  }

  lemma {:induction false} ShlSucc(x: nat, k: nat)
    ensures Shl(x + 1, k) == Shl(x, k) + Pow2(k)
  {
    if k > 0 { ShlSucc(x, k - 1); }
  }

  lemma {:induction false} ShlPow2(a: nat, k: nat)
    ensures Shl(Pow2(a), k) == Pow2(a + k)
  {
    if k > 0 { ShlPow2(a, k - 1); }
  }

  lemma {:induction false} ShlDouble(x: nat, k: nat)
    ensures Shl(2 * x, k) == Shl(x, k + 1)
  {
    if k > 0 { ShlDouble(x, k - 1); }
  }

  lemma {:induction false} ShlProduct(x: nat, k: nat)
    ensures Shl(x, k) == x * Pow2(k)
  {
    if k > 0 {
      ShlProduct(x, k - 1);
      Twice(x, Pow2(k - 1));
    }
  }

  lemma {:induction false} ShrNothing(x: nat)
    ensures Shr(x, 0) == x
  {
  }

  /** Shifting right finds the multiple of 2^k just below. */
  lemma {:induction false} ShrBracket(x: nat, k: nat)
    ensures Shl(Shr(x, k), k) <= x < Shl(Shr(x, k) + 1, k)
  {
    if k > 0 { ShrBracket(x / 2, k - 1); }
  }

  lemma {:induction false} ShrBelow(x: nat, k: nat, n: nat)
    requires k <= n && x < Pow2(n)
    ensures Shr(x, k) < Pow2(n - k)
    decreases k
  {
    if k > 0 { ShrBelow(x / 2, k - 1, n - 1); }
  }

  lemma {:induction false} ShrUnique(x: nat, k: nat, q: nat)
    requires Shl(q, k) <= x < Shl(q + 1, k)
    ensures Shr(x, k) == q
  {
    ShrBracket(x, k);
    ShlStrict(q, Shr(x, k) + 1, k);
    ShlStrict(Shr(x, k), q + 1, k);
  }

  lemma {:induction false} LowAndShr(x: nat, k: nat)
    ensures x == Low(x, k) + Shl(Shr(x, k), k)
  {
    if k > 0 { LowAndShr(x / 2, k - 1); }
  }

  lemma {:induction false} LowIsMod(x: nat, w: nat)
    ensures Low(x, w) == x % Pow2(w)
  {
    if w > 0 {
      LowIsMod(x / 2, w - 1);
      HalveMod(x, Pow2(w - 1));
    }
  }

  lemma {:induction false} LowSmall(x: nat, w: nat)
    requires x < Pow2(w)
    ensures Low(x, w) == x
  {
    if w > 0 { LowSmall(x / 2, w - 1); }
  }

  lemma {:induction false} FlipTopTwice(x: nat, w: nat)
    requires w > 0 && x < Pow2(w)
    ensures FlipTop(x, w) < Pow2(w)
    ensures FlipTop(FlipTop(x, w), w) == x
  {
  }

  /** `Len` brackets a number between two powers of two. */
  lemma {:induction false} LenBounds(x: nat)
    requires x > 0
    ensures Len(x) > 0
    ensures Pow2(Len(x) - 1) <= x < Pow2(Len(x))
  {
    if x > 1 { LenBounds(x / 2); }
  }

  lemma {:induction false} LenUnique(x: nat, k: nat)
    requires Pow2(k) <= x < Pow2(k + 1)
    ensures Len(x) == k + 1
  {
    LenBounds(x);
    Pow2Strict(Len(x) - 1, k + 1);
    Pow2Strict(k, Len(x));
  }

  /** A number has at most `k` bits exactly when it is below 2^k. */
  lemma {:induction false} LenLess(x: nat, k: nat)
    ensures x < Pow2(k) <==> Len(x) <= k
  {
    hide Pow2, Len;
    if x == 0 {
      assert Len(x) == 0 by { LenZero(); }
    } else {
      LenBounds(x);
      if Len(x) <= k { Pow2Mono(Len(x), k); } else { Pow2Mono(k, Len(x) - 1); }
    }
  }

  lemma {:induction false} LenZero()
    ensures Len(0) == 0
  {
  }

  lemma {:induction false} LenMono(x: nat, y: nat)
    requires x <= y
    ensures Len(x) <= Len(y)
  {
    if x > 0 {
      LenMono(x / 2, y / 2);
    }
  }

  // ------------------------------------------------- division and remainder

  lemma {:induction false} MulAssoc(a: int, b: int, c: int)
    ensures a * b * c == a * (b * c)
  {
  }

  lemma {:induction false} MulSum(a: int, b: int, c: int)
    ensures a * (b + c) == a * b + a * c
  {
  }

  lemma {:induction false} MulMono(a: nat, b: nat, c: nat)
    requires a <= b
    ensures a * c <= b * c
  {
  }

  /** Quotient and remainder are determined by the division equation. */
  lemma {:induction false} DivModUnique(x: int, m: int, q: int, r: int)
    requires m > 0 && x == q * m + r && 0 <= r < m
    ensures x / m == q && x % m == r
  {
    var d := x / m - q;
    assert d * m == r - x % m by {
      assert x == (x / m) * m + x % m;
      Distribute(x / m, q, m);
    }
    if d > 0 { MulMono(1, d, m); }
    if d < 0 { MulMono(1, -d, m); }
  }

  lemma {:induction false} Distribute(a: int, b: int, c: int)
    ensures (a - b) * c == a * c - b * c
    ensures (a + b) * c == a * c + b * c
  {
  }

  lemma {:induction false} ModAddMultiple(x: int, k: int, m: int)
    requires m > 0
    ensures (x + k * m) % m == x % m
  {
    Distribute(x / m, k, m);
    DivModUnique(x + k * m, m, x / m + k, x % m);
  }

  lemma {:induction false} ModAddLeft(x: int, y: int, m: int)
    requires m > 0
    ensures (x % m + y) % m == (x + y) % m
  {
    ModAddMultiple(x % m + y, x / m, m);
    assert x == (x / m) * m + x % m;
  }

  lemma {:induction false} ModSubLeft(x: int, y: int, m: int)
    requires m > 0
    ensures (x - y % m) % m == (x - y) % m
  {
    ModAddMultiple(x - y % m, -(y / m), m);
    assert y == (y / m) * m + y % m;
    assert -(y / m) * m == -((y / m) * m);
  }

  /** Adding `(x - y) mod m` to `y` gives `x` back. */
  lemma {:induction false} ModSubAdd(x: int, y: int, m: int)
    requires m > 0 && 0 <= x < m
    ensures (y + (x - y) % m) % m == x
  {
    ModAddLeft(x - y, y, m);
    assert (x - y) + y == x;
    DivModUnique(x, m, 0, x);
  }

  lemma {:induction false} SubAdd(x: nat, y: nat, w: nat)
    requires x < Pow2(w)
    ensures Low(y + Sub(x, y, w), w) == x
  {
    LowIsMod(y + Sub(x, y, w), w);
    ModSubAdd(x, y, Pow2(w));
  }

  /** Adding a number shifted above `x` leaves `x` in the low bits. */
  lemma {:induction false} LowOfSum(x: nat, y: nat, r: nat, m: nat)
    requires x < Pow2(r)
    ensures Low(x + Shl(y, r), r + m) == x + Shl(Low(y, m), r)
    decreases r
  {
    if r > 0 { LowOfSum(x / 2, y, r - 1, m); }
  }

  /** A truncated summand does not change a narrower sum. */
  lemma {:induction false} LowAddLow(a: nat, b: nat, w: nat, big: nat)
    requires w <= big
    ensures Low(a + Low(b, big), w) == Low(a + b, w)
    decreases w
  {
    if w > 0 {
      LowAddLow((a + b % 2) / 2, b / 2, w - 1, big - 1);
      assert (a + Low(b, big)) / 2 == (a + b % 2) / 2 + Low(b / 2, big - 1);
      assert (a + b) / 2 == (a + b % 2) / 2 + b / 2;
    }
  }

  /** Truncating to 64 bits before masking is invisible below 64 bits. */
  lemma {:induction false} LowLow(x: nat, w: nat, big: nat)
    requires w <= big
    ensures Low(Low(x, big), w) == Low(x, w)
  {
    if w > 0 {
      LowLow(x / 2, w - 1, big - 1);
      assert Low(x, big) / 2 == Low(x / 2, big - 1) && Low(x, big) % 2 == x % 2;
    }
  }

  lemma {:induction false} DivMod(x: int, m: int)
    requires m > 0
    ensures x == (x / m) * m + x % m && 0 <= x % m < m
  {
  }

  lemma {:induction false} Twice(q: int, h: int)
    ensures q * (2 * h) == 2 * (q * h)
  {
  }

  /** The residue modulo `2h` in terms of the halved number modulo `h`. */
  lemma {:induction false} HalveMod(x: int, h: nat)
    requires h > 0
    ensures x % (2 * h) == 2 * (x / 2 % h) + x % 2
  {
    var q, r, b := x / 2 / h, x / 2 % h, x % 2;
    DivMod(x / 2, h);
    Twice(q, h);
    DivModUnique(x, 2 * h, q, 2 * r + b);
  }

  /** An odd factor can be cancelled modulo a power of two. */
  lemma {:induction false} OddCancel(k: nat, d: int, m: int)
    requires m % 2 == 1 && (d * m) % Pow2(k) == 0
    ensures d % Pow2(k) == 0
    decreases k
  {
    if k > 0 {
      var p := Pow2(k - 1);
      HalveMod(d * m, p);
      ParityOfProduct(d, m);
      var h := d / 2;
      HalveProduct(d, h, m);
      OddCancel(k - 1, h, m);
      HalveMod(d, p);
    }
  }

  /** Hence an odd stride keeps different numbers below 2^k apart. */
  lemma {:induction false} OddStrideInjective(k: nat, a: nat, b: nat, stride: nat)
    requires stride % 2 == 1 && a < b < Pow2(k)
    ensures (a * stride) % Pow2(k) != (b * stride) % Pow2(k)
  {
    if (a * stride) % Pow2(k) == (b * stride) % Pow2(k) {
      SameResidue(b * stride, a * stride, Pow2(k));
      Distribute(b, a, stride);
      OddCancel(k, b - a, stride);
      SmallMod(b - a, Pow2(k));
    }
  }

  lemma {:induction false} SmallMod(x: nat, m: nat)
    requires x < m
    ensures x % m == x
  {
  }

  lemma {:induction false} SameResidue(x: nat, y: nat, m: nat)
    requires m > 0 && x % m == y % m
    ensures (x - y) % m == 0
  {
    ModSubLeft(x, y, m);
    ModSubLeft(x, x, m);
  }

  lemma {:induction false} HalveProduct(d: int, h: int, m: int)
    requires d == 2 * h
    ensures d * m / 2 == h * m
  {
    MulAssoc(2, h, m);
  }

  lemma {:induction false} ParityOfProduct(d: int, m: int)
    requires m % 2 == 1
    ensures (d * m) % 2 == d % 2
  {
    var h := m / 2;
    Distribute(2 * h, 1, d);
    MulAssoc(2, h, d);
    MulComm(d, m);
    ParityOfSum(h * d, d);
  }

  lemma {:induction false} MulComm(a: int, b: int)
    ensures a * b == b * a
  {
  }

  lemma {:induction false} ParityOfSum(k: int, d: int)
    ensures (2 * k + d) % 2 == d % 2
  {
  }
}
