/** Bit strings, least significant bit first, and their byte form. */
module BitStrings {
  import opened Words

  type Bits = seq<bool>

  function ToNat(bits: Bits): nat {
    if bits == [] then 0 else (if bits[0] then 1 else 0) + 2 * ToNat(bits[1..])
  }

  predicate Bit(x: nat, i: nat) {
    Shr(x, i) % 2 == 1
  }

  /** The low `n` bits of `x`. */
  function FromNat(x: nat, n: nat): (bits: Bits)
    ensures |bits| == n
  {
    seq(n, i requires 0 <= i < n => Bit(x, i))
  }

  lemma {:induction false} SliceOfSlice<T>(s: seq<T>, i: nat, j: nat, a: nat, b: nat)
    requires i <= j <= |s| && a <= b <= j - i
    ensures s[i..j][a..b] == s[i + a..i + b]
  {
    var t := s[i..j];
    assert forall k | 0 <= k < b - a :: t[a..b][k] == t[a + k] == s[i + a..i + b][k];
  }

  lemma {:induction false} ToNatBound(bits: Bits)
    ensures ToNat(bits) < Pow2(|bits|)
  {
    if bits != [] { ToNatBound(bits[1..]); }
  }

  lemma {:induction false} ToNatConcat(a: Bits, b: Bits)
    ensures ToNat(a + b) == ToNat(a) + Shl(ToNat(b), |a|)
  {
    if a == [] {
      assert a + b == b;
    } else {
      assert (a + b)[1..] == a[1..] + b;
      ToNatConcat(a[1..], b);
    }
  }

  /** A slice is the sum of its two parts, the upper one shifted. */
  lemma {:induction false} ToNatExtend(bits: Bits, i: nat, j: nat, k: nat)
    requires i <= j <= k <= |bits|
    ensures ToNat(bits[i..j]) < Pow2(j - i)
    ensures ToNat(bits[i..k]) == ToNat(bits[i..j]) + Shl(ToNat(bits[j..k]), j - i)
  {
    ToNatBound(bits[i..j]);
    ToNatConcat(bits[i..j], bits[j..k]);
    assert bits[i..j] + bits[j..k] == bits[i..k];
  }

  lemma {:induction false} FromNatTail(x: nat, n: nat)
    requires n > 0
    ensures FromNat(x, n) == [x % 2 == 1] + FromNat(x / 2, n - 1)
  {
  }

  /** Writing `n` bits and reading them back keeps exactly the low `n` bits. */
  lemma {:induction false} ToNatFromNat(x: nat, n: nat)
    ensures ToNat(FromNat(x, n)) == Low(x, n)
  {
    if n > 0 {
      FromNatTail(x, n);
      ToNatFromNat(x / 2, n - 1);
    }
  }

  lemma {:induction false} FromNatToNat(bits: Bits)
    ensures FromNat(ToNat(bits), |bits|) == bits
  {
    if bits != [] {
      FromNatTail(ToNat(bits), |bits|);
      FromNatToNat(bits[1..]);
    }
  }

  lemma {:induction false} ShrShr(x: nat, i: nat, j: nat)
    ensures Shr(Shr(x, i), j) == Shr(x, i + j)
  {
    if i > 0 { ShrShr(x / 2, i - 1, j); }
  }

  /** A slice of a written number is a shift followed by a mask. */
  lemma {:induction false} FromNatSlice(x: nat, n: nat, i: nat, j: nat)
    requires i <= j <= n
    ensures ToNat(FromNat(x, n)[i..j]) == Low(Shr(x, i), j - i)
  {
    forall k: nat | k < j - i ensures FromNat(x, n)[i..j][k] == FromNat(Shr(x, i), j - i)[k] {
      ShrShr(x, i, k);
    }
    assert FromNat(x, n)[i..j] == FromNat(Shr(x, i), j - i);
    ToNatFromNat(Shr(x, i), j - i);
  }

  // ------------------------------------------------------------------ bytes

  function BitsOf(data: seq<byte>): (bits: Bits)
    ensures |bits| == 8 * |data|
  {
    if data == [] then [] else FromNat(data[0], 8) + BitsOf(data[1..])
  }

  /** The bits of byte `k` sit at positions 8k to 8k+7. */
  lemma {:induction false} BitsOfByte(data: seq<byte>, k: nat)
    requires k < |data|
    ensures BitsOf(data)[8 * k..8 * k + 8] == FromNat(data[k], 8)
  {
    if k > 0 {
      BitsOfByte(data[1..], k - 1);
      assert BitsOf(data)[8 * k..8 * k + 8] == BitsOf(data[1..])[8 * (k - 1)..8 * (k - 1) + 8];
    }
  }

  function Pack(bits: Bits): (data: seq<byte>)
    requires |bits| % 8 == 0
    ensures 8 * |data| == |bits|
  {
    if bits == [] then [] else
      ToNatBound(bits[..8]);
      [ToNat(bits[..8])] + Pack(bits[8..])
  }

  lemma {:induction false} BitsOfPack(bits: Bits)
    requires |bits| % 8 == 0
    ensures BitsOf(Pack(bits)) == bits
  {
    if bits != [] {
      BitsOfPack(bits[8..]);
      FromNatToNat(bits[..8]);
      assert Pack(bits)[1..] == Pack(bits[8..]);
      assert bits == bits[..8] + bits[8..];
    }
  }

  /** `binary.LittleEndian.Uint64` and `Uint32`, and `readWord`: the word of the first
      `w` bytes. */
  function LittleEndian(b: seq<byte>, w: nat): (x: nat)
    requires w <= |b|
    ensures x < Pow2(8 * w)
  {
    ToNatBound(BitsOf(b[..w]));
    ToNat(BitsOf(b[..w]))
  }

  function WriteLittleEndian(x: nat, w: nat): (b: seq<byte>)
    ensures |b| == w
  {
    Pack(FromNat(x, 8 * w))
  }

  lemma {:induction false} LittleEndianWritten(x: nat, w: nat, rest: seq<byte>)
    requires x < Pow2(8 * w)
    ensures LittleEndian(WriteLittleEndian(x, w) + rest, w) == x
  {
    hide ToNat, FromNat, BitsOf, Pack;
    var b := WriteLittleEndian(x, w);
    assert (b + rest)[..w] == b;
    BitsOfPack(FromNat(x, 8 * w));
    ToNatFromNat(x, 8 * w);
    LowSmall(x, 8 * w);
  }

  // ---------------------------------------------------------- equal pieces

  /** Piece `k` of `s`, when it is cut into pieces of `size` elements. */
  function Piece<T>(s: seq<T>, k: nat, size: nat): (r: seq<T>)
    requires k * size + size <= |s|
    ensures |r| == size
  {
    s[k * size..k * size + size]
  }

  /** The pieces `f(0)`, ..., `f(n - 1)` one after the other. */
  function Flatten<T>(f: nat --> seq<T>, n: nat): seq<T>
    requires forall i: nat | i < n :: f.requires(i)
  {
    if n == 0 then [] else Flatten(f, n - 1) + f(n - 1)
  }

  lemma {:induction false} FlattenPiece<T>(f: nat --> seq<T>, n: nat, size: nat, k: nat)
    requires forall i: nat | i < n :: f.requires(i) && |f(i)| == size
    ensures |Flatten(f, n)| == n * size
    ensures k < n ==> k * size + size <= n * size && Piece(Flatten(f, n), k, size) == f(k)
    decreases n
  {
    if n > 0 {
      FlattenPiece(f, n - 1, size, k);
      Distribute(n, 1, size);
      Distribute(k, 1, size);
      var before, last := Flatten(f, n - 1), f(n - 1);
      if k < n - 1 {
        MulMono(k + 1, n - 1, size);
        SliceOfPrefix(before, last, k * size, k * size + size);
      } else if k == n - 1 {
        SliceOfSuffix(before, last);
      }
    }
  }

  lemma {:induction false} SliceOfPrefix<T>(a: seq<T>, b: seq<T>, i: nat, j: nat)
    requires i <= j <= |a|
    ensures (a + b)[i..j] == a[i..j]
  {
  }

  lemma {:induction false} SliceOfSuffix<T>(a: seq<T>, b: seq<T>)
    ensures (a + b)[|a|..|a| + |b|] == b
  {
  }
}
