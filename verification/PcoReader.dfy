/** The little-endian bit reader of the Pco decoder. */
module PcoReader {
  import opened Words
  import opened BitStrings

  /** The bits still ahead, how many were consumed, and whether every read so far
      succeeded. */
  datatype Cursor = Cursor(rest: Bits, pos: nat, ok: bool) {

    /** Reading `n` bits: a failed cursor yields zeros and stays where it is. */
    function Take(n: int): (r: (nat, Cursor))
      ensures 0 <= n ==> r.0 < Pow2(n)
      ensures r.1.ok ==> ok
      ensures !r.1.ok ==> r.0 == 0 && r.1 == this.(ok := false)
    {
      if !ok then (0, this)
      else if n < 0 || n > 64 || n > |rest| then (0, this.(ok := false))
      else
        ToNatBound(rest[..n]);
        (ToNat(rest[..n]), Cursor(rest[n..], pos + n, true))
    }

    function Align(): (r: Cursor)
      ensures r.ok ==> r.pos % 8 == 0
    {
      var (padding, c) := Take((8 - pos % 8) % 8);
      if padding != 0 then c.(ok := false) else c
    }

    /** The stream was well formed and has been consumed up to its last byte. */
    predicate Finished() {
      Align().ok && Align().rest == []
    }
  }

  /** Reading `n` bits that were written with `FromNat` gives the number back
      and moves past them. */
  lemma {:induction false} TakeWritten(x: nat, n: nat, after: Bits, pos: nat)
    requires n <= 64 && x < Pow2(n)
    ensures Cursor(FromNat(x, n) + after, pos, true).Take(n) == (x, Cursor(after, pos + n, true))
  {
    assert (FromNat(x, n) + after)[..n] == FromNat(x, n);
    ToNatFromNat(x, n);
    LowSmall(x, n);
  }

  /** Zero bits up to the next byte boundary. */
  function Padding(pos: nat): (bits: Bits)
    ensures (pos + |bits|) % 8 == 0 && |bits| < 8
  {
    FromNat(0, (8 - pos % 8) % 8)
  }

  lemma {:induction false} AlignWritten(after: Bits, pos: nat)
    ensures Cursor(Padding(pos) + after, pos, true).Align()
            == Cursor(after, pos + |Padding(pos)|, true)
  {
    TakeWritten(0, (8 - pos % 8) % 8, after, pos);
  }

  class Reader {
    const data: seq<byte>
    var pos: nat
    var failed: bool

    ghost predicate Valid()
      reads this
    {
      pos <= 8 * |data|
    }

    ghost function View(): (c: Cursor)
      requires Valid()
      reads this
    {
      Cursor(BitsOf(data)[pos..], pos, !failed)
    }

    constructor (data: seq<byte>)
      ensures Valid() && View() == Cursor(BitsOf(data), 0, true) && this.data == data
    {
      this.data := data;
      pos := 0;
      failed := false;
    }

    /** `(data[pos/8] >> shift) & ((1 << take) - 1)`: part of one byte. */
    method PartOfByte(take: nat) returns (x: nat)
      requires Valid() && take <= 8 - pos % 8 && pos < 8 * |data|
      ensures x == ToNat(BitsOf(data)[pos..pos + take])
    {
      var k, shift := pos / 8, pos % 8;
      x := Low(Shr(data[k], shift), take);
      BitsOfByte(data, k);
      FromNatSlice(data[k], 8, shift, shift + take);
      SliceOfSlice(BitsOf(data), 8 * k, 8 * k + 8, shift, shift + take);
    }

    method Read(n: int) returns (x: nat)
      requires Valid()
      modifies this
      ensures Valid() && (x, View()) == old(View()).Take(n)
    {
      if failed { return 0; }
      if n < 0 || n > 64 || n > |data| * 8 - pos {
        failed := true;
        return 0;
      }
      ghost var bits, start := BitsOf(data), pos;
      x := Gather(n);
      assert bits[start..][..n] == bits[start..pos];
      assert bits[start..][n..] == bits[pos..];
    }

    /** The loop of `Read`: collects `n` available bits, at most one byte at a time. */
    method Gather(n: nat) returns (x: nat)
      requires Valid() && pos + n <= 8 * |data|
      modifies this`pos
      ensures Valid() && pos == old(pos) + n
      ensures x == ToNat(BitsOf(data)[old(pos)..pos])
    {
      x := 0;
      var done := 0;
      ghost var start, bits := pos, BitsOf(data);
      while done < n
        invariant done <= n && pos == start + done
        invariant x == ToNat(bits[start..pos])
      {
        var take := if n - done < 8 - pos % 8 then n - done else 8 - pos % 8;
        var part := PartOfByte(take);
        // the accumulated bits lie below 2^done, so the disjunction is a sum
        ToNatExtend(bits, start, pos, pos + take);
        x := x + Shl(part, done);
        pos := pos + take;
        done := done + take;
      }
    }

    method Align()
      requires Valid()
      modifies this
      ensures Valid() && View() == old(View()).Align()
    {
      var padding := Read((8 - pos % 8) % 8);
      if padding != 0 && !failed { failed := true; }
    }

    method Finish() returns (ok: bool)
      requires Valid()
      modifies this
      ensures Valid() && ok == old(View()).Finished()
    {
      Align();
      ok := !failed && pos == |data| * 8;
    }
  }
}
