/** Columns that store their non-null values only, in compressed frames or pages: the
    stored values are spread over the valid rows. */
module NullExpansion {
  import opened Wrappers
  import opened Words
  import opened BitStrings
  import opened Proto
  import opened Tokens

  datatype Item = Number(word: nat) | Text(bytes: seq<byte>)

  /** How values are laid out in a frame: words of `w` bytes, or byte strings after their
      four-byte length. */
  datatype Layout = Fixed(w: nat) | Prefixed(check: Check) {
    predicate Valid() { Fixed? ==> w > 0 }

    /** The first value of `raw` and the number of bytes it takes. */
    function First(raw: seq<byte>): (r: Option<(Item, nat)>)
      requires Valid()
      ensures r.Some? ==> 0 < r.value.1 <= |raw| && r.value.0.Number? == Fixed?
    {
      if Fixed? then
        if |raw| < w then None else Some((Number(LittleEndian(raw, w)), w))
      else if |raw| < 4 then None
      else
        var size := LittleEndian(raw, 4);
        if size > |raw| - 4 then None
        else if !check.Allows(raw[4..4 + size]) then None
        else Some((Text(raw[4..4 + size]), 4 + size))
    }

    /** All values of a frame. */
    function Items(raw: seq<byte>): Option<seq<Item>>
      requires Valid()
      decreases |raw|
    {
      if raw == [] then Some([])
      else
        match First(raw)
        case None => None
        case Some(p) => Append(Some([p.0]), Items(raw[p.1..]))
    }
  }

  /** All rows hold what the layout stores. */
  ghost predicate Kinds(out: seq<Item>, layout: Layout) {
    forall k | 0 <= k < |out| :: out[k].Number? == layout.Fixed?
  }

  /** A decompressed frame and its declared number of values, 0 for none. */
  datatype Frame = Frame(raw: seq<byte>, declared: nat) {
    predicate CountMatches(layout: Layout)
      requires layout.Valid()
    {
      declared == 0 || (layout.Items(raw).Some? && |layout.Items(raw).value| == declared)
    }
  }

  /** Four bytes as a number, the lowest first. */
  function FourBytes(a: int, b: int, c: int, d: int): int { a + 256 * b + 65536 * c + 16777216 * d }

  /** A byte string follows its length, which takes four bytes. */
  lemma {:induction false} ValueBytes(check: Check, text: seq<byte>, rest: seq<byte>, b: seq<byte>)
    requires |b| == 4 && |text| == FourBytes(b[0], b[1], b[2], b[3]) && check.Allows(text)
    ensures Prefixed(check).First(b + text + rest) == Some((Text(text), 4 + |text|))
  {
    hide LittleEndian;
    var raw := b + text + rest;
    assert raw[..4] == b && raw[4..4 + |text|] == text;
    LowestFirst(raw);
  }

  lemma {:induction false} LowestFirst(b: seq<byte>)
    requires |b| >= 4
    ensures LittleEndian(b, 4) == FourBytes(b[0], b[1], b[2], b[3])
  {
    hide ToNat, BitsOf;
    var c := b[..4];
    BytesSum(c);
    BytesSum(c[1..]);
    BytesSum(c[2..]);
    BytesSum(c[3..]);
    BytesSum(c[4..]);
    assert c[1..][1..] == c[2..] && c[2..][1..] == c[3..] && c[3..][1..] == c[4..];
  }

  lemma {:induction false} BytesSum(b: seq<byte>)
    ensures b == [] ==> ToNat(BitsOf(b)) == 0
    ensures b != [] ==> ToNat(BitsOf(b)) == 256 * ToNat(BitsOf(b[1..])) + b[0]
  {
    hide FromNat;
    if b != [] {
      hide ToNat;
      ToNatConcat(FromNat(b[0], 8), BitsOf(b[1..]));
      ToNatFromNat(b[0], 8);
      Powers();
      LowSmall(b[0], 8);
      ShlProduct(ToNat(BitsOf(b[1..])), 8);
    }
  }

  /** The values of all frames in order. */
  function Stored(layout: Layout, frames: seq<Frame>): Option<seq<Item>>
    requires layout.Valid()
  {
    if frames == [] then Some([])
    else Append(layout.Items(frames[0].raw), Stored(layout, frames[1..]))
  }

  // ------------------------------------------------------------------- valid rows

  type Validity = Option<seq<bool>>

  predicate Covers(valid: Validity, n: nat) { valid.Some? ==> |valid.value| == n }

  /** The number of valid rows below `i`. */
  function Count(valid: Validity, i: nat): nat
    requires valid.Some? ==> i <= |valid.value|
  {
    if i == 0 then 0 else Count(valid, i - 1) + (if IsValid(valid, i - 1) then 1 else 0)
  }

  /** The values of the valid rows below `i`. */
  function Project<T>(out: seq<T>, valid: Validity, i: nat): (r: seq<T>)
    requires i <= |out| && (valid.Some? ==> i <= |valid.value|)
    ensures |r| == Count(valid, i)
  {
    if i == 0 then [] else Project(out, valid, i - 1) + (if IsValid(valid, i - 1) then [out[i - 1]] else [])
  }

  lemma {:induction false} CountMono(valid: Validity, i: nat, j: nat)
    requires i <= j && (valid.Some? ==> j <= |valid.value|)
    ensures Count(valid, i) <= Count(valid, j)
    decreases j
  {
    if i < j { CountMono(valid, i, j - 1); }
  }

  lemma {:induction false} ProjectSame<T>(a: seq<T>, b: seq<T>, valid: Validity, i: nat)
    requires i <= |a| && i <= |b| && (valid.Some? ==> i <= |valid.value|) && a[..i] == b[..i]
    ensures Project(a, valid, i) == Project(b, valid, i)
  {
    if i > 0 {
      assert a[..i - 1] == a[..i][..i - 1] == b[..i][..i - 1] == b[..i - 1];
      assert a[i - 1] == a[..i][i - 1] == b[..i][i - 1] == b[i - 1];
      ProjectSame(a, b, valid, i - 1);
    }
  }

  /** The k-th valid row holds the k-th projected value. */
  lemma {:induction false} ProjectAt<T>(out: seq<T>, valid: Validity, n: nat, i: nat)
    requires i < n <= |out| && (valid.Some? ==> n <= |valid.value|) && IsValid(valid, i)
    ensures Count(valid, i) < Count(valid, n) && Project(out, valid, n)[Count(valid, i)] == out[i]
    decreases n
  {
    if i < n - 1 { ProjectAt(out, valid, n - 1, i); }
  }

  /** The items in the valid rows, in order; the other rows are what they were. */
  function Spread<T>(items: seq<T>, valid: Validity, before: seq<T>): (out: seq<T>)
    requires Covers(valid, |before|)
    ensures |out| == |before|
  {
    seq(|before|, i requires 0 <= i < |before| =>
      if IsValid(valid, i) && Count(valid, i) < |items| then items[Count(valid, i)] else before[i])
  }

  ghost predicate NullsKept<T>(out: seq<T>, before: seq<T>, valid: Validity)
    requires Covers(valid, |before|)
  {
    |out| == |before| && forall k: nat | k < |before| && !IsValid(valid, k) :: out[k] == before[k]
  }

  /** The projection and the null rows determine all rows. */
  lemma {:induction false} SpreadIs<T>(out: seq<T>, before: seq<T>, valid: Validity)
    requires Covers(valid, |before|) && NullsKept(out, before, valid)
    ensures out == Spread(Project(out, valid, |out|), valid, before)
  {
    hide Count, Project;
    forall i: nat | i < |out| ensures out[i] == Spread(Project(out, valid, |out|), valid, before)[i] {
      if IsValid(valid, i) { ProjectAt(out, valid, |out|, i); }
    }
  }

  // --------------------------------------------------------------------- scattering

  /** The loop that skips null rows. */
  method SkipNulls(valid: Validity, row: nat, n: nat) returns (r: nat)
    requires row <= n && Covers(valid, n)
    ensures row <= r <= n && Count(valid, r) == Count(valid, row) && (r < n ==> IsValid(valid, r))
    ensures forall k | row <= k < r :: !IsValid(valid, k)
  {
    r := row;
    while r < n && !IsValid(valid, r)
      invariant row <= r <= n && Count(valid, r) == Count(valid, row)
      invariant forall k | row <= k < r :: !IsValid(valid, k)
    {
      r := r + 1;
    }
  }

  lemma {:induction false} ProjectNulls<T>(out: seq<T>, valid: Validity, row: nat, r: nat)
    requires row <= r <= |out| && (valid.Some? ==> r <= |valid.value|)
    requires forall k | row <= k < r :: !IsValid(valid, k)
    ensures Project(out, valid, r) == Project(out, valid, row)
    decreases r
  {
    if row < r {
      ProjectNulls(out, valid, row, r - 1);
      assert Project(out, valid, r - 1) + [] == Project(out, valid, r - 1);
    }
  }

  /** Placing the next value in the next valid row. */
  lemma {:induction false} Placed(before: seq<Item>, out: seq<Item>, valid: Validity, row: nat, at: nat, item: Item)
    requires row <= at < |out| == |before| && Covers(valid, |out|)
    requires forall k | row <= k < at :: !IsValid(valid, k)
    requires IsValid(valid, at) && out == before[at := item]
    ensures Project(out, valid, at + 1) == Project(before, valid, row) + [item]
  {
    ProjectNulls(before, valid, row, at);
    ProjectSame(before, out, valid, at);
  }

  /** The loop over the values of one frame, from a row cursor: accepted exactly when the
      frame parses and there are enough valid rows left. */
  method ScatterFrame(layout: Layout, raw: seq<byte>, valid: Validity, out: array<Item>, start: nat)
    returns (ok: bool, row: nat, count: nat)
    requires layout.Valid() && Covers(valid, out.Length) && start <= out.Length && Kinds(out[..], layout)
    modifies out
    ensures Kinds(out[..], layout) && NullsKept(out[..], old(out[..]), valid)
    ensures ok <==> layout.Items(raw).Some?
                    && Count(valid, start) + |layout.Items(raw).value| <= Count(valid, out.Length)
    ensures ok ==> start <= row <= out.Length && count == |layout.Items(raw).value|
                   && Count(valid, row) == Count(valid, start) + count
    ensures ok ==> Project(out[..], valid, row) == Project(old(out[..]), valid, start) + layout.Items(raw).value
  {
    hide Layout.First, Project, Count;
    var pos := 0;
    row, count := start, 0;
    ghost var done: seq<Item> := [];
    AppendEmpty(layout.Items(raw));
    assert raw[0..] == raw && Project(out[..], valid, row) + done == Project(out[..], valid, row);
    while pos < |raw|
      invariant pos <= |raw| && start <= row <= out.Length && count == |done| && Kinds(out[..], layout)
      invariant NullsKept(out[..], old(out[..]), valid)
      invariant layout.Items(raw) == Append(Some(done), layout.Items(raw[pos..]))
      invariant Count(valid, row) == Count(valid, start) + count
      invariant Project(out[..], valid, row) == Project(old(out[..]), valid, start) + done
    {
      var at := SkipNulls(valid, row, out.Length);
      NonEmptyFrame(layout, raw[pos..]);
      if at >= out.Length { return false, row, count; }
      var item := layout.First(raw[pos..]);
      if item.None? { return false, row, count; }
      ghost var before := out[..];
      out[at] := item.value.0;
      Placed(before, out[..], valid, row, at, item.value.0);
      CountNext(valid, at, out.Length);
      assert raw[pos..][item.value.1..] == raw[pos + item.value.1..];
      AppendAssoc(done, Some([item.value.0]), layout.Items(raw[pos + item.value.1..]));
      done := done + [item.value.0];
      pos := pos + item.value.1;
      row := at + 1;
      count := count + 1;
    }
    AppendNothing(done);
    CountMono(valid, row, out.Length);
    ok := true;
  }

  lemma {:induction false} NonEmptyFrame(layout: Layout, raw: seq<byte>)
    requires layout.Valid() && raw != []
    ensures layout.Items(raw) == match layout.First(raw) {
              case None => None
              case Some(p) => Append(Some([p.0]), layout.Items(raw[p.1..]))
            }
    ensures layout.Items(raw).Some? ==> |layout.Items(raw).value| >= 1
  {
    hide Layout.First;
  }

  lemma {:induction false} CountNext(valid: Validity, at: nat, n: nat)
    requires at < n && Covers(valid, n) && IsValid(valid, at)
    ensures Count(valid, at + 1) == Count(valid, at) + 1 <= Count(valid, n)
  {
    CountMono(valid, at + 1, n);
  }

  /** The loop of `zstd` over the frames: accepted exactly when every frame parses, its
      count is as declared, and there is one stored value per valid row; the k-th stored
      value is then in the k-th valid row. */
  method ScatterFrames(layout: Layout, frames: seq<Frame>, valid: Validity, out: array<Item>) returns (ok: bool)
    requires layout.Valid() && Covers(valid, out.Length) && Kinds(out[..], layout)
    modifies out
    ensures Kinds(out[..], layout) && NullsKept(out[..], old(out[..]), valid)
    ensures ok <==> Stored(layout, frames).Some? && |Stored(layout, frames).value| == Count(valid, out.Length)
                    && forall f | f in frames :: f.CountMatches(layout)
    ensures ok ==> Some(Project(out[..], valid, out.Length)) == Stored(layout, frames)
    ensures ok ==> out[..] == Spread(Stored(layout, frames).value, valid, old(out[..]))
  {
    hide Layout.Items, Layout.Valid, Project, Count, Frame.CountMatches, Kinds;
    var row: nat := 0;
    ghost var done: seq<Item> := [];
    NothingYet(out[..], valid);
    AppendEmpty(Stored(layout, frames));
    assert frames[0..] == frames;
    for i := 0 to |frames|
      invariant row <= out.Length && Count(valid, row) == |done| && Project(out[..], valid, row) == done
      invariant Kinds(out[..], layout) && NullsKept(out[..], old(out[..]), valid)
      invariant Stored(layout, frames) == Append(Some(done), Stored(layout, frames[i..]))
      invariant forall k | 0 <= k < i :: frames[k].CountMatches(layout)
    {
      assert frames[i..][1..] == frames[i + 1..];
      ghost var items, later := layout.Items(frames[i].raw), Stored(layout, frames[i + 1..]);
      var ok', next, count := ScatterFrame(layout, frames[i].raw, valid, out, row);
      if !ok' { return false; }
      AppendAssoc(done, items, later);
      MatchesCount(layout, frames[i], count);
      assert frames[i] in frames;
      if frames[i].declared != 0 && frames[i].declared != count { return false; }
      done := done + items.value;
      row := next;
    }
    AppendNothing(done);
    var last := SkipNulls(valid, row, out.Length);
    ProjectNulls(out[..], valid, row, last);
    if last != out.Length {
      CountNext(valid, last, out.Length);
      return false;
    }
    SpreadIs(out[..], old(out[..]), valid);
    ok := true;
  }

  lemma {:induction false} MatchesCount(layout: Layout, f: Frame, count: nat)
    requires layout.Valid() && layout.Items(f.raw).Some? && count == |layout.Items(f.raw).value|
    ensures f.CountMatches(layout) <==> (f.declared == 0 || f.declared == count)
  {
  }

  lemma {:induction false} NothingYet(out: seq<Item>, valid: Validity)
    ensures Project(out, valid, 0) == [] && Count(valid, 0) == 0
  {
  }

  /** The last loop of `pco`: the words of the decoded bytes in the valid rows. */
  method ExpandPages(raw: seq<byte>, w: nat, valid: Validity, out: array<Item>)
    requires w > 0 && Covers(valid, out.Length) && |raw| == Count(valid, out.Length) * w && Kinds(out[..], Fixed(w))
    modifies out
    ensures Kinds(out[..], Fixed(w)) && Some(Project(out[..], valid, out.Length)) == Fixed(w).Items(raw)
    ensures out[..] == Spread(Fixed(w).Items(raw).value, valid, old(out[..]))
  {
    hide Count, Project, Layout.First, LittleEndian;
    var pos := 0;
    ghost var done: seq<Item> := [];
    NothingYet(out[..], valid);
    AppendEmpty(Fixed(w).Items(raw));
    assert raw[0..] == raw;
    for i := 0 to out.Length
      invariant pos == Count(valid, i) * w && pos <= |raw| && Kinds(out[..], Fixed(w))
      invariant NullsKept(out[..], old(out[..]), valid)
      invariant Project(out[..], valid, i) == done
      invariant Fixed(w).Items(raw) == Append(Some(done), Fixed(w).Items(raw[pos..]))
    {
      if IsValid(valid, i) {
        CountNext(valid, i, out.Length);
        RoomForWord(Count(valid, i), Count(valid, out.Length), w);
        ghost var before, rest := out[..], raw[pos..];
        out[i] := Number(LittleEndian(raw[pos..], w));
        Placed(before, out[..], valid, i, i, out[i]);
        WordFirst(rest, w);
        assert rest[w..] == raw[pos + w..];
        AppendAssoc(done, Some([out[i]]), Fixed(w).Items(raw[pos + w..]));
        done := done + [out[i]];
        pos := pos + w;
      } else {
        NoCount(valid, i);
        ProjectNulls(out[..], valid, i, i + 1);
      }
    }
    AppendNothing(done);
    SpreadIs(out[..], old(out[..]), valid);
  }

  lemma {:induction false} RoomForWord(k: nat, total: nat, w: nat)
    requires k < total
    ensures k * w + w <= total * w && (k + 1) * w == k * w + w
  {
    MulMono(k + 1, total, w);
    Distribute(k, 1, w);
  }

  lemma {:induction false} WordFirst(raw: seq<byte>, w: nat)
    requires 0 < w <= |raw|
    ensures Fixed(w).Items(raw) == Append(Some([Number(LittleEndian(raw, w))]), Fixed(w).Items(raw[w..]))
  {
    hide LittleEndian;
  }

  lemma {:induction false} NoCount(valid: Validity, i: nat)
    requires (valid.Some? ==> i < |valid.value|) && !IsValid(valid, i)
    ensures Count(valid, i + 1) == Count(valid, i)
  {
  }

  // ------------------------------------------------------------------------- writer

  /** The bytes of one value. */
  function WriteItem(layout: Layout, item: Item): seq<byte>
    requires Fits(layout, item)
  {
    if layout.Fixed? then WriteLittleEndian(item.word, layout.w)
    else WriteLittleEndian(|item.bytes|, 4) + item.bytes
  }

  predicate Fits(layout: Layout, item: Item) {
    && layout.Valid()
    && if layout.Fixed? then item.Number? && item.word < Pow2(8 * layout.w)
       else item.Text? && |item.bytes| < Pow2(32) && layout.check.Allows(item.bytes)
  }

  predicate FitAll(layout: Layout, items: seq<Item>) {
    forall x | x in items :: Fits(layout, x)
  }

  function WriteItems(layout: Layout, items: seq<Item>): seq<byte>
    requires FitAll(layout, items)
  {
    if items == [] then [] else WriteItem(layout, items[0]) + WriteItems(layout, items[1..])
  }

  lemma {:induction false} FirstWritten(layout: Layout, item: Item, rest: seq<byte>)
    requires Fits(layout, item)
    ensures layout.First(WriteItem(layout, item) + rest) == Some((item, |WriteItem(layout, item)|))
  {
    hide LittleEndian, WriteLittleEndian, Pow2;
    var b := WriteItem(layout, item) + rest;
    if layout.Fixed? {
      LittleEndianWritten(item.word, layout.w, rest);
    } else {
      LittleEndianWritten(|item.bytes|, 4, item.bytes + rest);
      assert b == WriteLittleEndian(|item.bytes|, 4) + (item.bytes + rest);
      assert b[4..4 + |item.bytes|] == item.bytes;
    }
  }

  lemma {:induction false} ItemsWritten(layout: Layout, items: seq<Item>)
    requires layout.Valid() && FitAll(layout, items)
    ensures layout.Items(WriteItems(layout, items)) == Some(items)
  {
    hide Layout.First, WriteItem, Fits;
    if items != [] {
      assert items[0] in items && [items[0]] + items[1..] == items;
      var rest := WriteItems(layout, items[1..]);
      FirstWritten(layout, items[0], rest);
      ItemsWritten(layout, items[1..]);
      assert WriteItems(layout, items)[|WriteItem(layout, items[0])|..] == rest;
    }
  }

  /** The frames a writer makes of groups of values. */
  function WriteFrames(layout: Layout, groups: seq<seq<Item>>): (frames: seq<Frame>)
    requires forall g | g in groups :: FitAll(layout, g)
  {
    seq(|groups|, i requires 0 <= i < |groups| =>
      assert groups[i] in groups; Frame(WriteItems(layout, groups[i]), |groups[i]|))
  }

  function Concat(groups: seq<seq<Item>>): seq<Item> {
    if groups == [] then [] else groups[0] + Concat(groups[1..])
  }

  lemma {:induction false} FramesWritten(layout: Layout, groups: seq<seq<Item>>)
    requires layout.Valid() && forall g | g in groups :: FitAll(layout, g)
    ensures Stored(layout, WriteFrames(layout, groups)) == Some(Concat(groups))
    ensures forall f | f in WriteFrames(layout, groups) :: f.CountMatches(layout)
  {
    hide Layout.Items, WriteItems, FitAll, Layout.Valid;
    if groups != [] {
      assert groups[0] in groups && forall g | g in groups[1..] :: g in groups;
      ItemsWritten(layout, groups[0]);
      FramesWritten(layout, groups[1..]);
      assert WriteFrames(layout, groups)[1..] == WriteFrames(layout, groups[1..]);
    }
  }

  /** Round trip: however the values of the valid rows are cut into frames, a column whose
      projection is what the frames store has the original value in every valid row. */
  lemma {:induction false} RoundTrip(layout: Layout, column: seq<Item>, valid: Validity, groups: seq<seq<Item>>,
                                     out: seq<Item>, i: nat)
    requires layout.Valid() && forall g | g in groups :: FitAll(layout, g)
    requires Covers(valid, |column|) && |out| == |column| && i < |column| && IsValid(valid, i)
    requires Concat(groups) == Project(column, valid, |column|)
    requires Some(Project(out, valid, |out|)) == Stored(layout, WriteFrames(layout, groups))
    ensures out[i] == column[i]
  {
    hide Layout.Valid, FitAll, Project, Count, Stored;
    FramesWritten(layout, groups);
    ProjectAt(column, valid, |column|, i);
    ProjectAt(out, valid, |out|, i);
  }
}
