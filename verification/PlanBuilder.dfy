/** The plan builders: they append pieces and zone references to a column plan. */
module PlanBuilder {
  import opened Wrappers
  import opened Types
  import opened Layouts
  import opened Plans
  import opened Zones

  class ColumnPlan {
    var pieces: seq<Piece>
    var zones: seq<ZoneRef>

    constructor ()
      ensures pieces == [] && zones == []
    {
      pieces := [];
      zones := [];
    }
  }

  /** Zone references as `newZoneRef` returns them, one per specification. */
  ghost predicate Pristine(zones: seq<ZoneRef>, specs: seq<ZoneSpec>)
    reads zones
  {
    && |zones| == |specs|
    && forall k | 0 <= k < |zones| ::
      zones[k].spec == specs[k] && zones[k].zoneLen == specs[k].zoneLen
      && !zones[k].loaded && zones[k].values.None?
  }

  /** `out` is `pieces` and `zones` followed by what `plan` specifies. */
  ghost predicate Extends(out: ColumnPlan, pieces: seq<Piece>, zones: seq<ZoneRef>, plan: Plan)
    reads out, out.zones
  {
    && out.pieces == pieces + plan.pieces
    && zones <= out.zones
    && Pristine(out.zones[|zones|..], plan.zones)
  }

  /** `plan` was appended to `out`, with fresh zone references. */
  twostate predicate Appended(out: ColumnPlan, plan: Plan)
    reads out, out.zones
  {
    && Extends(out, old(out.pieces), old(out.zones), plan)
    && forall k | |old(out.zones)| <= k < |out.zones| :: fresh(out.zones[k])
  }

  lemma {:induction false} ExtendsTwice(out: ColumnPlan, pieces: seq<Piece>, zones: seq<ZoneRef>, a: Plan,
                                        pieces1: seq<Piece>, zones1: seq<ZoneRef>, b: Plan)
    requires pieces1 == pieces + a.pieces && zones <= zones1 && Pristine(zones1[|zones|..], a.zones)
    requires Extends(out, pieces1, zones1, b)
    ensures Extends(out, pieces, zones, Join(a, Ok(b)).value)
  {
    var n, m := |zones|, |zones1|;
    assert out.zones[n..] == zones1[n..] + out.zones[m..];
    assert (pieces + a.pieces) + b.pieces == pieces + (a.pieces + b.pieces);
  }

  method BuildScalarPlan(f: File, l: Layout, t: Type, start: nat, out: ColumnPlan) returns (err: Option<Error>)
    modifies out
    ensures match ScalarPlan(f, l, t, start)
            case Err(e) => err == Some(e)
            case Ok(plan) => err.None? && Appended(out, plan)
    decreases l, 1
  {
    match l.id {
      case Flat =>
        out.pieces := out.pieces + [Piece(start, start + l.rows, l, t, None, None, t)];
        return None;
      case Chunked => err := BuildChunks(f, l, t, start, out);
      case Zoned => err := BuildZoned(f, l, t, start, out);
      case Stats => err := BuildZoned(f, l, t, start, out);
      case Dict => err := BuildDictionary(f, l, t, start, out);
      case _ => return Some(Unsupported);
    }
  }

  /** The loop of `newZoneRef` over the names of the statistics: the last column of each. */
  method FindStatistics(names: seq<string>)
    returns (min: Option<nat>, max: Option<nat>, nulls: Option<nat>, minFlag: Option<nat>, maxFlag: Option<nat>)
    ensures min == LastNamed(names, IsMin) && max == LastNamed(names, IsMax) && nulls == LastNamed(names, IsNullCount)
    ensures minFlag == LastNamed(names, IsMinFlag) && maxFlag == LastNamed(names, IsMaxFlag)
  {
    hide IsMin, IsMax, IsNullCount, IsMinFlag, IsMaxFlag;
    min, max, nulls, minFlag, maxFlag := None, None, None, None, None;
    for i := 0 to |names|
      invariant min == LastNamed(names[..i], IsMin) && max == LastNamed(names[..i], IsMax)
      invariant nulls == LastNamed(names[..i], IsNullCount)
      invariant minFlag == LastNamed(names[..i], IsMinFlag) && maxFlag == LastNamed(names[..i], IsMaxFlag)
    {
      var name := names[i];
      OneStatistic(name);
      assert names[..i + 1][..i] == names[..i];
      if IsMin(name) {
        min := Some(i);
      } else if IsMax(name) {
        max := Some(i);
      } else if IsNullCount(name) {
        nulls := Some(i);
      } else if IsMinFlag(name) {
        minFlag := Some(i);
      } else if IsMaxFlag(name) {
        maxFlag := Some(i);
      }
    }
    assert names[..|names|] == names;
  }

  /** No name stands for two statistics. */
  lemma {:induction false} OneStatistic(name: string)
    ensures IsMin(name) ==> !IsMax(name) && !IsNullCount(name) && !IsMinFlag(name) && !IsMaxFlag(name)
    ensures IsMax(name) ==> !IsNullCount(name) && !IsMinFlag(name) && !IsMaxFlag(name)
    ensures IsNullCount(name) ==> !IsMinFlag(name) && !IsMaxFlag(name)
    ensures IsMinFlag(name) ==> !IsMaxFlag(name)
  {
    assert "vortex.min("[8] != "vortex.max("[8] && "vortex.null_count()"[7] != "vortex.max("[7];
    assert |"vortex.min("| == 11 && |"min_is_truncated"| == 16 && |"max"| == 3;
    assert "min_is_truncated"[0] != "vortex.min("[0] && "max_is_truncated"[0] != "vortex.min("[0];
    assert "min_is_truncated"[1] != "max_is_truncated"[1] && "null_count"[0] != "min_is_truncated"[0];
    assert "min"[1] != "max"[1] && "min"[0] != "vortex.max("[0] && "null_count"[0] != "vortex.max("[0];
  }

  /** `newZoneRef`. */
  method NewZoneRef(f: File, l: Layout, t: Type, start: nat) returns (z: ZoneRef)
    requires |l.children| == 2
    ensures fresh(z) && Pristine([z], [NewZone(f, l, t, start)])
  {
    hide IsMin, IsMax, IsNullCount, IsMinFlag, IsMaxFlag, LastNamed;
    var stats := l.children[1];
    var unusable := ZoneSpec(start, start + l.rows, 0, stats, Plain(KNull, true), None, None, None, None, None);
    var schema := f.zoneSchema(l, t);
    if schema.None? || schema.value.zoneLen == 0 {
      z := new ZoneRef(unusable);
      return;
    }
    var zoneLen := schema.value.zoneLen;
    var expected := l.rows / zoneLen;
    if l.rows % zoneLen != 0 { expected := expected + 1; }
    if stats.rows != expected {
      z := new ZoneRef(unusable);
      return;
    }
    var min, max, nulls, minFlag, maxFlag := FindStatistics(schema.value.names);
    z := new ZoneRef(ZoneSpec(start, start + l.rows, zoneLen, stats, schema.value.dtype, min, max, nulls, minFlag,
                              maxFlag));
  }

  method BuildZoned(f: File, l: Layout, t: Type, start: nat, out: ColumnPlan) returns (err: Option<Error>)
    modifies out
    ensures match ZonedPlan(f, l, t, start)
            case Err(e) => err == Some(e)
            case Ok(plan) => err.None? && Appended(out, plan)
    decreases l, 0
  {
    hide NewZone, ScalarPlan, ZoneCount;
    if |l.children| != 2 || l.children[0].rows != l.rows { return Some(Invalid); }
    ghost var spec := NewZone(f, l, t, start);
    var z := NewZoneRef(f, l, t, start);
    out.zones := out.zones + [z];
    ghost var zones1 := out.zones;
    assert zones1[|old(out.zones)|..] == [z];
    err := BuildScalarPlan(f, l.children[0], t, start, out);
    if err.None? {
      assert out.pieces == (old(out.pieces) + []) + ScalarPlan(f, l.children[0], t, start).value.pieces;
      ExtendsTwice(out, old(out.pieces), old(out.zones), Plan([], [spec]), old(out.pieces), zones1,
                   ScalarPlan(f, l.children[0], t, start).value);
    }
  }

  method BuildDictionary(f: File, l: Layout, t: Type, start: nat, out: ColumnPlan) returns (err: Option<Error>)
    requires l.id == Dict
    modifies out
    ensures match ScalarPlan(f, l, t, start)
            case Err(e) => err == Some(e)
            case Ok(plan) => err.None? && Appended(out, plan)
    decreases l, 0
  {
    if |l.children| != 2 || l.children[1].rows != l.rows { return Some(Invalid); }
    var codesType := f.codeType(l, t);
    if codesType.Err? { return Some(codesType.error); }
    var codes := new ColumnPlan();
    err := BuildScalarPlan(f, l.children[1], codesType.value, start, codes);
    if err.Some? { return; }
    var pieces: seq<Piece> := [];
    for i := 0 to |codes.pieces|
      invariant pieces == WithDictionary(codes.pieces[..i], l.children[0], t)
      invariant !HasDictionary(codes.pieces[..i])
    {
      var p := codes.pieces[i];
      if p.dictionary.Some? { return Some(Unsupported); }
      assert codes.pieces[..i + 1] == codes.pieces[..i] + [p];
      pieces := pieces + [p.(dictionary := Some(l.children[0]), dictType := t)];
    }
    assert codes.pieces[..|codes.pieces|] == codes.pieces;
    out.pieces := out.pieces + pieces;
  }

  method BuildChunks(f: File, l: Layout, t: Type, start: nat, out: ColumnPlan) returns (err: Option<Error>)
    modifies out
    ensures match ChunkPlans(f, l.children, t, start, l.rows)
            case Err(e) => err == Some(e)
            case Ok(plan) => err.None? && Appended(out, plan)
    decreases l, 0
  {
    hide ScalarPlan, ChunkPlans, NewZone;
    var offset := start;
    ghost var done := EMPTY;
    ghost var all := ChunkPlans(f, l.children, t, start, l.rows);
    assert l.children[0..] == l.children;
    JoinEmpty(all);
    for i := 0 to |l.children|
      invariant start <= offset <= start + l.rows
      invariant Appended(out, done)
      invariant all == Join(done, ChunkPlans(f, l.children[i..], t, offset, l.rows - (offset - start)))
    {
      var c := l.children[i];
      ChunkPlansFirst(f, l.children[i..], t, offset, l.rows - (offset - start));
      if c.rows > l.rows - (offset - start) { return Some(Invalid); }
      ghost var pieces1, zones1 := out.pieces, out.zones;
      err := BuildScalarPlan(f, c, t, offset, out);
      if err.Some? { return; }
      ghost var plan := ScalarPlan(f, c, t, offset).value;
      ExtendsTwice(out, old(out.pieces), old(out.zones), done, pieces1, zones1, plan);
      assert l.children[i..][1..] == l.children[i + 1..];
      JoinJoin(done, plan, ChunkPlans(f, l.children[i + 1..], t, offset + c.rows, l.rows - (offset - start) - c.rows));
      done := Join(done, Ok(plan)).value;
      offset := offset + c.rows;
    }
    ChunkPlansFirst(f, [], t, offset, l.rows - (offset - start));
    if offset - start != l.rows { return Some(Invalid); }
    JoinEnd(done);
    err := None;
  }

  lemma {:induction false} ChunkPlansFirst(f: File, chunks: seq<Layout>, t: Type, start: nat, rows: nat)
    ensures ChunkPlans(f, chunks, t, start, rows)
         == if chunks == [] then (if rows == 0 then Ok(EMPTY) else Err(Invalid))
            else if chunks[0].rows > rows then Err(Invalid)
            else match ScalarPlan(f, chunks[0], t, start)
                 case Err(e) => Err(e)
                 case Ok(first) =>
                   var size := chunks[0].rows;
                   Join(first, ChunkPlans(f, chunks[1..], t, start + size, rows - size))
  {
  }

  lemma {:induction false} JoinEmpty(r: Result<Plan, Error>)
    ensures Join(EMPTY, r) == r
  {
    if r.Ok? { assert [] + r.value.pieces == r.value.pieces && [] + r.value.zones == r.value.zones; }
  }

  lemma {:induction false} JoinEnd(p: Plan)
    ensures Join(p, Ok(EMPTY)) == Ok(p)
  {
    assert p.pieces + [] == p.pieces && p.zones + [] == p.zones;
  }

  lemma {:induction false} JoinJoin(a: Plan, b: Plan, r: Result<Plan, Error>)
    ensures Join(a, Join(b, r)) == Join(Join(a, Ok(b)).value, r)
  {
    if r.Ok? {
      assert a.pieces + (b.pieces + r.value.pieces) == (a.pieces + b.pieces) + r.value.pieces;
      assert a.zones + (b.zones + r.value.zones) == (a.zones + b.zones) + r.value.zones;
    }
  }

  method BuildFieldPlan(f: File, l: Layout, t: Type, field: nat, start: nat,
      out: ColumnPlan) returns (err: Option<Error>)
    requires field < |t.fields|
    modifies out
    ensures match FieldPlan(f, l, t, field, start)
            case Err(e) => err == Some(e)
            case Ok(plan) => err.None? && Appended(out, plan)
    decreases l, 1
  {
    match l.id {
      case Struct =>
        if t.kind != KStruct || t.nullable || |l.children| != |t.fields| { return Some(Invalid); }
        for i := 0 to |l.children|
          invariant forall j | 0 <= j < i :: l.children[j].rows == l.rows
        {
          if l.children[i].rows != l.rows { return Some(Invalid); }
        }
        err := BuildScalarPlan(f, l.children[field], t.fields[field], start, out);
      case Chunked => err := BuildFieldChunks(f, l, t, field, start, out);
      case Flat =>
        out.pieces := out.pieces + [Piece(start, start + l.rows, l, t, Some(field), None, t)];
        return None;
      case _ => return Some(Unsupported);
    }
  }

  method BuildFieldChunks(f: File, l: Layout, t: Type, field: nat, start: nat,
      out: ColumnPlan) returns (err: Option<Error>)
    requires field < |t.fields|
    modifies out
    ensures match FieldChunkPlans(f, l.children, t, field, start, l.rows)
            case Err(e) => err == Some(e)
            case Ok(plan) => err.None? && Appended(out, plan)
    decreases l, 0
  {
    hide FieldPlan, FieldChunkPlans;
    var offset := start;
    ghost var done := EMPTY;
    ghost var all := FieldChunkPlans(f, l.children, t, field, start, l.rows);
    assert l.children[0..] == l.children;
    JoinEmpty(all);
    for i := 0 to |l.children|
      invariant start <= offset <= start + l.rows
      invariant Appended(out, done)
      invariant all == Join(done, FieldChunkPlans(f, l.children[i..], t, field, offset, l.rows - (offset - start)))
    {
      var c := l.children[i];
      FieldChunkPlansFirst(f, l.children[i..], t, field, offset, l.rows - (offset - start));
      if c.rows > l.rows - (offset - start) { return Some(Invalid); }
      ghost var pieces1, zones1 := out.pieces, out.zones;
      err := BuildFieldPlan(f, c, t, field, offset, out);
      if err.Some? { return; }
      ghost var plan := FieldPlan(f, c, t, field, offset).value;
      ExtendsTwice(out, old(out.pieces), old(out.zones), done, pieces1, zones1, plan);
      assert l.children[i..][1..] == l.children[i + 1..];
      JoinJoin(done, plan,
               FieldChunkPlans(f, l.children[i + 1..], t, field, offset + c.rows, l.rows - (offset - start) - c.rows));
      done := Join(done, Ok(plan)).value;
      offset := offset + c.rows;
    }
    FieldChunkPlansFirst(f, [], t, field, offset, l.rows - (offset - start));
    if offset - start != l.rows { return Some(Invalid); }
    JoinEnd(done);
    err := None;
  }

  lemma {:induction false} FieldChunkPlansFirst(f: File, chunks: seq<Layout>, t: Type, field: nat, start: nat,
      rows: nat)
    requires field < |t.fields|
    ensures FieldChunkPlans(f, chunks, t, field, start, rows)
         == if chunks == [] then (if rows == 0 then Ok(EMPTY) else Err(Invalid))
            else if chunks[0].rows > rows then Err(Invalid)
            else match FieldPlan(f, chunks[0], t, field, start)
                 case Err(e) => Err(e)
                 case Ok(first) =>
                   Join(first, FieldChunkPlans(f, chunks[1..], t, field, start + chunks[0].rows, rows - chunks[0].rows))
  {
  }
}
