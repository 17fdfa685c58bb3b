/** Column plans: a layout tree compiled to consecutive row pieces and the zone
    maps that describe row ranges of the column. */
module Plans {
  import opened Wrappers
  import opened Types
  import opened Layouts

  datatype Piece = Piece(start: nat, end: nat, node: Layout, dtype: Type,
                         field: Option<nat>, dictionary: Option<Layout>, dictType: Type)

  /** The immutable part of a zone map reference. `zoneLen` is 0 when the
      statistics cannot be used. */
  datatype ZoneSpec = ZoneSpec(start: nat, end: nat, zoneLen: nat, node: Layout, dtype: Type,
                               min: Option<nat>, max: Option<nat>, nulls: Option<nat>,
                               minTruncated: Option<nat>, maxTruncated: Option<nat>)

  datatype Plan = Plan(pieces: seq<Piece>, zones: seq<ZoneSpec>)

  const EMPTY := Plan([], [])

  // --------------------------------------------------------------- planning

  /** The names of the statistics that pruning uses. */
  predicate IsMin(name: string) { name == "min" || "vortex.min(" <= name }

  predicate IsMax(name: string) { name == "max" || "vortex.max(" <= name }

  predicate IsNullCount(name: string) { name == "null_count" || name == "vortex.null_count()" }

  predicate IsMinFlag(name: string) { name == "min_is_truncated" }

  predicate IsMaxFlag(name: string) { name == "max_is_truncated" }

  /** The last column whose name satisfies a predicate. */
  function LastNamed(names: seq<string>, named: string -> bool): (r: Option<nat>)
    ensures r.Some? ==> r.value < |names| && named(names[r.value])
    ensures r.Some? ==> forall k | r.value < k < |names| :: !named(names[k])
    ensures r.None? ==> forall k | 0 <= k < |names| :: !named(names[k])
  {
    if names == [] then None
    else if named(names[|names| - 1]) then Some(|names| - 1)
    else LastNamed(names[..|names| - 1], named)
  }

  /** `newZoneRef`: the zone map is dropped unless it has one row per zone. */
  function NewZone(f: File, l: Layout, t: Type, start: nat): (z: ZoneSpec)
    requires |l.children| == 2
    ensures z.start == start && z.end == start + l.rows && z.node == l.children[1]
    ensures z.zoneLen > 0 ==> z.node.rows == ZoneCount(l.rows, z.zoneLen)
  {
    var unusable := ZoneSpec(start, start + l.rows, 0, l.children[1], Plain(KNull, true), None, None, None, None, None);
    match f.zoneSchema(l, t)
    case None => unusable
    case Some(s) =>
      if s.zoneLen == 0 || l.children[1].rows != ZoneCount(l.rows, s.zoneLen) then unusable
      else ZoneSpec(start, start + l.rows, s.zoneLen, l.children[1], s.dtype, LastNamed(s.names, IsMin),
                    LastNamed(s.names, IsMax), LastNamed(s.names, IsNullCount), LastNamed(s.names, IsMinFlag),
                    LastNamed(s.names, IsMaxFlag))
  }

  function ZoneCount(rows: nat, zoneLen: nat): nat
    requires zoneLen > 0
  {
    rows / zoneLen + if rows % zoneLen != 0 then 1 else 0
  }

  predicate HasDictionary(pieces: seq<Piece>) {
    exists i | 0 <= i < |pieces| :: pieces[i].dictionary.Some?
  }

  function WithDictionary(pieces: seq<Piece>, dictionary: Layout, t: Type): (r: seq<Piece>)
    ensures |r| == |pieces|
  {
    seq(|pieces|, i requires 0 <= i < |pieces| =>
      pieces[i].(dictionary := Some(dictionary), dictType := t))
  }

  function Join(a: Plan, b: Result<Plan, Error>): Result<Plan, Error> {
    match b
    case Err(e) => Err(e)
    case Ok(p) => Ok(Plan(a.pieces + p.pieces, a.zones + p.zones))
  }

  /** `buildScalarPlan`. */
  function ScalarPlan(f: File, l: Layout, t: Type, start: nat): Result<Plan, Error>
    decreases l, 1
  {
    match l.id
    case Flat => Ok(Plan([Piece(start, start + l.rows, l, t, None, None, t)], []))
    case Chunked => ChunkPlans(f, l.children, t, start, l.rows)
    case Zoned => ZonedPlan(f, l, t, start)
    case Stats => ZonedPlan(f, l, t, start)
    case Dict =>
      if |l.children| != 2 || l.children[1].rows != l.rows then Err(Invalid)
      else (match f.codeType(l, t)
            case Err(e) => Err(e)
            case Ok(codesType) =>
              match ScalarPlan(f, l.children[1], codesType, start)
              case Err(e) => Err(e)
              case Ok(codes) =>
                if HasDictionary(codes.pieces) then Err(Unsupported)
                else Ok(Plan(WithDictionary(codes.pieces, l.children[0], t), [])))
    case Struct => Err(Unsupported)
    case OtherLayout => Err(Unsupported)
  }

  function ZonedPlan(f: File, l: Layout, t: Type, start: nat): Result<Plan, Error>
    decreases l, 0
  {
    if |l.children| != 2 || l.children[0].rows != l.rows then Err(Invalid)
    else Join(Plan([], [NewZone(f, l, t, start)]), ScalarPlan(f, l.children[0], t, start))
  }

  function ChunkPlans(f: File, chunks: seq<Layout>, t: Type, start: nat, rows: nat): Result<Plan, Error>
    decreases chunks, 0
  {
    if chunks == [] then (if rows == 0 then Ok(EMPTY) else Err(Invalid))
    else if chunks[0].rows > rows then Err(Invalid)
    else match ScalarPlan(f, chunks[0], t, start)
         case Err(e) => Err(e)
         case Ok(first) => Join(first, ChunkPlans(f, chunks[1..], t, start + chunks[0].rows, rows - chunks[0].rows))
  }

  /** `buildFieldPlan`: one column of the root struct. */
  function FieldPlan(f: File, l: Layout, t: Type, field: nat, start: nat): Result<Plan, Error>
    requires field < |t.fields|
    decreases l, 1
  {
    match l.id
    case Struct =>
      if t.kind != KStruct || t.nullable || |l.children| != |t.fields| then Err(Invalid)
      else if exists i | 0 <= i < |l.children| :: l.children[i].rows != l.rows then Err(Invalid)
      else ScalarPlan(f, l.children[field], t.fields[field], start)
    case Chunked => FieldChunkPlans(f, l.children, t, field, start, l.rows)
    case Flat => Ok(Plan([Piece(start, start + l.rows, l, t, Some(field), None, t)], []))
    case _ => Err(Unsupported)
  }

  function FieldChunkPlans(f: File, chunks: seq<Layout>, t: Type, field: nat, start: nat, rows: nat)
    : Result<Plan, Error>
    requires field < |t.fields|
    decreases chunks, 0
  {
    if chunks == [] then (if rows == 0 then Ok(EMPTY) else Err(Invalid))
    else if chunks[0].rows > rows then Err(Invalid)
    else match FieldPlan(f, chunks[0], t, field, start)
         case Err(e) => Err(e)
         case Ok(first) =>
           Join(first, FieldChunkPlans(f, chunks[1..], t, field, start + chunks[0].rows, rows - chunks[0].rows))
  }

  // ----------------------------------------------------------------- tiling

  /** The pieces cover [start, end) one after the other without gap or overlap. */
  predicate Tiles(pieces: seq<Piece>, start: nat, end: nat)
    decreases |pieces|
  {
    if pieces == [] then start == end
    else
      && pieces[0].start == start <= pieces[0].end
      && pieces[0].end == start + pieces[0].node.rows
      && Tiles(pieces[1..], pieces[0].end, end)
  }

  /** Zones lie inside the rows of their column. */
  predicate ZonesWithin(zones: seq<ZoneSpec>, start: nat, end: nat) {
    forall i | 0 <= i < |zones| ::
      && start <= zones[i].start <= zones[i].end <= end
      && (zones[i].zoneLen > 0 ==>
            zones[i].node.rows == ZoneCount(zones[i].end - zones[i].start, zones[i].zoneLen))
  }

  /** The dictionary of a piece, if any, has the column's type. */
  predicate Typed(pieces: seq<Piece>, t: Type) {
    forall i | 0 <= i < |pieces| :: pieces[i].dictionary.Some? ==> pieces[i].dictType == t
  }

  predicate WellPlanned(p: Plan, t: Type, start: nat, end: nat) {
    Tiles(p.pieces, start, end) && ZonesWithin(p.zones, start, end) && Typed(p.pieces, t)
  }

  lemma {:induction false} TilesOrder(pieces: seq<Piece>, start: nat, end: nat)
    requires Tiles(pieces, start, end)
    ensures start <= end
    decreases |pieces|
  {
    if pieces != [] { TilesOrder(pieces[1..], pieces[0].end, end); }
  }

  lemma {:induction false} TilesConcat(a: seq<Piece>, b: seq<Piece>, start: nat, middle: nat, end: nat)
    requires Tiles(a, start, middle) && Tiles(b, middle, end)
    ensures Tiles(a + b, start, end)
    decreases |a|
  {
    if a == [] {
      assert a + b == b;
    } else {
      assert (a + b)[1..] == a[1..] + b;
      TilesConcat(a[1..], b, a[0].end, middle, end);
    }
  }

  lemma {:induction false} WellPlannedJoin(a: Plan, b: Plan, t: Type, start: nat, middle: nat, end: nat)
    requires WellPlanned(a, t, start, middle) && WellPlanned(b, t, middle, end)
    ensures WellPlanned(Join(a, Ok(b)).value, t, start, end)
  {
    TilesConcat(a.pieces, b.pieces, start, middle, end);
    TilesOrder(a.pieces, start, middle);
    TilesOrder(b.pieces, middle, end);
  }

  lemma {:induction false} TilesWithDictionary(pieces: seq<Piece>, dictionary: Layout, t: Type, start: nat, end: nat)
    requires Tiles(pieces, start, end)
    ensures Tiles(WithDictionary(pieces, dictionary, t), start, end)
    decreases |pieces|
  {
    if pieces != [] {
      TilesWithDictionary(pieces[1..], dictionary, t, pieces[0].end, end);
      assert WithDictionary(pieces, dictionary, t)[1..] == WithDictionary(pieces[1..], dictionary, t);
    }
  }

  lemma {:induction false} FlatTiles(p: Piece)
    requires p.end == p.start + p.node.rows
    ensures Tiles([p], p.start, p.end)
  {
    assert [p][1..] == [] && Tiles([], p.end, p.end);
  }

  /** Every accepted scalar plan tiles the rows of its layout. */
  lemma {:induction false} ScalarPlanTiles(f: File, l: Layout, t: Type, start: nat)
    requires ScalarPlan(f, l, t, start).Ok?
    ensures WellPlanned(ScalarPlan(f, l, t, start).value, t, start, start + l.rows)
    decreases l, 1
  {
    hide ChunkPlans, ZonedPlan, WithDictionary, ZoneCount;
    match l.id {
      case Flat =>
        FlatTiles(ScalarPlan(f, l, t, start).value.pieces[0]);
      case Chunked => ChunkPlansTile(f, l.children, t, start, l.rows);
      case Zoned => ZonedPlanTiles(f, l, t, start);
      case Stats => ZonedPlanTiles(f, l, t, start);
      case Dict =>
        ScalarPlanTiles(f, l.children[1], f.codeType(l, t).value, start);
        DictionaryPlanTiles(f, ScalarPlan(f, l.children[1], f.codeType(l, t).value, start).value, l.children[0], t,
                            start, start + l.rows);
      case _ =>
    }
  }

  lemma {:induction false} DictionaryPlanTiles(f: File, codes: Plan, dictionary: Layout, t: Type, start: nat, end: nat)
    requires Tiles(codes.pieces, start, end) && ZonesWithin(codes.zones, start, end)
    ensures WellPlanned(Plan(WithDictionary(codes.pieces, dictionary, t), codes.zones), t, start, end)
  {
    hide ZoneCount;
    TilesWithDictionary(codes.pieces, dictionary, t, start, end);
  }

  lemma {:induction false} ZonedPlanTiles(f: File, l: Layout, t: Type, start: nat)
    requires ZonedPlan(f, l, t, start).Ok?
    ensures WellPlanned(ZonedPlan(f, l, t, start).value, t, start, start + l.rows)
    decreases l, 0
  {
    hide ScalarPlan, NewZone, File.Valid, ZoneCount;
    ScalarPlanTiles(f, l.children[0], t, start);
    var rest := ScalarPlan(f, l.children[0], t, start).value;
    assert [] + rest.pieces == rest.pieces;
  }

  lemma {:induction false} NothingPlanned(t: Type, start: nat)
    ensures WellPlanned(EMPTY, t, start, start)
  {
  }

  lemma {:induction false} ChunkPlansTile(f: File, chunks: seq<Layout>, t: Type, start: nat, rows: nat)
    requires ChunkPlans(f, chunks, t, start, rows).Ok?
    ensures WellPlanned(ChunkPlans(f, chunks, t, start, rows).value, t, start, start + rows)
    decreases chunks, 0
  {
    hide ScalarPlan, WellPlanned, File.Valid;
    NothingPlanned(t, start);
    if chunks != [] {
      var middle := start + chunks[0].rows;
      ScalarPlanTiles(f, chunks[0], t, start);
      ChunkPlansTile(f, chunks[1..], t, middle, rows - chunks[0].rows);
      WellPlannedJoin(ScalarPlan(f, chunks[0], t, start).value,
                      ChunkPlans(f, chunks[1..], t, middle, rows - chunks[0].rows).value,
                      t, start, middle, start + rows);
    }
  }

  /** Every accepted column plan tiles the rows of the file. */
  lemma {:induction false} FieldPlanTiles(f: File, l: Layout, t: Type, field: nat, start: nat)
    requires field < |t.fields| && FieldPlan(f, l, t, field, start).Ok?
    ensures WellPlanned(FieldPlan(f, l, t, field, start).value, t.fields[field], start, start + l.rows)
    decreases l, 1
  {
    match l.id {
      case Struct => ScalarPlanTiles(f, l.children[field], t.fields[field], start);
      case Chunked => FieldChunkPlansTile(f, l.children, t, field, start, l.rows);
      case Flat => assert Tiles([], start + l.rows, start + l.rows);
      case _ =>
    }
  }

  lemma {:induction false} FieldChunkPlansTile(f: File, chunks: seq<Layout>, t: Type, field: nat, start: nat, rows: nat)
    requires field < |t.fields| && FieldChunkPlans(f, chunks, t, field, start, rows).Ok?
    ensures WellPlanned(FieldChunkPlans(f, chunks, t, field, start, rows).value, t.fields[field], start, start + rows)
    decreases chunks, 0
  {
    hide FieldPlan, WellPlanned, File.Valid;
    NothingPlanned(t.fields[field], start);
    if chunks != [] {
      var middle := start + chunks[0].rows;
      FieldPlanTiles(f, chunks[0], t, field, start);
      FieldChunkPlansTile(f, chunks[1..], t, field, middle, rows - chunks[0].rows);
      WellPlannedJoin(FieldPlan(f, chunks[0], t, field, start).value,
                      FieldChunkPlans(f, chunks[1..], t, field, middle, rows - chunks[0].rows).value,
                      t.fields[field], start, middle, start + rows);
    }
  }

  // --------------------------------------------------- the values of a plan

  /** The values a piece stands for: its flat array, projected to the column and
      looked up in the dictionary. */
  function PieceValue(f: File, p: Piece): (r: Result<Array, Error>)
    requires f.Valid()
    ensures r.Ok? ==> |r.value| == p.node.rows
  {
    match f.flat(p.node, p.dtype)
    case Err(e) => Err(e)
    case Ok(a) =>
      var column := if p.field.None? then Some(a) else Project(a, p.field.value);
      if column.None? then Err(Invalid)
      else if p.dictionary.None? then Ok(column.value)
      else match DecodeLayout(f, p.dictionary.value, p.dictType)
           case Err(e) => Err(e)
           case Ok(values) => TakeDictionary(values, column.value, p.dictType)
  }

  function PlanValue(f: File, pieces: seq<Piece>): (r: Result<Array, Error>)
    requires f.Valid()
    decreases |pieces|
  {
    if pieces == [] then Ok([])
    else match PieceValue(f, pieces[0])
         case Err(e) => Err(e)
         case Ok(first) =>
           match PlanValue(f, pieces[1..])
           case Err(e) => Err(e)
           case Ok(rest) => Ok(first + rest)
  }

  lemma {:induction false} PlanValueConcat(f: File, a: seq<Piece>, b: seq<Piece>)
    requires f.Valid() && PlanValue(f, a).Ok? && PlanValue(f, b).Ok?
    ensures PlanValue(f, a + b) == Ok(PlanValue(f, a).value + PlanValue(f, b).value)
    decreases |a|
  {
    hide PieceValue, File.Valid;
    if a == [] {
      assert a + b == b && [] + PlanValue(f, b).value == PlanValue(f, b).value;
    } else {
      assert (a + b)[1..] == a[1..] + b;
      PlanValueConcat(f, a[1..], b);
      var first, rest, more := PieceValue(f, a[0]).value, PlanValue(f, a[1..]).value, PlanValue(f, b).value;
      assert first + (rest + more) == (first + rest) + more;
    }
  }

  /** Looking up the codes piece by piece is looking up all codes at once. */
  lemma {:induction false} DictionaryPieces(f: File, codes: seq<Piece>, dictionary: Layout, t: Type)
    requires f.Valid() && !HasDictionary(codes) && PlanValue(f, codes).Ok?
    requires DecodeLayout(f, dictionary, t).Ok?
    requires TakeDictionary(DecodeLayout(f, dictionary, t).value, PlanValue(f, codes).value, t).Ok?
    ensures PlanValue(f, WithDictionary(codes, dictionary, t))
            == TakeDictionary(DecodeLayout(f, dictionary, t).value, PlanValue(f, codes).value, t)
    decreases |codes|
  {
    var values := DecodeLayout(f, dictionary, t).value;
    if codes == [] {
      assert TakeDictionary(values, [], t).value == [];
    } else {
      var first, rest := PieceValue(f, codes[0]).value, PlanValue(f, codes[1..]).value;
      TakeConcat(values, first, rest, t);
      DictionaryPieces(f, codes[1..], dictionary, t);
      var withDict := WithDictionary(codes, dictionary, t);
      assert withDict[1..] == WithDictionary(codes[1..], dictionary, t);
      assert codes[0].dictionary.None?;
    }
  }

  /** Streaming refines the recursive reader, for one scalar column: whenever the
      whole layout decodes and the plan is accepted, the pieces give the same
      values in the same order. */
  lemma {:induction false} ScalarPlanRefines(f: File, l: Layout, t: Type, start: nat)
    requires f.Valid() && DecodeLayout(f, l, t).Ok? && ScalarPlan(f, l, t, start).Ok?
    ensures PlanValue(f, ScalarPlan(f, l, t, start).value.pieces) == DecodeLayout(f, l, t)
    decreases l, 1
  {
    match l.id {
      case Flat =>
        var piece := Piece(start, start + l.rows, l, t, None, None, t);
        var a := f.flat(l, t).value;
        assert PieceValue(f, piece) == Ok(a) && a + [] == a;
        assert PlanValue(f, [piece][1..]) == Ok([]);
      case Chunked => ChunkPlansRefine(f, l.children, t, start, l.rows);
      case Zoned => ZonedPlanRefines(f, l, t, start);
      case Stats => ZonedPlanRefines(f, l, t, start);
      case Dict =>
        var codesType := f.codeType(l, t).value;
        ScalarPlanRefines(f, l.children[1], codesType, start);
        DictionaryPieces(f, ScalarPlan(f, l.children[1], codesType, start).value.pieces, l.children[0], t);
      case _ =>
    }
  }

  lemma {:induction false} ZonedPlanRefines(f: File, l: Layout, t: Type, start: nat)
    requires f.Valid() && DecodeZoned(f, l, t).Ok? && ZonedPlan(f, l, t, start).Ok?
    ensures PlanValue(f, ZonedPlan(f, l, t, start).value.pieces) == DecodeZoned(f, l, t)
    decreases l, 0
  {
    ScalarPlanRefines(f, l.children[0], t, start);
    var rest := ScalarPlan(f, l.children[0], t, start).value;
    assert [] + rest.pieces == rest.pieces;
  }

  lemma {:induction false} ChunkPlansRefine(f: File, chunks: seq<Layout>, t: Type, start: nat, rows: nat)
    requires f.Valid() && DecodeChunks(f, chunks, t, rows).Ok? && ChunkPlans(f, chunks, t, start, rows).Ok?
    ensures PlanValue(f, ChunkPlans(f, chunks, t, start, rows).value.pieces) == DecodeChunks(f, chunks, t, rows)
    decreases chunks, 0
  {
    hide ScalarPlan, PieceValue, File.Valid, DecodeLayout;
    if chunks != [] {
      var middle := start + chunks[0].rows;
      ScalarPlanRefines(f, chunks[0], t, start);
      ChunkPlansRefine(f, chunks[1..], t, middle, rows - chunks[0].rows);
      PlanValueConcat(f, ScalarPlan(f, chunks[0], t, start).value.pieces,
                      ChunkPlans(f, chunks[1..], t, middle, rows - chunks[0].rows).value.pieces);
    }
  }

  // ------------------------------------------------------ when both readers accept

  /** What the recursive reader asks beyond streaming: no auxiliary array is too long, and
      dictionaries decode even if no code uses them. */
  predicate Auxiliary(f: File, l: Layout, t: Type)
    requires f.Valid()
    decreases l, 1
  {
    && l.rows <= MAX_AUXILIARY_ROWS
    && match l.id
       case Chunked => AuxiliaryChunks(f, l.children, t)
       case Zoned => |l.children| == 2 && Auxiliary(f, l.children[0], t)
       case Stats => |l.children| == 2 && Auxiliary(f, l.children[0], t)
       case Dict =>
         && |l.children| == 2 && DecodeLayout(f, l.children[0], t).Ok?
         && f.codeType(l, t).Ok? && Auxiliary(f, l.children[1], f.codeType(l, t).value)
       case _ => true
  }

  predicate AuxiliaryChunks(f: File, chunks: seq<Layout>, t: Type)
    requires f.Valid()
    decreases chunks, 0
  {
    chunks == [] || (Auxiliary(f, chunks[0], t) && AuxiliaryChunks(f, chunks[1..], t))
  }

  lemma {:induction false} PlanValueSplit(f: File, a: seq<Piece>, b: seq<Piece>)
    requires f.Valid() && PlanValue(f, a + b).Ok?
    ensures PlanValue(f, a).Ok? && PlanValue(f, b).Ok?
    decreases |a|
  {
    hide PieceValue, File.Valid;
    if a == [] {
      assert a + b == b;
    } else {
      assert (a + b)[1..] == a[1..] + b;
      PlanValueSplit(f, a[1..], b);
    }
  }

  /** If the looked-up pieces decode, so do the codes, and looking all up at once succeeds. */
  lemma {:induction false} DictionaryPiecesAccept(f: File, codes: seq<Piece>, dictionary: Layout, t: Type)
    requires f.Valid() && !HasDictionary(codes) && DecodeLayout(f, dictionary, t).Ok?
    requires PlanValue(f, WithDictionary(codes, dictionary, t)).Ok?
    ensures PlanValue(f, codes).Ok?
    ensures TakeDictionary(DecodeLayout(f, dictionary, t).value, PlanValue(f, codes).value, t).Ok?
    decreases |codes|
  {
    var values := DecodeLayout(f, dictionary, t).value;
    if codes != [] {
      var withDict := WithDictionary(codes, dictionary, t);
      assert withDict[1..] == WithDictionary(codes[1..], dictionary, t);
      assert codes[0].dictionary.None?;
      DictionaryPiecesAccept(f, codes[1..], dictionary, t);
      TakeConcat(values, PieceValue(f, codes[0]).value, PlanValue(f, codes[1..]).value, t);
    }
  }

  /** For a planned column the recursive reader accepts exactly when the pieces decode and
      its own conditions hold. */
  lemma {:induction false} ScalarPlanAccepts(f: File, l: Layout, t: Type, start: nat)
    requires f.Valid() && ScalarPlan(f, l, t, start).Ok?
    ensures DecodeLayout(f, l, t).Ok?
            <==> PlanValue(f, ScalarPlan(f, l, t, start).value.pieces).Ok? && Auxiliary(f, l, t)
    decreases l, 1
  {
    match l.id {
      case Flat =>
        var piece := Piece(start, start + l.rows, l, t, None, None, t);
        assert PlanValue(f, [piece][1..]) == Ok([]);
        assert PieceValue(f, piece).Ok? <==> f.flat(l, t).Ok?;
      case Chunked => ChunkPlansAccept(f, l.children, t, start, l.rows);
      case Zoned => ZonedPlanAccepts(f, l, t, start);
      case Stats => ZonedPlanAccepts(f, l, t, start);
      case Dict => DictionaryPlanAccepts(f, l, t, start);
      case _ =>
    }
  }

  lemma {:induction false} ZonedPlanAccepts(f: File, l: Layout, t: Type, start: nat)
    requires f.Valid() && ZonedPlan(f, l, t, start).Ok?
    ensures |l.children| == 2
    ensures DecodeZoned(f, l, t).Ok?
            <==> PlanValue(f, ZonedPlan(f, l, t, start).value.pieces).Ok? && Auxiliary(f, l.children[0], t)
    decreases l, 0
  {
    ScalarPlanAccepts(f, l.children[0], t, start);
    var rest := ScalarPlan(f, l.children[0], t, start).value;
    assert [] + rest.pieces == rest.pieces;
  }

  lemma {:induction false} DictionaryPlanAccepts(f: File, l: Layout, t: Type, start: nat)
    requires f.Valid() && l.id == Dict && ScalarPlan(f, l, t, start).Ok?
    ensures DecodeLayout(f, l, t).Ok?
            <==> PlanValue(f, ScalarPlan(f, l, t, start).value.pieces).Ok? && Auxiliary(f, l, t)
    decreases l, 0
  {
    var codesType := f.codeType(l, t).value;
    var codes := ScalarPlan(f, l.children[1], codesType, start).value.pieces;
    ScalarPlanAccepts(f, l.children[1], codesType, start);
    if DecodeLayout(f, l, t).Ok? {
      ScalarPlanRefines(f, l.children[1], codesType, start);
      DictionaryPieces(f, codes, l.children[0], t);
    } else if PlanValue(f, WithDictionary(codes, l.children[0], t)).Ok? && Auxiliary(f, l, t) {
      DictionaryPiecesAccept(f, codes, l.children[0], t);
      ScalarPlanRefines(f, l.children[1], codesType, start);
    }
  }

  lemma {:induction false} ChunkPlansAccept(f: File, chunks: seq<Layout>, t: Type, start: nat, rows: nat)
    requires f.Valid() && ChunkPlans(f, chunks, t, start, rows).Ok?
    ensures DecodeChunks(f, chunks, t, rows).Ok?
            <==> PlanValue(f, ChunkPlans(f, chunks, t, start, rows).value.pieces).Ok? && AuxiliaryChunks(f, chunks, t)
    decreases chunks, 0
  {
    hide ScalarPlan, PieceValue, File.Valid, DecodeLayout, Auxiliary;
    if chunks != [] {
      var middle := start + chunks[0].rows;
      var first := ScalarPlan(f, chunks[0], t, start).value.pieces;
      var rest := ChunkPlans(f, chunks[1..], t, middle, rows - chunks[0].rows).value.pieces;
      ScalarPlanAccepts(f, chunks[0], t, start);
      ChunkPlansAccept(f, chunks[1..], t, middle, rows - chunks[0].rows);
      if PlanValue(f, first).Ok? && PlanValue(f, rest).Ok? { PlanValueConcat(f, first, rest); }
      if PlanValue(f, first + rest).Ok? { PlanValueSplit(f, first, rest); }
    }
  }

  // ------------------------------------------------- the columns of a file

  /** Column `k` of a root layout as the recursive reader decodes that column's own
      layouts, whatever becomes of the other columns. */
  function ColumnValue(f: File, l: Layout, t: Type, k: nat): (r: Result<Array, Error>)
    requires f.Valid() && k < |t.fields|
    decreases l, 1
  {
    match l.id
    case Struct =>
      if t.kind != KStruct || t.nullable || |l.children| != |t.fields| then Err(Invalid)
      else if l.children[k].rows != l.rows then Err(Invalid)
      else DecodeLayout(f, l.children[k], t.fields[k])
    case Chunked => ColumnChunks(f, l.children, t, k, l.rows)
    case Flat => (match f.flat(l, t)
                  case Err(e) => Err(e)
                  case Ok(a) => if Project(a, k).None? then Err(Invalid) else Ok(Project(a, k).value))
    case _ => Err(Unsupported)
  }

  function ColumnChunks(f: File, chunks: seq<Layout>, t: Type, k: nat, rows: nat): (r: Result<Array, Error>)
    requires f.Valid() && k < |t.fields|
    decreases chunks, 0
  {
    if chunks == [] then (if rows == 0 then Ok([]) else Err(Invalid))
    else if chunks[0].rows > rows then Err(Invalid)
    else match ColumnValue(f, chunks[0], t, k)
         case Err(e) => Err(e)
         case Ok(first) =>
           match ColumnChunks(f, chunks[1..], t, k, rows - chunks[0].rows)
           case Err(e) => Err(e)
           case Ok(rest) => Ok(first + rest)
  }

  /** If the whole file decodes, a column on its own is that column of the file. */
  lemma {:induction false} ColumnOfWhole(f: File, l: Layout, t: Type, k: nat, start: nat)
    requires f.Valid() && k < |t.fields| && DecodeLayout(f, l, t).Ok?
    requires Project(DecodeLayout(f, l, t).value, k).Some? && FieldPlan(f, l, t, k, start).Ok?
    ensures ColumnValue(f, l, t, k) == Ok(Project(DecodeLayout(f, l, t).value, k).value)
    decreases l, 1
  {
    match l.id {
      case Struct =>
        ColumnAt(f, l.children, t.fields, l.rows, k);
        ProjectZip(DecodeColumns(f, l.children, t.fields, l.rows).value, l.rows, k);
      case Chunked => ColumnOfChunks(f, l.children, t, k, start, l.rows);
      case _ =>
    }
  }

  lemma {:induction false} ColumnOfChunks(f: File, chunks: seq<Layout>, t: Type, k: nat, start: nat, rows: nat)
    requires f.Valid() && k < |t.fields| && DecodeChunks(f, chunks, t, rows).Ok?
    requires Project(DecodeChunks(f, chunks, t, rows).value, k).Some?
    requires FieldChunkPlans(f, chunks, t, k, start, rows).Ok?
    ensures ColumnChunks(f, chunks, t, k, rows) == Ok(Project(DecodeChunks(f, chunks, t, rows).value, k).value)
    decreases chunks, 0
  {
    hide FieldPlan, File.Valid, DecodeLayout, ColumnValue, Project;
    if chunks == [] {
      assert Project([], k) == Some([]);
    } else {
      var first := DecodeLayout(f, chunks[0], t).value;
      var rest := DecodeChunks(f, chunks[1..], t, rows - chunks[0].rows).value;
      ProjectConcat(first, rest, k);
      ColumnOfWhole(f, chunks[0], t, k, start);
      ColumnOfChunks(f, chunks[1..], t, k, start + chunks[0].rows, rows - chunks[0].rows);
    }
  }

  /** Streaming refines the recursive reader, for a column of the file: the pieces of
      field `k` give the column, even if other columns of the file do not decode. */
  lemma {:induction false} FieldPlanRefines(f: File, l: Layout, t: Type, k: nat, start: nat)
    requires f.Valid() && k < |t.fields| && FieldPlan(f, l, t, k, start).Ok? && ColumnValue(f, l, t, k).Ok?
    ensures PlanValue(f, FieldPlan(f, l, t, k, start).value.pieces) == ColumnValue(f, l, t, k)
    decreases l, 1
  {
    match l.id {
      case Struct => ScalarPlanRefines(f, l.children[k], t.fields[k], start);
      case Chunked => FieldChunkPlansRefine(f, l.children, t, k, start, l.rows);
      case Flat =>
        var piece := Piece(start, start + l.rows, l, t, Some(k), None, t);
        var a := Project(f.flat(l, t).value, k).value;
        assert PieceValue(f, piece) == Ok(a) && a + [] == a;
        assert PlanValue(f, [piece][1..]) == Ok([]);
      case _ =>
    }
  }

  lemma {:induction false} FieldChunkPlansRefine(f: File, chunks: seq<Layout>, t: Type, k: nat, start: nat, rows: nat)
    requires f.Valid() && k < |t.fields| && FieldChunkPlans(f, chunks, t, k, start, rows).Ok?
    requires ColumnChunks(f, chunks, t, k, rows).Ok?
    ensures PlanValue(f, FieldChunkPlans(f, chunks, t, k, start, rows).value.pieces)
            == ColumnChunks(f, chunks, t, k, rows)
    decreases chunks, 0
  {
    hide FieldPlan, PieceValue, File.Valid, ColumnValue;
    if chunks != [] {
      var middle := start + chunks[0].rows;
      FieldPlanRefines(f, chunks[0], t, k, start);
      FieldChunkPlansRefine(f, chunks[1..], t, k, middle, rows - chunks[0].rows);
      PlanValueConcat(f, FieldPlan(f, chunks[0], t, k, start).value.pieces,
                      FieldChunkPlans(f, chunks[1..], t, k, middle, rows - chunks[0].rows).value.pieces);
    }
  }
}
