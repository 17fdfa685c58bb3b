/** Opening a scan by names: the selected columns and the predicates name fields of the
    file's schema, and a comparison is a number. */
module ScanOptions {
  import opened Wrappers
  import opened Layouts
  import opened Zones
  import opened Scan
  import opened Runs

  datatype NamedPredicate = NamedPredicate(column: string, op: nat, value: int64)

  /** `columns`: no list means all columns. */
  datatype Options = Options(columns: Option<seq<string>>, predicates: seq<NamedPredicate>, batchSize: int)

  const OPS: seq<Op> := [EQ, NEQ, GT, GTE, LT, LTE]

  /** The six comparisons by their numbers; a null only differs from a value. */
  lemma {:induction false} Comparisons(op: nat, x: int64, v: int64)
    requires op < |OPS|
    ensures Matches(Predicate(OPS[op], x), Int(v))
            <==> (op == 0 && v == x) || (op == 1 && v != x) || (op == 2 && x < v) || (op == 3 && x <= v)
                 || (op == 4 && v < x) || (op == 5 && v <= x)
    ensures Matches(Predicate(OPS[op], x), Null) <==> op == 1
  {
  }

  /** Field `k` is the only one with the name. */
  predicate Names(names: seq<string>, name: string, k: nat) {
    k < |names| && names[k] == name && forall j | 0 <= j < |names| && names[j] == name :: j == k
  }

  /** The field of a name that is neither unknown nor ambiguous. */
  ghost function FieldOf(names: seq<string>, name: string): (r: Option<nat>)
    ensures r.Some? ==> Names(names, name, r.value)
    ensures r.None? ==> forall k: nat :: !Names(names, name, k)
  {
    if exists k: nat :: Names(names, name, k) then var k: nat :| Names(names, name, k); Some(k) else None
  }

  /** `FieldIndices` and the test that it finds one index. */
  method FindField(names: seq<string>, name: string) returns (r: Option<nat>)
    ensures r == FieldOf(names, name)
  {
    var found, count := 0, 0;
    for i := 0 to |names|
      invariant found <= i && (count == 0 <==> forall j | 0 <= j < i :: names[j] != name)
      invariant count == 1 <==> Names(names[..i], name, found)
      invariant count > 0 ==> found < i && names[found] == name
    {
      if names[i] == name {
        found := if count == 0 then i else found;
        count := count + 1;
      }
    }
    assert names[..|names|] == names;
    if count == 1 {
      assert Names(names, name, found);
      return Some(found);
    }
    forall k: nat ensures !Names(names, name, k) {
      if Names(names, name, k) { assert false; }
    }
    r := None;
  }

  /** A name that stands for a field whose layouts can be streamed. */
  ghost predicate Selectable(f: File, names: seq<string>, name: string) {
    FieldOf(names, name).Some? && Plannable(f, FieldOf(names, name).value)
  }

  /** A predicate with a comparison that exists and a column that can be streamed. */
  ghost predicate Usable(f: File, names: seq<string>, p: NamedPredicate) {
    p.op < |OPS| && Selectable(f, names, p.column)
  }

  function Wanted(names: seq<string>, o: Options): seq<string> {
    if o.columns.None? then names else o.columns.value
  }

  ghost function Fields(names: seq<string>, wanted: seq<string>): (fields: seq<nat>)
    requires forall name | name in wanted :: FieldOf(names, name).Some?
    ensures |fields| == |wanted|
  {
    seq(|wanted|, i requires 0 <= i < |wanted| => FieldOf(names, wanted[i]).value)
  }

  ghost function Indexed(names: seq<string>, preds: seq<NamedPredicate>): (r: seq<(nat, Predicate)>)
    requires forall p | p in preds :: p.op < |OPS| && FieldOf(names, p.column).Some?
    ensures |r| == |preds|
  {
    seq(|preds|, i requires 0 <= i < |preds| =>
      (FieldOf(names, preds[i].column).value, Predicate(OPS[preds[i].op], preds[i].value)))
  }

  method FindFields(names: seq<string>, wanted: seq<string>) returns (r: Option<seq<nat>>)
    ensures r.Some? <==> forall name | name in wanted :: FieldOf(names, name).Some?
    ensures r.Some? ==> r.value == Fields(names, wanted)
  {
    hide FieldOf;
    var fields: seq<nat> := [];
    for i := 0 to |wanted|
      invariant |fields| == i && forall j | 0 <= j < i :: FieldOf(names, wanted[j]) == Some(fields[j])
    {
      var k := FindField(names, wanted[i]);
      if k.None? { return None; }
      fields := fields + [k.value];
    }
    r := Some(fields);
  }

  method FindPredicates(names: seq<string>, preds: seq<NamedPredicate>) returns (r: Option<seq<(nat, Predicate)>>)
    ensures r.Some? <==> forall p | p in preds :: p.op < |OPS| && FieldOf(names, p.column).Some?
    ensures r.Some? ==> r.value == Indexed(names, preds)
  {
    hide FieldOf;
    var out: seq<(nat, Predicate)> := [];
    for i := 0 to |preds|
      invariant |out| == i && forall j | 0 <= j < i :: preds[j].op < |OPS| && FieldOf(names, preds[j].column).Some?
      invariant forall j | 0 <= j < i ::
                  out[j] == (FieldOf(names, preds[j].column).value, Predicate(OPS[preds[j].op], preds[j].value))
    {
      if preds[i].op >= |OPS| { return None; }
      var k := FindField(names, preds[i].column);
      if k.None? { return None; }
      out := out + [(k.value, Predicate(OPS[preds[i].op], preds[i].value))];
    }
    r := Some(out);
  }

  /** `NewRecordReader`: fails exactly for a negative batch size, an unknown or ambiguous
      name, an invalid comparison, or a column that cannot be streamed; otherwise reads
      the named columns from row 0, with the predicates on signed integer columns. */
  method Open(f: File, names: seq<string>, o: Options) returns (r: RecordReader?, err: Option<Error>)
    requires f.Valid() && |names| == |f.dtype.fields|
    ensures r == null <==> err.Some?
    ensures err.None? <==> && o.batchSize >= 0 && (forall name | name in Wanted(names, o) :: Selectable(f, names, name))
                           && (forall p | p in o.predicates :: Usable(f, names, p))
    ensures r != null ==>
      && fresh(r) && fresh(r.Cursors()) && fresh(r.ZoneRefs())
      && r.file == f && r.Valid() && r.pos == 0 && r.err.None? && r.rows == f.root.rows
      && r.batchSize == (if o.batchSize == 0 then DEFAULT_BATCH else o.batchSize)
      && |r.columns| == |Wanted(names, o)|
      && (forall i | 0 <= i < |r.columns| ::
            && Selectable(f, names, Wanted(names, o)[i])
            && CursorOf(f, r.columns[i], FieldOf(names, Wanted(names, o)[i]).value))
      && (forall p | p in o.predicates :: Usable(f, names, p))
      && var preds := Indexed(names, o.predicates);
         && (forall j | 0 <= j < |preds| :: preds[j].0 < |f.dtype.fields|)
         && var kept := Kept(f, preds);
            |r.predicates| == |kept| && forall j | 0 <= j < |kept| ::
              r.predicates[j].predicate_ == kept[j].1 && ZonesOf(f, r.predicates[j].zones, kept[j].0)
  {
    hide FieldOf, Plannable, Kept, ZonesOf, CursorOf, RecordReader.Valid;
    if o.batchSize < 0 { return null, Some(Invalid); }
    var wanted := Wanted(names, o);
    var fields := FindFields(names, wanted);
    if fields.None? { return null, Some(Invalid); }
    var preds := FindPredicates(names, o.predicates);
    if preds.None? { return null, Some(Invalid); }
    r, err := NewRecordReader(f, fields.value, preds.value, o.batchSize);
    ghost var all := fields.value;
    assert forall i | 0 <= i < |wanted| :: Plannable(f, all[i]) <==> Selectable(f, names, wanted[i]);
    assert forall j | 0 <= j < |preds.value| ::
        Plannable(f, preds.value[j].0) <==> Usable(f, names, o.predicates[j]);
  }
}
