/** Patches as a map override: where some index names a row, the row is that patch. */
module Overrides {

  /** Strictly sorted absolute indices inside the slice [off, off + n). */
  predicate Placed(idx: seq<nat>, off: nat, n: nat) {
    && (forall k | 0 <= k < |idx| :: off <= idx[k] < off + n)
    && (forall j, k | 0 <= j < k < |idx| :: idx[j] < idx[k])
  }

  /** One of the first `limit` patches is for row `i`. */
  ghost predicate Hit(idx: seq<nat>, off: nat, limit: nat, i: nat)
    requires limit <= |idx|
  {
    exists k: nat :: k < limit && idx[k] == off + i
  }

  ghost function HitBy(idx: seq<nat>, off: nat, i: nat): (k: nat)
    requires Hit(idx, off, |idx|, i)
    ensures k < |idx| && idx[k] == off + i
  {
    var k: nat :| k < |idx| && idx[k] == off + i;
    k
  }

  /** The patch of a row's index, or else what was there before. */
  ghost function Override<T>(was: seq<T>, idx: seq<nat>, vals: seq<T>, off: nat): (rows: seq<T>)
    requires |vals| == |idx|
    ensures |rows| == |was|
  {
    seq(|was|, i requires 0 <= i < |was| => if Hit(idx, off, |idx|, i) then vals[HitBy(idx, off, i)] else was[i])
  }

  /** The rows that a loop over sorted patches establishes are the override. */
  lemma {:induction false} OverrideIs<T>(rows: seq<T>, was: seq<T>, idx: seq<nat>, vals: seq<T>, off: nat)
    requires |vals| == |idx| && OverriddenTo(rows, was, idx, vals, off, |idx|)
    ensures rows == Override(was, idx, vals, off)
  {
    hide Hit;
    forall i: nat | i < |was| ensures rows[i] == Override(was, idx, vals, off)[i] {
      if Hit(idx, off, |idx|, i) { assert idx[HitBy(idx, off, i)] - off == i; }
    }
  }

  /** The rows after the first `limit` patches. */
  ghost predicate OverriddenTo<T>(rows: seq<T>, was: seq<T>, idx: seq<nat>, vals: seq<T>, off: nat, limit: nat)
    requires |vals| == |idx| && limit <= |idx|
  {
    && |rows| == |was|
    && (forall k: nat | k < limit :: off <= idx[k] < off + |rows| && rows[idx[k] - off] == vals[k])
    && (forall i: nat | i < |rows| && !Hit(idx, off, limit, i) :: rows[i] == was[i])
  }

  lemma {:induction false} OverrideStart<T>(was: seq<T>, idx: seq<nat>, vals: seq<T>, off: nat)
    requires |vals| == |idx|
    ensures OverriddenTo(was, was, idx, vals, off, 0)
  {
  }

  lemma {:induction false} OverrideStep<T>(rows: seq<T>, was: seq<T>, idx: seq<nat>, vals: seq<T>, off: nat, i: nat)
    requires |vals| == |idx| && i < |idx| && OverriddenTo(rows, was, idx, vals, off, i)
    requires off <= idx[i] < off + |was| && forall k: nat | k < i :: idx[k] < idx[i]
    ensures OverriddenTo(rows[idx[i] - off := vals[i]], was, idx, vals, off, i + 1)
  {
    hide Hit;
    forall k: nat | k < |was| && !Hit(idx, off, i + 1, k)
      ensures rows[idx[i] - off := vals[i]][k] == was[k]
    {
      HitStep(idx, off, i, k);
    }
  }

  lemma {:induction false} HitStep(idx: seq<nat>, off: nat, i: nat, k: nat)
    requires i < |idx| && !Hit(idx, off, i + 1, k)
    ensures !Hit(idx, off, i, k) && idx[i] != off + k
  {
  }

  /** The same patches, whatever their order in the list. */
  ghost predicate SamePatches<T>(idx: seq<nat>, vals: seq<T>, idx': seq<nat>, vals': seq<T>)
    requires |vals| == |idx| && |vals'| == |idx'|
  {
    && (forall k: nat | k < |idx| :: exists j: nat | j < |idx'| :: idx'[j] == idx[k] && vals'[j] == vals[k])
    && (forall j: nat | j < |idx'| :: idx'[j] in idx)
  }

  predicate Distinct(idx: seq<nat>) { forall j, k | 0 <= j < k < |idx| :: idx[j] != idx[k] }

  /** In whatever order distinct patches are listed, they override the same rows. */
  lemma {:induction false} PatchOrderIrrelevant<T>(was: seq<T>, idx: seq<nat>, vals: seq<T>, idx': seq<nat>,
                                                   vals': seq<T>, off: nat)
    requires |vals| == |idx| && |vals'| == |idx'| && SamePatches(idx, vals, idx', vals') && Distinct(idx')
    ensures Override(was, idx, vals, off) == Override(was, idx', vals', off)
  {
    hide Hit;
    forall i: nat | i < |was|
      ensures Override(was, idx, vals, off)[i] == Override(was, idx', vals', off)[i]
    {
      SameHits(idx, vals, idx', vals', off, i);
      if Hit(idx, off, |idx|, i) {
        var k, j' := HitBy(idx, off, i), HitBy(idx', off, i);
        var j: nat :| j < |idx'| && idx'[j] == idx[k] && vals'[j] == vals[k];
      }
    }
  }

  lemma {:induction false} SameHits<T>(idx: seq<nat>, vals: seq<T>, idx': seq<nat>, vals': seq<T>, off: nat, i: nat)
    requires |vals| == |idx| && |vals'| == |idx'| && SamePatches(idx, vals, idx', vals')
    ensures Hit(idx, off, |idx|, i) <==> Hit(idx', off, |idx'|, i)
  {
    if Hit(idx, off, |idx|, i) {
      var k := HitBy(idx, off, i);
      var j: nat :| j < |idx'| && idx'[j] == idx[k];
    }
    if Hit(idx', off, |idx'|, i) {
      var j := HitBy(idx', off, i);
      assert idx'[j] in idx;
    }
  }
}
