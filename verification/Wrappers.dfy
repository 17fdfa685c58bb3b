/** Optional values and results, in place of Go's nil and error returns, and what
    several components share. */
module Wrappers {

  datatype Option<+T> = None | Some(value: T)

  datatype Result<+T, +E> = Ok(value: T) | Err(error: E)

  function Max(a: nat, b: nat): nat { if a < b then b else a }

  function Min(a: nat, b: nat): nat { if a < b then a else b }

  /** One list after the other, unless one of them was rejected. */
  function Append<T>(a: Option<seq<T>>, b: Option<seq<T>>): Option<seq<T>> {
    if a.Some? && b.Some? then Some(a.value + b.value) else None
  }

  lemma {:induction false} AppendAssoc<T>(a: seq<T>, b: Option<seq<T>>, c: Option<seq<T>>)
    ensures Append(Some(a), Append(b, c)) == Append(Append(Some(a), b), c)
  {
    if b.Some? && c.Some? { assert a + (b.value + c.value) == (a + b.value) + c.value; }
  }

  lemma {:induction false} AppendEmpty<T>(b: Option<seq<T>>)
    ensures Append(Some([]), b) == b
  {
    if b.Some? { assert [] + b.value == b.value; }
  }

  lemma {:induction false} AppendNothing<T>(a: seq<T>)
    ensures Append(Some(a), Some([])) == Some(a)
  {
    assert a + [] == a;
  }
}
