/**
 * The bounds-checked subscript `subscript(safe:)` of `TaskApp.swift` that
 * the application adds to every mutable collection, here over a
 * zero-based collection of fixed length.
 */
module SafeIndex {
  import opened Wrappers

  /** The getter: the element at an index in range, and nothing otherwise. */
  function SafeGet<T>(s: seq<T>, i: int): (r: Option<T>)
    ensures r.Some? <==> 0 <= i < |s|
    ensures r.Some? ==> r.value == s[i]
  {
    if 0 <= i < |s| then Some(s[i]) else None
  }

  /**
   * The collection after the setter: the one element at an index in range
   * is replaced by a value that is there; a nil value or an index out of
   * range leaves every element as it was.
   */
  function Assigned<T>(s: seq<T>, i: int, v: Option<T>): (r: seq<T>)
    ensures |r| == |s|
    ensures forall k | 0 <= k < |s| && k != i :: r[k] == s[k]
    ensures 0 <= i < |s| && v.Some? ==> r[i] == v.value
    ensures !(0 <= i < |s| && v.Some?) ==> r == s
  {
    if 0 <= i < |s| && v.Some? then s[i := v.value] else s
  }

  /** The setter, in place on the elements. */
  method SafeSet<T>(a: array<T>, i: int, v: Option<T>)
    modifies a
    ensures a[..] == Assigned(old(a[..]), i, v)
  {
    if 0 <= i < a.Length && v.Some? {
      a[i] := v.value;
    }
  }

  /** Reading back after setting: the value set, or the old element when the value was nil, or nothing out of range. */
  lemma GetAfterSet<T>(s: seq<T>, i: int, v: Option<T>)
    ensures SafeGet(Assigned(s, i, v), i) == if 0 <= i < |s| then (if v.Some? then v else Some(s[i])) else None
  {
  }

  /** Setting one index leaves what the getter sees at every other index alone. */
  lemma GetOtherAfterSet<T>(s: seq<T>, i: int, k: int, v: Option<T>)
    requires k != i
    ensures SafeGet(Assigned(s, i, v), k) == SafeGet(s, k)
  {
  }

  /** Setting what the getter returned changes nothing. */
  lemma SetWhatWasGot<T>(s: seq<T>, i: int)
    ensures Assigned(s, i, SafeGet(s, i)) == s
  {
  }

  /** Setting twice at the same index with present values keeps only the second. */
  lemma SetTwice<T>(s: seq<T>, i: int, v: T, w: T)
    ensures Assigned(Assigned(s, i, Some(v)), i, Some(w)) == Assigned(s, i, Some(w))
  {
  }
}
