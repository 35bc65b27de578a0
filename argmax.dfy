/**
 * The "first maximum" selection shared by both rules: among the positions that
 * hold a value, the one with the largest value, the earliest on a tie.  It is the
 * left-to-right scan that keeps its candidate unless a later value is strictly
 * larger, which is what Python's `max` does and what the pegging loop does.
 */
module ArgMax {
  import opened Wrappers

  /** `k` holds a value, no value is larger, and every earlier value is smaller. */
  ghost predicate IsFirstMax(xs: seq<Option<int>>, k: int)
  {
    && 0 <= k < |xs|
    && xs[k].Some?
    && (forall i :: 0 <= i < |xs| && xs[i].Some? ==> xs[i].value <= xs[k].value)
    && (forall i :: 0 <= i < k && xs[i].Some? ==> xs[i].value < xs[k].value)
  }

  function FirstMax(xs: seq<Option<int>>): (r: Option<nat>)
    ensures r.None? <==> forall i :: 0 <= i < |xs| ==> xs[i].None?
    ensures r.Some? ==> IsFirstMax(xs, r.value)
    decreases |xs|
  {
    if |xs| == 0 then None
    else
      var k := FirstMax(xs[..|xs| - 1]);
      var last := xs[|xs| - 1];
      if last.Some? && (k.None? || last.value > xs[k.value].value) then Some(|xs| - 1) else k
  }

  /** Appending one value moves the first maximum only when that value is strictly larger. */
  lemma FirstMaxSnoc(xs: seq<Option<int>>, x: Option<int>)
    ensures FirstMax(xs + [x]) ==
      if x.Some? && (FirstMax(xs).None? || x.value > xs[FirstMax(xs).value].value)
      then Some(|xs|) else FirstMax(xs)
  {
    assert (xs + [x])[..|xs|] == xs;
  }

  /** The first maximum is unique: any position that is one is the one `FirstMax` finds. */
  lemma FirstMaxUnique(xs: seq<Option<int>>, k: int)
    requires IsFirstMax(xs, k)
    ensures FirstMax(xs) == Some(k)
  {
  }
}
