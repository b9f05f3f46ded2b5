/** Tri-state helpers: a tolerance gate on a real and the consensus of a
    collection of optional booleans (yes / no / undetermined). */
module TriState {

  import opened Wrappers

  /** The gate passes x through unchanged when x <= e and yields no value
      once x exceeds the cutoff e. */
  function Bounding(x: real, e: real): (r: Option<real>)
    ensures r.Some? <==> x <= e
    ensures r.Some? ==> r.value == x
  {
    if x > e then None else Some(x)
  }

  /** Raising the cutoff never discards a value that passed the gate,
      and lowering it never lets through one that failed. */
  lemma BoundingMonotone(x: real, e: real, e': real)
    requires e <= e'
    ensures Bounding(x, e).Some? ==> Bounding(x, e') == Bounding(x, e)
    ensures Bounding(x, e').None? ==> Bounding(x, e).None?
  {
  }

  /** Every element of g is present and equal to v, and there is at least one. */
  predicate Unanimous(g: seq<Option<bool>>, v: bool)
  {
    |g| > 0 && forall k :: 0 <= k < |g| ==> g[k] == Some(v)
  }

  /** A verdict exists exactly when g is non-empty, holds no undetermined
      element and no two of its elements disagree. */
  lemma UnanimousIff(g: seq<Option<bool>>)
    ensures (exists v :: Unanimous(g, v)) <==>
            (|g| > 0 && (forall k :: 0 <= k < |g| ==> g[k].Some?) &&
             (forall j, k :: 0 <= j < |g| && 0 <= k < |g| ==> g[j] == g[k]))
  {
    if |g| > 0 && (forall k :: 0 <= k < |g| ==> g[k].Some?) &&
       (forall j, k :: 0 <= j < |g| && 0 <= k < |g| ==> g[j] == g[k]) {
      assert Unanimous(g, g[0].value);
    }
  }

  /** Small cases: no verdict for an empty collection, for an undetermined
      element, or for a disagreement; a verdict for two equal booleans. */
  lemma UnanimousExamples()
    ensures forall v :: !Unanimous([], v)
    ensures forall v :: !Unanimous([None], v)
    ensures forall v :: !Unanimous([Some(true), Some(false)], v)
    ensures Unanimous([Some(true), Some(true)], true)
  {
    forall v ensures !Unanimous([None], v) {
      var g: seq<Option<bool>> := [None];
      assert g[0] == None;
    }
    forall v ensures !Unanimous([Some(true), Some(false)], v) {
      var g := [Some(true), Some(false)];
      assert g[0] == Some(true) && g[1] == Some(false);
    }
  }

  /** Scans g once, keeping the verdict seen so far ("prejudice"); stops with
      no value at the first undetermined element or the first element that
      contradicts the verdict. */
  method Agreement(g: seq<Option<bool>>) returns (r: Option<bool>)
    ensures r.Some? ==> Unanimous(g, r.value)
    ensures r.None? ==> forall v :: !Unanimous(g, v)
  {
    var prejudice: Option<bool> := None;
    for i := 0 to |g|
      invariant prejudice.None? <==> i == 0
      invariant forall k :: 0 <= k < i ==> g[k] == prejudice
    {
      var b := g[i];
      if b.None? {
        return None;
      }
      if prejudice == Some(!b.value) {
        assert g[0] == prejudice;
        return None;
      }
      assert prejudice.Some? ==> prejudice.value == b.value;
      prejudice := b;
    }
    return prejudice;
  }

}
