/** Measurement by a given draw `r`: walk the keys in canonical order accumulating the Born
    weights |amp|^2, and collapse onto the first key at which the running total exceeds `r`. */
module Measurement {
  import opened ComplexNumbers
  import opened Registers
  import opened CanonicalOrder

  /** The accumulated probability weight of the listed states. */
  function Mass(m: Register, ks: seq<string>): (p: real)
    ensures 0.0 <= p
    decreases |ks|
  {
    if ks == [] then 0.0
    else Mass(m, ks[..|ks| - 1]) + MagSq(Lookup(m, ks[|ks| - 1]))
  }

  /** Extending the list by one state adds that state's weight. */
  lemma MassStep(m: Register, ks: seq<string>, i: nat)
    requires i < |ks|
    ensures Mass(m, ks[..i + 1]) == Mass(m, ks[..i]) + MagSq(Lookup(m, ks[i]))
  {
    assert ks[..i + 1][..i] == ks[..i];
  }

  /** The running total never decreases along the list. */
  lemma {:induction false} MassMonotone(m: Register, ks: seq<string>, i: nat, j: nat)
    requires i <= j <= |ks|
    ensures Mass(m, ks[..i]) <= Mass(m, ks[..j])
    decreases j - i
  {
    if i < j {
      MassStep(m, ks, i);
      MassMonotone(m, ks, i + 1, j);
    }
  }

  /** The first position at or after `i` where the running total exceeds `r`, or `|ks|` when the
      total never does. */
  function FirstAbove(m: Register, ks: seq<string>, r: real, i: nat): (j: nat)
    requires i <= |ks|
    ensures i <= j <= |ks|
    ensures j < |ks| ==> r < Mass(m, ks[..j + 1])
    ensures forall q :: i < q <= j ==> Mass(m, ks[..q]) <= r
    decreases |ks| - i
  {
    if i == |ks| then |ks|
    else if r < Mass(m, ks[..i + 1]) then i
    else FirstAbove(m, ks, r, i + 1)
  }

  /** The outcome of a measurement and the register it leaves behind. */
  datatype Observation = Observation(outcome: string, after: Register)

  /** `collapse_to_measurement` with the draw `r`: the first state in canonical order whose
      running total exceeds `r`, the register collapsed onto it; when no running total exceeds
      `r`, the last state in canonical order (or "" for an empty register) with the register
      left as it was. */
  function Measure(m: Register, r: real): Observation {
    var ks := SortedKeys(m.Keys);
    var j := FirstAbove(m, ks, r, 0);
    if j < |ks| then Observation(ks[j], map[ks[j] := One])
    else if ks == [] then Observation("", m)
    else Observation(ks[|ks| - 1], m)
  }

  /** The search stops at position `i` exactly when `r` falls in the interval
      [Mass(first i states), Mass(first i+1 states)). */
  lemma FirstAboveInterval(m: Register, ks: seq<string>, r: real, i: nat)
    requires 0.0 <= r && i < |ks|
    ensures FirstAbove(m, ks, r, 0) == i <==> Mass(m, ks[..i]) <= r < Mass(m, ks[..i + 1])
  {
    var j := FirstAbove(m, ks, r, 0);
    assert ks[..0] == [];
    if Mass(m, ks[..i]) <= r < Mass(m, ks[..i + 1]) && j < i {
      MassMonotone(m, ks, j + 1, i);
    }
  }

  /** A draw below the total weight of the list stops the search inside the list. */
  lemma FirstAboveFound(m: Register, ks: seq<string>, r: real)
    requires 0.0 <= r < Mass(m, ks)
    ensures FirstAbove(m, ks, r, 0) < |ks|
  {
    assert ks[..|ks|] == ks;
  }

  /** A draw at or above the total weight of the list runs the search to its end. */
  lemma FirstAboveExhausted(m: Register, ks: seq<string>, r: real)
    requires Mass(m, ks) <= r
    ensures FirstAbove(m, ks, r, 0) == |ks|
  {
    var j := FirstAbove(m, ks, r, 0);
    assert ks[..|ks|] == ks;
    if j < |ks| {
      MassMonotone(m, ks, j + 1, |ks|);
    }
  }

  /** The i-th state in canonical order is chosen exactly when `r` falls in its interval
      [Mass(first i states), Mass(first i+1 states)): such a draw collapses onto it, and a
      collapse onto it happens only for such a draw. */
  lemma MeasurementInterval(m: Register, r: real, i: nat)
    requires 0.0 <= r && i < |SortedKeys(m.Keys)|
    ensures var ks := SortedKeys(m.Keys);
      Mass(m, ks[..i]) <= r < Mass(m, ks[..i + 1]) ==>
        Measure(m, r) == Observation(ks[i], map[ks[i] := One])
    ensures var ks := SortedKeys(m.Keys);
      r < Mass(m, ks) && Measure(m, r).outcome == ks[i] ==>
        Mass(m, ks[..i]) <= r < Mass(m, ks[..i + 1])
  {
    var ks := SortedKeys(m.Keys);
    FirstAboveInterval(m, ks, r, i);
    if r < Mass(m, ks) {
      FirstAboveFound(m, ks, r);
      DistinctPositions(ks, FirstAbove(m, ks, r, 0), i);
    }
  }

  /** Distinct positions of a strictly increasing listing hold distinct states. */
  lemma DistinctPositions(ks: seq<string>, i: nat, j: nat)
    requires StrictlyIncreasing(ks) && i < |ks| && j < |ks|
    ensures ks[i] == ks[j] ==> i == j
  {
    if i < j || j < i {
      LexLessIrreflexive(ks[i]);
    }
  }

  /** A draw in [0, total weight) always collapses the register onto one stored state. */
  lemma MeasurementCollapses(m: Register, r: real)
    requires 0.0 <= r < Mass(m, SortedKeys(m.Keys))
    ensures Measure(m, r).outcome in m
    ensures Measure(m, r).after == map[Measure(m, r).outcome := One]
  {
    FirstAboveFound(m, SortedKeys(m.Keys), r);
  }

  /** A draw at or above the total weight leaves the register unchanged and reports the last
      state in canonical order, or "" when nothing is stored. */
  lemma MeasurementFallback(m: Register, r: real)
    requires Mass(m, SortedKeys(m.Keys)) <= r
    ensures Measure(m, r).after == m
    ensures m == map[] ==> Measure(m, r).outcome == ""
    ensures m != map[] ==> Measure(m, r).outcome in m
    ensures m != map[] ==>
      Measure(m, r).outcome == SortedKeys(m.Keys)[|SortedKeys(m.Keys)| - 1]
  {
    var ks := SortedKeys(m.Keys);
    FirstAboveExhausted(m, ks, r);
    if m != map[] {
      var k :| k in m;
      assert k in ks;
    }
  }

  /** A collapse never lands on a state of zero amplitude. */
  lemma OutcomeHasWeight(m: Register, r: real)
    requires 0.0 <= r < Mass(m, SortedKeys(m.Keys))
    ensures 0.0 < MagSq(Lookup(m, Measure(m, r).outcome))
  {
    var ks := SortedKeys(m.Keys);
    FirstAboveFound(m, ks, r);
    var j := FirstAbove(m, ks, r, 0);
    FirstAboveInterval(m, ks, r, j);
    MassStep(m, ks, j);
  }
}
