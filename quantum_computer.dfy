/** The simulator object: a register of `numQubits` qubits held as a sparse map from basis state
    to amplitude, updated in place by gates, the controlled-NOT and measurement. */
module Simulator {
  import opened ComplexNumbers
  import opened BasisStates
  import opened Registers
  import opened CanonicalOrder
  import opened GateApplication
  import opened Entanglement
  import opened Measurement

  class QuantumComputer {
    const numQubits: nat
    var amplitudes: Register

    /** Every stored key is a basis state of the register. */
    ghost predicate Valid()
      reads this
    {
      WellFormed(amplitudes, numQubits)
    }

    /** A new register holds only the all-zero state, with amplitude 1. */
    constructor(numQubits: nat)
      ensures this.numQubits == numQubits
      ensures amplitudes == map[Zeros(numQubits) := One]
      ensures Valid()
    {
      this.numQubits := numQubits;
      amplitudes := map[];
      new;
      var initialState := Zeros(numQubits);
      amplitudes := amplitudes[initialState := One];
    }

    /** The stored amplitude of a state, zero when the state is absent. */
    function GetAmplitude(basisState: string): (c: Complex)
      reads this
      ensures basisState in amplitudes ==> c == amplitudes[basisState]
      ensures basisState !in amplitudes ==> c == Zero
    {
      Lookup(amplitudes, basisState)
    }

    /** Applies a single-qubit gate to qubit `targetQubit`. */
    method ApplyGate(gate: Gate, targetQubit: nat)
      requires Valid() && targetQubit < numQubits
      modifies this
      ensures Valid()
      ensures amplitudes == GateApplied(old(amplitudes), gate, targetQubit)
    {
      GatePreservesWellFormed(amplitudes, gate, targetQubit, numQubits);
      var nextAmplitudes := NextAmplitudes(amplitudes, gate, targetQubit);
      amplitudes := nextAmplitudes;
    }

    /** The controlled-NOT with control `controlQubit` and target `targetQubit`: collect the
        pairs, then swap the amplitudes of each pair in place. */
    method EntangleQubits(controlQubit: nat, targetQubit: nat)
      requires Valid() && controlQubit < numQubits && targetQubit < numQubits
      requires controlQubit != targetQubit
      modifies this
      ensures Valid()
      ensures amplitudes == Cnot(old(amplitudes), controlQubit, targetQubit)
    {
      CnotPreservesWellFormed(amplitudes, controlQubit, targetQubit, numQubits);
      var statesToSwap := SwapPairs(amplitudes, controlQubit, targetQubit);
      ghost var before := amplitudes;
      for i := 0 to |statesToSwap|
        invariant amplitudes == ApplySwaps(before, statesToSwap[..i])
      {
        SwapsStep(before, statesToSwap, i);
        var stateA := statesToSwap[i].0;
        var stateB := statesToSwap[i].1;
        var ampA := GetAmplitude(stateA);
        var ampB := GetAmplitude(stateB);
        amplitudes := amplitudes[stateA := ampB];
        amplitudes := amplitudes[stateB := ampA];
      }
      assert statesToSwap[..|statesToSwap|] == statesToSwap;
      SwapsImplementCnot(before, controlQubit, targetQubit, statesToSwap);
    }

    /** Measures the register with the draw `rand` in [0, 1): walks the states in canonical
        order accumulating |amp|^2 and collapses onto the first state where the running total
        exceeds the draw; otherwise reports the last state (or "") without collapsing. */
    method CollapseToMeasurement(rand: real) returns (outcome: string)
      requires Valid() && 0.0 <= rand < 1.0
      modifies this
      ensures Valid()
      ensures outcome == Measure(old(amplitudes), rand).outcome
      ensures amplitudes == Measure(old(amplitudes), rand).after
    {
      var cumulativeProb := 0.0;
      var sortedStates := SortedKeys(amplitudes.Keys);
      ghost var m := amplitudes;
      for i := 0 to |sortedStates|
        invariant amplitudes == m
        invariant cumulativeProb == Mass(m, sortedStates[..i])
        invariant FirstAbove(m, sortedStates, rand, 0) == FirstAbove(m, sortedStates, rand, i)
      {
        var basisState := sortedStates[i];
        cumulativeProb := cumulativeProb + MagSq(amplitudes[basisState]);
        MassStep(m, sortedStates, i);
        if rand < cumulativeProb {
          amplitudes := map[basisState := One];
          return basisState;
        }
      }
      outcome := if |sortedStates| > 0 then sortedStates[|sortedStates| - 1] else "";
    }
  }

  // The driver scenario: two qubits, Hadamard on qubit 0, controlled-NOT 0 -> 1, measurement.

  /** Runs the driver on a fresh two-qubit register with `h` standing for 1/sqrt(2) and the draw
      `rand`: a draw below 1/2 yields "00", any other draw "11", and the register is left holding
      only the outcome. */
  method EntangledPairScenario(h: real, rand: real) returns (outcome: string, finalState: Register)
    requires h * h == 0.5 && 0.0 <= rand < 1.0
    ensures rand < 0.5 ==> outcome == "00"
    ensures 0.5 <= rand ==> outcome == "11"
    ensures finalState == map[outcome := One]
  {
    var computer := new QuantumComputer(2);
    DriverSuperposed(h);
    computer.ApplyGate(Hadamard(h), 0);
    DriverEntangled(h);
    computer.EntangleQubits(0, 1);
    DriverMeasurement(h, rand);
    outcome := computer.CollapseToMeasurement(rand);
    finalState := computer.amplitudes;
  }

  /** Hadamard on qubit 0 of the fresh register "00" gives "00" and "10" with amplitude h each. */
  lemma DriverSuperposed(h: real)
    requires h * h == 0.5
    ensures GateApplied(map[Zeros(2) := One], Hadamard(h), 0) ==
      map["00" := Complex(h, 0.0), "10" := Complex(h, 0.0)]
  {
    assert Zeros(2) == "00" by {
      assert Zeros(2)[0] == '0' && Zeros(2)[1] == '0';
    }
    HadamardSuperposes("00", 0, h);
    assert Flip("00", 0) == "10";
  }

  /** After the Hadamard, the controlled-NOT moves the amplitude of "10" to "11" and leaves an
      entry of value zero at "10". */
  lemma DriverEntangled(h: real)
    ensures CnotArgs(map["00" := Complex(h, 0.0), "10" := Complex(h, 0.0)], 0, 1)
    ensures Cnot(map["00" := Complex(h, 0.0), "10" := Complex(h, 0.0)], 0, 1) ==
      map["00" := Complex(h, 0.0), "10" := Zero, "11" := Complex(h, 0.0)]
  {
    var m := map["00" := Complex(h, 0.0), "10" := Complex(h, 0.0)];
    var e := map["00" := Complex(h, 0.0), "10" := Zero, "11" := Complex(h, 0.0)];
    assert CnotArgs(m, 0, 1);
    var a := Cnot(m, 0, 1);
    assert Flip("10", 1) == "11";
    CnotSwaps(m, 0, 1, "10");
    CnotControlZero(m, 0, 1, "00");
    forall k | k in a
      ensures k in e
    {
      if k !in m {
        FlipInvolutive(k, 1);
      }
    }
    SameLookups(a, e);
  }

  /** The measurement of the driver's final register: "00" for a draw below 1/2, else "11". */
  lemma DriverMeasurement(h: real, r: real)
    requires h * h == 0.5 && 0.0 <= r < 1.0
    ensures var outcome := if r < 0.5 then "00" else "11";
      Measure(map["00" := Complex(h, 0.0), "10" := Zero, "11" := Complex(h, 0.0)], r) ==
        Observation(outcome, map[outcome := One])
  {
    var m := map["00" := Complex(h, 0.0), "10" := Zero, "11" := Complex(h, 0.0)];
    assert MagSq(Complex(h, 0.0)) == 0.5;
    DriverOrder(m);
    DriverMass(m, h);
    if r < 0.5 {
      MeasurementInterval(m, r, 0);
    } else {
      MeasurementInterval(m, r, 2);
    }
  }

  lemma DriverOrder(m: Register)
    requires m.Keys == {"00", "10", "11"}
    ensures SortedKeys(m.Keys) == ["00", "10", "11"]
  {
    var ks := ["00", "10", "11"];
    assert LexLess("00", "10") && LexLess("00", "11") && LexLess("10", "11");
    SortedKeysUnique(ks, m.Keys);
  }

  lemma DriverMass(m: Register, h: real)
    requires m == map["00" := Complex(h, 0.0), "10" := Zero, "11" := Complex(h, 0.0)]
    requires MagSq(Complex(h, 0.0)) == 0.5
    ensures var ks := ["00", "10", "11"];
      Mass(m, ks[..0]) == 0.0 && Mass(m, ks[..1]) == 0.5 && Mass(m, ks[..2]) == 0.5 && Mass(m, ks[..3]) == 1.0
  {
    var ks := ["00", "10", "11"];
    assert ks[..0] == [];
    MassStep(m, ks, 0);
    MassStep(m, ks, 1);
    MassStep(m, ks, 2);
  }
}
