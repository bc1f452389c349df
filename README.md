# Sparse state-vector quantum simulator in Dafny

This project models `QuantumComputer` from `my_simulator.py`, a small quantum simulator. Its state
is a sparse register: a map from basis states to complex amplitudes. A basis state is a string of
`'0'`/`'1'` characters, and position `i` holds qubit `i`. A state that is not in the map has
amplitude zero. The class has these operations:

- construction, which stores the all-zero state with amplitude 1;
- `_get_amplitude`, a lookup where an absent state reads as zero;
- `apply_gate`, which applies a 2x2 matrix to one qubit. It builds a fresh map from per-row
  contributions and drops each single contribution whose magnitude is below `1e-9`;
- `entangle_qubits`, the controlled-NOT. It collects (state, partner) pairs once each and then
  swaps the two amplitudes of every pair in place;
- `collapse_to_measurement`, which walks the states in sorted order, adds up `|amp|^2`, and
  collapses onto the first state where the running total exceeds a random draw.

Modules, one per concern:

- `ComplexNumbers` (`complex_numbers.dfy`): complex numbers as pairs of exact reals, and the
  pruning test. `|c| < 1e-9` is written as `re*re + im*im < 1e-18`.
- `BasisStates` (`basis_states.dfy`): bit strings, replacing one position, flipping one position.
- `Registers` (`registers.dfy`): the register type, lookup with zero default, and well-formedness.
- `CanonicalOrder` (`canonical_order.dfy`): Python's string order and the sorted key list.
- `GateApplication` (`gate_application.dfy`): `apply_gate`. `NextAmplitudes` is the nested loop.
  It is proved equal to the closed form `GateApplied`, and the properties are proved about
  `GateApplied`. The helper `KeptContributions` lists the (source state, row) contributions that
  pass the pruning test; `GateApplied` sums them per output state.
- `Entanglement` (`entanglement.dfy`): `entangle_qubits`. `SwapPairs` is the first loop. The swap
  loop is specified by `ApplySwaps`. Both together are proved equal to the closed form `Cnot`.
- `Measurement` (`measurement.dfy`): running totals `Mass`, the first-crossing search
  `FirstAbove`, and the outcome function `Measure`.
- `Simulator` (`quantum_computer.dfy`): the class `QuantumComputer`. Its field `amplitudes` is
  updated in place by the methods. The module also holds the driver at the bottom of the file as a
  verified scenario.

The properties below are stated about these definitions. They carry no contract of their own, so
they have no row in the table:

- `Registers.Lookup` is `dict.get(s, 0j)` (my_simulator.py:35, 72, 99-100). `ComplexNumbers.Negligible`
  is the test `abs(c) < 1e-9` (my_simulator.py:60).
- `GateApplication.GateApplied` is the register that `apply_gate` builds (my_simulator.py:44-76). It
  sums, per output state, the contributions that pass the pruning test.
- `Entanglement.Cnot` is the register after `entangle_qubits` (my_simulator.py:78-102). A control-'1'
  state takes its partner's old amplitude, the partners are added as keys, and every other entry
  stays as it was.
- `Entanglement.ApplySwaps` is the swap loop (my_simulator.py:97-102) run over a given pair list.
- `Measurement.Measure` is the outcome and register of `collapse_to_measurement`
  (my_simulator.py:122-141), including the fallback.
- `GateApplication.Hadamard` and `GateApplication.PauliX` are the two gate constants
  (my_simulator.py:145-146). `Hadamard(h)` takes the entry `1/sqrt(2)` as the parameter `h`.
- `CanonicalOrder.LexLess` is Python's `<` on strings, the order behind `sorted` at
  my_simulator.py:131.

The comments in `my_simulator.py` describe the register as holding only states with non-zero
amplitude (line 47) and say that a negligible contribution need not be stored (line 59). The code
does not keep that invariant in every case, and the model follows the code:

- `apply_gate` prunes single contributions, not their sums. An exact cancellation therefore leaves
  an entry with value zero (`HadamardInterferes`, `HadamardTwice`).
- `entangle_qubits` writes both amplitudes of every pair. When the partner of a stored
  control-'1' state is absent, the partner receives the stored state's amplitude and the stored
  state receives zero, which stays as an explicit entry (`DriverEntangled`, `CnotTwice`). So the
  driver's register after the controlled-NOT is `{"00": h, "10": 0, "11": h}`, not only the two
  Bell states. A draw below the total weight never chooses a zero entry (`OutcomeHasWeight`). The
  fallback for a draw at or above the total weight can report one, since it reports the last
  sorted state whatever its amplitude (`MeasurementFallback`).
- The measurement fallback returns the last sorted state, or `""` for an empty register. It leaves
  the register as it was and does not collapse it.
- Qubit indices are not checked by the code. Out-of-range indices are preconditions here.

## Model

| member | source | states |
|---|---|---|
| Simulator.QuantumComputer.constructor | my_simulator.py:19-31 | the new register holds exactly one entry: the string of `numQubits` zeros with amplitude 1; it is well formed |
| Simulator.QuantumComputer.GetAmplitude | my_simulator.py:33-35 | the stored amplitude for a present state, zero for an absent one; it only reads the object |
| Simulator.QuantumComputer.ApplyGate | my_simulator.py:37-76 | the field becomes `GateApplied` of the old register, and every key is still a basis state of the register |
| Simulator.QuantumComputer.EntangleQubits | my_simulator.py:78-102 | after collecting the pairs and swapping them in place, the field is `Cnot` of the old register, and every key is still a basis state |
| Simulator.QuantumComputer.CollapseToMeasurement | my_simulator.py:122-141 | the returned state and the new register are those of `Measure` on the old register and the draw |
| Simulator.EntangledPairScenario | my_simulator.py:152-170 | the driver on two qubits gives "00" for a draw below 1/2 and "11" otherwise, and the register ends as that single state with amplitude 1 |
| Simulator.DriverSuperposed | my_simulator.py:158-160 | Hadamard on qubit 0 of the fresh register gives `{"00": h, "10": h}` |
| Simulator.DriverEntangled | my_simulator.py:163-165 | the controlled-NOT 0 -> 1 on `{"00": h, "10": h}` gives `{"00": h, "10": 0, "11": h}` |
| Simulator.DriverMeasurement | my_simulator.py:168-169 | measuring `{"00": h, "10": 0, "11": h}` with h*h = 1/2 collapses onto "00" for a draw below 1/2 and onto "11" otherwise |
| GateApplication.NextAmplitudes | my_simulator.py:44-76 | the nested loop over stored states and output rows, with pruning and accumulation through `get`, builds exactly `GateApplied` |
| GateApplication.GateAmplitudes | my_simulator.py:55-76 | a state is stored after the gate exactly when one of its two source states (the state with the target bit set to 0 or to 1) is stored and its contribution `M[k[t]][bit] * amp` is not below the pruning bound; its amplitude is the sum of those contributions |
| GateApplication.GateKeyShape | my_simulator.py:48-68 | every stored state after the gate is a stored state before it with only the target position replaced by a bit |
| GateApplication.GatePreservesWellFormed | my_simulator.py:48-68 | if all keys are n-qubit basis states before the gate, they still are after it |
| GateApplication.GateMatchesDenseAction | my_simulator.py:55-76 | when pruning drops only exact zeros, the sparse result equals the matrix applied to each pair of states that differ only at the target |
| GateApplication.PauliXFlips | my_simulator.py:146 | with Pauli-X, a state is stored exactly when its target-flipped partner held a non-negligible amplitude, and it takes that amplitude |
| GateApplication.HadamardSuperposes | my_simulator.py:145 | Hadamard on a basis state with target bit 0 gives that state and its partner, each with amplitude h |
| GateApplication.HadamardInterferes | my_simulator.py:72-73 | Hadamard on the equal superposition gives amplitude 1 on the state and keeps an entry of value 0 for the cancelled partner |
| GateApplication.HadamardTwice | my_simulator.py:72-76 | Hadamard twice on a basis state gives the state back plus a zero entry for its partner |
| Entanglement.Partners | my_simulator.py:84-91 | a string is a partner exactly when flipping its target bit gives a stored state whose control bit is '1' |
| Entanglement.SwapPairs | my_simulator.py:84-95 | each collected pair is a stored control-'1' state and its target-flipped partner; no state is in two pairs; the states in pairs are exactly the control-'1' states and their partners |
| Entanglement.SwapsKeys | my_simulator.py:97-102 | after the swaps, the keys are the old keys plus every state that occurs in a pair |
| Entanglement.SwapsLookup | my_simulator.py:97-102 | after the swaps, a state in a pair reads its partner's old amplitude, and every other state keeps its old amplitude |
| Entanglement.SwapsImplementCnot | my_simulator.py:84-102 | swapping the collected pairs gives exactly `Cnot` |
| Entanglement.CnotLookup | my_simulator.py:84-102 | a state is stored after the controlled-NOT exactly when it was stored or is a partner; control-'1' states read their partner's old amplitude and the others keep theirs |
| Entanglement.CnotControlZero | my_simulator.py:86-87 | a state whose control bit is '0' is stored exactly when it was, with the same amplitude |
| Entanglement.CnotSwaps | my_simulator.py:97-102 | a stored control-'1' state and its partner are both stored afterwards and have exchanged amplitudes |
| Entanglement.CnotPreservesWellFormed | my_simulator.py:88-91 | the keys after the controlled-NOT are basis states of the same register |
| Entanglement.CnotTwice | my_simulator.py:94-102 | two controlled-NOTs with the same qubits restore every amplitude, and the second one adds no key beyond the first one's partners |
| Measurement.Mass | my_simulator.py:133-134 | the accumulated weight of the listed states is never negative |
| Measurement.MassMonotone | my_simulator.py:133-134 | the running total never decreases along the list |
| Measurement.FirstAbove | my_simulator.py:133-138 | the search stops at the first position whose running total exceeds the draw, or at the end when there is none |
| Measurement.FirstAboveInterval | my_simulator.py:133-138 | the search stops at position i exactly when the draw lies in [total before i, total through i) |
| Measurement.MeasurementInterval | my_simulator.py:131-138 | a draw in the interval of the i-th sorted state collapses onto that state, and a collapse onto it happens only for such a draw |
| Measurement.MeasurementCollapses | my_simulator.py:135-138 | a draw below the total weight picks a stored state and leaves only that state, with amplitude 1 |
| Measurement.MeasurementFallback | my_simulator.py:140-141 | a draw at or above the total weight leaves the register unchanged and reports the last sorted state, or "" when the register is empty |
| Measurement.OutcomeHasWeight | my_simulator.py:133-137 | a collapse never picks a state whose amplitude is zero |
| CanonicalOrder.SortedKeys | my_simulator.py:131 | the sorted key list is strictly increasing in Python's string order and holds exactly the keys |
| CanonicalOrder.SortedKeysUnique | my_simulator.py:131 | any strictly increasing listing of the keys is the sorted key list |
| CanonicalOrder.LexLessTotal | my_simulator.py:131 | any two different strings are ordered one way or the other |
| CanonicalOrder.LexLessTransitive | my_simulator.py:131 | the string order is transitive |
| BasisStates.Zeros | my_simulator.py:30 | the initial state is an n-qubit basis state of zeros |
| BasisStates.Flip | my_simulator.py:90 | the partner state has the same length, toggles the bit at the target position and keeps every other position |
| BasisStates.FlipInvolutive | my_simulator.py:90 | flipping the target bit always changes the state, and flipping it twice gives the state back |

## Left out

- `read_state` (my_simulator.py:105-120) and every `print` are not modelled. They only display the state.
- `random.random()` is not modelled. The draw is the parameter `rand` of `CollapseToMeasurement`, with precondition `0 <= rand < 1`.
- Floating-point rounding is not modelled. Amplitudes are exact reals, so no rounding shortfall can occur in measurement.
- The irrational `1/sqrt(2)` of the Hadamard matrix is a parameter `h` with `h * h == 1/2`.
- The gate matrix is a `Gate` with four entries. Nested lists of other shapes are not modelled.
- Python's negative indices and the `IndexError` for out-of-range qubits are not modelled. Qubit indices below `numQubits` are preconditions.
- The `entangle_qubits` call with control equal to target is not modelled. `control != target` is a precondition.
- Python dictionaries iterate in insertion order. The model visits the stored states in an arbitrary order instead. With exact arithmetic the results of `apply_gate` and `entangle_qubits` do not depend on that order.
- Preservation of the norm by a unitary gate is not proved; that property is outside the scope of this model. `GateMatchesDenseAction` states the linear action that norm preservation would follow from.
- GateApplication.GateMatchesDenseAction: assumes that pruning drops only exact zeros. When tiny non-zero contributions are dropped, `GateAmplitudes` gives the exact result.
- A negative `num_qubits` is not modelled, since the model takes a natural number.
