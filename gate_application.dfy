/** Single-qubit gate application on the sparse register (`QuantumComputer.apply_gate`). */
module GateApplication {
  import opened ComplexNumbers
  import opened BasisStates
  import opened Registers

  /** A 2x2 complex matrix; `Entry(row, col)` is `gate_matrix[row][col]`. */
  datatype Gate = Gate(m00: Complex, m01: Complex, m10: Complex, m11: Complex) {
    function Entry(row: nat, col: nat): Complex
      requires row < 2 && col < 2
    {
      if row == 0 then (if col == 0 then m00 else m01)
      else (if col == 0 then m10 else m11)
    }
  }

  /** The Hadamard matrix, with `h` standing for the irrational 1/sqrt(2). */
  function Hadamard(h: real): Gate {
    Gate(Complex(h, 0.0), Complex(h, 0.0), Complex(h, 0.0), Complex(-h, 0.0))
  }

  /** The Pauli-X (NOT) matrix. */
  const PauliX: Gate := Gate(Zero, One, One, Zero)

  /** What source state `s` sends to output row `r`: `M[r][s[t]] * amp(s)`. */
  function Contribution(m: Register, g: Gate, t: nat, s: string, r: nat): Complex
    requires s in m && t < |s| && IsBit(s[t]) && r < 2
  {
    Mul(g.Entry(r, BitValue(s[t])), m[s])
  }

  /** Contributions indexed by (source state, output row). */
  type Contributions = map<(string, nat), Complex>

  /** Every source state can be indexed at `t` and every row is 0 or 1. */
  predicate Fits(cs: Contributions, t: nat) {
    forall p :: p in cs ==> t < |p.0| && IsBit(p.0[t]) && p.1 < 2
  }

  /** The contributions of `apply_gate` that survive the pruning test `abs(c) < 1e-9`. */
  function KeptContributions(m: Register, g: Gate, t: nat): (cs: Contributions)
    requires Addressable(m, t)
    ensures Fits(cs, t)
  {
    var sourceRows := set s, r: nat | s in m && r < 2 :: (s, r);
    map p | p in sourceRows && !Negligible(Contribution(m, g, t, p.0, p.1)) :: Contribution(m, g, t, p.0, p.1)
  }

  /** A (source state, row) pair is kept exactly when its contribution passes the pruning test,
      and then it holds that contribution. */
  lemma KeptContributionsAt(m: Register, g: Gate, t: nat)
    requires Addressable(m, t)
    ensures forall s, r :: s in m && r < 2 ==>
      ((s, r) in KeptContributions(m, g, t) <==> !Negligible(Contribution(m, g, t, s, r)))
    ensures forall p :: p in KeptContributions(m, g, t) ==>
      p.0 in m && KeptContributions(m, g, t)[p] == Contribution(m, g, t, p.0, p.1)
  {
  }

  /** The state that receives row `r` of `s`: `s` with position `t` set to `str(r)`. */
  function Target(s: string, t: nat, r: nat): string
    requires t < |s| && r < 2
  {
    WithBit(s, t, BitChar(r))
  }

  /** The output keys reached by the contributions of the source states in `done`. */
  function Reached(cs: Contributions, t: nat, done: set<string>): (keys: set<string>)
    requires Fits(cs, t)
    ensures forall k :: k in keys ==> t < |k| && IsBit(k[t])
  {
    set p | p in cs && p.0 in done :: Target(p.0, t, p.1)
  }

  /** What output key `k` receives from the source state whose target bit is `b`: its
      contribution if that state is in `done` and the contribution exists, zero otherwise. */
  function Term(cs: Contributions, t: nat, done: set<string>, k: string, b: nat): Complex
    requires t < |k| && IsBit(k[t]) && b < 2
  {
    var p := (Target(k, t, b), BitValue(k[t]));
    if p.0 in done && p in cs then cs[p] else Zero
  }

  /** The register accumulated from the source states in `done`: every reached key, holding
      the (unpruned) sum of what it received. */
  function Accumulated(cs: Contributions, t: nat, done: set<string>): Register
    requires Fits(cs, t)
  {
    map k | k in Reached(cs, t, done) :: Add(Term(cs, t, done, k, 0), Term(cs, t, done, k, 1))
  }

  /** The register after `apply_gate(g, t)`. */
  function GateApplied(m: Register, g: Gate, t: nat): Register
    requires Addressable(m, t)
  {
    Accumulated(KeptContributions(m, g, t), t, m.Keys)
  }

  /** One pass of the inner loop: the contribution of `s` to row `r`, if kept, is added into `acc`. */
  function AccumulateRow(acc: Register, cs: Contributions, t: nat, s: string, r: nat): Register
    requires t < |s| && r < 2
  {
    if (s, r) in cs then acc[Target(s, t, r) := Add(Lookup(acc, Target(s, t, r)), cs[(s, r)])]
    else acc
  }

  /** The first `rows` passes of the inner loop for state `s`. */
  function AccumulateRows(acc: Register, cs: Contributions, t: nat, s: string, rows: nat): Register
    requires t < |s| && rows <= 2
  {
    if rows == 0 then acc
    else AccumulateRow(AccumulateRows(acc, cs, t, s, rows - 1), cs, t, s, rows - 1)
  }

  /** The loop of `apply_gate`: a fresh register accumulated over every stored state and both
      rows of the gate. Dictionary iteration order is an arbitrary choice here. */
  method NextAmplitudes(amplitudes: Register, gate: Gate, target: nat) returns (next: Register)
    requires Addressable(amplitudes, target)
    ensures next == GateApplied(amplitudes, gate, target)
  {
    ghost var cs := KeptContributions(amplitudes, gate, target);
    KeptContributionsAt(amplitudes, gate, target);
    next := map[];
    var pending := amplitudes.Keys;
    ghost var done: set<string> := {};
    assert Reached(cs, target, done) == {};
    while pending != {}
      invariant pending !! done && pending + done == amplitudes.Keys
      invariant next == Accumulated(cs, target, done)
      decreases pending
    {
      var basisState :| basisState in pending;
      var currentAmp := amplitudes[basisState];
      var bitToChange := BitValue(basisState[target]);
      ghost var before := next;
      for rowIndex := 0 to 2
        invariant next == AccumulateRows(before, cs, target, basisState, rowIndex)
      {
        var contribution := Mul(gate.Entry(rowIndex, bitToChange), currentAmp);
        assert (basisState, rowIndex) in cs <==> !Negligible(contribution);
        if Negligible(contribution) {
          continue;
        }
        var newBasisState := WithBit(basisState, target, BitChar(rowIndex));
        var currentTotal := Lookup(next, newBasisState);
        next := next[newBasisState := Add(currentTotal, contribution)];
      }
      AccumulatedExtend(cs, target, done, basisState);
      done := done + {basisState};
      pending := pending - {basisState};
    }
  }

  /** Looking up any key of the right shape gives the sum of its two terms, zero for a key that
      received nothing. */
  lemma LookupAccumulated(cs: Contributions, t: nat, done: set<string>, k: string)
    requires Fits(cs, t)
    requires t < |k| && IsBit(k[t])
    ensures Lookup(Accumulated(cs, t, done), k) == Add(Term(cs, t, done, k, 0), Term(cs, t, done, k, 1))
  {
    forall b | 0 <= b < 2
      ensures var p := (Target(k, t, b), BitValue(k[t])); p.0 in done && p in cs ==> k in Reached(cs, t, done)
    {
      var p := (Target(k, t, b), BitValue(k[t]));
      if p.0 in done && p in cs {
        TargetBack(k, t, b);
      }
    }
  }

  /** Setting position `t` of `k` and then restoring it gives `k` back. */
  lemma TargetBack(k: string, t: nat, b: nat)
    requires t < |k| && IsBit(k[t]) && b < 2
    ensures Target(Target(k, t, b), t, BitValue(k[t])) == k
  {
    assert Target(Target(k, t, b), t, BitValue(k[t])) == k;
  }

  /** Lookup after one inner-loop pass. */
  lemma LookupAccumulateRow(acc: Register, cs: Contributions, t: nat, s: string, r: nat, k: string)
    requires t < |s| && r < 2
    ensures Lookup(AccumulateRow(acc, cs, t, s, r), k) ==
      if k == Target(s, t, r) && (s, r) in cs then Add(Lookup(acc, k), cs[(s, r)])
      else Lookup(acc, k)
  {
  }

  /** Processing one more source state `s` (both rows) turns `Accumulated(done)` into
      `Accumulated(done + {s})`: the loop body is correct. */
  lemma AccumulatedExtend(cs: Contributions, t: nat, done: set<string>, s: string)
    requires Fits(cs, t)
    requires t < |s| && IsBit(s[t]) && s !in done
    ensures AccumulateRows(Accumulated(cs, t, done), cs, t, s, 2) == Accumulated(cs, t, done + {s})
  {
    var a2 := AccumulateRows(Accumulated(cs, t, done), cs, t, s, 2);
    var b := Accumulated(cs, t, done + {s});
    ExtendKeys(cs, t, done, s);
    ExtendValues(cs, t, done, s);
    assert forall k :: k in b ==> a2[k] == Lookup(a2, k) == Lookup(b, k) == b[k];
  }

  lemma ExtendKeys(cs: Contributions, t: nat, done: set<string>, s: string)
    requires Fits(cs, t)
    requires t < |s|
    ensures AccumulateRows(Accumulated(cs, t, done), cs, t, s, 2).Keys == Accumulated(cs, t, done + {s}).Keys
  {
    RowsKeys(Accumulated(cs, t, done), cs, t, s);
    ReachedExtend(cs, t, done, s);
  }

  lemma ExtendValues(cs: Contributions, t: nat, done: set<string>, s: string)
    requires Fits(cs, t)
    requires t < |s| && IsBit(s[t]) && s !in done
    ensures forall k :: k in Accumulated(cs, t, done + {s}) ==>
      Lookup(AccumulateRows(Accumulated(cs, t, done), cs, t, s, 2), k) == Lookup(Accumulated(cs, t, done + {s}), k)
  {
    forall k | k in Accumulated(cs, t, done + {s})
      ensures Lookup(AccumulateRows(Accumulated(cs, t, done), cs, t, s, 2), k) == Lookup(Accumulated(cs, t, done + {s}), k)
    {
      LookupRows(Accumulated(cs, t, done), cs, t, s, k);
      ExtendAt(cs, t, done, s, k);
    }
  }

  lemma ReachedExtend(cs: Contributions, t: nat, done: set<string>, s: string)
    requires Fits(cs, t)
    requires t < |s|
    ensures Reached(cs, t, done + {s}) ==
      Reached(cs, t, done)
      + (if (s, 0) in cs then {Target(s, t, 0)} else {})
      + (if (s, 1) in cs then {Target(s, t, 1)} else {})
  {
  }

  /** The keys after both inner-loop passes for `s`. */
  lemma RowsKeys(acc: Register, cs: Contributions, t: nat, s: string)
    requires t < |s|
    ensures AccumulateRows(acc, cs, t, s, 2).Keys ==
      acc.Keys
      + (if (s, 0) in cs then {Target(s, t, 0)} else {})
      + (if (s, 1) in cs then {Target(s, t, 1)} else {})
  {
    assert AccumulateRows(acc, cs, t, s, 1) == AccumulateRow(acc, cs, t, s, 0);
  }

  /** Lookups after both inner-loop passes for `s`: only the key that `s` reaches with its own
      row changes, by that row's contribution. */
  lemma LookupRows(acc: Register, cs: Contributions, t: nat, s: string, k: string)
    requires t < |s| && t < |k| && IsBit(k[t])
    ensures var r := BitValue(k[t]);
      Lookup(AccumulateRows(acc, cs, t, s, 2), k) ==
        if k == Target(s, t, r) && (s, r) in cs then Add(Lookup(acc, k), cs[(s, r)])
        else Lookup(acc, k)
  {
    var a0 := AccumulateRow(acc, cs, t, s, 0);
    assert AccumulateRows(acc, cs, t, s, 1) == a0;
    assert AccumulateRows(acc, cs, t, s, 2) == AccumulateRow(a0, cs, t, s, 1);
    LookupAccumulateRow(acc, cs, t, s, 0, k);
    LookupAccumulateRow(a0, cs, t, s, 1, k);
    forall r | 0 <= r < 2 && k == Target(s, t, r)
      ensures r == BitValue(k[t])
    {
    }
  }

  /** The value of one key when `s` joins `done`: it changes only if `s` contributes to it, and
      then by that contribution. */
  lemma ExtendAt(cs: Contributions, t: nat, done: set<string>, s: string, k: string)
    requires Fits(cs, t)
    requires t < |s| && IsBit(s[t]) && s !in done
    requires t < |k| && IsBit(k[t])
    ensures var r := BitValue(k[t]);
      Lookup(Accumulated(cs, t, done + {s}), k) ==
        if k == Target(s, t, r) && (s, r) in cs then Add(Lookup(Accumulated(cs, t, done), k), cs[(s, r)])
        else Lookup(Accumulated(cs, t, done), k)
  {
    var r := BitValue(k[t]);
    var a0, a1 := Term(cs, t, done, k, 0), Term(cs, t, done, k, 1);
    var b0, b1 := Term(cs, t, done + {s}, k, 0), Term(cs, t, done + {s}, k, 1);
    if k == Target(s, t, r) {
      var bs := BitValue(s[t]);
      TargetBack(s, t, r);
      assert Target(k, t, bs) == s;
      assert Target(k, t, 1 - bs)[t] != s[t];
      TermAtSource(cs, t, done, s, k, bs);
      TermAway(cs, t, done, s, k, 1 - bs);
      var c := if (s, r) in cs then cs[(s, r)] else Zero;
      assert Add(b0, b1) == Add(Add(a0, a1), c);
    } else {
      forall j | 0 <= j < 2
        ensures Target(k, t, j) != s
      {
        if Target(k, t, j) == s {
          TargetBack(k, t, j);
        }
      }
      TermAway(cs, t, done, s, k, 0);
      TermAway(cs, t, done, s, k, 1);
      assert Add(b0, b1) == Add(a0, a1);
    }
    LookupAccumulated(cs, t, done, k);
    LookupAccumulated(cs, t, done + {s}, k);
  }

  /** A term whose source state is not `s` is unaffected by `s` joining `done`. */
  lemma TermAway(cs: Contributions, t: nat, done: set<string>, s: string, k: string, j: nat)
    requires t < |k| && IsBit(k[t]) && j < 2
    requires Target(k, t, j) != s
    ensures Term(cs, t, done + {s}, k, j) == Term(cs, t, done, k, j)
  {
  }

  /** The term whose source state is `s` appears when `s` joins `done`. */
  lemma TermAtSource(cs: Contributions, t: nat, done: set<string>, s: string, k: string, j: nat)
    requires s !in done && t < |k| && IsBit(k[t]) && j < 2
    requires Target(k, t, j) == s
    ensures Term(cs, t, done, k, j) == Zero
    ensures Term(cs, t, done + {s}, k, j) ==
      if (s, BitValue(k[t])) in cs then cs[(s, BitValue(k[t]))] else Zero
  {
  }

  // Properties of `apply_gate`, stated on the input register.

  /** The source state with target bit `b` sends `k` a contribution that survives pruning. */
  predicate SourceKept(m: Register, g: Gate, t: nat, k: string, b: nat)
    requires t < |k| && IsBit(k[t]) && b < 2
  {
    var s := Target(k, t, b);
    s in m && !Negligible(Contribution(m, g, t, s, BitValue(k[t])))
  }

  /** That contribution, or zero when it is absent or pruned. */
  function SourceTerm(m: Register, g: Gate, t: nat, k: string, b: nat): Complex
    requires t < |k| && IsBit(k[t]) && b < 2
  {
    if SourceKept(m, g, t, k, b) then Contribution(m, g, t, Target(k, t, b), BitValue(k[t])) else Zero
  }

  /** The amplitude of `k` after the gate is the sum, over the (at most two) stored states that
      agree with `k` off the target, of `M[k[t]][s[t]] * amp(s)`, counting only contributions that
      survive pruning; `k` is stored exactly when one such contribution exists. */
  lemma GateAmplitudes(m: Register, g: Gate, t: nat, k: string)
    requires Addressable(m, t)
    requires t < |k| && IsBit(k[t])
    ensures k in GateApplied(m, g, t) <==> SourceKept(m, g, t, k, 0) || SourceKept(m, g, t, k, 1)
    ensures Lookup(GateApplied(m, g, t), k) == Add(SourceTerm(m, g, t, k, 0), SourceTerm(m, g, t, k, 1))
  {
    var cs := KeptContributions(m, g, t);
    LookupAccumulated(cs, t, m.Keys, k);
    TermIsSourceTerm(m, g, t, k, 0);
    TermIsSourceTerm(m, g, t, k, 1);
    ReachedIsKept(m, g, t, k);
  }

  lemma TermIsSourceTerm(m: Register, g: Gate, t: nat, k: string, b: nat)
    requires Addressable(m, t)
    requires t < |k| && IsBit(k[t]) && b < 2
    ensures Term(KeptContributions(m, g, t), t, m.Keys, k, b) == SourceTerm(m, g, t, k, b)
  {
    KeptContributionsAt(m, g, t);
  }

  lemma ReachedIsKept(m: Register, g: Gate, t: nat, k: string)
    requires Addressable(m, t)
    requires t < |k| && IsBit(k[t])
    ensures k in Reached(KeptContributions(m, g, t), t, m.Keys) <==> SourceKept(m, g, t, k, 0) || SourceKept(m, g, t, k, 1)
  {
    var cs := KeptContributions(m, g, t);
    KeptContributionsAt(m, g, t);
    forall b | 0 <= b < 2 && SourceKept(m, g, t, k, b)
      ensures k in Reached(cs, t, m.Keys)
    {
      TargetBack(k, t, b);
      assert (Target(k, t, b), BitValue(k[t])) in cs;
    }
    if k in Reached(cs, t, m.Keys) {
      var p :| p in cs && p.0 in m.Keys && k == Target(p.0, t, p.1);
      assert p.1 == BitValue(k[t]);
      TargetBack(p.0, t, p.1);
      assert SourceKept(m, g, t, k, BitValue(p.0[t]));
    }
  }

  /** Every stored key after the gate is a stored key before it with only position `t` replaced. */
  lemma GateKeyShape(m: Register, g: Gate, t: nat)
    requires Addressable(m, t)
    ensures forall k :: k in GateApplied(m, g, t) ==>
      t < |k| && IsBit(k[t]) && exists s :: s in m && k == WithBit(s, t, k[t])
  {
    var cs := KeptContributions(m, g, t);
    KeptContributionsAt(m, g, t);
    forall k | k in GateApplied(m, g, t)
      ensures t < |k| && IsBit(k[t]) && exists s :: s in m && k == WithBit(s, t, k[t])
    {
      var p :| p in cs && p.0 in m.Keys && k == Target(p.0, t, p.1);
      assert k == WithBit(p.0, t, k[t]);
    }
  }

  /** "All keys are basis states of the n-qubit register" is preserved by the gate. */
  lemma GatePreservesWellFormed(m: Register, g: Gate, t: nat, n: nat)
    requires WellFormed(m, n) && t < n
    ensures Addressable(m, t)
    ensures WellFormed(GateApplied(m, g, t), n)
  {
    GateKeyShape(m, g, t);
    forall k | k in GateApplied(m, g, t)
      ensures IsBasisState(k, n)
    {
      var s :| s in m && k == WithBit(s, t, k[t]);
      WithBitBasisState(s, t, k[t], n);
    }
  }

  /** Pruning discards only contributions that are exactly zero. */
  ghost predicate PrunesOnlyZeros(m: Register, g: Gate, t: nat)
    requires Addressable(m, t)
  {
    forall s, r :: s in m && r < 2 && Negligible(Contribution(m, g, t, s, r)) ==>
      Contribution(m, g, t, s, r) == Zero
  }

  /** The amplitude of `k` under the dense action of the gate on the two-dimensional subspace
      spanned by the states that differ from `k` only at position `t`. */
  function DenseAmplitude(m: Register, g: Gate, t: nat, k: string): Complex
    requires t < |k| && IsBit(k[t])
  {
    var r := BitValue(k[t]);
    Add(Mul(g.Entry(r, 0), Lookup(m, Target(k, t, 0))), Mul(g.Entry(r, 1), Lookup(m, Target(k, t, 1))))
  }

  /** When pruning drops nothing but exact zeros, the sparse update agrees with applying the
      matrix to every pair of states that differ only at the target qubit. */
  lemma GateMatchesDenseAction(m: Register, g: Gate, t: nat, k: string)
    requires Addressable(m, t) && PrunesOnlyZeros(m, g, t)
    requires t < |k| && IsBit(k[t])
    ensures Lookup(GateApplied(m, g, t), k) == DenseAmplitude(m, g, t, k)
  {
    SourceTermDense(m, g, t, k, 0);
    SourceTermDense(m, g, t, k, 1);
    DenseFromSourceTerms(m, g, t, k);
  }

  /** Once both source terms have their dense values, the sparse amplitude is the dense one. */
  lemma DenseFromSourceTerms(m: Register, g: Gate, t: nat, k: string)
    requires Addressable(m, t)
    requires t < |k| && IsBit(k[t])
    requires SourceTerm(m, g, t, k, 0) == Mul(g.Entry(BitValue(k[t]), 0), Lookup(m, Target(k, t, 0)))
    requires SourceTerm(m, g, t, k, 1) == Mul(g.Entry(BitValue(k[t]), 1), Lookup(m, Target(k, t, 1)))
    ensures Lookup(GateApplied(m, g, t), k) == DenseAmplitude(m, g, t, k)
  {
    GateAmplitudes(m, g, t, k);
  }

  lemma SourceTermDense(m: Register, g: Gate, t: nat, k: string, b: nat)
    requires Addressable(m, t) && PrunesOnlyZeros(m, g, t)
    requires t < |k| && IsBit(k[t]) && b < 2
    ensures SourceTerm(m, g, t, k, b) == Mul(g.Entry(BitValue(k[t]), b), Lookup(m, Target(k, t, b)))
  {
    var s := Target(k, t, b);
    if s in m {
      assert BitValue(s[t]) == b;
    } else {
      assert Mul(g.Entry(BitValue(k[t]), b), Zero) == Zero;
    }
  }

  /** Pauli-X moves every amplitude that survives pruning to the state with the target bit
      flipped; nothing else is stored. */
  lemma PauliXFlips(m: Register, t: nat, k: string)
    requires Addressable(m, t)
    requires t < |k| && IsBit(k[t])
    ensures k in GateApplied(m, PauliX, t) <==> Flip(k, t) in m && !Negligible(m[Flip(k, t)])
    ensures Lookup(GateApplied(m, PauliX, t), k) ==
      if Flip(k, t) in m && !Negligible(m[Flip(k, t)]) then m[Flip(k, t)] else Zero
  {
    GateAmplitudes(m, PauliX, t, k);
    var r := BitValue(k[t]);
    var f := Flip(k, t);
    assert Target(k, t, 1 - r) == f;
    PauliXSource(m, t, k, r);
    PauliXSource(m, t, k, 1 - r);
    var kept := f in m && !Negligible(m[f]);
    assert SourceKept(m, PauliX, t, k, 1 - r) == kept;
    assert SourceTerm(m, PauliX, t, k, 1 - r) == if kept then m[f] else Zero;
    assert SourceTerm(m, PauliX, t, k, r) == Zero;
    if r == 0 {
      assert Add(Zero, SourceTerm(m, PauliX, t, k, 1)) == SourceTerm(m, PauliX, t, k, 1);
    } else {
      assert Add(SourceTerm(m, PauliX, t, k, 0), Zero) == SourceTerm(m, PauliX, t, k, 0);
    }
  }

  /** Under Pauli-X the only surviving source of `k` is its flipped partner. */
  lemma PauliXSource(m: Register, t: nat, k: string, b: nat)
    requires Addressable(m, t)
    requires t < |k| && IsBit(k[t]) && b < 2
    ensures SourceKept(m, PauliX, t, k, b) <==>
      b != BitValue(k[t]) && Target(k, t, b) in m && !Negligible(m[Target(k, t, b)])
    ensures SourceTerm(m, PauliX, t, k, b) ==
      if SourceKept(m, PauliX, t, k, b) then m[Target(k, t, b)] else Zero
  {
    var s := Target(k, t, b);
    if s in m {
      assert BitValue(s[t]) == b;
      if b == BitValue(k[t]) {
        assert Contribution(m, PauliX, t, s, BitValue(k[t])) == Zero;
        assert !Negligible(Zero) == false;
      } else {
        assert Contribution(m, PauliX, t, s, BitValue(k[t])) == m[s];
      }
    }
  }

  /** Hadamard on a basis state with target bit 0 gives the equal superposition of that state
      and its flipped partner, both with amplitude 1/sqrt(2). */
  lemma HadamardSuperposes(s: string, t: nat, h: real)
    requires t < |s| && s[t] == '0' && h * h == 0.5
    ensures GateApplied(map[s := One], Hadamard(h), t) ==
      map[s := Complex(h, 0.0), Flip(s, t) := Complex(h, 0.0)]
  {
    assert MagSq(Complex(h, 0.0)) == 0.5;
    SuperposesWhenKept(s, t, h);
  }

  lemma SuperposesWhenKept(s: string, t: nat, h: real)
    requires t < |s| && s[t] == '0' && !Negligible(Complex(h, 0.0))
    ensures GateApplied(map[s := One], Hadamard(h), t) ==
      map[s := Complex(h, 0.0), Flip(s, t) := Complex(h, 0.0)]
  {
    var a := GateApplied(map[s := One], Hadamard(h), t);
    FlipInvolutive(s, t);
    assert forall k :: k in a ==> k == s || k == Flip(s, t) by {
      PairKeys(map[s := One], s, Hadamard(h), t);
    }
    assert s in a && a[s] == Complex(h, 0.0) by {
      HadamardBasisAmplitude(s, t, h, s);
    }
    assert Flip(s, t) in a && a[Flip(s, t)] == Complex(h, 0.0) by {
      HadamardBasisAmplitude(s, t, h, Flip(s, t));
    }
    TwoEntries(a, s, Flip(s, t), Complex(h, 0.0), Complex(h, 0.0));
  }

  /** A gate on states that differ only at position `t` reaches only those two states. */
  lemma PairKeys(m: Register, s: string, g: Gate, t: nat)
    requires t < |s| && IsBit(s[t])
    requires forall src :: src in m ==> src == s || src == Flip(s, t)
    ensures Addressable(m, t)
    ensures forall k :: k in GateApplied(m, g, t) ==> k == s || k == Flip(s, t)
  {
    assert Addressable(m, t) by {
      forall src | src in m
        ensures t < |src| && IsBit(src[t])
      {
      }
    }
    GateKeyShape(m, g, t);
    forall k | k in GateApplied(m, g, t)
      ensures k == s || k == Flip(s, t)
    {
      var src :| src in m && k == WithBit(src, t, k[t]);
      WithBitTwice(s, t, Flip(s, t)[t], k[t]);
      if k[t] != s[t] {
        assert k == Flip(s, t);
      } else {
        WithBitOwn(s, t);
      }
    }
  }

  lemma HadamardBasisAmplitude(s: string, t: nat, h: real, k: string)
    requires t < |s| && s[t] == '0' && !Negligible(Complex(h, 0.0))
    requires k == s || k == Flip(s, t)
    ensures k in GateApplied(map[s := One], Hadamard(h), t)
    ensures GateApplied(map[s := One], Hadamard(h), t)[k] == Complex(h, 0.0)
  {
    var m := map[s := One];
    var g := Hadamard(h);
    FlipInvolutive(s, t);
    WithBitOwn(s, t);
    WithBitTwice(s, t, '1', '0');
    WithBitTwice(s, t, '1', '1');
    WithBitTwice(s, t, '0', '1');
    var r := BitValue(k[t]);
    assert Target(k, t, 0) == s;
    assert Target(k, t, 1) == Flip(s, t);
    GateAmplitudes(m, g, t, k);
    HadamardBasisContribution(s, t, h, r);
    assert SourceTerm(m, g, t, k, 0) == Complex(h, 0.0);
    assert SourceTerm(m, g, t, k, 1) == Zero;
  }

  lemma HadamardBasisContribution(s: string, t: nat, h: real, r: nat)
    requires t < |s| && s[t] == '0' && r < 2
    ensures Contribution(map[s := One], Hadamard(h), t, s, r) == Complex(h, 0.0)
  {
    assert Hadamard(h).Entry(r, 0) == Complex(h, 0.0);
  }

  /** Hadamard applied to the equal superposition of a state and its flipped partner interferes
      back to the state; the cancelled partner keeps an entry whose value is exactly zero, because
      the summed amplitudes are not pruned. */
  lemma HadamardInterferes(s: string, t: nat, h: real)
    requires t < |s| && s[t] == '0' && h * h == 0.5
    ensures GateApplied(map[s := Complex(h, 0.0), Flip(s, t) := Complex(h, 0.0)], Hadamard(h), t) ==
      map[s := One, Flip(s, t) := Zero]
  {
    assert Mul(Complex(h, 0.0), Complex(h, 0.0)) == Complex(0.5, 0.0);
    assert Mul(Complex(-h, 0.0), Complex(h, 0.0)) == Complex(-0.5, 0.0);
    InterferesWhenHalf(s, t, h);
  }

  lemma InterferesWhenHalf(s: string, t: nat, h: real)
    requires t < |s| && s[t] == '0'
    requires Mul(Complex(h, 0.0), Complex(h, 0.0)) == Complex(0.5, 0.0)
    requires Mul(Complex(-h, 0.0), Complex(h, 0.0)) == Complex(-0.5, 0.0)
    ensures GateApplied(map[s := Complex(h, 0.0), Flip(s, t) := Complex(h, 0.0)], Hadamard(h), t) ==
      map[s := One, Flip(s, t) := Zero]
  {
    var m := map[s := Complex(h, 0.0), Flip(s, t) := Complex(h, 0.0)];
    var a := GateApplied(m, Hadamard(h), t);
    FlipInvolutive(s, t);
    assert forall k :: k in a ==> k == s || k == Flip(s, t) by {
      PairKeys(m, s, Hadamard(h), t);
    }
    assert s in a && a[s] == One by {
      InterferenceAmplitude(s, t, h, s);
    }
    assert Flip(s, t) in a && a[Flip(s, t)] == Zero by {
      InterferenceAmplitude(s, t, h, Flip(s, t));
    }
    TwoEntries(a, s, Flip(s, t), One, Zero);
  }

  lemma InterferenceAmplitude(s: string, t: nat, h: real, k: string)
    requires t < |s| && s[t] == '0'
    requires Mul(Complex(h, 0.0), Complex(h, 0.0)) == Complex(0.5, 0.0)
    requires Mul(Complex(-h, 0.0), Complex(h, 0.0)) == Complex(-0.5, 0.0)
    requires k == s || k == Flip(s, t)
    ensures k in GateApplied(map[s := Complex(h, 0.0), Flip(s, t) := Complex(h, 0.0)], Hadamard(h), t)
    ensures GateApplied(map[s := Complex(h, 0.0), Flip(s, t) := Complex(h, 0.0)], Hadamard(h), t)[k] ==
      if k == s then One else Zero
  {
    var m := map[s := Complex(h, 0.0), Flip(s, t) := Complex(h, 0.0)];
    var g := Hadamard(h);
    FlipInvolutive(s, t);
    WithBitOwn(s, t);
    WithBitTwice(s, t, '1', '0');
    WithBitTwice(s, t, '1', '1');
    WithBitTwice(s, t, '0', '1');
    assert Target(k, t, 0) == s;
    assert Target(k, t, 1) == Flip(s, t);
    assert Addressable(m, t);
    var r := BitValue(k[t]);
    assert Contribution(m, g, t, s, r) == Complex(0.5, 0.0);
    assert Contribution(m, g, t, Flip(s, t), r) == if k == s then Complex(0.5, 0.0) else Complex(-0.5, 0.0);
    GateAmplitudes(m, g, t, k);
  }

  /** A register whose keys are among `x` and `y` and which stores both is the two-entry map. */
  lemma TwoEntries(a: Register, x: string, y: string, vx: Complex, vy: Complex)
    requires forall k :: k in a ==> k == x || k == y
    requires x in a && a[x] == vx && y in a && a[y] == vy
    requires x != y
    ensures a == map[x := vx, y := vy]
  {
  }

  /** Hadamard twice on a basis state gives the state back, plus a zero-valued entry for its
      partner. */
  lemma HadamardTwice(s: string, t: nat, h: real)
    requires t < |s| && s[t] == '0' && h * h == 0.5
    ensures GateApplied(GateApplied(map[s := One], Hadamard(h), t), Hadamard(h), t) ==
      map[s := One, Flip(s, t) := Zero]
  {
    HadamardSuperposes(s, t, h);
    HadamardInterferes(s, t, h);
  }
}
