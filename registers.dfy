/** The sparse amplitude register: a map from basis state to amplitude, absent meaning zero. */
module Registers {
  import opened ComplexNumbers
  import opened BasisStates

  type Register = map<string, Complex>

  /** `dict.get(s, 0j)`: the stored amplitude, or zero for an absent state. */
  function Lookup(m: Register, s: string): Complex {
    if s in m then m[s] else Zero
  }

  /** Every key is a basis state of an n-qubit register. */
  ghost predicate WellFormed(m: Register, n: nat) {
    forall s :: s in m ==> IsBasisState(s, n)
  }

  /** Every key can be indexed at position t and holds a bit there. */
  predicate Addressable(m: Register, t: nat) {
    forall s :: s in m ==> t < |s| && IsBit(s[t])
  }

  /** Two registers with the same keys and the same lookups are equal. */
  lemma SameLookups(a: Register, b: Register)
    requires a.Keys == b.Keys
    requires forall k :: k in a ==> Lookup(a, k) == Lookup(b, k)
    ensures a == b
  {
    assert forall k :: k in a ==> a[k] == Lookup(a, k) == Lookup(b, k) == b[k];
  }
}
