/** Basis states: strings of '0'/'1' characters where position i holds qubit i. */
module BasisStates {

  predicate IsBit(c: char) {
    c == '0' || c == '1'
  }

  /** A basis state of an n-qubit register. */
  predicate IsBasisState(s: string, n: nat) {
    |s| == n && forall i :: 0 <= i < n ==> IsBit(s[i])
  }

  /** `str(b)` for a row index b in {0, 1}. */
  function BitChar(b: nat): char
    requires b < 2
  {
    if b == 0 then '0' else '1'
  }

  /** `int(c)` for a bit character. */
  function BitValue(c: char): (b: nat)
    requires IsBit(c)
    ensures b < 2 && BitChar(b) == c
  {
    if c == '0' then 0 else 1
  }

  /** The all-zero basis state `'0' * n`. */
  function Zeros(n: nat): (s: string)
    ensures IsBasisState(s, n)
    ensures forall i :: 0 <= i < n ==> s[i] == '0'
  {
    seq(n, _ => '0')
  }

  /** `s` with position `t` replaced by `c`. */
  function WithBit(s: string, t: nat, c: char): string
    requires t < |s|
  {
    s[t := c]
  }

  /** The partner state of the controlled flip: position `t` becomes '1' if it was '0', else '0'. */
  function Flip(s: string, t: nat): (r: string)
    requires t < |s|
    ensures |r| == |s| && (IsBit(s[t]) ==> IsBit(r[t]) && r[t] != s[t])
    ensures forall i :: 0 <= i < |s| && i != t ==> r[i] == s[i]
  {
    WithBit(s, t, if s[t] == '0' then '1' else '0')
  }

  /** Writing a position with the character already there changes nothing. */
  lemma WithBitOwn(s: string, t: nat)
    requires t < |s|
    ensures WithBit(s, t, s[t]) == s
  {
  }

  /** A second write to the same position overrides the first. */
  lemma WithBitTwice(s: string, t: nat, c: char, d: char)
    requires t < |s|
    ensures WithBit(WithBit(s, t, c), t, d) == WithBit(s, t, d)
  {
  }

  lemma WithBitBasisState(s: string, t: nat, c: char, n: nat)
    requires IsBasisState(s, n) && t < n && IsBit(c)
    ensures IsBasisState(WithBit(s, t, c), n)
  {
  }

  /** Flipping a bit position twice gives back the state, and flipping never leaves it unchanged. */
  lemma FlipInvolutive(s: string, t: nat)
    requires t < |s| && IsBit(s[t])
    ensures Flip(s, t) != s
    ensures Flip(Flip(s, t), t) == s
  {
  }
}
