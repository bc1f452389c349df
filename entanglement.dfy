/** The controlled-NOT of `entangle_qubits`: collect the pairs (control-'1' state, state with the
    target flipped) once each, then swap the two amplitudes of every pair in place. */
module Entanglement {
  import opened ComplexNumbers
  import opened BasisStates
  import opened Registers

  /** What the operation needs of its arguments: distinct qubits that every stored state holds. */
  predicate CnotArgs(m: Register, c: nat, t: nat) {
    c != t && Addressable(m, c) && Addressable(m, t)
  }

  /** The stored states whose control bit is '1'. */
  function Controlled(m: Register, c: nat): set<string>
    requires Addressable(m, c)
  {
    set s | s in m && s[c] == '1'
  }

  /** `p` is the target-flipped partner of a stored state whose control bit is '1'. */
  predicate IsPartner(m: Register, c: nat, t: nat, p: string) {
    c < |p| && t < |p| && IsBit(p[t]) && Flip(p, t) in m && Flip(p, t)[c] == '1'
  }

  /** The target-flipped partners of the controlled states (stored or not). */
  function Partners(m: Register, c: nat, t: nat): (ps: set<string>)
    requires CnotArgs(m, c, t)
    ensures forall p :: p in ps <==> IsPartner(m, c, t, p)
  {
    forall s | s in m && s[c] == '1'
      ensures Flip(Flip(s, t), t) == s
    {
      FlipInvolutive(s, t);
    }
    forall p | IsPartner(m, c, t, p)
      ensures Flip(Flip(p, t), t) == p
    {
      FlipInvolutive(p, t);
    }
    set s | s in m && s[c] == '1' :: Flip(s, t)
  }

  /** The register after the controlled-NOT: every state whose control bit is '1' takes the old
      amplitude of its target-flipped partner, all other entries stay; the keys are the old keys
      and all partners, so a partner that was absent gets an entry (possibly zero). */
  function Cnot(m: Register, c: nat, t: nat): Register
    requires CnotArgs(m, c, t)
  {
    map k | k in m.Keys + Partners(m, c, t) ::
      if k[c] == '1' then Lookup(m, Flip(k, t)) else m[k]
  }

  // The pairs collected by the first loop.

  type Pair = (string, string)

  /** Every pair is a stored state with control bit '1' and its target-flipped partner. */
  predicate PairsValid(m: Register, c: nat, t: nat, pairs: seq<Pair>) {
    forall x :: x in pairs ==>
      x.0 in m && c < |x.0| && x.0[c] == '1' && t < |x.0| && IsBit(x.0[t]) && x.1 == Flip(x.0, t)
  }

  /** The states that occur in some pair. */
  function Members(pairs: seq<Pair>): set<string> {
    (set x | x in pairs :: x.0) + (set x | x in pairs :: x.1)
  }

  /** No state occurs in two pairs, nor twice in one: every pair is disjoint from all earlier ones. */
  predicate PairsDisjoint(pairs: seq<Pair>) {
    forall i :: 0 <= i < |pairs| ==>
      pairs[i].0 != pairs[i].1 && pairs[i].0 !in Members(pairs[..i]) && pairs[i].1 !in Members(pairs[..i])
  }

  /** `k` must occur in the pairs once the keys `done` have been visited: it is a visited
      controlled state, or the partner of one. */
  predicate Covered(m: Register, c: nat, t: nat, done: set<string>, k: string)
    requires Addressable(m, c)
  {
    (k in done && k in m && k[c] == '1') || (IsPartner(m, c, t, k) && Flip(k, t) in done)
  }

  lemma MembersAppend(pairs: seq<Pair>, x: Pair)
    ensures Members(pairs + [x]) == Members(pairs) + {x.0, x.1}
  {
    assert forall y :: y in pairs + [x] <==> y in pairs || y == x;
  }

  /** The invariant of the first loop after the keys `done` have been visited, `pending` remain. */
  ghost predicate Collecting(m: Register, c: nat, t: nat, pairs: seq<Pair>, pending: set<string>, done: set<string>)
    requires CnotArgs(m, c, t)
  {
    && PairsValid(m, c, t, pairs)
    && (forall x :: x in pairs ==> x.0 !in pending)
    && PairsDisjoint(pairs)
    && (forall k :: k in Members(pairs) <==> Covered(m, c, t, done, k))
  }

  /** The first loop of `entangle_qubits`: for every stored state whose control bit is '1',
      record it with its partner unless the reversed pair is already recorded. */
  method SwapPairs(amplitudes: Register, control: nat, target: nat) returns (pairs: seq<Pair>)
    requires CnotArgs(amplitudes, control, target)
    ensures PairsValid(amplitudes, control, target, pairs)
    ensures PairsDisjoint(pairs)
    ensures forall k :: k in Members(pairs) <==> k in Controlled(amplitudes, control) || k in Partners(amplitudes, control, target)
  {
    pairs := [];
    var pending := amplitudes.Keys;
    ghost var done: set<string> := {};
    while pending != {}
      invariant pending !! done && pending + done == amplitudes.Keys
      invariant Collecting(amplitudes, control, target, pairs, pending, done)
      decreases pending
    {
      var basisState :| basisState in pending;
      if basisState[control] == '1' {
        var partnerState := Flip(basisState, target);
        if (partnerState, basisState) !in pairs {
          RecordStep(amplitudes, control, target, pairs, pending, done, basisState);
          pairs := pairs + [(basisState, partnerState)];
        } else {
          SkipStep(amplitudes, control, target, pairs, pending, done, basisState);
        }
      } else {
        SkipStep(amplitudes, control, target, pairs, pending, done, basisState);
      }
      pending := pending - {basisState};
      done := done + {basisState};
    }
    assert done == amplitudes.Keys;
  }

  /** Recording a new pair keeps the loop invariant. */
  lemma RecordStep(m: Register, c: nat, t: nat, pairs: seq<Pair>, pending: set<string>, done: set<string>, s: string)
    requires CnotArgs(m, c, t) && Collecting(m, c, t, pairs, pending, done)
    requires s in pending && s in m && s[c] == '1' && (Flip(s, t), s) !in pairs
    ensures Collecting(m, c, t, pairs + [(s, Flip(s, t))], pending - {s}, done + {s})
  {
    var next := pairs + [(s, Flip(s, t))];
    assert forall x :: x in next <==> x in pairs || x == (s, Flip(s, t));
    AppendKeepsDisjoint(m, c, t, pairs, s);
    CoverAppend(m, c, t, pairs, done, s);
  }

  lemma CoverAppend(m: Register, c: nat, t: nat, pairs: seq<Pair>, done: set<string>, s: string)
    requires CnotArgs(m, c, t) && s in m && s[c] == '1'
    requires forall k :: k in Members(pairs) <==> Covered(m, c, t, done, k)
    ensures forall k :: k in Members(pairs + [(s, Flip(s, t))]) <==> Covered(m, c, t, done + {s}, k)
  {
    MembersAppend(pairs, (s, Flip(s, t)));
    forall k
      ensures Covered(m, c, t, done + {s}, k) <==> Covered(m, c, t, done, k) || k == s || k == Flip(s, t)
    {
      CoveredExtend(m, c, t, done, s, k);
    }
  }

  /** Visiting a state with control bit '0', or one whose reversed pair is recorded, keeps the
      loop invariant without recording anything. */
  lemma SkipStep(m: Register, c: nat, t: nat, pairs: seq<Pair>, pending: set<string>, done: set<string>, s: string)
    requires CnotArgs(m, c, t) && Collecting(m, c, t, pairs, pending, done)
    requires s in pending && s in m && (s[c] == '1' ==> (Flip(s, t), s) in pairs)
    ensures Collecting(m, c, t, pairs, pending - {s}, done + {s})
  {
    if s[c] == '1' {
      assert s in Members(pairs) && Flip(s, t) in Members(pairs);
    }
    forall k
      ensures Covered(m, c, t, done + {s}, k) <==> Covered(m, c, t, done, k) || (s[c] == '1' && (k == s || k == Flip(s, t)))
    {
      CoveredExtend(m, c, t, done, s, k);
    }
  }

  /** Visiting `s` adds `s` and its partner to what must be covered when its control bit is '1'. */
  lemma CoveredExtend(m: Register, c: nat, t: nat, done: set<string>, s: string, k: string)
    requires CnotArgs(m, c, t) && s in m
    ensures Covered(m, c, t, done + {s}, k) <==>
      Covered(m, c, t, done, k) || (s[c] == '1' && (k == s || k == Flip(s, t)))
  {
    FlipInvolutive(s, t);
    if IsPartner(m, c, t, k) {
      FlipInvolutive(k, t);
    }
  }

  /** Appending a pair whose reverse is not recorded keeps the pairs disjoint. */
  lemma AppendKeepsDisjoint(m: Register, c: nat, t: nat, pairs: seq<Pair>, s: string)
    requires CnotArgs(m, c, t) && s in m && s[c] == '1'
    requires PairsValid(m, c, t, pairs) && PairsDisjoint(pairs)
    requires forall x :: x in pairs ==> x.0 != s
    requires (Flip(s, t), s) !in pairs
    ensures PairsDisjoint(pairs + [(s, Flip(s, t))])
  {
    var p := Flip(s, t);
    FlipInvolutive(s, t);
    var next := pairs + [(s, p)];
    forall x | x in pairs
      ensures x.0 != s && x.0 != p && x.1 != s && x.1 != p
    {
      FlipInvolutive(x.0, t);
      assert x.0 == Flip(x.1, t);
      assert x != (p, s);
    }
    forall i | 0 <= i < |next|
      ensures next[i].0 != next[i].1 && next[i].0 !in Members(next[..i]) && next[i].1 !in Members(next[..i])
    {
      if i < |pairs| {
        assert next[..i] == pairs[..i];
        assert next[i] == pairs[i];
        FlipInvolutive(pairs[i].0, t);
      } else {
        assert next[..i] == pairs;
      }
    }
  }

  lemma PairsDisjointPrefix(pairs: seq<Pair>, n: nat)
    requires PairsDisjoint(pairs) && n <= |pairs|
    ensures PairsDisjoint(pairs[..n])
  {
    forall i | 0 <= i < n
      ensures pairs[..n][..i] == pairs[..i]
    {
    }
  }

  // The second loop: swapping the amplitudes of every recorded pair.

  /** The register after swapping the pairs in order, each swap reading both amplitudes with
      `dict.get` (absent is zero) and then storing both, so an absent partner gets an entry. */
  function ApplySwaps(m: Register, pairs: seq<Pair>): Register
    decreases |pairs|
  {
    if pairs == [] then m
    else
      var before := ApplySwaps(m, pairs[..|pairs| - 1]);
      var a := pairs[|pairs| - 1].0;
      var b := pairs[|pairs| - 1].1;
      before[a := Lookup(before, b)][b := Lookup(before, a)]
  }

  /** Swapping one more pair of the list. */
  lemma SwapsStep(m: Register, pairs: seq<Pair>, i: nat)
    requires i < |pairs|
    ensures var before := ApplySwaps(m, pairs[..i]);
      ApplySwaps(m, pairs[..i + 1]) ==
        before[pairs[i].0 := Lookup(before, pairs[i].1)][pairs[i].1 := Lookup(before, pairs[i].0)]
  {
    assert pairs[..i + 1][..i] == pairs[..i];
  }

  /** The swaps store exactly the old keys and every state of a pair. */
  lemma {:induction false} SwapsKeys(m: Register, c: nat, t: nat, pairs: seq<Pair>)
    requires PairsValid(m, c, t, pairs)
    ensures forall k :: k in ApplySwaps(m, pairs) <==> k in m || k in Members(pairs)
    decreases |pairs|
  {
    if pairs != [] {
      var init := pairs[..|pairs| - 1];
      var last := pairs[|pairs| - 1];
      assert pairs == init + [last];
      assert forall x :: x in init ==> x in pairs;
      SwapsKeys(m, c, t, init);
      MembersAppend(init, last);
    }
  }

  /** After the swaps, a state of some pair holds the old amplitude of its partner; every other
      state keeps its old amplitude. */
  lemma {:induction false} SwapsLookup(m: Register, c: nat, t: nat, pairs: seq<Pair>, k: string)
    requires PairsValid(m, c, t, pairs) && PairsDisjoint(pairs)
    requires t < |k|
    ensures Lookup(ApplySwaps(m, pairs), k) ==
      if k in Members(pairs) then Lookup(m, Flip(k, t)) else Lookup(m, k)
    decreases |pairs|
  {
    if pairs != [] {
      var init := pairs[..|pairs| - 1];
      var a := pairs[|pairs| - 1].0;
      var b := pairs[|pairs| - 1].1;
      var before := ApplySwaps(m, init);
      assert pairs[|pairs| - 1] in pairs;
      assert PairsValid(m, c, t, init) by {
        assert forall x :: x in init ==> x in pairs;
      }
      assert a != b && a !in Members(init) && b !in Members(init);
      PairsDisjointPrefix(pairs, |pairs| - 1);
      assert Members(pairs) == Members(init) + {a, b} by {
        assert pairs == init + [(a, b)];
        MembersAppend(init, (a, b));
      }
      SwapOnce(before, a, b, k);
      if k == a {
        SwapsLookup(m, c, t, init, b);
      } else if k == b {
        FlipInvolutive(a, t);
        SwapsLookup(m, c, t, init, a);
      } else {
        SwapsLookup(m, c, t, init, k);
      }
    }
  }

  /** One swap through `dict.get`. */
  lemma SwapOnce(before: Register, a: string, b: string, k: string)
    requires a != b
    ensures Lookup(before[a := Lookup(before, b)][b := Lookup(before, a)], k) ==
      if k == a then Lookup(before, b) else if k == b then Lookup(before, a) else Lookup(before, k)
  {
  }

  /** Swapping the collected pairs is the controlled-NOT. */
  lemma SwapsImplementCnot(m: Register, c: nat, t: nat, pairs: seq<Pair>)
    requires CnotArgs(m, c, t)
    requires PairsValid(m, c, t, pairs) && PairsDisjoint(pairs)
    requires forall k :: k in Members(pairs) <==> k in Controlled(m, c) || k in Partners(m, c, t)
    ensures ApplySwaps(m, pairs) == Cnot(m, c, t)
  {
    var a := ApplySwaps(m, pairs);
    var b := Cnot(m, c, t);
    SwapsKeys(m, c, t, pairs);
    forall k | k in a
      ensures k in b && Lookup(a, k) == Lookup(b, k)
    {
      assert k in m || IsPartner(m, c, t, k);
      SwapsLookup(m, c, t, pairs, k);
      CnotLookup(m, c, t, k);
      ControlOfPartner(m, c, t, k);
    }
    forall k | k in b
      ensures k in a
    {
      assert k in m || IsPartner(m, c, t, k);
    }
    SameLookups(a, b);
  }

  /** A partner has the same control bit as the stored state it comes from: '1'. */
  lemma ControlOfPartner(m: Register, c: nat, t: nat, k: string)
    requires CnotArgs(m, c, t)
    ensures IsPartner(m, c, t, k) ==> k[c] == '1'
  {
  }

  /** The controlled-NOT read at any state that the qubit positions address. */
  lemma CnotLookup(m: Register, c: nat, t: nat, k: string)
    requires CnotArgs(m, c, t)
    requires c < |k| && t < |k| && IsBit(k[t])
    ensures k in Cnot(m, c, t) <==> k in m || IsPartner(m, c, t, k)
    ensures Lookup(Cnot(m, c, t), k) == if k[c] == '1' then Lookup(m, Flip(k, t)) else Lookup(m, k)
  {
    FlipInvolutive(k, t);
  }

  // Properties of `entangle_qubits`.

  /** A state whose control bit is '0' is untouched: stored exactly when it was, with the same
      amplitude. */
  lemma CnotControlZero(m: Register, c: nat, t: nat, k: string)
    requires CnotArgs(m, c, t)
    requires c < |k| && k[c] == '0'
    ensures k in Cnot(m, c, t) <==> k in m
    ensures Lookup(Cnot(m, c, t), k) == Lookup(m, k)
  {
    ControlOfPartner(m, c, t, k);
  }

  /** A stored state with control bit '1' and its target-flipped partner exchange amplitudes, and
      both are stored afterwards. */
  lemma CnotSwaps(m: Register, c: nat, t: nat, s: string)
    requires CnotArgs(m, c, t)
    requires s in m && s[c] == '1'
    ensures s in Cnot(m, c, t) && Flip(s, t) in Cnot(m, c, t)
    ensures Lookup(Cnot(m, c, t), s) == Lookup(m, Flip(s, t))
    ensures Lookup(Cnot(m, c, t), Flip(s, t)) == Lookup(m, s)
  {
    FlipInvolutive(s, t);
    CnotLookup(m, c, t, s);
    CnotLookup(m, c, t, Flip(s, t));
  }

  /** The keys after the controlled-NOT are again basis states of the register. */
  lemma CnotPreservesWellFormed(m: Register, c: nat, t: nat, n: nat)
    requires WellFormed(m, n) && c < n && t < n && c != t
    ensures CnotArgs(m, c, t)
    ensures WellFormed(Cnot(m, c, t), n)
  {
    forall k | k in Cnot(m, c, t)
      ensures IsBasisState(k, n)
    {
      if k !in m {
        var s := Flip(k, t);
        FlipInvolutive(k, t);
        WithBitBasisState(s, t, k[t], n);
        assert k == WithBit(s, t, k[t]);
      }
    }
  }

  /** The register after the controlled-NOT addresses the same qubits. */
  lemma CnotKeepsArgs(m: Register, c: nat, t: nat)
    requires CnotArgs(m, c, t)
    ensures CnotArgs(Cnot(m, c, t), c, t)
  {
  }

  /** Applying the controlled-NOT twice restores every amplitude; the second application adds no
      key, so the only trace left is a zero-valued entry for each partner that was absent. */
  lemma CnotTwice(m: Register, c: nat, t: nat)
    requires CnotArgs(m, c, t)
    ensures CnotArgs(Cnot(m, c, t), c, t)
    ensures forall k :: Lookup(Cnot(Cnot(m, c, t), c, t), k) == Lookup(m, k)
    ensures forall k :: k in Cnot(Cnot(m, c, t), c, t) <==> k in m || IsPartner(m, c, t, k)
  {
    var once := Cnot(m, c, t);
    CnotKeepsArgs(m, c, t);
    var twice := Cnot(once, c, t);
    forall k
      ensures Lookup(twice, k) == Lookup(m, k)
      ensures k in twice <==> k in m || IsPartner(m, c, t, k)
    {
      if c < |k| && t < |k| && IsBit(k[t]) {
        TwiceAt(m, c, t, k);
      } else {
        assert k !in m && k !in once && k !in twice;
      }
    }
  }

  lemma TwiceAt(m: Register, c: nat, t: nat, k: string)
    requires CnotArgs(m, c, t) && CnotArgs(Cnot(m, c, t), c, t)
    requires c < |k| && t < |k| && IsBit(k[t])
    ensures Lookup(Cnot(Cnot(m, c, t), c, t), k) == Lookup(m, k)
    ensures k in Cnot(Cnot(m, c, t), c, t) <==> k in m || IsPartner(m, c, t, k)
  {
    var once := Cnot(m, c, t);
    var f := Flip(k, t);
    FlipInvolutive(k, t);
    assert f[c] == k[c];
    CnotLookup(once, c, t, k);
    CnotLookup(m, c, t, k);
    CnotLookup(m, c, t, f);
  }
}
