/** The canonical order of basis states: Python's lexicographic string comparison, and the sorted
    key list that `sorted(self.amplitudes.items())` yields for a register (keys are unique). */
module CanonicalOrder {

  /** `a < b` on Python strings: first differing character decides, a proper prefix is smaller. */
  predicate LexLess(a: string, b: string) {
    if |a| == 0 then |b| > 0
    else if |b| == 0 then false
    else if a[0] != b[0] then a[0] < b[0]
    else LexLess(a[1..], b[1..])
  }

  lemma {:induction false} LexLessIrreflexive(a: string)
    ensures !LexLess(a, a)
  {
    if |a| > 0 {
      LexLessIrreflexive(a[1..]);
    }
  }

  lemma {:induction false} LexLessAsymmetric(a: string, b: string)
    ensures !(LexLess(a, b) && LexLess(b, a))
  {
    if |a| > 0 && |b| > 0 && a[0] == b[0] {
      LexLessAsymmetric(a[1..], b[1..]);
    }
  }

  lemma {:induction false} LexLessTransitive(a: string, b: string, c: string)
    requires LexLess(a, b) && LexLess(b, c)
    ensures LexLess(a, c)
  {
    if |a| > 0 && |b| > 0 && |c| > 0 && a[0] == b[0] && b[0] == c[0] {
      LexLessTransitive(a[1..], b[1..], c[1..]);
    }
  }

  /** Any two distinct strings are ordered one way or the other. */
  lemma {:induction false} LexLessTotal(a: string, b: string)
    requires a != b
    ensures LexLess(a, b) || LexLess(b, a)
  {
    if |a| > 0 && |b| > 0 && a[0] == b[0] {
      assert a == [a[0]] + a[1..] && b == [b[0]] + b[1..];
      LexLessTotal(a[1..], b[1..]);
    }
  }

  lemma LexLessAsymmetricAll()
    ensures forall a, b :: !(LexLess(a, b) && LexLess(b, a))
  {
    forall a, b ensures !(LexLess(a, b) && LexLess(b, a)) {
      LexLessAsymmetric(a, b);
    }
  }

  predicate IsLeast(k: string, keys: set<string>) {
    k in keys && forall o :: o in keys ==> o == k || LexLess(k, o)
  }

  /** Every finite non-empty set of strings has a least element. */
  lemma {:induction false} LeastExists(keys: set<string>)
    requires keys != {}
    ensures exists k :: IsLeast(k, keys)
    decreases keys
  {
    var x :| x in keys;
    if keys == {x} {
      assert IsLeast(x, keys);
    } else {
      LeastExists(keys - {x});
      var y :| IsLeast(y, keys - {x});
      LexLessTotal(x, y);
      if LexLess(x, y) {
        forall o | o in keys && o != x
          ensures LexLess(x, o)
        {
          if o != y {
            LexLessTransitive(x, y, o);
          }
        }
        assert IsLeast(x, keys);
      } else {
        assert IsLeast(y, keys);
      }
    }
  }

  /** The least key of a non-empty key set. */
  function Least(keys: set<string>): (k: string)
    requires keys != {}
    ensures k in keys
    ensures forall o :: o in keys && o != k ==> LexLess(k, o)
  {
    LeastExists(keys);
    LexLessAsymmetricAll();
    var k :| IsLeast(k, keys);
    k
  }

  /** Strictly increasing in the canonical order (and hence without repetitions). */
  predicate StrictlyIncreasing(ks: seq<string>) {
    forall i, j :: 0 <= i < j < |ks| ==> LexLess(ks[i], ks[j])
  }

  /** The keys of a register in canonical order: `[k for k, _ in sorted(d.items())]`. */
  function SortedKeys(keys: set<string>): (ks: seq<string>)
    ensures StrictlyIncreasing(ks)
    ensures forall k :: k in ks <==> k in keys
    decreases keys
  {
    if keys == {} then []
    else
      var k := Least(keys);
      [k] + SortedKeys(keys - {k})
  }

  /** The canonical order is unique: any strictly increasing listing of the keys is the sorted one. */
  lemma {:induction false} SortedKeysUnique(ks: seq<string>, keys: set<string>)
    requires StrictlyIncreasing(ks)
    requires forall k :: k in ks <==> k in keys
    ensures ks == SortedKeys(keys)
    decreases |ks|
  {
    if ks == [] {
      assert keys == {};
    } else {
      assert ks[0] in keys;
      var k := Least(keys);
      if ks[0] != k {
        var i :| 0 <= i < |ks| && ks[i] == k;
        assert LexLess(ks[0], ks[i]);
        assert LexLess(k, ks[0]);
        LexLessAsymmetric(k, ks[0]);
      }
      forall x ensures x in ks[1..] <==> x in keys - {k} {
        if x in ks[1..] {
          var j :| 1 <= j < |ks| && ks[j] == x;
          assert LexLess(ks[0], ks[j]);
          LexLessIrreflexive(x);
        }
        if x in keys - {k} {
          var j :| 0 <= j < |ks| && ks[j] == x;
          assert j != 0;
          assert ks[1..][j - 1] == x;
        }
      }
      SortedKeysUnique(ks[1..], keys - {k});
      assert ks == [k] + ks[1..];
    }
  }
}
