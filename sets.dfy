/** Small facts about finite sets that the fixpoint loops of the model rely on. */
module SetFacts {
  lemma SubsetCard<T>(a: set<T>, b: set<T>)
    requires a <= b
    ensures |a| <= |b|
  {
    assert b == a + (b - a);
    assert a * (b - a) == {};
  }

  lemma ProperSubsetCard<T>(a: set<T>, b: set<T>)
    requires a < b
    ensures |a| < |b|
  {
    assert b == a + (b - a);
    assert a * (b - a) == {};
    assert b - a != {};
  }

  /** A superset with no more elements is the same set. */
  lemma SubsetSameCardEqual<T>(a: set<T>, b: set<T>)
    requires a <= b && |b| <= |a|
    ensures a == b
  {
    if a != b {
      ProperSubsetCard(a, b);
    }
  }

  /** Every subset of `s`, used as a termination measure for the state worklist. */
  ghost function PowerSet<T(!new)>(s: set<T>): (p: set<set<T>>)
    ensures forall x :: x in p <==> x <= s
    decreases s
  {
    if s == {} then
      assert forall x: set<T> :: x <= s ==> x == {};
      {{}}
    else
      var e :| e in s;
      var q := PowerSet(s - {e});
      var r := q + set x | x in q :: x + {e};
      assert forall x :: x <= s ==> x in r by {
        forall x | x <= s
          ensures x in r
        {
          assert x - {e} in q;
          if e in x {
            assert x == (x - {e}) + {e};
          } else {
            assert x == x - {e};
          }
        }
      }
      r
  }

  /** The numbers below n, as a set. */
  function Range(n: nat): (r: set<nat>)
    ensures forall i: nat :: i in r <==> i < n
  {
    if n == 0 then {} else Range(n - 1) + {n - 1}
  }
}
