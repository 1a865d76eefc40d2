/**
 * Reachability in a finite step relation given as a map from a node to the nodes one step on,
 * counted in chains of at most d nodes: the depth-bounded recursion `trans` of the LALR(1)
 * constructor runs over such a relation.
 */
module Reachability {
  /** The nodes one step on from x; none when x has no entry. */
  function Next<T(==)>(m: map<T, set<T>>, x: T): set<T> {
    if x in m then m[x] else {}
  }

  /** The nodes reached from x along chains of at most d nodes. */
  function Reach<T(==)>(m: map<T, set<T>>, x: T, d: nat): (r: set<T>)
    ensures forall t :: t in r ==> t == x || exists k :: k in m && t in m[k]
    ensures d > 0 ==> x in r
    decreases d, 1
  {
    if d == 0 then {} else {x} + ReachBeyond(m, x, d - 1)
  }

  /** The nodes reached from the steps out of x along chains of at most e nodes. */
  function ReachBeyond<T(==)>(m: map<T, set<T>>, x: T, e: nat): (r: set<T>)
    ensures forall t :: t in r ==> exists k :: k in m && t in m[k]
    decreases e + 1, 0
  {
    set n, t | n in Next(m, x) && t in Reach(m, n, e) :: t
  }

  /** A chain p[0], p[1], ... in which each node is one step on from the one before. */
  ghost predicate Path<T>(m: map<T, set<T>>, p: seq<T>)
    decreases |p|
  {
    |p| > 0 && (|p| > 1 ==> p[1] in Next(m, p[0]) && Path(m, p[1..]))
  }

  /** Every chain from x has at most n nodes. */
  ghost predicate PathsBounded<T(!new)>(m: map<T, set<T>>, x: T, n: nat) {
    forall p :: Path(m, p) && p[0] == x ==> |p| <= n
  }

  /** Every node `Reach` finds ends a chain from x of at most d nodes. */
  lemma {:induction false} ReachHasPath<T>(m: map<T, set<T>>, x: T, d: nat, t: T)
    requires t in Reach(m, x, d)
    ensures exists p :: Path(m, p) && p[0] == x && p[|p| - 1] == t && |p| <= d
    decreases d
  {
    if t == x {
      var p := [x];
      assert Path(m, p) && p[0] == x && p[|p| - 1] == t && |p| <= d;
    } else {
      assert t in ReachBeyond(m, x, d - 1);
      var n :| n in Next(m, x) && t in Reach(m, n, d - 1);
      ReachHasPath(m, n, d - 1, t);
      var q :| Path(m, q) && q[0] == n && q[|q| - 1] == t && |q| <= d - 1;
      var p := [x] + q;
      assert p[1..] == q;
      assert Path(m, p) && p[0] == x && p[|p| - 1] == t && |p| <= d;
    }
  }

  /** The end of a chain of at most d nodes is among the nodes `Reach` finds from its start. */
  lemma {:induction false} PathInReach<T>(m: map<T, set<T>>, p: seq<T>, d: nat)
    requires Path(m, p) && |p| <= d
    ensures p[|p| - 1] in Reach(m, p[0], d)
    decreases d
  {
    if |p| > 1 {
      var q := p[1..];
      PathInReach(m, q, d - 1);
      assert p[|p| - 1] == q[|q| - 1];
      assert p[|p| - 1] in ReachBeyond(m, p[0], d - 1);
    }
  }

  /** `Reach` are exactly the ends of the chains from x of at most d nodes. */
  lemma ReachIsPaths<T>(m: map<T, set<T>>, x: T, d: nat, t: T)
    ensures t in Reach(m, x, d) <==> exists p :: Path(m, p) && p[0] == x && p[|p| - 1] == t && |p| <= d
  {
    if t in Reach(m, x, d) {
      ReachHasPath(m, x, d, t);
    }
    if exists p :: Path(m, p) && p[0] == x && p[|p| - 1] == t && |p| <= d {
      var p :| Path(m, p) && p[0] == x && p[|p| - 1] == t && |p| <= d;
      PathInReach(m, p, d);
    }
  }

  /** A node whose every step leads to a node bounding its chains by n - 1 bounds its own by n. */
  lemma PathsBoundedStep<T(!new)>(m: map<T, set<T>>, x: T, n: nat)
    requires n > 0
    requires forall s :: s in Next(m, x) ==> PathsBounded(m, s, n - 1)
    ensures PathsBounded(m, x, n)
  {
    forall p | Path(m, p) && p[0] == x
      ensures |p| <= n
    {
      if |p| > 1 {
        assert p[1..][0] == p[1];
      }
    }
  }
}
