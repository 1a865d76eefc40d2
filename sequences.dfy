/** Order-preserving selection from a sequence. */
module SeqFacts {
  /** The elements of `xs` that satisfy `f`, in order. */
  function Select<T>(xs: seq<T>, f: T -> bool): seq<T> {
    if |xs| == 0 then [] else (if f(xs[0]) then [xs[0]] else []) + Select(xs[1..], f)
  }

  lemma {:induction false} SelectMember<T>(xs: seq<T>, f: T -> bool, t: T)
    ensures t in Select(xs, f) <==> t in xs && f(t)
  {
    if |xs| > 0 {
      SelectMember(xs[1..], f, t);
      assert t in xs <==> t == xs[0] || t in xs[1..];
    }
  }

  /** `Select` keeps what it selects in the order of `xs`. */
  lemma {:induction false} SelectInOrder<T>(xs: seq<T>, f: T -> bool, i: nat, j: nat)
    requires i < j < |Select(xs, f)|
    ensures exists p, q :: 0 <= p < q < |xs| && xs[p] == Select(xs, f)[i] && xs[q] == Select(xs, f)[j]
  {
    var k := Select(xs, f);
    var tail := xs[1..];
    var rest := Select(tail, f);
    if f(xs[0]) {
      assert k == [xs[0]] + rest;
      if i == 0 {
        var x := k[j];
        assert x == rest[j - 1];
        SelectMember(tail, f, x);
        var q :| 0 <= q < |tail| && tail[q] == x;
        assert xs[0] == k[i] && xs[q + 1] == k[j];
      } else {
        SelectInOrder(tail, f, i - 1, j - 1);
        var p, q :| 0 <= p < q < |tail| && tail[p] == rest[i - 1] && tail[q] == rest[j - 1];
        assert xs[p + 1] == k[i] && xs[q + 1] == k[j];
      }
    } else {
      assert k == rest;
      SelectInOrder(tail, f, i, j);
      var p, q :| 0 <= p < q < |tail| && tail[p] == rest[i] && tail[q] == rest[j];
      assert xs[p + 1] == k[i] && xs[q + 1] == k[j];
    }
  }

  /** `x` occurs in `xs` before some occurrence of `y`. */
  ghost predicate Precedes<T>(xs: seq<T>, x: T, y: T) {
    exists p, q :: 0 <= p < q < |xs| && xs[p] == x && xs[q] == y
  }

  /** Any two elements of `sub` occur in `xs` in the same order. */
  ghost predicate KeepsOrder<T>(sub: seq<T>, xs: seq<T>) {
    forall i, j :: 0 <= i < j < |sub| ==> Precedes(xs, sub[i], sub[j])
  }

  /** `Select` keeps the order of `xs`, for every pair at once. */
  lemma SelectKeepsOrder<T>(xs: seq<T>, f: T -> bool)
    ensures KeepsOrder(Select(xs, f), xs)
  {
    var s := Select(xs, f);
    forall i, j | 0 <= i < j < |s|
      ensures Precedes(xs, s[i], s[j])
    {
      SelectInOrder(xs, f, i, j);
    }
  }

  /** Two selected elements of a list without repetitions are different. */
  lemma SelectDistinct<T>(xs: seq<T>, f: T -> bool, i: nat, j: nat)
    requires forall i, j :: 0 <= i < j < |xs| ==> xs[i] != xs[j]
    requires i < j < |Select(xs, f)|
    ensures Select(xs, f)[i] != Select(xs, f)[j]
  {
    SelectInOrder(xs, f, i, j);
  }

  /** Three selections by mutually exclusive and exhaustive tests rearrange the sequence. */
  lemma {:induction false} SelectPartition<T>(xs: seq<T>, f: T -> bool, g: T -> bool, h: T -> bool)
    requires forall x :: x in xs ==> (f(x) || g(x) || h(x)) && !(f(x) && g(x)) && !(f(x) && h(x)) && !(g(x) && h(x))
    ensures multiset(Select(xs, f) + Select(xs, g) + Select(xs, h)) == multiset(xs)
  {
    if |xs| > 0 {
      SelectPartition(xs[1..], f, g, h);
      assert xs == [xs[0]] + xs[1..];
    }
  }
}
