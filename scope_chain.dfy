/**
 * The scope graph both symbol-table generators build. `create_scope` adds each table with at most
 * one outgoing edge, to the scope current at the time, which is an older table; so every table
 * has at most one successor, its parent, and a breadth-first walk from a table visits the table,
 * its parent, that table's parent, and so on. The graph is kept as each table's parent.
 */
module ScopeChains {
  import opened Wrappers
  import opened Strings
  import opened NameSearch

  /** Every parent is an older table. */
  predicate Forest(parents: seq<Option<nat>>) {
    forall n :: 0 <= n < |parents| && parents[n].Some? ==> parents[n].value < n
  }

  /** The tables a breadth-first walk from `node` visits, in order. */
  function Ancestors(parents: seq<Option<nat>>, node: nat): (r: seq<nat>)
    requires Forest(parents) && node < |parents|
    ensures |r| > 0 && r[0] == node && forall k :: 0 <= k < |r| ==> r[k] < |parents|
    decreases node
  {
    match parents[node]
    case None => [node]
    case Some(p) => [node] + Ancestors(parents, p)
  }

  /**
   * The search of `lookup`: the first table from `node` along its ancestors whose names the binary
   * search finds `id` in, with the index found there.
   */
  function FindOnChain(names: seq<seq<string>>, parents: seq<Option<nat>>, node: nat, id: string): (r: Option<(nat, nat)>)
    requires |names| == |parents| && Forest(parents) && node < |parents|
    ensures r.Some? ==> r.value.0 < |names| && r.value.1 < |names[r.value.0]| && names[r.value.0][r.value.1] == id
    decreases node
  {
    match Search(names[node], id)
    case Found(i) => Some((node, i))
    case Vacant(_) => if parents[node].Some? then FindOnChain(names, parents, parents[node].value, id) else None
  }

  /**
   * With every table's names in order, `lookup` finds the nearest table along the ancestors that
   * holds `id`, and an index of `id` in it; it finds nothing exactly when no table along the way
   * holds `id`.
   */
  lemma {:induction false} FindOnChainIsNearest(names: seq<seq<string>>, parents: seq<Option<nat>>, node: nat, id: string)
    requires |names| == |parents| && Forest(parents) && node < |parents|
    requires forall n :: 0 <= n < |names| ==> Ascending(names[n])
    ensures FindOnChain(names, parents, node, id).None? <==> forall n :: n in Ancestors(parents, node) ==> id !in names[n]
    ensures var c := Ancestors(parents, node);
            var r := FindOnChain(names, parents, node, id);
            r.Some? ==> exists k :: 0 <= k < |c| && c[k] == r.value.0 && forall j :: 0 <= j < k ==> id !in names[c[j]]
    decreases node
  {
    var c := Ancestors(parents, node);
    var here := Search(names[node], id);
    SearchVacant(names[node], id);
    if here.Found? {
      assert c[0] == node && names[node][here.index] == id;
    } else if parents[node].Some? {
      var p := parents[node].value;
      FindOnChainIsNearest(names, parents, p, id);
      var c' := Ancestors(parents, p);
      assert c == [node] + c';
      assert forall k :: 1 <= k < |c| ==> c[k] == c'[k - 1];
      var r := FindOnChain(names, parents, node, id);
      if r.Some? {
        var k' :| 0 <= k' < |c'| && c'[k'] == r.value.0 && forall j :: 0 <= j < k' ==> id !in names[c'[j]];
        assert c[k' + 1] == r.value.0;
        assert forall j :: 0 <= j < k' + 1 ==> id !in names[c[j]];
      }
    } else {
      assert c == [node];
    }
  }

  /** A table added with the given parent keeps the forest a forest. */
  lemma AddKeepsForest(parents: seq<Option<nat>>, parent: Option<nat>)
    requires Forest(parents) && (parent.Some? ==> parent.value < |parents|)
    ensures Forest(parents + [parent])
  {
  }
}
