/**
 * The type checker's `OperatorTable`: for each operator, its overloads in registration order.
 * A type is named by its arena index, so a signature is a list of indices.
 */
module Operators {
  import opened SeqFacts

  /** An overload: parameter types, return type, and whether it takes further arguments. */
  datatype FunctionType = FunctionType(params: seq<nat>, returnType: nat, isVararg: bool)

  type Definitions = map<string, seq<FunctionType>>

  /** The overloads registered for `op`, none when it has no entry. */
  function Registered(defs: Definitions, op: string): seq<FunctionType> {
    if op in defs then defs[op] else []
  }

  /** Whether `(op, d)` is not registered yet. */
  predicate Unregistered(defs: Definitions, op: string, d: FunctionType) {
    d !in Registered(defs, op)
  }

  /** `add_definition` on the map: the new map and whether the definition was added. */
  function Add(defs: Definitions, op: string, d: FunctionType): (Definitions, bool) {
    if op in defs && d in defs[op] then (defs, false)
    else (defs[op := Registered(defs, op) + [d]], true)
  }

  /**
   * `add_definition_multiple` on the map, pair by pair: `add_definition` for each pair in turn,
   * stopping after the first that fails.
   */
  function AddPairs(defs: Definitions, pairs: seq<(string, FunctionType)>): (Definitions, bool)
    decreases |pairs|
  {
    if |pairs| == 0 then (defs, true)
    else
      var (defs', ok) := Add(defs, pairs[0].0, pairs[0].1);
      if !ok then (defs', false) else AddPairs(defs', pairs[1..])
  }

  /** The pairs `add_definition_multiple` visits: each operator with every definition, operator by operator. */
  function Pairs(ops: seq<string>, ds: seq<FunctionType>): seq<(string, FunctionType)> {
    if |ops| == 0 then [] else Pairs(ops[..|ops| - 1], ds) + Row(ops[|ops| - 1], ds)
  }

  function Row(op: string, ds: seq<FunctionType>): (p: seq<(string, FunctionType)>)
    ensures |p| == |ds|
  {
    seq(|ds|, j requires 0 <= j < |ds| => (op, ds[j]))
  }

  /** No pair occurs twice. */
  predicate Distinct(pairs: seq<(string, FunctionType)>) {
    forall k, l :: 0 <= k < l < |pairs| ==> pairs[k] != pairs[l]
  }

  /** Adding pairs one after the other is adding the first batch, then, if that succeeded, the second. */
  lemma {:induction false} AddPairsAppend(defs: Definitions, a: seq<(string, FunctionType)>, b: seq<(string, FunctionType)>)
    ensures AddPairs(defs, a + b) ==
            (if AddPairs(defs, a).1 then AddPairs(AddPairs(defs, a).0, b) else AddPairs(defs, a))
    decreases |a|
  {
    if |a| > 0 {
      assert (a + b)[1..] == a[1..] + b;
      var (defs', ok) := Add(defs, a[0].0, a[0].1);
      if ok {
        AddPairsAppend(defs', a[1..], b);
      }
    } else {
      assert a + b == b;
    }
  }

  /**
   * Adding a list of pairs succeeds exactly when every pair was new: none of them was registered
   * before, and none occurs twice in the list.
   */
  lemma {:induction false} AddPairsSucceedsIffNew(defs: Definitions, pairs: seq<(string, FunctionType)>)
    ensures AddPairs(defs, pairs).1 <==>
            Distinct(pairs) && forall k :: 0 <= k < |pairs| ==> Unregistered(defs, pairs[k].0, pairs[k].1)
    decreases |pairs|
  {
    if |pairs| > 0 {
      var (op, d) := pairs[0];
      var rest := pairs[1..];
      var (defs', ok) := Add(defs, op, d);
      if ok {
        AddPairsSucceedsIffNew(defs', rest);
        assert forall q: (string, FunctionType) :: Unregistered(defs', q.0, q.1) <==> Unregistered(defs, q.0, q.1) && q != (op, d);
        assert forall k :: 1 <= k < |pairs| ==> pairs[k] == rest[k - 1];
        if Distinct(pairs) && forall k :: 0 <= k < |pairs| ==> Unregistered(defs, pairs[k].0, pairs[k].1) {
          assert Distinct(rest);
        }
      }
    }
  }

  /**
   * Adding pairs only appends: each operator's old overloads stay in front, and when the whole
   * batch succeeds every pair is registered afterwards.
   */
  lemma {:induction false} AddPairsAppends(defs: Definitions, pairs: seq<(string, FunctionType)>)
    ensures forall op :: op in defs ==> op in AddPairs(defs, pairs).0 && defs[op] <= AddPairs(defs, pairs).0[op]
    ensures AddPairs(defs, pairs).1 ==>
              forall k :: 0 <= k < |pairs| ==> pairs[k].1 in Registered(AddPairs(defs, pairs).0, pairs[k].0)
    decreases |pairs|
  {
    if |pairs| > 0 {
      var (op, d) := pairs[0];
      var (defs', ok) := Add(defs, op, d);
      if ok {
        AddPairsAppends(defs', pairs[1..]);
        assert d in Registered(defs', op);
        assert forall k :: 1 <= k < |pairs| ==> pairs[k] == pairs[1..][k - 1];
      }
    }
  }

  /** Whether `add_definition_multiple` keeps overload `d` of `op`: the arities agree, and it is unary or fits one argument exactly. */
  predicate Fits(d: FunctionType, typeList: seq<nat>) {
    |d.params| == |typeList| && (|d.params| == 1 || exists i :: 0 <= i < |d.params| && d.params[i] == typeList[i])
  }

  /** `Fits` as the filter `candidate_definitions` applies. */
  function FitsTo(typeList: seq<nat>): FunctionType -> bool {
    d => Fits(d, typeList)
  }

  class OperatorTable {
    var definitions: Definitions

    /** The default, empty table. */
    constructor ()
      ensures definitions == map[]
    {
      definitions := map[];
    }

    /**
     * `add_definition`: false with nothing changed when an equal overload of `op` is registered;
     * otherwise the overload goes at the end of `op`'s list, which is created if needed, and true.
     */
    method AddDefinition(op: string, d: FunctionType) returns (added: bool)
      modifies this
      ensures (definitions, added) == Add(old(definitions), op, d)
      ensures added <==> Unregistered(old(definitions), op, d)
    {
      var list := if op in definitions then definitions[op] else [];
      if d in list {
        return false;
      }
      definitions := definitions[op := list + [d]];
      return true;
    }

    /**
     * `add_definition_multiple`: `add_definition` for every operator with every definition, stopping
     * at the first that fails; true when none failed, which is when every pair was new.
     */
    method AddDefinitionMultiple(ops: seq<string>, ds: seq<FunctionType>) returns (ok: bool)
      modifies this
      ensures (definitions, ok) == AddPairs(old(definitions), Pairs(ops, ds))
    {
      ghost var start := definitions;
      for i := 0 to |ops|
        invariant AddPairs(start, Pairs(ops[..i], ds)) == (definitions, true)
      {
        assert Pairs(ops[..i], ds) + Row(ops[i], ds[..0]) == Pairs(ops[..i], ds);
        for j := 0 to |ds|
          invariant AddPairs(start, Pairs(ops[..i], ds) + Row(ops[i], ds[..j])) == (definitions, true)
        {
          var added := AddDefinition(ops[i], ds[j]);
          assert Row(ops[i], ds[..j + 1]) == Row(ops[i], ds[..j]) + [(ops[i], ds[j])];
          AddPairsAppend(start, Pairs(ops[..i], ds) + Row(ops[i], ds[..j]), [(ops[i], ds[j])]);
          assert Pairs(ops[..i], ds) + Row(ops[i], ds[..j + 1]) == Pairs(ops[..i], ds) + Row(ops[i], ds[..j]) + [(ops[i], ds[j])];
          if !added {
            Stops(start, ops, ds, i, j + 1);
            return false;
          }
        }
        assert ds[..|ds|] == ds;
        assert ops[..i + 1][..i] == ops[..i];
        assert Pairs(ops[..i + 1], ds) == Pairs(ops[..i], ds) + Row(ops[i], ds);
      }
      assert ops[..|ops|] == ops;
      return true;
    }

    /**
     * `candidate_definitions`: the overloads of `op` that `Fits` the argument types, in
     * registration order; none for an unregistered operator.
     */
    function CandidateDefinitions(op: string, typeList: seq<nat>): seq<FunctionType>
      reads this
    {
      Candidates(definitions, op, typeList)
    }
  }

  /** The candidate overloads of `op` in the map `defs`. */
  function Candidates(defs: Definitions, op: string, typeList: seq<nat>): seq<FunctionType> {
    if op in defs then Select(defs[op], FitsTo(typeList)) else []
  }

  /**
   * The candidates are exactly the registered overloads of `op` that fit: each fits, each is
   * registered, every fitting one is among them, they keep registration order, and there are
   * none for an unregistered operator.
   */
  lemma CandidatesAreFittingOverloads(defs: Definitions, op: string, typeList: seq<nat>)
    ensures op !in defs ==> Candidates(defs, op, typeList) == []
    ensures forall d :: d in Candidates(defs, op, typeList) <==> d in Registered(defs, op) && Fits(d, typeList)
    ensures KeepsOrder(Candidates(defs, op, typeList), Registered(defs, op))
  {
    var f := FitsTo(typeList);
    var xs := Registered(defs, op);
    var c := Candidates(defs, op, typeList);
    assert c == Select(xs, f);
    forall d
      ensures d in c <==> d in xs && Fits(d, typeList)
    {
      SelectMember(xs, f, d);
    }
    SelectKeepsOrder(xs, f);
  }

  /** Once a pair fails, the batch ends with the map as it was when that pair failed. */
  lemma Stops(start: Definitions, ops: seq<string>, ds: seq<FunctionType>, i: nat, j: nat)
    requires i < |ops| && 0 < j <= |ds|
    requires !AddPairs(start, Pairs(ops[..i], ds) + Row(ops[i], ds[..j])).1
    ensures AddPairs(start, Pairs(ops, ds)) == AddPairs(start, Pairs(ops[..i], ds) + Row(ops[i], ds[..j]))
  {
    var done := Pairs(ops[..i], ds) + Row(ops[i], ds[..j]);
    var rest := Row(ops[i], ds[j..]) + PairsFrom(ops, ds, i + 1);
    PairsSplit(ops, ds, i, j);
    AddPairsAppend(start, done, rest);
  }

  /** The pairs of the operators from `i` on. */
  function PairsFrom(ops: seq<string>, ds: seq<FunctionType>, i: nat): seq<(string, FunctionType)>
    requires i <= |ops|
    decreases |ops| - i
  {
    if i == |ops| then [] else Row(ops[i], ds) + PairsFrom(ops, ds, i + 1)
  }

  /** The pairs split at operator `i`, definition `j`. */
  lemma PairsSplit(ops: seq<string>, ds: seq<FunctionType>, i: nat, j: nat)
    requires i < |ops| && j <= |ds|
    ensures Pairs(ops, ds) == Pairs(ops[..i], ds) + Row(ops[i], ds[..j]) + (Row(ops[i], ds[j..]) + PairsFrom(ops, ds, i + 1))
  {
    var a, f, f1 := Pairs(ops[..i], ds), PairsFrom(ops, ds, i), PairsFrom(ops, ds, i + 1);
    var r, b, c := Row(ops[i], ds), Row(ops[i], ds[..j]), Row(ops[i], ds[j..]);
    PairsConcat(ops, ds, i);
    assert f == r + f1;
    RowSplit(ops[i], ds, j);
    Regroup(a, b, c, f1);
  }

  lemma Regroup<T>(a: seq<T>, b: seq<T>, c: seq<T>, d: seq<T>)
    ensures a + ((b + c) + d) == a + b + (c + d)
  {
  }

  /** A row splits where its definitions do. */
  lemma RowSplit(op: string, ds: seq<FunctionType>, j: nat)
    requires j <= |ds|
    ensures Row(op, ds) == Row(op, ds[..j]) + Row(op, ds[j..])
  {
    var r, a, b := Row(op, ds), Row(op, ds[..j]), Row(op, ds[j..]);
    assert |r| == |a + b|;
    forall k | 0 <= k < |r|
      ensures r[k] == (a + b)[k]
    {
      if k < j {
        assert (a + b)[k] == a[k];
      } else {
        assert (a + b)[k] == b[k - j];
      }
    }
  }

  /** The pairs are those of the operators before `i`, then those from `i` on. */
  lemma {:induction false} PairsConcat(ops: seq<string>, ds: seq<FunctionType>, i: nat)
    requires i <= |ops|
    ensures Pairs(ops, ds) == Pairs(ops[..i], ds) + PairsFrom(ops, ds, i)
    decreases |ops| - i
  {
    if i == |ops| {
      assert ops[..i] == ops;
    } else {
      PairsConcat(ops, ds, i + 1);
      assert ops[..i + 1][..i] == ops[..i];
    }
  }
}
