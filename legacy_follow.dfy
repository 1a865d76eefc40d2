/**
 * FOLLOW sets of the older grammar under `src/lib`. The fixpoint loop is the one `lexion_lib`
 * uses, but the scan after an occurrence at position `i` reads the FIRST set of `right[i + 1]` at
 * every step instead of the FIRST set of the symbol it has reached: it adds that set (epsilon
 * removed) and, when the set holds epsilon, moves on, until it reaches the end of the right side
 * and adds FOLLOW of the left side.
 */
module LegacyFollowSets {
  import opened Wrappers
  import opened Symbols
  import opened GrammarRules
  import opened FirstSets
  import opened FollowSets
  import opened SetFacts

  /**
   * The contribution of an occurrence at `i` as the scan computes it: FOLLOW of the left side at
   * the end of the right side; otherwise FIRST of the next symbol without epsilon, and FOLLOW of
   * the left side as well when that FIRST set holds epsilon, whatever comes after.
   */
  function OccurrenceFollowAsWritten(first: SetMap, follow: SetMap, rule: Rule, i: nat): set<Symbol>
    requires i < |rule.right| && Covers(first, rule.right)
  {
    if i + 1 == |rule.right| then FollowGet(follow, rule.left)
    else
      var f := first[rule.right[i + 1]];
      (f - {EPSILON}) + (if EPSILON in f then FollowGet(follow, rule.left) else {})
  }

  /** The contributions of the occurrences of `s` among the first `n` right-hand symbols of `rule`. */
  function RuleFollowAsWritten(first: SetMap, follow: SetMap, rule: Rule, s: Symbol, n: nat): set<Symbol>
    requires n <= |rule.right| && Covers(first, rule.right)
  {
    if n == 0 then {}
    else RuleFollowAsWritten(first, follow, rule, s, n - 1) + (if rule.right[n - 1] == s then OccurrenceFollowAsWritten(first, follow, rule, n - 1) else {})
  }

  /** The union of the occurrence contributions over all rules. */
  function FollowOfRulesAsWritten(first: SetMap, follow: SetMap, rules: seq<Rule>, s: Symbol): set<Symbol>
    requires RulesCovered(first, rules)
  {
    if |rules| == 0 then {}
    else
      var last := rules[|rules| - 1];
      FollowOfRulesAsWritten(first, follow, rules[..|rules| - 1], s) + RuleFollowAsWritten(first, follow, last, s, |last.right|)
  }

  /** One application of the `follow_of` closure as written: occurrences, `$` for the start symbol, epsilon removed. */
  function FollowOfSpecAsWritten(first: SetMap, follow: SetMap, rules: seq<Rule>, start: Symbol, s: Symbol): set<Symbol>
    requires RulesCovered(first, rules)
  {
    (FollowOfRulesAsWritten(first, follow, rules, s) + (if s == start then {EOF} else {})) - {EPSILON}
  }

  // ---- the `follow_of` closure ----

  /** `follow_of` as written, over the rules whose right side contains `s` and each occurrence of `s` there. */
  method FollowOfAsWritten(first: SetMap, follow: SetMap, rules: seq<Rule>, start: Symbol, s: Symbol) returns (r: set<Symbol>)
    requires RulesCovered(first, rules)
    ensures r == FollowOfSpecAsWritten(first, follow, rules, start, s)
  {
    r := {};
    for k := 0 to |rules|
      invariant r == FollowOfRulesAsWritten(first, follow, rules[..k], s)
    {
      assert rules[..k + 1][..k] == rules[..k];
      var rule := rules[k];
      if s !in rule.right {
        assert RuleFollowAsWritten(first, follow, rule, s, |rule.right|) == {} by {
          NoOccurrenceNoFollowAsWritten(first, follow, rule, s, |rule.right|);
        }
        continue;
      }
      for i := 0 to |rule.right|
        invariant r == FollowOfRulesAsWritten(first, follow, rules[..k], s) + RuleFollowAsWritten(first, follow, rule, s, i)
      {
        if rule.right[i] != s {
          continue;
        }
        var add := ScanAfterAsWritten(first, follow, rule, i);
        r := r + add;
      }
    }
    assert rules[..|rules|] == rules;
    if s == start {
      r := r + {EOF};
    }
    r := r - {EPSILON};
  }

  /** The scan after an occurrence at `i`, reading `right[i + 1]` at every step. */
  method ScanAfterAsWritten(first: SetMap, follow: SetMap, rule: Rule, i: nat) returns (r: set<Symbol>)
    requires i < |rule.right| && Covers(first, rule.right)
    ensures r == OccurrenceFollowAsWritten(first, follow, rule, i)
  {
    r := {};
    var index := i + 1;
    while true
      invariant i + 1 <= index <= |rule.right|
      invariant index == i + 1 ==> r == {}
      invariant index > i + 1 ==> var f := first[rule.right[i + 1]]; EPSILON in f && r == f - {EPSILON}
      decreases |rule.right| - index
    {
      if index == |rule.right| {
        r := r + FollowGet(follow, rule.left);
        break;
      }
      var firstSet := first[rule.right[i + 1]];
      r := r + (firstSet - {EPSILON});
      if EPSILON in firstSet {
        index := index + 1;
      } else {
        break;
      }
    }
  }

  lemma {:induction false} NoOccurrenceNoFollowAsWritten(first: SetMap, follow: SetMap, rule: Rule, s: Symbol, n: nat)
    requires n <= |rule.right| && Covers(first, rule.right) && s !in rule.right[..n]
    ensures RuleFollowAsWritten(first, follow, rule, s, n) == {}
  {
    if n > 0 {
      assert rule.right[..n - 1] <= rule.right[..n];
      assert rule.right[n - 1] in rule.right[..n];
      NoOccurrenceNoFollowAsWritten(first, follow, rule, s, n - 1);
    }
  }

  // ---- monotonicity and bounds ----

  lemma {:induction false} RuleFollowAsWrittenMono(first: SetMap, f: SetMap, g: SetMap, rule: Rule, s: Symbol, n: nat)
    requires Below(f, g) && n <= |rule.right| && Covers(first, rule.right)
    ensures RuleFollowAsWritten(first, f, rule, s, n) <= RuleFollowAsWritten(first, g, rule, s, n)
  {
    if n > 0 {
      RuleFollowAsWrittenMono(first, f, g, rule, s, n - 1);
    }
  }

  lemma {:induction false} FollowOfRulesAsWrittenMono(first: SetMap, f: SetMap, g: SetMap, rules: seq<Rule>, s: Symbol)
    requires Below(f, g) && RulesCovered(first, rules)
    ensures FollowOfRulesAsWritten(first, f, rules, s) <= FollowOfRulesAsWritten(first, g, rules, s)
  {
    if |rules| > 0 {
      FollowOfRulesAsWrittenMono(first, f, g, rules[..|rules| - 1], s);
      var last := rules[|rules| - 1];
      RuleFollowAsWrittenMono(first, f, g, last, s, |last.right|);
    }
  }

  lemma {:induction false} RuleFollowAsWrittenBounded(first: SetMap, follow: SetMap, rule: Rule, s: Symbol, n: nat)
    requires n <= |rule.right| && Covers(first, rule.right) && Bounded(follow, FollowUniverse(first))
    ensures RuleFollowAsWritten(first, follow, rule, s, n) <= FollowUniverse(first)
  {
    if n > 0 {
      RuleFollowAsWrittenBounded(first, follow, rule, s, n - 1);
      if n < |rule.right| {
        var x := rule.right[n];
        assert forall y :: y in first[x] ==> y in FollowUniverse(first);
      }
    }
  }

  lemma {:induction false} FollowOfRulesAsWrittenBounded(first: SetMap, follow: SetMap, rules: seq<Rule>, s: Symbol)
    requires RulesCovered(first, rules) && Bounded(follow, FollowUniverse(first))
    ensures FollowOfRulesAsWritten(first, follow, rules, s) <= FollowUniverse(first)
  {
    if |rules| > 0 {
      FollowOfRulesAsWrittenBounded(first, follow, rules[..|rules| - 1], s);
      var last := rules[|rules| - 1];
      RuleFollowAsWrittenBounded(first, follow, last, s, |last.right|);
    }
  }

  // ---- the fixpoint ----

  predicate IsFollowPreFixpointAsWritten(g: SetMap, first: SetMap, rules: seq<Rule>, nonTerminals: set<Symbol>, start: Symbol)
    requires RulesCovered(first, rules)
  {
    g.Keys == nonTerminals && forall s :: s in nonTerminals ==> FollowOfSpecAsWritten(first, g, rules, start, s) <= g[s]
  }

  predicate IsFollowFixpointAsWritten(f: SetMap, first: SetMap, rules: seq<Rule>, nonTerminals: set<Symbol>, start: Symbol)
    requires RulesCovered(first, rules)
  {
    f.Keys == nonTerminals && forall s :: s in nonTerminals ==> f[s] == FollowOfSpecAsWritten(first, f, rules, start, s)
  }

  ghost predicate LoopInvariant(f: SetMap, first: SetMap, rules: seq<Rule>, nonTerminals: set<Symbol>, start: Symbol)
    requires RulesCovered(first, rules)
  {
    f.Keys == nonTerminals && Bounded(f, FollowUniverse(first)) &&
    (forall s :: s in nonTerminals ==> f[s] <= FollowOfSpecAsWritten(first, f, rules, start, s)) &&
    (forall g :: IsFollowPreFixpointAsWritten(g, first, rules, nonTerminals, start) ==> Below(f, g))
  }

  lemma StepPreservesAsWritten(f: SetMap, first: SetMap, rules: seq<Rule>, nonTerminals: set<Symbol>, start: Symbol, s: Symbol)
    requires RulesCovered(first, rules) && s in nonTerminals
    requires LoopInvariant(f, first, rules, nonTerminals, start)
    ensures Below(f, f[s := FollowOfSpecAsWritten(first, f, rules, start, s)])
    ensures LoopInvariant(f[s := FollowOfSpecAsWritten(first, f, rules, start, s)], first, rules, nonTerminals, start)
  {
    var next := f[s := FollowOfSpecAsWritten(first, f, rules, start, s)];
    assert Below(f, next);
    FollowOfRulesAsWrittenBounded(first, f, rules, s);
    forall u | u in nonTerminals
      ensures next[u] <= FollowOfSpecAsWritten(first, next, rules, start, u)
    {
      FollowOfRulesAsWrittenMono(first, f, next, rules, u);
    }
    forall g | IsFollowPreFixpointAsWritten(g, first, rules, nonTerminals, start)
      ensures Below(next, g)
    {
      FollowOfRulesAsWrittenMono(first, f, g, rules, s);
    }
  }

  /** The facts about one update of the fixpoint loop, as the loop needs them. */
  lemma UpdateAsWritten(f: SetMap, first: SetMap, rules: seq<Rule>, nonTerminals: set<Symbol>, start: Symbol, s: Symbol)
    requires RulesCovered(first, rules) && s in nonTerminals
    requires LoopInvariant(f, first, rules, nonTerminals, start)
    ensures var next := FollowOfSpecAsWritten(first, f, rules, start, s);
      var g := f[s := next];
      var universe := FollowUniverse(first);
      LoopInvariant(g, first, rules, nonTerminals, start) &&
      Deficit(g, nonTerminals, universe) <= Deficit(f, nonTerminals, universe) &&
      (|next| > |f[s]| ==> Deficit(g, nonTerminals, universe) < Deficit(f, nonTerminals, universe)) &&
      (|next| <= |f[s]| ==> g == f)
  {
    var next := FollowOfSpecAsWritten(first, f, rules, start, s);
    var g := f[s := next];
    var universe := FollowUniverse(first);
    StepPreservesAsWritten(f, first, rules, nonTerminals, start, s);
    DeficitShrinks(f, g, nonTerminals, universe);
    if |next| > |f[s]| {
      ProperSubsetCardConverse(f[s], next);
      var t :| t in next - f[s];
      FollowOfRulesAsWrittenBounded(first, f, rules, s);
      DeficitStrict(f, g, nonTerminals, universe, s, t);
    } else {
      SubsetSameCardEqual(f[s], next);
      UpdateSameValue(f, s, next);
    }
  }

  lemma InitialAsWritten(f: SetMap, first: SetMap, rules: seq<Rule>, nonTerminals: set<Symbol>, start: Symbol)
    requires RulesCovered(first, rules) && start in nonTerminals
    requires f.Keys == nonTerminals && f[start] == {EOF}
    requires forall s :: s in nonTerminals && s != start ==> f[s] == {}
    ensures LoopInvariant(f, first, rules, nonTerminals, start)
  {
    assert EOF != EPSILON;
    forall g | IsFollowPreFixpointAsWritten(g, first, rules, nonTerminals, start)
      ensures Below(f, g)
    {
      assert EOF in FollowOfSpecAsWritten(first, g, rules, start, start);
    }
  }

  /** Every symbol of `done` has the set that one `follow_of` step reproduces. */
  ghost predicate ReproducedAsWritten(f: SetMap, first: SetMap, rules: seq<Rule>, start: Symbol, done: set<Symbol>)
    requires RulesCovered(first, rules)
  {
    forall u :: u in done ==> u in f && f[u] == FollowOfSpecAsWritten(first, f, rules, start, u)
  }

  /**
   * `build_follow_sets` as written: `None`, a panic, when the start symbol is not a nonterminal,
   * which happens exactly when there are no nonterminal rules; otherwise the least fixpoint of the
   * scan above.
   */
  method BuildFollowSetsAsWritten(rules: seq<Rule>, first: SetMap, nonTerminals: set<Symbol>, start: Symbol) returns (r: Option<SetMap>)
    requires RulesCovered(first, rules)
    ensures r.None? <==> start !in nonTerminals
    ensures r.Some? ==> IsFollowFixpointAsWritten(r.value, first, rules, nonTerminals, start)
    ensures r.Some? ==> forall g :: IsFollowPreFixpointAsWritten(g, first, rules, nonTerminals, start) ==> Below(r.value, g)
  {
    var follow: SetMap := map s | s in nonTerminals :: {};
    if start !in follow {
      return None;
    }
    follow := follow[start := follow[start] + {EOF}];
    InitialAsWritten(follow, first, rules, nonTerminals, start);
    ghost var universe := FollowUniverse(first);
    var iterate := true;
    while iterate
      invariant LoopInvariant(follow, first, rules, nonTerminals, start)
      invariant !iterate ==> IsFollowFixpointAsWritten(follow, first, rules, nonTerminals, start)
      decreases Deficit(follow, nonTerminals, universe), if iterate then 1 else 0
    {
      iterate := false;
      ghost var before := follow;
      ghost var done: set<Symbol> := {};
      var todo := nonTerminals;
      while todo != {}
        invariant todo <= nonTerminals && nonTerminals <= done + todo
        invariant LoopInvariant(follow, first, rules, nonTerminals, start)
        invariant Deficit(follow, nonTerminals, universe) <= Deficit(before, nonTerminals, universe)
        invariant iterate ==> Deficit(follow, nonTerminals, universe) < Deficit(before, nonTerminals, universe)
        invariant !iterate ==> follow == before && ReproducedAsWritten(follow, first, rules, start, done)
        decreases todo
      {
        var s :| s in todo;
        todo := todo - {s};
        var prevSize := |follow[s]|;
        var next := FollowOfAsWritten(first, follow, rules, start, s);
        if |next| > prevSize {
          iterate := true;
        }
        UpdateAsWritten(follow, first, rules, nonTerminals, start, s);
        follow := follow[s := next];
        done := done + {s};
      }
    }
    return Some(follow);
  }

  // ---- where the scan departs from the textbook rule ----

  /** When the symbol after the occurrence lacks epsilon, or there is none, the scan agrees with the one from `lexion_lib`. */
  lemma AgreesWhenNextNotNullable(first: SetMap, follow: SetMap, rule: Rule, i: nat)
    requires i < |rule.right| && Covers(first, rule.right)
    requires i + 1 < |rule.right| ==> EPSILON !in first[rule.right[i + 1]]
    ensures OccurrenceFollowAsWritten(first, follow, rule, i) == OccurrenceFollow(first, follow, rule, i)
  {
    var beta := rule.right[i + 1..];
    if i + 1 < |rule.right| {
      assert beta[0] == rule.right[i + 1];
    } else {
      assert beta == [];
    }
  }

  /**
   * `A -> B ε 'x'` with `B -> 'y'`: the scan after `B` reads FIRST(ε) = {ε} twice and then adds
   * FOLLOW(A) = {$}, so FOLLOW(B) implies `$` but misses `'x'`, which the textbook rule puts there.
   */
  lemma RereadMissesLaterSymbols()
    ensures var rule := Rule("A", ["B", EPSILON, "'x'"]);
      var first := map["A" := {"'y'"}, "B" := {"'y'"}, EPSILON := {EPSILON}, "'x'" := {"'x'"}];
      var follow := map["A" := {EOF}, "B" := {}];
      OccurrenceFollowAsWritten(first, follow, rule, 0) == {EOF} &&
      OccurrenceFollow(first, follow, rule, 0) == {"'x'"}
  {
    var rule := Rule("A", ["B", EPSILON, "'x'"]);
    var first := map["A" := {"'y'"}, "B" := {"'y'"}, EPSILON := {EPSILON}, "'x'" := {"'x'"}];
    var beta := rule.right[1..];
    assert beta == [EPSILON, "'x'"] && beta[1..] == ["'x'"] && beta[1..][1..] == [];
    assert "'x'" != EPSILON && EOF != EPSILON;
    assert ScanFirst(first, beta[1..][1..]) == {} && NullablePrefix(first, beta[1..][1..]) == 0;
    assert ScanFirst(first, beta[1..]) == {"'x'"} && NullablePrefix(first, beta[1..]) == 0;
    assert ScanFirst(first, beta) == {"'x'"} && NullablePrefix(first, beta) == 1;
    assert rule.right[1] == EPSILON;
  }
}
