/**
 * FIRST sets of the older grammar under `src/lib`. The per-rule scan is the one `lexion_lib`
 * uses except that it has no end check: while the FIRST set just read holds epsilon it moves on
 * to the next right-hand symbol, so a rule all of whose symbols have epsilon in FIRST (or an empty
 * right side) reads past the end of its right side, and `build_first_sets` panics.
 */
module LegacyFirstSets {
  import opened Wrappers
  import opened Symbols
  import opened GrammarRules
  import opened FirstSets
  import opened SetFacts

  /** Some rule of `s` has epsilon in the FIRST set of every right-hand symbol; its scan reads past the end. */
  predicate RunsOffEnd(f: SetMap, rules: seq<Rule>, s: Symbol)
    requires RulesCovered(f, rules)
  {
    exists k :: 0 <= k < |rules| && rules[k].left == s && NullablePrefix(f, rules[k].right) == |rules[k].right|
  }

  /**
   * The `first_of` closure as written: `Some` of the `lexion_lib` step when no scan reads past the
   * end of a right side, and `None`, a panic, exactly when one does.
   */
  method FirstOfAsWritten(first: SetMap, rules: seq<Rule>, s: Symbol) returns (r: Option<set<Symbol>>)
    requires RulesCovered(first, rules)
    ensures r.None? <==> IsNonTerminal(s) && RunsOffEnd(first, rules, s)
    ensures r.Some? ==> r.value == FirstOfSpec(first, rules, s)
  {
    if IsTerminal(s) {
      return Some({s});
    }
    var acc := {};
    for k := 0 to |rules|
      invariant RulesCovered(first, rules[..k]) && acc == FirstOfRules(first, rules[..k], s)
      invariant !RunsOffEnd(first, rules[..k], s)
    {
      FirstOfRulesStep(first, rules, s, k);
      OffEndStep(first, rules, s, k);
      var rule := rules[k];
      if rule.left != s {
        continue;
      }
      ghost var acc0 := acc;
      var index := 0;
      while true
        invariant 0 <= index <= |rule.right|
        invariant acc0 + ScanFirst(first, rule.right) == acc + ScanFirst(first, rule.right[index..])
        invariant NullablePrefix(first, rule.right) == index + NullablePrefix(first, rule.right[index..])
        decreases |rule.right| - index
      {
        if index == |rule.right| {
          assert rule.right[index..] == [];
          return None;
        }
        var firstSet := first[rule.right[index]];
        ScanStep(first, rule.right, index);
        acc := acc + (firstSet - {EPSILON});
        if EPSILON in firstSet {
          index := index + 1;
        } else {
          break;
        }
      }
      ScanStep(first, rule.right, index);
      assert NullablePrefix(first, rule.right) == index;
      if index == |rule.right| || rule.right == [EPSILON] {
        acc := acc + {EPSILON};
      }
    }
    assert rules[..|rules|] == rules;
    return Some(acc);
  }

  /** One rule more: it reads past the end at `rules[..k + 1]` when it did before or rule `k` does. */
  lemma OffEndStep(f: SetMap, rules: seq<Rule>, s: Symbol, k: nat)
    requires RulesCovered(f, rules) && k < |rules|
    ensures RulesCovered(f, rules[..k]) && RulesCovered(f, rules[..k + 1])
    ensures RunsOffEnd(f, rules[..k + 1], s) <==>
            RunsOffEnd(f, rules[..k], s) || (rules[k].left == s && NullablePrefix(f, rules[k].right) == |rules[k].right|)
  {
    assert forall j :: 0 <= j < k ==> rules[..k][j] == rules[j];
    assert forall j :: 0 <= j <= k ==> rules[..k + 1][j] == rules[j];
    if RunsOffEnd(f, rules[..k + 1], s) {
      var j :| 0 <= j < k + 1 && rules[..k + 1][j].left == s &&
               NullablePrefix(f, rules[..k + 1][j].right) == |rules[..k + 1][j].right|;
      if j < k {
        assert rules[..k][j] == rules[..k + 1][j];
      }
    }
    if RunsOffEnd(f, rules[..k], s) {
      var j :| 0 <= j < k && rules[..k][j].left == s && NullablePrefix(f, rules[..k][j].right) == |rules[..k][j].right|;
      assert rules[..k + 1][j] == rules[..k][j];
    }
    if rules[k].left == s && NullablePrefix(f, rules[k].right) == |rules[k].right| {
      assert rules[..k + 1][k] == rules[k];
    }
  }

  /** A scan that reads past the end at one map does so at every larger one. */
  lemma OffEndPersists(f: SetMap, g: SetMap, rules: seq<Rule>, s: Symbol)
    requires Below(f, g) && RulesCovered(f, rules) && RunsOffEnd(f, rules, s)
    ensures RulesCovered(g, rules) && RunsOffEnd(g, rules, s)
  {
    var k :| 0 <= k < |rules| && rules[k].left == s && NullablePrefix(f, rules[k].right) == |rules[k].right|;
    NullablePrefixMono(f, g, rules[k].right);
    FirstOfRulesMono(f, g, rules, s);
  }

  /** No nonterminal of `done` has a rule whose scan reads past the end. */
  predicate NoneOffEnd(f: SetMap, rules: seq<Rule>, done: set<Symbol>)
    requires RulesCovered(f, rules)
  {
    forall u :: u in done && IsNonTerminal(u) ==> !RunsOffEnd(f, rules, u)
  }

  /** Some nonterminal rule's scan reads past the end. */
  predicate SomeRuleOffEnd(f: SetMap, rules: seq<Rule>)
    requires RulesCovered(f, rules)
  {
    exists k :: 0 <= k < |rules| && IsNonTerminal(rules[k].left) && NullablePrefix(f, rules[k].right) == |rules[k].right|
  }

  /** Rules whose right side is `ε` alone or empty. */
  predicate HasEpsilonOrEmptyRule(rules: seq<Rule>) {
    exists k :: 0 <= k < |rules| && IsNonTerminal(rules[k].left) && (rules[k].right == [EPSILON] || rules[k].right == [])
  }

  /**
   * `A -> ε` and `A ->` read past the end at every pre-fixpoint: FIRST(ε) holds epsilon, and an
   * empty right side has no first symbol at all.
   */
  lemma EpsilonRuleRunsOffEnd(g: SetMap, rules: seq<Rule>, symbols: set<Symbol>)
    requires RightsIn(rules, symbols) && IsFirstPreFixpoint(g, rules, symbols) && HasEpsilonOrEmptyRule(rules)
    ensures SomeRuleOffEnd(g, rules)
  {
    var k :| 0 <= k < |rules| && IsNonTerminal(rules[k].left) && (rules[k].right == [EPSILON] || rules[k].right == []);
    if rules[k].right == [EPSILON] {
      assert EPSILON in FirstOfSpec(g, rules, EPSILON);
      assert rules[k].right[1..] == [];
    }
  }

  /**
   * `build_first_sets` as written: the fixpoint loop of `lexion_lib` with the scan above. When it
   * finishes, its map is the least fixpoint and no nonterminal rule's scan reads past the end
   * there; when it panics, every pre-fixpoint, the least fixpoint among them, has a rule whose
   * scan does. So it panics whenever some rule is `A -> ε` or has an empty right side.
   */
  method BuildFirstSetsAsWritten(rules: seq<Rule>, symbols: set<Symbol>) returns (r: Option<SetMap>)
    requires RightsIn(rules, symbols) && forall k :: 0 <= k < |rules| ==> rules[k].left in symbols
    ensures r.Some? ==> IsFirstFixpoint(r.value, rules, symbols)
    ensures r.Some? ==> forall g :: IsFirstPreFixpoint(g, rules, symbols) ==> Below(r.value, g)
    ensures r.Some? ==> !SomeRuleOffEnd(r.value, rules)
    ensures r.None? ==> forall g :: IsFirstPreFixpoint(g, rules, symbols) ==> SomeRuleOffEnd(g, rules)
    ensures HasEpsilonOrEmptyRule(rules) ==> r.None?
  {
    var first: SetMap := map s | s in symbols :: {};
    var iterate := true;
    while iterate
      invariant FirstLoopInvariant(first, rules, symbols)
      invariant !iterate ==> IsFirstFixpoint(first, rules, symbols) && NoneOffEnd(first, rules, symbols)
      decreases Deficit(first, symbols, symbols), if iterate then 1 else 0
    {
      var next;
      next, iterate := PassAsWritten(rules, symbols, first);
      if next.None? {
        return None;
      }
      first := next.value;
    }
    FinishedFacts(first, rules, symbols);
    return Some(first);
  }

  /**
   * One pass of the fixpoint loop over all symbols: `None` when a scan panics, and otherwise the
   * new map and whether some set grew.
   */
  method PassAsWritten(rules: seq<Rule>, symbols: set<Symbol>, first0: SetMap) returns (r: Option<SetMap>, grew: bool)
    requires FirstLoopInvariant(first0, rules, symbols) && forall k :: 0 <= k < |rules| ==> rules[k].left in symbols
    ensures r.Some? ==> FirstLoopInvariant(r.value, rules, symbols)
    ensures r.Some? ==> Deficit(r.value, symbols, symbols) <= Deficit(first0, symbols, symbols)
    ensures r.Some? && grew ==> Deficit(r.value, symbols, symbols) < Deficit(first0, symbols, symbols)
    ensures r.Some? && !grew ==> r.value == first0 && IsFirstFixpoint(first0, rules, symbols) && NoneOffEnd(first0, rules, symbols)
    ensures r.None? ==> forall g :: IsFirstPreFixpoint(g, rules, symbols) ==> SomeRuleOffEnd(g, rules)
  {
    var first := first0;
    grew := false;
    ghost var done: set<Symbol> := {};
    var todo := symbols;
    while todo != {}
      invariant todo <= symbols && symbols <= done + todo
      invariant FirstLoopInvariant(first, rules, symbols)
      invariant Deficit(first, symbols, symbols) <= Deficit(first0, symbols, symbols)
      invariant grew ==> Deficit(first, symbols, symbols) < Deficit(first0, symbols, symbols)
      invariant !grew ==> first == first0 && FirstReproduced(first, rules, done) && NoneOffEnd(first, rules, done)
      decreases todo
    {
      var s :| s in todo;
      todo := todo - {s};
      var prevSize := |first[s]|;
      var next := FirstOfAsWritten(first, rules, s);
      if next.None? {
        PanicEverywhere(first, rules, symbols, s);
        return None, grew;
      }
      if |next.value| > prevSize {
        grew := true;
      }
      FirstUpdate(first, rules, symbols, s);
      first := first[s := next.value];
      done := done + {s};
    }
    return Some(first), grew;
  }

  /** A panic at a map below every pre-fixpoint is a rule that reads past the end at each of them. */
  lemma PanicEverywhere(first: SetMap, rules: seq<Rule>, symbols: set<Symbol>, s: Symbol)
    requires FirstLoopInvariant(first, rules, symbols) && RunsOffEnd(first, rules, s) && IsNonTerminal(s)
    ensures forall g :: IsFirstPreFixpoint(g, rules, symbols) ==> SomeRuleOffEnd(g, rules)
  {
    forall g | IsFirstPreFixpoint(g, rules, symbols)
      ensures SomeRuleOffEnd(g, rules)
    {
      OffEndPersists(first, g, rules, s);
      var k :| 0 <= k < |rules| && rules[k].left == s && NullablePrefix(g, rules[k].right) == |rules[k].right|;
    }
  }

  /** At the end of the loop no nonterminal rule reads past the end, so no rule is `A -> ε` or empty. */
  lemma FinishedFacts(first: SetMap, rules: seq<Rule>, symbols: set<Symbol>)
    requires FirstLoopInvariant(first, rules, symbols) && IsFirstFixpoint(first, rules, symbols) && NoneOffEnd(first, rules, symbols)
    requires forall k :: 0 <= k < |rules| ==> rules[k].left in symbols
    ensures !SomeRuleOffEnd(first, rules) && !HasEpsilonOrEmptyRule(rules)
  {
    forall k | 0 <= k < |rules| && IsNonTerminal(rules[k].left)
      ensures NullablePrefix(first, rules[k].right) < |rules[k].right|
    {
      assert !RunsOffEnd(first, rules, rules[k].left);
    }
    if HasEpsilonOrEmptyRule(rules) {
      EpsilonRuleRunsOffEnd(first, rules, symbols);
    }
  }
}
