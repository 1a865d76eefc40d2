/**
 * FOLLOW sets (`build_follow_sets`): for every occurrence of a nonterminal on a right-hand side, the
 * FIRST sets of what follows it, and FOLLOW of the rule's left side when everything after it can
 * vanish; iterated in whole passes over the nonterminals until no set grows.
 */
module FollowSets {
  import opened Symbols
  import opened GrammarRules
  import opened FirstSets
  import opened SetFacts

  /** `follow_sets.get(a).unwrap_or(empty)`. */
  function FollowGet(follow: SetMap, a: Symbol): (r: set<Symbol>)
    ensures a in follow ==> r == follow[a]
    ensures a !in follow ==> r == {}
  {
    if a in follow then follow[a] else {}
  }

  /** The contribution of the occurrence of a symbol at position `i` of `rule`'s right side. */
  function OccurrenceFollow(first: SetMap, follow: SetMap, rule: Rule, i: nat): set<Symbol>
    requires i < |rule.right| && Covers(first, rule.right)
  {
    var beta := rule.right[i + 1..];
    ScanFirst(first, beta) + (if NullablePrefix(first, beta) == |beta| then FollowGet(follow, rule.left) else {})
  }

  /** The contributions of the occurrences of `s` among the first `n` right-hand symbols of `rule`. */
  function RuleFollow(first: SetMap, follow: SetMap, rule: Rule, s: Symbol, n: nat): set<Symbol>
    requires n <= |rule.right| && Covers(first, rule.right)
  {
    if n == 0 then {}
    else RuleFollow(first, follow, rule, s, n - 1) + (if rule.right[n - 1] == s then OccurrenceFollow(first, follow, rule, n - 1) else {})
  }

  /** The union of the occurrence contributions over all rules. */
  function FollowOfRules(first: SetMap, follow: SetMap, rules: seq<Rule>, s: Symbol): set<Symbol>
    requires RulesCovered(first, rules)
  {
    if |rules| == 0 then {}
    else
      var last := rules[|rules| - 1];
      FollowOfRules(first, follow, rules[..|rules| - 1], s) + RuleFollow(first, follow, last, s, |last.right|)
  }

  /** One application of the `follow_of` closure: occurrences, `$` for the start symbol, epsilon removed. */
  function FollowOfSpec(first: SetMap, follow: SetMap, rules: seq<Rule>, start: Symbol, s: Symbol): set<Symbol>
    requires RulesCovered(first, rules)
  {
    (FollowOfRules(first, follow, rules, s) + (if s == start then {EOF} else {})) - {EPSILON}
  }

  // ---- the `follow_of` closure ----

  /**
   * `follow_of`: for every rule whose right side contains `s` and every position `i` holding `s`,
   * scan from `i + 1`: at the end add FOLLOW of the left side (empty when it has no entry), otherwise
   * add the next symbol's FIRST set without epsilon and continue only if that set holds epsilon.
   */
  method FollowOf(first: SetMap, follow: SetMap, rules: seq<Rule>, start: Symbol, s: Symbol) returns (r: set<Symbol>)
    requires RulesCovered(first, rules)
    ensures r == FollowOfSpec(first, follow, rules, start, s)
  {
    r := {};
    for k := 0 to |rules|
      invariant r == FollowOfRules(first, follow, rules[..k], s)
    {
      assert rules[..k + 1][..k] == rules[..k];
      var rule := rules[k];
      if s !in rule.right {
        assert RuleFollow(first, follow, rule, s, |rule.right|) == {} by {
          NoOccurrenceNoFollow(first, follow, rule, s, |rule.right|);
        }
        continue;
      }
      for i := 0 to |rule.right|
        invariant r == FollowOfRules(first, follow, rules[..k], s) + RuleFollow(first, follow, rule, s, i)
      {
        if rule.right[i] != s {
          continue;
        }
        var add := ScanAfter(first, follow, rule, i);
        r := r + add;
      }
    }
    assert rules[..|rules|] == rules;
    if s == start {
      r := r + {EOF};
    }
    r := r - {EPSILON};
  }

  /** The scan from position `i + 1` of `rule`'s right side, for an occurrence at `i`. */
  method ScanAfter(first: SetMap, follow: SetMap, rule: Rule, i: nat) returns (r: set<Symbol>)
    requires i < |rule.right| && Covers(first, rule.right)
    ensures r == OccurrenceFollow(first, follow, rule, i)
  {
    r := {};
    var index := i + 1;
    while true
      invariant i + 1 <= index <= |rule.right|
      invariant OccurrenceFollow(first, follow, rule, i) == r + RestFollow(first, follow, rule, index)
      decreases |rule.right| - index
    {
      if index == |rule.right| {
        r := r + FollowGet(follow, rule.left);
        break;
      }
      var firstSet := first[rule.right[index]];
      assert rule.right[index..][1..] == rule.right[index + 1..];
      r := r + (firstSet - {EPSILON});
      if EPSILON in firstSet {
        index := index + 1;
      } else {
        break;
      }
    }
  }

  /** What the scan still adds from position `index` on. */
  function RestFollow(first: SetMap, follow: SetMap, rule: Rule, index: nat): set<Symbol>
    requires index <= |rule.right| && Covers(first, rule.right)
  {
    var rest := rule.right[index..];
    ScanFirst(first, rest) + (if NullablePrefix(first, rest) == |rest| then FollowGet(follow, rule.left) else {})
  }

  lemma {:induction false} NoOccurrenceNoFollow(first: SetMap, follow: SetMap, rule: Rule, s: Symbol, n: nat)
    requires n <= |rule.right| && Covers(first, rule.right) && s !in rule.right[..n]
    ensures RuleFollow(first, follow, rule, s, n) == {}
  {
    if n > 0 {
      assert rule.right[..n - 1] <= rule.right[..n];
      assert rule.right[n - 1] in rule.right[..n];
      NoOccurrenceNoFollow(first, follow, rule, s, n - 1);
    }
  }

  // ---- monotonicity in the FOLLOW map ----

  lemma {:induction false} RuleFollowMono(first: SetMap, f: SetMap, g: SetMap, rule: Rule, s: Symbol, n: nat)
    requires Below(f, g) && n <= |rule.right| && Covers(first, rule.right)
    ensures RuleFollow(first, f, rule, s, n) <= RuleFollow(first, g, rule, s, n)
  {
    if n > 0 {
      RuleFollowMono(first, f, g, rule, s, n - 1);
    }
  }

  lemma {:induction false} FollowOfRulesMono(first: SetMap, f: SetMap, g: SetMap, rules: seq<Rule>, s: Symbol)
    requires Below(f, g) && RulesCovered(first, rules)
    ensures FollowOfRules(first, f, rules, s) <= FollowOfRules(first, g, rules, s)
  {
    if |rules| > 0 {
      FollowOfRulesMono(first, f, g, rules[..|rules| - 1], s);
      var last := rules[|rules| - 1];
      RuleFollowMono(first, f, g, last, s, |last.right|);
    }
  }

  // ---- bounds ----

  /** Every member of every FIRST set, and `$`: all that a FOLLOW set can hold. */
  function FollowUniverse(first: SetMap): set<Symbol> {
    (set s, x | s in first && x in first[s] :: x) + {EOF}
  }

  lemma {:induction false} ScanFirstInUniverse(first: SetMap, syms: seq<Symbol>)
    requires Covers(first, syms)
    ensures ScanFirst(first, syms) <= FollowUniverse(first)
  {
    if |syms| > 0 {
      ScanFirstInUniverse(first, syms[1..]);
    }
  }

  lemma {:induction false} RuleFollowBounded(first: SetMap, follow: SetMap, rule: Rule, s: Symbol, n: nat)
    requires n <= |rule.right| && Covers(first, rule.right) && Bounded(follow, FollowUniverse(first))
    ensures RuleFollow(first, follow, rule, s, n) <= FollowUniverse(first)
  {
    if n > 0 {
      RuleFollowBounded(first, follow, rule, s, n - 1);
      ScanFirstInUniverse(first, rule.right[n..]);
    }
  }

  lemma {:induction false} FollowOfRulesBounded(first: SetMap, follow: SetMap, rules: seq<Rule>, s: Symbol)
    requires RulesCovered(first, rules) && Bounded(follow, FollowUniverse(first))
    ensures FollowOfRules(first, follow, rules, s) <= FollowUniverse(first)
  {
    if |rules| > 0 {
      FollowOfRulesBounded(first, follow, rules[..|rules| - 1], s);
      var last := rules[|rules| - 1];
      RuleFollowBounded(first, follow, last, s, |last.right|);
    }
  }

  // ---- the fixpoint ----

  predicate IsFollowPreFixpoint(g: SetMap, first: SetMap, rules: seq<Rule>, nonTerminals: set<Symbol>, start: Symbol)
    requires RulesCovered(first, rules)
  {
    g.Keys == nonTerminals && forall s :: s in nonTerminals ==> FollowOfSpec(first, g, rules, start, s) <= g[s]
  }

  predicate IsFollowFixpoint(f: SetMap, first: SetMap, rules: seq<Rule>, nonTerminals: set<Symbol>, start: Symbol)
    requires RulesCovered(first, rules)
  {
    f.Keys == nonTerminals && forall s :: s in nonTerminals ==> f[s] == FollowOfSpec(first, f, rules, start, s)
  }

  ghost predicate FollowLoopInvariant(f: SetMap, first: SetMap, rules: seq<Rule>, nonTerminals: set<Symbol>, start: Symbol)
    requires RulesCovered(first, rules)
  {
    f.Keys == nonTerminals && Bounded(f, FollowUniverse(first)) &&
    (forall s :: s in nonTerminals ==> f[s] <= FollowOfSpec(first, f, rules, start, s)) &&
    (forall g :: IsFollowPreFixpoint(g, first, rules, nonTerminals, start) ==> Below(f, g))
  }

  lemma FollowStepPreserves(f: SetMap, first: SetMap, rules: seq<Rule>, nonTerminals: set<Symbol>, start: Symbol, s: Symbol)
    requires RulesCovered(first, rules) && s in nonTerminals
    requires FollowLoopInvariant(f, first, rules, nonTerminals, start)
    ensures Below(f, f[s := FollowOfSpec(first, f, rules, start, s)])
    ensures FollowLoopInvariant(f[s := FollowOfSpec(first, f, rules, start, s)], first, rules, nonTerminals, start)
  {
    var next := f[s := FollowOfSpec(first, f, rules, start, s)];
    assert Below(f, next);
    FollowOfRulesBounded(first, f, rules, s);
    forall u | u in nonTerminals
      ensures next[u] <= FollowOfSpec(first, next, rules, start, u)
    {
      FollowOfRulesMono(first, f, next, rules, u);
    }
    forall g | IsFollowPreFixpoint(g, first, rules, nonTerminals, start)
      ensures Below(next, g)
    {
      FollowOfRulesMono(first, f, g, rules, s);
    }
  }

  /** The facts about one update of the fixpoint loop, as the loop needs them. */
  lemma FollowUpdate(f: SetMap, first: SetMap, rules: seq<Rule>, nonTerminals: set<Symbol>, start: Symbol, s: Symbol)
    requires RulesCovered(first, rules) && s in nonTerminals
    requires FollowLoopInvariant(f, first, rules, nonTerminals, start)
    ensures var next := FollowOfSpec(first, f, rules, start, s);
      var g := f[s := next];
      var universe := FollowUniverse(first);
      Below(f, g) && FollowLoopInvariant(g, first, rules, nonTerminals, start) &&
      Deficit(g, nonTerminals, universe) <= Deficit(f, nonTerminals, universe) &&
      (|next| > |f[s]| ==> Deficit(g, nonTerminals, universe) < Deficit(f, nonTerminals, universe)) &&
      (|next| <= |f[s]| ==> g == f)
  {
    var next := FollowOfSpec(first, f, rules, start, s);
    var g := f[s := next];
    var universe := FollowUniverse(first);
    FollowStepPreserves(f, first, rules, nonTerminals, start, s);
    DeficitShrinks(f, g, nonTerminals, universe);
    if |next| > |f[s]| {
      ProperSubsetCardConverse(f[s], next);
      var t :| t in next - f[s];
      FollowOfRulesBounded(first, f, rules, s);
      DeficitStrict(f, g, nonTerminals, universe, s, t);
    } else {
      SubsetSameCardEqual(f[s], next);
      UpdateSameValue(f, s, next);
    }
  }

  lemma FollowInitial(f: SetMap, first: SetMap, rules: seq<Rule>, nonTerminals: set<Symbol>, start: Symbol)
    requires RulesCovered(first, rules) && start in nonTerminals
    requires f.Keys == nonTerminals && f[start] == {EOF}
    requires forall s :: s in nonTerminals && s != start ==> f[s] == {}
    ensures FollowLoopInvariant(f, first, rules, nonTerminals, start)
  {
    assert EOF != EPSILON;
    forall g | IsFollowPreFixpoint(g, first, rules, nonTerminals, start)
      ensures Below(f, g)
    {
      assert EOF in FollowOfSpec(first, g, rules, start, start);
    }
  }

  /** The least fixpoint holds only members of FIRST sets and `$`: the map giving every nonterminal all of those is a pre-fixpoint. */
  lemma FollowInUniverse(follow: SetMap, first: SetMap, rules: seq<Rule>, nonTerminals: set<Symbol>, start: Symbol)
    requires RulesCovered(first, rules)
    requires forall g :: IsFollowPreFixpoint(g, first, rules, nonTerminals, start) ==> Below(follow, g)
    ensures Bounded(follow, FollowUniverse(first))
  {
    var u := FollowUniverse(first);
    var h := map s | s in nonTerminals :: u;
    forall s | s in nonTerminals
      ensures FollowOfSpec(first, h, rules, start, s) <= h[s]
    {
      FollowOfRulesBounded(first, h, rules, s);
    }
    assert IsFollowPreFixpoint(h, first, rules, nonTerminals, start);
  }

  /**
   * `build_follow_sets`: every nonterminal starts empty except the start symbol, which holds `$`;
   * passes over the nonterminals (in an arbitrary order) replace each set by `follow_of` of the
   * current map, until a pass in which no set grew in size. The result is the least fixpoint.
   */
  method BuildFollowSets(rules: seq<Rule>, first: SetMap, nonTerminals: set<Symbol>, start: Symbol) returns (follow: SetMap)
    requires RulesCovered(first, rules) && start in nonTerminals
    ensures IsFollowFixpoint(follow, first, rules, nonTerminals, start)
    ensures forall g :: IsFollowPreFixpoint(g, first, rules, nonTerminals, start) ==> Below(follow, g)
  {
    follow := map s | s in nonTerminals :: {};
    follow := follow[start := follow[start] + {EOF}];
    FollowInitial(follow, first, rules, nonTerminals, start);
    ghost var universe := FollowUniverse(first);
    var iterate := true;
    while iterate
      invariant FollowLoopInvariant(follow, first, rules, nonTerminals, start)
      invariant !iterate ==> IsFollowFixpoint(follow, first, rules, nonTerminals, start)
      decreases Deficit(follow, nonTerminals, universe), if iterate then 1 else 0
    {
      iterate := false;
      ghost var before := follow;
      ghost var done: set<Symbol> := {};
      var todo := nonTerminals;
      while todo != {}
        invariant todo <= nonTerminals && nonTerminals <= done + todo
        invariant FollowLoopInvariant(follow, first, rules, nonTerminals, start)
        invariant Deficit(follow, nonTerminals, universe) <= Deficit(before, nonTerminals, universe)
        invariant iterate ==> Deficit(follow, nonTerminals, universe) < Deficit(before, nonTerminals, universe)
        invariant !iterate ==> follow == before && Reproduced(follow, first, rules, start, done)
        decreases todo
      {
        var s :| s in todo;
        todo := todo - {s};
        var prevSize := |follow[s]|;
        var next := FollowOf(first, follow, rules, start, s);
        if |next| > prevSize {
          iterate := true;
        }
        FollowUpdate(follow, first, rules, nonTerminals, start, s);
        follow := follow[s := next];
        done := done + {s};
      }
    }
  }

  /** Every symbol of `done` has the set that one `follow_of` step reproduces. */
  ghost predicate Reproduced(f: SetMap, first: SetMap, rules: seq<Rule>, start: Symbol, done: set<Symbol>)
    requires RulesCovered(first, rules)
  {
    forall u :: u in done ==> u in f && f[u] == FollowOfSpec(first, f, rules, start, u)
  }
}
