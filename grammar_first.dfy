/**
 * FIRST sets (`build_first_sets`): a per-symbol scan over the rules, iterated in whole passes over
 * the symbols until no set grows.
 */
module FirstSets {
  import opened Symbols
  import opened GrammarRules
  import opened SetFacts

  /** A map from symbols to symbol sets, as the FIRST and FOLLOW maps. */
  type SetMap = map<Symbol, set<Symbol>>

  predicate Covers(f: SetMap, syms: seq<Symbol>) {
    forall i :: 0 <= i < |syms| ==> syms[i] in f
  }

  predicate RulesCovered(f: SetMap, rules: seq<Rule>) {
    forall k :: 0 <= k < |rules| ==> Covers(f, rules[k].right)
  }

  /** The number of leading symbols of `syms` whose set holds epsilon. */
  function NullablePrefix(f: SetMap, syms: seq<Symbol>): (k: nat)
    requires Covers(f, syms)
    ensures k <= |syms|
  {
    if |syms| == 0 || EPSILON !in f[syms[0]] then 0 else 1 + NullablePrefix(f, syms[1..])
  }

  /**
   * What the left-to-right scan collects: the sets of the symbols of `syms`, epsilon removed, up to
   * and including the first symbol whose set lacks epsilon.
   */
  function ScanFirst(f: SetMap, syms: seq<Symbol>): set<Symbol>
    requires Covers(f, syms)
  {
    if |syms| == 0 then {}
    else (f[syms[0]] - {EPSILON}) + (if EPSILON in f[syms[0]] then ScanFirst(f, syms[1..]) else {})
  }

  /** The scan over one rule's right side, with epsilon added when the scan passes the end or the rule is `A -> ε`. */
  function RuleFirst(f: SetMap, right: seq<Symbol>): set<Symbol>
    requires Covers(f, right)
  {
    ScanFirst(f, right) + (if NullablePrefix(f, right) == |right| || right == [EPSILON] then {EPSILON} else {})
  }

  /** The union of `RuleFirst` over the rules whose left side is `s`. */
  function FirstOfRules(f: SetMap, rules: seq<Rule>, s: Symbol): set<Symbol>
    requires RulesCovered(f, rules)
  {
    if |rules| == 0 then {}
    else
      var last := rules[|rules| - 1];
      FirstOfRules(f, rules[..|rules| - 1], s) + (if last.left == s then RuleFirst(f, last.right) else {})
  }

  /** One application of the `first_of` closure: `{s}` for a terminal, else the union over the rules of `s`. */
  function FirstOfSpec(f: SetMap, rules: seq<Rule>, s: Symbol): set<Symbol>
    requires RulesCovered(f, rules)
  {
    if IsTerminal(s) then {s} else FirstOfRules(f, rules, s)
  }

  // ---- characterisations of the scan ----

  /** One rule more: the union grows by that rule's `RuleFirst` when its left side is `s`. */
  lemma FirstOfRulesStep(f: SetMap, rules: seq<Rule>, s: Symbol, k: nat)
    requires RulesCovered(f, rules) && k < |rules|
    ensures RulesCovered(f, rules[..k]) && RulesCovered(f, rules[..k + 1])
    ensures FirstOfRules(f, rules[..k + 1], s) ==
            FirstOfRules(f, rules[..k], s) + (if rules[k].left == s then RuleFirst(f, rules[k].right) else {})
  {
    assert rules[..k + 1][..k] == rules[..k];
    assert forall j :: 0 <= j < k ==> rules[..k][j] == rules[j];
    assert forall j :: 0 <= j <= k ==> rules[..k + 1][j] == rules[j];
  }

  /** The scan and the nullable prefix from `index`, one symbol at a time. */
  lemma ScanStep(f: SetMap, syms: seq<Symbol>, index: nat)
    requires Covers(f, syms) && index < |syms|
    ensures Covers(f, syms[index..]) && Covers(f, syms[index + 1..])
    ensures ScanFirst(f, syms[index..]) ==
            (f[syms[index]] - {EPSILON}) + (if EPSILON in f[syms[index]] then ScanFirst(f, syms[index + 1..]) else {})
    ensures NullablePrefix(f, syms[index..]) ==
            if EPSILON in f[syms[index]] then 1 + NullablePrefix(f, syms[index + 1..]) else 0
  {
    assert syms[index..][1..] == syms[index + 1..];
    assert syms[index..][0] == syms[index];
    assert forall j :: index <= j < |syms| ==> syms[index..][j - index] == syms[j];
  }

  lemma {:induction false} NullablePrefixFacts(f: SetMap, syms: seq<Symbol>)
    requires Covers(f, syms)
    ensures forall j :: 0 <= j < NullablePrefix(f, syms) ==> EPSILON in f[syms[j]]
    ensures NullablePrefix(f, syms) < |syms| ==> EPSILON !in f[syms[NullablePrefix(f, syms)]]
    ensures NullablePrefix(f, syms) == |syms| <==> forall j :: 0 <= j < |syms| ==> EPSILON in f[syms[j]]
  {
    if |syms| > 0 && EPSILON in f[syms[0]] {
      NullablePrefixFacts(f, syms[1..]);
      assert forall j :: 1 <= j < |syms| ==> syms[1..][j - 1] == syms[j];
    }
  }

  /** A member of the scan comes from one symbol at or before the first one whose set lacks epsilon. */
  lemma {:induction false} ScanFirstMembers(f: SetMap, syms: seq<Symbol>, x: Symbol)
    requires Covers(f, syms)
    ensures x in ScanFirst(f, syms) <==>
      x != EPSILON && exists j :: 0 <= j < |syms| && j <= NullablePrefix(f, syms) && x in f[syms[j]]
  {
    if |syms| > 0 {
      ScanFirstMembers(f, syms[1..], x);
      assert forall j :: 1 <= j < |syms| ==> syms[1..][j - 1] == syms[j];
      if x != EPSILON && EPSILON in f[syms[0]] {
        if exists j :: 0 <= j < |syms| && j <= NullablePrefix(f, syms) && x in f[syms[j]] {
          var j :| 0 <= j < |syms| && j <= NullablePrefix(f, syms) && x in f[syms[j]];
          if j > 0 {
            assert x in f[syms[1..][j - 1]];
          }
        }
      }
    }
  }

  lemma {:induction false} FirstOfRulesMembers(f: SetMap, rules: seq<Rule>, s: Symbol, x: Symbol)
    requires RulesCovered(f, rules)
    ensures x in FirstOfRules(f, rules, s) <==>
      exists k :: 0 <= k < |rules| && rules[k].left == s && x in RuleFirst(f, rules[k].right)
  {
    if |rules| > 0 {
      var init := rules[..|rules| - 1];
      FirstOfRulesMembers(f, init, s, x);
      assert forall k :: 0 <= k < |init| ==> init[k] == rules[k];
    }
  }

  // ---- monotonicity ----

  /** Pointwise inclusion of two maps over the same keys. */
  predicate Below(f: SetMap, g: SetMap) {
    f.Keys == g.Keys && forall s :: s in f ==> f[s] <= g[s]
  }

  lemma {:induction false} NullablePrefixMono(f: SetMap, g: SetMap, syms: seq<Symbol>)
    requires Below(f, g) && Covers(f, syms)
    ensures Covers(g, syms) && NullablePrefix(f, syms) <= NullablePrefix(g, syms)
  {
    if |syms| > 0 && EPSILON in f[syms[0]] {
      NullablePrefixMono(f, g, syms[1..]);
    }
  }

  lemma {:induction false} ScanFirstMono(f: SetMap, g: SetMap, syms: seq<Symbol>)
    requires Below(f, g) && Covers(f, syms)
    ensures Covers(g, syms) && ScanFirst(f, syms) <= ScanFirst(g, syms)
  {
    if |syms| > 0 && EPSILON in f[syms[0]] {
      ScanFirstMono(f, g, syms[1..]);
    }
  }

  lemma RuleFirstMono(f: SetMap, g: SetMap, right: seq<Symbol>)
    requires Below(f, g) && Covers(f, right)
    ensures Covers(g, right) && RuleFirst(f, right) <= RuleFirst(g, right)
  {
    ScanFirstMono(f, g, right);
    NullablePrefixMono(f, g, right);
  }

  lemma {:induction false} FirstOfRulesMono(f: SetMap, g: SetMap, rules: seq<Rule>, s: Symbol)
    requires Below(f, g) && RulesCovered(f, rules)
    ensures RulesCovered(g, rules) && FirstOfRules(f, rules, s) <= FirstOfRules(g, rules, s)
  {
    if |rules| > 0 {
      FirstOfRulesMono(f, g, rules[..|rules| - 1], s);
      RuleFirstMono(f, g, rules[|rules| - 1].right);
    }
  }

  /** The `first_of` step is monotone in the map it reads. */
  lemma FirstOfSpecMono(f: SetMap, g: SetMap, rules: seq<Rule>, s: Symbol)
    requires Below(f, g) && RulesCovered(f, rules)
    ensures RulesCovered(g, rules) && FirstOfSpec(f, rules, s) <= FirstOfSpec(g, rules, s)
  {
    FirstOfRulesMono(f, g, rules, s);
  }

  // ---- bounds ----

  predicate Bounded(f: SetMap, symbols: set<Symbol>) {
    forall s :: s in f ==> f[s] <= symbols
  }

  lemma {:induction false} ScanFirstBounded(f: SetMap, syms: seq<Symbol>, symbols: set<Symbol>)
    requires Covers(f, syms) && Bounded(f, symbols)
    ensures ScanFirst(f, syms) <= symbols
  {
    if |syms| > 0 {
      ScanFirstBounded(f, syms[1..], symbols);
    }
  }

  lemma {:induction false} FirstOfRulesBounded(f: SetMap, rules: seq<Rule>, s: Symbol, symbols: set<Symbol>)
    requires RulesCovered(f, rules) && Bounded(f, symbols) && EPSILON in symbols
    ensures FirstOfRules(f, rules, s) <= symbols
  {
    if |rules| > 0 {
      FirstOfRulesBounded(f, rules[..|rules| - 1], s, symbols);
      ScanFirstBounded(f, rules[|rules| - 1].right, symbols);
    }
  }

  // ---- the `first_of` closure ----

  /**
   * `first_of`: `{s}` for a terminal; otherwise, for every rule of `s`, the scan that reads the FIRST
   * set of each right-hand symbol while it holds epsilon, plus epsilon when the scan ran off the end
   * or the rule is `A -> ε`. Reading `right[0]` of an empty right side would panic, hence the
   * precondition.
   */
  method FirstOf(first: SetMap, rules: seq<Rule>, s: Symbol) returns (r: set<Symbol>)
    requires RulesCovered(first, rules)
    requires forall k :: 0 <= k < |rules| && rules[k].left == s ==> |rules[k].right| > 0
    ensures r == FirstOfSpec(first, rules, s)
  {
    if IsTerminal(s) {
      return {s};
    }
    r := {};
    for k := 0 to |rules|
      invariant RulesCovered(first, rules[..k]) && r == FirstOfRules(first, rules[..k], s)
    {
      FirstOfRulesStep(first, rules, s, k);
      var rule := rules[k];
      if rule.left != s {
        continue;
      }
      var more := RuleFirstOf(first, rule.right);
      r := r + more;
    }
    assert rules[..|rules|] == rules;
  }

  /**
   * One round of `first_of`'s loop over the rules: the scan of a non-empty right side while the
   * sets read hold epsilon, then epsilon itself when the scan ran off the end or the side is `ε`.
   */
  method RuleFirstOf(first: SetMap, right: seq<Symbol>) returns (r: set<Symbol>)
    requires Covers(first, right) && |right| > 0
    ensures r == RuleFirst(first, right)
  {
    r := {};
    var index := 0;
    while true
      invariant 0 <= index < |right|
      invariant ScanFirst(first, right) == r + ScanFirst(first, right[index..])
      invariant NullablePrefix(first, right) == index + NullablePrefix(first, right[index..])
      decreases |right| - index
    {
      var firstSet := first[right[index]];
      ScanStep(first, right, index);
      r := r + (firstSet - {EPSILON});
      if EPSILON in firstSet {
        index := index + 1;
      }
      if EPSILON !in firstSet || index >= |right| {
        break;
      }
    }
    if index < |right| {
      ScanStep(first, right, index);
    }
    assert index == |right| <==> NullablePrefix(first, right) == |right|;
    if index == |right| || right == [EPSILON] {
      r := r + {EPSILON};
    }
  }

  // ---- the fixpoint ----

  /** A map every `first_of` step stays within: a candidate upper bound for the computed sets. */
  predicate IsFirstPreFixpoint(g: SetMap, rules: seq<Rule>, symbols: set<Symbol>) {
    g.Keys == symbols && RulesCovered(g, rules) && forall s :: s in symbols ==> FirstOfSpec(g, rules, s) <= g[s]
  }

  /** A map that `first_of` reproduces at every symbol. */
  predicate IsFirstFixpoint(f: SetMap, rules: seq<Rule>, symbols: set<Symbol>) {
    f.Keys == symbols && RulesCovered(f, rules) && forall s :: s in symbols ==> f[s] == FirstOfSpec(f, rules, s)
  }

  /** The (symbol, member) pairs not yet in the map; shrinks whenever a set grows. */
  function Deficit(f: SetMap, keys: set<Symbol>, universe: set<Symbol>): set<(Symbol, Symbol)> {
    set s, t | s in keys && t in universe && (s !in f || t !in f[s]) :: (s, t)
  }

  lemma DeficitShrinks(f: SetMap, g: SetMap, keys: set<Symbol>, universe: set<Symbol>)
    requires Below(f, g)
    ensures Deficit(g, keys, universe) <= Deficit(f, keys, universe)
  {
  }

  lemma DeficitStrict(f: SetMap, g: SetMap, keys: set<Symbol>, universe: set<Symbol>, s: Symbol, t: Symbol)
    requires Below(f, g) && s in keys && t in universe && s in f && t in g[s] - f[s]
    ensures Deficit(g, keys, universe) < Deficit(f, keys, universe)
  {
    assert (s, t) in Deficit(f, keys, universe) - Deficit(g, keys, universe);
  }

  /**
   * The rules the FIRST computation accepts: no empty right side, and every right-hand symbol is
   * one of the grammar's symbols (so every scan finds an entry in the map).
   */
  predicate FirstInput(rules: seq<Rule>, symbols: set<Symbol>) {
    RightsIn(rules, symbols) && forall k :: 0 <= k < |rules| ==> |rules[k].right| > 0
  }

  /** Epsilon and every right-hand symbol are among the grammar's symbols. */
  predicate RightsIn(rules: seq<Rule>, symbols: set<Symbol>) {
    EPSILON in symbols &&
    forall k :: 0 <= k < |rules| ==> forall j :: 0 <= j < |rules[k].right| ==> rules[k].right[j] in symbols
  }

  /**
   * `build_first_sets`: every symbol starts with the empty set, then passes over all symbols (in an
   * arbitrary order) replace each set by `first_of` of the current map, until a pass in which no set
   * grew in size. The result is a fixpoint of `first_of` and lies below every pre-fixpoint, so it is
   * the least solution.
   */
  method BuildFirstSets(rules: seq<Rule>, symbols: set<Symbol>) returns (first: SetMap)
    requires FirstInput(rules, symbols)
    ensures IsFirstFixpoint(first, rules, symbols)
    ensures forall g :: IsFirstPreFixpoint(g, rules, symbols) ==> Below(first, g)
  {
    first := map s | s in symbols :: {};
    var iterate := true;
    while iterate
      invariant FirstLoopInvariant(first, rules, symbols)
      invariant !iterate ==> IsFirstFixpoint(first, rules, symbols)
      decreases Deficit(first, symbols, symbols), if iterate then 1 else 0
    {
      iterate := false;
      ghost var before := first;
      ghost var done: set<Symbol> := {};
      var todo := symbols;
      while todo != {}
        invariant todo <= symbols && symbols <= done + todo
        invariant FirstLoopInvariant(first, rules, symbols)
        invariant Deficit(first, symbols, symbols) <= Deficit(before, symbols, symbols)
        invariant iterate ==> Deficit(first, symbols, symbols) < Deficit(before, symbols, symbols)
        invariant !iterate ==> first == before && FirstReproduced(first, rules, done)
        decreases todo
      {
        var s :| s in todo;
        todo := todo - {s};
        var prevSize := |first[s]|;
        var next := FirstOf(first, rules, s);
        if |next| > prevSize {
          iterate := true;
        }
        FirstUpdate(first, rules, symbols, s);
        first := first[s := next];
        done := done + {s};
      }
    }
  }

  /** Every symbol of `done` has the set that one `first_of` step reproduces. */
  ghost predicate FirstReproduced(f: SetMap, rules: seq<Rule>, done: set<Symbol>)
    requires RulesCovered(f, rules)
  {
    forall u :: u in done ==> u in f && f[u] == FirstOfSpec(f, rules, u)
  }

  /** The facts about one update of the fixpoint loop, as the loop needs them. */
  lemma FirstUpdate(f: SetMap, rules: seq<Rule>, symbols: set<Symbol>, s: Symbol)
    requires FirstLoopInvariant(f, rules, symbols) && s in symbols
    ensures var next := FirstOfSpec(f, rules, s);
      var g := f[s := next];
      FirstLoopInvariant(g, rules, symbols) &&
      Deficit(g, symbols, symbols) <= Deficit(f, symbols, symbols) &&
      (|next| > |f[s]| ==> Deficit(g, symbols, symbols) < Deficit(f, symbols, symbols)) &&
      (|next| <= |f[s]| ==> g == f)
  {
    var next := FirstOfSpec(f, rules, s);
    var g := f[s := next];
    StepPreserves(f, rules, symbols, s);
    DeficitShrinks(f, g, symbols, symbols);
    if |next| > |f[s]| {
      ProperSubsetCardConverse(f[s], next);
      var t :| t in next - f[s];
      FirstOfRulesBounded(f, rules, s, symbols);
      DeficitStrict(f, g, symbols, symbols, s, t);
    } else {
      SubsetSameCardEqual(f[s], next);
      UpdateSameValue(f, s, next);
    }
  }

  /** What holds between the steps of the fixpoint loop. */
  ghost predicate FirstLoopInvariant(first: SetMap, rules: seq<Rule>, symbols: set<Symbol>) {
    RightsIn(rules, symbols) &&
    first.Keys == symbols && RulesCovered(first, rules) && Bounded(first, symbols) &&
    (forall s :: s in symbols ==> first[s] <= FirstOfSpec(first, rules, s)) &&
    (forall g :: IsFirstPreFixpoint(g, rules, symbols) ==> Below(first, g))
  }

  /** Writing back the value already stored leaves a map unchanged. */
  lemma UpdateSameValue(m: SetMap, k: Symbol, v: set<Symbol>)
    requires k in m && m[k] == v
    ensures m[k := v] == m
  {
  }

  /** A set that includes another and is larger has an element the other lacks. */
  lemma ProperSubsetCardConverse<T>(a: set<T>, b: set<T>)
    requires a <= b && |a| < |b|
    ensures exists t :: t in b - a
  {
    assert b == a + (b - a);
    assert a * (b - a) == {};
  }

  /**
   * Replacing the set at `s` by one `first_of` step keeps the map below its own step, below every
   * pre-fixpoint, and above the map it replaced.
   */
  lemma StepPreserves(first: SetMap, rules: seq<Rule>, symbols: set<Symbol>, s: Symbol)
    requires FirstLoopInvariant(first, rules, symbols) && s in symbols
    ensures Below(first, first[s := FirstOfSpec(first, rules, s)])
    ensures FirstLoopInvariant(first[s := FirstOfSpec(first, rules, s)], rules, symbols)
  {
    var next := first[s := FirstOfSpec(first, rules, s)];
    assert Below(first, next);
    FirstOfRulesBounded(first, rules, s, symbols);
    forall u | u in symbols
      ensures next[u] <= FirstOfSpec(next, rules, u)
    {
      FirstOfSpecMono(first, next, rules, u);
    }
    forall g | IsFirstPreFixpoint(g, rules, symbols)
      ensures Below(next, g)
    {
      FirstOfSpecMono(first, g, rules, s);
    }
  }

  // ---- what the computed sets hold ----

  /**
   * The least fixpoint holds terminals only (epsilon and `$` among them): the same map with its
   * nonterminal members dropped is a pre-fixpoint as well, so it lies above the least one.
   */
  lemma FirstHoldsTerminals(first: SetMap, rules: seq<Rule>, symbols: set<Symbol>)
    requires IsFirstFixpoint(first, rules, symbols)
    requires forall h :: IsFirstPreFixpoint(h, rules, symbols) ==> Below(first, h)
    ensures forall s, x :: s in first && x in first[s] ==> IsTerminal(x)
  {
    var h := map s | s in symbols :: set x | x in first[s] && IsTerminal(x);
    var ts := (set s, x | s in h && x in h[s] :: x) + {EPSILON};
    assert Below(h, first);
    forall s | s in symbols
      ensures FirstOfSpec(h, rules, s) <= h[s]
    {
      FirstOfSpecMono(h, first, rules, s);
      if !IsTerminal(s) {
        FirstOfRulesBounded(h, rules, s, ts);
      }
    }
    assert IsFirstPreFixpoint(h, rules, symbols);
  }

  /** FIRST of a terminal (epsilon and `$` included) is the terminal itself. */
  lemma FirstOfTerminal(first: SetMap, rules: seq<Rule>, symbols: set<Symbol>, t: Symbol)
    requires IsFirstFixpoint(first, rules, symbols) && t in symbols && IsTerminal(t)
    ensures first[t] == {t}
  {
  }

  /**
   * Epsilon is in FIRST(A) of a nonterminal exactly when some rule of A is `A -> ε` or every symbol
   * on its right side has epsilon in its FIRST set.
   */
  lemma FirstEpsilon(first: SetMap, rules: seq<Rule>, symbols: set<Symbol>, a: Symbol)
    requires IsFirstFixpoint(first, rules, symbols) && a in symbols && IsNonTerminal(a)
    ensures EPSILON in first[a] <==>
      exists k :: 0 <= k < |rules| && rules[k].left == a &&
        (rules[k].right == [EPSILON] ||
         forall j :: 0 <= j < |rules[k].right| ==> EPSILON in first[rules[k].right[j]])
  {
    FirstOfRulesMembers(first, rules, a, EPSILON);
    forall k | 0 <= k < |rules|
      ensures EPSILON in RuleFirst(first, rules[k].right) <==>
        (rules[k].right == [EPSILON] ||
         forall j :: 0 <= j < |rules[k].right| ==> EPSILON in first[rules[k].right[j]])
    {
      NullablePrefixFacts(first, rules[k].right);
      ScanFirstMembers(first, rules[k].right, EPSILON);
    }
  }

  /**
   * A non-epsilon symbol is in FIRST(A) of a nonterminal exactly when some rule of A has it in the
   * FIRST set of a right-hand symbol all of whose predecessors have epsilon in theirs.
   */
  lemma FirstNonEpsilon(first: SetMap, rules: seq<Rule>, symbols: set<Symbol>, a: Symbol, x: Symbol)
    requires IsFirstFixpoint(first, rules, symbols) && a in symbols && IsNonTerminal(a) && x != EPSILON
    ensures x in first[a] <==>
      exists k, j :: 0 <= k < |rules| && rules[k].left == a && 0 <= j < |rules[k].right| &&
        (forall i :: 0 <= i < j ==> EPSILON in first[rules[k].right[i]]) && x in first[rules[k].right[j]]
  {
    FirstOfRulesMembers(first, rules, a, x);
    forall k | 0 <= k < |rules|
      ensures x in RuleFirst(first, rules[k].right) <==>
        exists j :: 0 <= j < |rules[k].right| &&
          (forall i :: 0 <= i < j ==> EPSILON in first[rules[k].right[i]]) && x in first[rules[k].right[j]]
    {
      var right := rules[k].right;
      NullablePrefixFacts(first, right);
      ScanFirstMembers(first, right, x);
    }
  }
}
