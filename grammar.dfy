/**
 * The grammar of `lexion_lib` (`Grammar::from_rules`): the rules split into terminal and nonterminal
 * rules, the symbol sets, the augmented start rule, the nullable set and the FIRST and FOLLOW maps,
 * plus the read-only queries the parsers use and the token types the tokenizer is built from.
 * After construction a grammar is never changed, so it is an immutable value here.
 */
module GrammarModel {
  import opened Wrappers
  import opened Symbols
  import opened GrammarRules
  import opened FirstSets
  import opened FollowSets

  datatype Grammar = Grammar(
    rules: seq<Rule>,
    terminalRules: seq<Rule>,
    startSymbol: Symbol,
    symbols: set<Symbol>,
    terminals: set<Symbol>,
    nonTerminals: set<Symbol>,
    firstSets: SetMap,
    followSets: SetMap,
    nullable: set<Symbol>)

  /**
   * What `from_rules` needs to finish without a panic: some rule has a nonterminal left side (the
   * start symbol's FOLLOW entry is unwrapped), and no nonterminal rule has an empty right side (the
   * FIRST scan reads `right[0]`).
   */
  predicate AcceptableRules(input: seq<Rule>) {
    (exists k :: 0 <= k < |input| && IsNonTerminal(input[k].left)) &&
    forall k :: 0 <= k < |input| && IsNonTerminal(input[k].left) ==> |input[k].right| > 0
  }

  /** Everything `from_rules` establishes about the grammar it returns. */
  ghost predicate BuiltFrom(input: seq<Rule>, g: Grammar) {
    var rules := SelectByLeft(input, false);
    g.terminalRules == SelectByLeft(input, true) &&
    g.startSymbol == StartOf(rules) &&
    g.rules == [Rule(AugmentedStart(g.startSymbol), [g.startSymbol])] + rules &&
    g.nonTerminals == NonTerminalsOf(rules) &&
    g.terminals == TerminalsOf(rules) + {EOF} &&
    g.symbols == g.terminals + g.nonTerminals + {EPSILON} &&
    NullableSeed(g.rules) <= g.nullable <= Lefts(g.rules) &&
    AnyClosed(g.rules, g.nullable) && BelowEveryClosed(g.rules, NullableSeed(g.rules), g.nullable) &&
    IsFirstFixpoint(g.firstSets, g.rules, g.symbols) &&
    (forall h :: IsFirstPreFixpoint(h, g.rules, g.symbols) ==> Below(g.firstSets, h)) &&
    IsFollowFixpoint(g.followSets, g.firstSets, g.rules, g.nonTerminals, g.startSymbol) &&
    (forall h :: IsFollowPreFixpoint(h, g.firstSets, g.rules, g.nonTerminals, g.startSymbol) ==> Below(g.followSets, h))
  }

  /**
   * `from_rules`: partition the rules by the shape of their left side (keeping their order), then
   * `build_symbols`, `build_props` (the nullable set), `build_first_sets` and `build_follow_sets`.
   */
  method FromRules(input: seq<Rule>) returns (g: Grammar)
    requires AcceptableRules(input)
    ensures BuiltFrom(input, g)
  {
    var terminalRules := SelectByLeft(input, true);
    var rules := SelectByLeft(input, false);
    var info := BuildSymbols(rules);
    var nullable := BuildNullable(info.rules);
    InputShape(input);
    var first := BuildFirstSets(info.rules, info.symbols);
    var follow := BuildFollowSets(info.rules, first, info.nonTerminals, info.start);
    g := Grammar(info.rules, terminalRules, info.start, info.symbols, info.terminals, info.nonTerminals,
                 first, follow, nullable);
  }

  /** The rules handed to the FIRST and FOLLOW computations meet their preconditions. */
  lemma InputShape(input: seq<Rule>)
    requires AcceptableRules(input)
    ensures var rules := SelectByLeft(input, false);
      var start := StartOf(rules);
      var all := [Rule(AugmentedStart(start), [start])] + rules;
      |rules| > 0 && start in NonTerminalsOf(rules) &&
      FirstInput(all, TerminalsOf(rules) + {EOF} + NonTerminalsOf(rules) + {EPSILON})
  {
    var rules := SelectByLeft(input, false);
    var k :| 0 <= k < |input| && IsNonTerminal(input[k].left);
    assert input[k] in rules;
    forall i | 0 <= i < |rules|
      ensures |rules[i].right| > 0
    {
      assert rules[i] in input;
    }
    StartInNonTerminals(rules);
    AugmentedFirstInput(rules);
  }

  lemma AugmentedFirstInput(rules: seq<Rule>)
    requires |rules| > 0 && forall i :: 0 <= i < |rules| ==> |rules[i].right| > 0
    ensures var start := StartOf(rules);
      var all := [Rule(AugmentedStart(start), [start])] + rules;
      FirstInput(all, TerminalsOf(rules) + {EOF} + NonTerminalsOf(rules) + {EPSILON})
  {
    var start := StartOf(rules);
    var all := [Rule(AugmentedStart(start), [start])] + rules;
    var symbols := TerminalsOf(rules) + {EOF} + NonTerminalsOf(rules) + {EPSILON};
    StartInNonTerminals(rules);
    forall i, j | 1 <= i < |all| && 0 <= j < |all[i].right|
      ensures all[i].right[j] in symbols
    {
      assert all[i] == rules[i - 1];
      RightInSymbols(rules, i - 1, j);
    }
  }

  lemma StartInNonTerminals(rules: seq<Rule>)
    requires |rules| > 0
    ensures StartOf(rules) in NonTerminalsOf(rules)
  {
    StartOfIsLeft(rules);
    NonTerminalsOfMembers(rules, StartOf(rules));
  }

  lemma {:induction false} StartOfIsLeft(rules: seq<Rule>)
    requires |rules| > 0
    ensures exists k :: 0 <= k < |rules| && rules[k].left == StartOf(rules)
  {
    var init := rules[..|rules| - 1];
    if |init| > 0 && StartOf(init) != "" {
      StartOfIsLeft(init);
      var k :| 0 <= k < |init| && init[k].left == StartOf(init);
      assert rules[k] == init[k];
    } else {
      assert rules[|rules| - 1].left == StartOf(rules);
    }
  }

  lemma RightInSymbols(rules: seq<Rule>, k: nat, j: nat)
    requires k < |rules| && j < |rules[k].right|
    ensures rules[k].right[j] in TerminalsOf(rules) + {EOF} + NonTerminalsOf(rules) + {EPSILON}
  {
    var x := rules[k].right[j];
    if x != EPSILON {
      if IsTerminal(x) {
        TerminalsOfMembers(rules, x);
      } else {
        NonTerminalsOfMembers(rules, x);
      }
    }
  }

  // ---- queries ----

  /** `first_of`: the FIRST set of a symbol, if it has an entry. */
  function FirstOf(g: Grammar, s: Symbol): (r: Option<set<Symbol>>)
    ensures r.Some? <==> s in g.firstSets
    ensures r.Some? ==> r.value == g.firstSets[s]
  {
    if s in g.firstSets then Some(g.firstSets[s]) else None
  }

  /** `follow_of`: the FOLLOW set of a symbol, if it has an entry. */
  function FollowOf(g: Grammar, s: Symbol): (r: Option<set<Symbol>>)
    ensures r.Some? <==> s in g.followSets
    ensures r.Some? ==> r.value == g.followSets[s]
  {
    if s in g.followSets then Some(g.followSets[s]) else None
  }

  predicate IsNullable(g: Grammar, s: Symbol) {
    s in g.nullable
  }

  /** `is_nullable_sequence`: every symbol of the sequence is nullable (vacuously so for the empty one). */
  predicate IsNullableSequence(g: Grammar, syms: seq<Symbol>) {
    forall i :: 0 <= i < |syms| ==> IsNullable(g, syms[i])
  }

  /** A concatenation is nullable exactly when both parts are. */
  lemma NullableSequenceConcat(g: Grammar, a: seq<Symbol>, b: seq<Symbol>)
    ensures IsNullableSequence(g, a + b) <==> IsNullableSequence(g, a) && IsNullableSequence(g, b)
  {
    if IsNullableSequence(g, a + b) {
      assert forall i :: 0 <= i < |a| ==> (a + b)[i] == a[i];
      assert forall i :: 0 <= i < |b| ==> (a + b)[|a| + i] == b[i];
    }
  }

  function AugmentedStartSymbol(g: Grammar): Symbol {
    AugmentedStart(g.startSymbol)
  }

  // ---- what construction guarantees ----

  /**
   * The layout after construction: terminal rules are the input rules with a terminal left side,
   * rule 0 is `S' -> S` with S the first non-empty left side of the remaining rules, `$` is a
   * terminal and epsilon is not, and the nonterminals are disjoint from the terminals.
   */
  lemma ConstructionLayout(input: seq<Rule>, g: Grammar)
    requires AcceptableRules(input) && BuiltFrom(input, g)
    ensures forall r :: r in g.terminalRules <==> r in input && IsTerminal(r.left)
    ensures g.rules[0] == Rule(AugmentedStartSymbol(g), [g.startSymbol])
    ensures forall r :: r in g.rules[1..] <==> r in input && IsNonTerminal(r.left)
    ensures |g.terminalRules| + |g.rules| == |input| + 1
    ensures EOF in g.terminals && EPSILON !in g.terminals && EPSILON in g.symbols
    ensures forall x :: x in g.terminals ==> IsTerminal(x)
    ensures forall x :: x in g.nonTerminals ==> IsNonTerminal(x)
    ensures g.startSymbol in g.nonTerminals
  {
    PartitionSizes(input);
    InputShape(input);
    var rules := SelectByLeft(input, false);
    assert g.rules[1..] == rules;
    TerminalsOfMembers(rules, EPSILON);
    forall x | x in g.terminals
      ensures IsTerminal(x)
    {
      TerminalsOfMembers(rules, x);
    }
    forall x | x in g.nonTerminals
      ensures IsNonTerminal(x)
    {
      NonTerminalsOfMembers(rules, x);
      var k :| 0 <= k < |rules| && (x == rules[k].left || (x in rules[k].right && IsNonTerminal(x)));
      assert rules[k] in rules;
    }
  }

  /**
   * The nullable set: every left side with an epsilon-only rule is in it, the left side of every
   * rule but rule 0 is in it as soon as any right-hand symbol is, and nothing else is.
   */
  lemma NullableFacts(input: seq<Rule>, g: Grammar)
    requires BuiltFrom(input, g)
    ensures forall k :: 0 <= k < |g.rules| && g.rules[k].right == [EPSILON] ==> IsNullable(g, g.rules[k].left)
    ensures forall k :: 1 <= k < |g.rules| && (exists x :: x in g.rules[k].right && IsNullable(g, x)) ==> IsNullable(g, g.rules[k].left)
    ensures forall m :: NullableSeed(g.rules) <= m && AnyClosed(g.rules, m) ==> g.nullable <= m
  {
    forall k | 0 <= k < |g.rules| && g.rules[k].right == [EPSILON]
      ensures IsNullable(g, g.rules[k].left)
    {
      NullableSeedMembers(g.rules, g.rules[k].left);
    }
    forall k | 1 <= k < |g.rules| && (exists x :: x in g.rules[k].right && IsNullable(g, x))
      ensures IsNullable(g, g.rules[k].left)
    {
      assert AnyIn(g.rules[k].right, g.nullable);
    }
  }

  /** Every FOLLOW set holds only terminals. */
  ghost predicate FollowTerminals(g: Grammar) {
    forall s, x :: s in g.followSets && x in g.followSets[s] ==> IsTerminal(x)
  }

  /** The FOLLOW sets of a constructed grammar hold only terminals: members of FIRST sets, which are terminals, and `$`. */
  lemma FollowHoldsTerminals(input: seq<Rule>, g: Grammar)
    requires BuiltFrom(input, g)
    ensures FollowTerminals(g)
  {
    FirstHoldsTerminals(g.firstSets, g.rules, g.symbols);
    FollowInUniverse(g.followSets, g.firstSets, g.rules, g.nonTerminals, g.startSymbol);
  }

  /** `$` is in FOLLOW(start), epsilon is in no FOLLOW set, and every nonterminal has an entry. */
  lemma FollowBasics(input: seq<Rule>, g: Grammar)
    requires BuiltFrom(input, g) && AcceptableRules(input)
    ensures g.startSymbol in g.followSets && EOF in g.followSets[g.startSymbol]
    ensures forall s :: s in g.followSets ==> EPSILON !in g.followSets[s]
    ensures g.followSets.Keys == g.nonTerminals
  {
    ConstructionLayout(input, g);
    assert EOF != EPSILON;
  }

  /**
   * What the occurrence of a symbol at position i of a rule contributes to its FOLLOW set, spelled
   * out: x is in FIRST of some later symbol all of whose predecessors after position i have epsilon
   * in FIRST, or every later symbol has epsilon in FIRST and x is in FOLLOW of the left side, where
   * a FOLLOW set without an entry counts as empty.
   */
  ghost predicate FollowsOccurrence(first: SetMap, follow: SetMap, rule: Rule, i: nat, x: Symbol)
    requires i < |rule.right| && Covers(first, rule.right)
  {
    (exists j :: i < j < |rule.right| &&
       (forall m :: i < m < j ==> EPSILON in first[rule.right[m]]) && x in first[rule.right[j]]) ||
    ((forall m :: i < m < |rule.right| ==> EPSILON in first[rule.right[m]]) && x in FollowGet(follow, rule.left))
  }

  /**
   * FOLLOW membership, for a nonterminal B and a symbol x other than epsilon: either x is `$` and B
   * is the start symbol, or some occurrence of B on a right-hand side lets x follow it.
   */
  lemma FollowMembers(input: seq<Rule>, g: Grammar, b: Symbol, x: Symbol)
    requires BuiltFrom(input, g) && b in g.nonTerminals && x != EPSILON
    ensures x in g.followSets[b] <==>
      (b == g.startSymbol && x == EOF) ||
      exists k, i :: 0 <= k < |g.rules| && 0 <= i < |g.rules[k].right| && g.rules[k].right[i] == b &&
        FollowsOccurrence(g.firstSets, g.followSets, g.rules[k], i, x)
  {
    FollowOfRulesMembers(g.firstSets, g.followSets, g.rules, b, x);
  }

  lemma {:induction false} FollowOfRulesMembers(first: SetMap, follow: SetMap, rules: seq<Rule>, b: Symbol, x: Symbol)
    requires RulesCovered(first, rules) && x != EPSILON
    ensures x in FollowOfRules(first, follow, rules, b) <==>
      exists k, i :: 0 <= k < |rules| && 0 <= i < |rules[k].right| && rules[k].right[i] == b &&
        FollowsOccurrence(first, follow, rules[k], i, x)
  {
    if |rules| > 0 {
      var init := rules[..|rules| - 1];
      var last := rules[|rules| - 1];
      FollowOfRulesMembers(first, follow, init, b, x);
      assert forall k :: 0 <= k < |init| ==> init[k] == rules[k];
      RuleFollowMembers(first, follow, last, b, x, |last.right|);
    }
  }

  lemma {:induction false} RuleFollowMembers(first: SetMap, follow: SetMap, rule: Rule, b: Symbol, x: Symbol, n: nat)
    requires n <= |rule.right| && Covers(first, rule.right) && x != EPSILON
    ensures x in RuleFollow(first, follow, rule, b, n) <==>
      exists i :: 0 <= i < n && rule.right[i] == b && FollowsOccurrence(first, follow, rule, i, x)
  {
    if n > 0 {
      RuleFollowMembers(first, follow, rule, b, x, n - 1);
      if rule.right[n - 1] == b {
        OccurrenceMembers(first, follow, rule, n - 1, x);
      }
    }
  }

  lemma OccurrenceMembers(first: SetMap, follow: SetMap, rule: Rule, i: nat, x: Symbol)
    requires i < |rule.right| && Covers(first, rule.right) && x != EPSILON
    ensures x in OccurrenceFollow(first, follow, rule, i) <==> FollowsOccurrence(first, follow, rule, i, x)
  {
    var beta := rule.right[i + 1..];
    ScanFirstMembers(first, beta, x);
    NullablePrefixFacts(first, beta);
    assert forall m :: 0 <= m < |beta| ==> beta[m] == rule.right[i + 1 + m];
    if exists j :: i < j < |rule.right| && (forall m :: i < m < j ==> EPSILON in first[rule.right[m]]) && x in first[rule.right[j]] {
      var j :| i < j < |rule.right| && (forall m :: i < m < j ==> EPSILON in first[rule.right[m]]) && x in first[rule.right[j]];
      assert x in first[beta[j - i - 1]];
      assert j - i - 1 <= NullablePrefix(first, beta);
    }
    if x in ScanFirst(first, beta) {
      var j :| 0 <= j < |beta| && j <= NullablePrefix(first, beta) && x in first[beta[j]];
      assert x in first[rule.right[i + 1 + j]];
    }
  }
}
