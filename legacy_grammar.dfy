/**
 * The grammar of the older crate under `src/lib` (`Grammar::from_rules` there). Construction runs
 * `build_symbols`, `build_props`, `build_first_sets` and `build_follow_sets` in that order. It
 * differs from `lexion_lib` in several ways:
 * - there is no augmented start rule;
 * - epsilon counts as a terminal when it appears on a right side;
 * - nullability is a memoised recursion from the start symbol;
 * - the FIRST and FOLLOW scans are the ones of `LegacyFirstSets` and `LegacyFollowSets`.
 * Construction can fail in three ways, each an explicit outcome here: a panic in the FIRST scan, a
 * panic at the start symbol's FOLLOW entry, and an unbounded recursion in the nullability check.
 * The recursion is bounded by a fuel parameter that stands in for the call stack.
 */
module LegacyGrammars {
  import opened Wrappers
  import opened Symbols
  import opened GrammarRules
  import opened FirstSets
  import opened LegacyFirstSets
  import opened LegacyFollowSets
  import TokenTypes

  // ---- build_symbols ----

  /** The terminals among `syms`, epsilon included. */
  function AllTerminalsIn(syms: seq<Symbol>): set<Symbol> {
    if |syms| == 0 then {}
    else AllTerminalsIn(syms[..|syms| - 1]) + (if IsTerminal(syms[|syms| - 1]) then {syms[|syms| - 1]} else {})
  }

  /** Every terminal, epsilon and `$` included, that appears on a right-hand side. */
  function AllTerminalsOf(rules: seq<Rule>): set<Symbol> {
    if |rules| == 0 then {} else AllTerminalsOf(rules[..|rules| - 1]) + AllTerminalsIn(rules[|rules| - 1].right)
  }

  lemma {:induction false} AllTerminalsInMembers(syms: seq<Symbol>, x: Symbol)
    ensures x in AllTerminalsIn(syms) <==> x in syms && IsTerminal(x)
  {
    if |syms| > 0 {
      AllTerminalsInMembers(syms[..|syms| - 1], x);
      assert syms == syms[..|syms| - 1] + [syms[|syms| - 1]];
    }
  }

  lemma {:induction false} AllTerminalsOfMembers(rules: seq<Rule>, x: Symbol)
    ensures x in AllTerminalsOf(rules) <==> exists k :: 0 <= k < |rules| && x in rules[k].right && IsTerminal(x)
  {
    if |rules| > 0 {
      var init := rules[..|rules| - 1];
      AllTerminalsOfMembers(init, x);
      AllTerminalsInMembers(rules[|rules| - 1].right, x);
      forall k | 0 <= k < |init| ensures init[k] == rules[k] { }
    }
  }

  /**
   * The terminal set differs from the one `lexion_lib` builds only in epsilon, which it holds
   * when epsilon appears on a right side, and in `$`, which it holds only when `$` appears on one.
   */
  lemma TerminalsAgainstLexionLib(rules: seq<Rule>)
    ensures AllTerminalsOf(rules) - {EPSILON} == TerminalsOf(rules)
    ensures EPSILON in AllTerminalsOf(rules) <==> exists k :: 0 <= k < |rules| && EPSILON in rules[k].right
    ensures EOF in AllTerminalsOf(rules) <==> exists k :: 0 <= k < |rules| && EOF in rules[k].right
  {
    forall x | true
      ensures x in AllTerminalsOf(rules) - {EPSILON} <==> x in TerminalsOf(rules)
    {
      AllTerminalsOfMembers(rules, x);
      TerminalsOfMembers(rules, x);
    }
    AllTerminalsOfMembers(rules, EPSILON);
    AllTerminalsOfMembers(rules, EOF);
  }

  /** The symbols: every terminal and nonterminal, and epsilon. */
  function SymbolsOf(rules: seq<Rule>): set<Symbol> {
    AllTerminalsOf(rules) + NonTerminalsOf(rules) + {EPSILON}
  }

  datatype LegacySymbols = LegacySymbols(start: Symbol, terminals: set<Symbol>, nonTerminals: set<Symbol>, symbols: set<Symbol>)

  /**
   * `build_symbols`: the start symbol is the first non-empty left side; every left side and every
   * nonterminal right-hand symbol is a nonterminal; every terminal right-hand symbol is a terminal.
   */
  method BuildSymbols(rules: seq<Rule>) returns (info: LegacySymbols)
    ensures info.start == StartOf(rules)
    ensures info.nonTerminals == NonTerminalsOf(rules)
    ensures info.terminals == AllTerminalsOf(rules)
    ensures info.symbols == info.terminals + info.nonTerminals + {EPSILON} == SymbolsOf(rules)
  {
    var start: Symbol := "";
    var terminals: set<Symbol> := {};
    var nonTerminals: set<Symbol> := {};
    for i := 0 to |rules|
      invariant start == StartOf(rules[..i])
      invariant nonTerminals == NonTerminalsOf(rules[..i])
      invariant terminals == AllTerminalsOf(rules[..i])
    {
      var rule := rules[i];
      if start == "" {
        start := rule.left;
      }
      nonTerminals := nonTerminals + {rule.left};
      for j := 0 to |rule.right|
        invariant nonTerminals == NonTerminalsOf(rules[..i]) + {rule.left} + NonTerminalsIn(rule.right[..j])
        invariant terminals == AllTerminalsOf(rules[..i]) + AllTerminalsIn(rule.right[..j])
      {
        var symbol := rule.right[j];
        assert rule.right[..j + 1][..j] == rule.right[..j];
        if IsTerminal(symbol) {
          terminals := terminals + {symbol};
        } else {
          nonTerminals := nonTerminals + {symbol};
        }
      }
      assert rule.right[..|rule.right|] == rule.right;
      assert rules[..i + 1][..i] == rules[..i];
    }
    assert rules[..|rules|] == rules;
    info := LegacySymbols(start, terminals, nonTerminals, terminals + nonTerminals + {EPSILON});
  }

  // ---- build_props_nullable ----

  /** `x` derives the empty string by a derivation tree of height at most `d`. */
  ghost predicate DerivesEmpty(rules: seq<Rule>, x: Symbol, d: nat)
    decreases d
  {
    d > 0 && exists k :: 0 <= k < |rules| && rules[k].left == x && forall s :: s in rules[k].right ==> DerivesEmpty(rules, s, d - 1)
  }

  /** `x` derives the empty string. Epsilon itself does not: no rule has it on the left. */
  ghost predicate Nullable(rules: seq<Rule>, x: Symbol) {
    exists d :: DerivesEmpty(rules, x, d)
  }

  /** Every symbol of `right` derives the empty string (the empty right side vacuously). */
  ghost predicate AllNullable(rules: seq<Rule>, right: seq<Symbol>) {
    forall s :: s in right ==> Nullable(rules, s)
  }

  lemma {:induction false} DerivesEmptyMono(rules: seq<Rule>, x: Symbol, d: nat, e: nat)
    requires d <= e && DerivesEmpty(rules, x, d)
    ensures DerivesEmpty(rules, x, e)
    decreases d
  {
    var k :| 0 <= k < |rules| && rules[k].left == x && forall s :: s in rules[k].right ==> DerivesEmpty(rules, s, d - 1);
    forall s | s in rules[k].right
      ensures DerivesEmpty(rules, s, e - 1)
    {
      DerivesEmptyMono(rules, s, d - 1, e - 1);
    }
  }

  /** Symbols that each derive the empty string do so with one common height bound. */
  lemma {:induction false} CommonHeight(rules: seq<Rule>, syms: seq<Symbol>) returns (d: nat)
    requires AllNullable(rules, syms)
    ensures forall s :: s in syms ==> DerivesEmpty(rules, s, d)
    decreases |syms|
  {
    if |syms| == 0 {
      return 0;
    }
    assert syms[0] in syms;
    var d0 :| DerivesEmpty(rules, syms[0], d0);
    assert forall s :: s in syms[1..] ==> s in syms;
    var d1 := CommonHeight(rules, syms[1..]);
    d := if d0 < d1 then d1 else d0;
    forall s | s in syms
      ensures DerivesEmpty(rules, s, d)
    {
      if s == syms[0] {
        DerivesEmptyMono(rules, s, d0, d);
      } else {
        assert s in syms[1..] by {
          var i :| 0 <= i < |syms| && syms[i] == s;
          assert i > 0 && syms[1..][i - 1] == s;
        }
        DerivesEmptyMono(rules, s, d1, d);
      }
    }
  }

  /** A symbol derives the empty string exactly when some rule of it has only such symbols on the right. */
  lemma NullableStep(rules: seq<Rule>, x: Symbol)
    ensures Nullable(rules, x) <==> exists k :: 0 <= k < |rules| && rules[k].left == x && AllNullable(rules, rules[k].right)
  {
    if Nullable(rules, x) {
      var d: nat :| DerivesEmpty(rules, x, d);
      var k :| 0 <= k < |rules| && rules[k].left == x && forall s :: s in rules[k].right ==> DerivesEmpty(rules, s, d - 1);
      assert AllNullable(rules, rules[k].right);
    }
    if exists k :: 0 <= k < |rules| && rules[k].left == x && AllNullable(rules, rules[k].right) {
      var k :| 0 <= k < |rules| && rules[k].left == x && AllNullable(rules, rules[k].right);
      var d := CommonHeight(rules, rules[k].right);
      assert DerivesEmpty(rules, x, d + 1);
    }
  }

  /** Every left side is among `nts`. */
  predicate LeftsIn(rules: seq<Rule>, nts: set<Symbol>) {
    forall k :: 0 <= k < |rules| ==> rules[k].left in nts
  }

  /** A symbol outside the nonterminals has no rule, so it never derives the empty string. */
  lemma NotLeftNotNullable(rules: seq<Rule>, nts: set<Symbol>, x: Symbol)
    requires LeftsIn(rules, nts) && x !in nts
    ensures !Nullable(rules, x)
  {
    NullableStep(rules, x);
  }

  /** Every memoised answer is a nonterminal's and is right. */
  ghost predicate MemoTruthful(rules: seq<Rule>, nts: set<Symbol>, memo: map<Symbol, bool>) {
    forall k :: k in memo ==> k in nts && memo[k] == Nullable(rules, k)
  }

  /** The first rule of `x` has `x` as its first right-hand symbol: the recursion re-enters `x` at once. */
  predicate LeftRecursiveFirst(rules: seq<Rule>, x: Symbol) {
    exists k :: 0 <= k < |rules| && rules[k].left == x && |rules[k].right| > 0 && rules[k].right[0] == x &&
      forall j :: 0 <= j < k ==> rules[j].left != x
  }

  /**
   * `build_props_nullable`: a memoised answer if there is one; `false` for a symbol that is not a
   * nonterminal (not memoised); otherwise whether some rule of the symbol has only nullable symbols on
   * the right, both searches stopping at the first decisive answer, memoised before returning.
   * Nothing guards against re-entering a symbol still being computed, so the recursion need not end;
   * `None` is the fuel running out, and it always does when the first rule of the symbol starts
   * with the symbol itself.
   */
  method BuildPropsNullable(rules: seq<Rule>, nts: set<Symbol>, memo: map<Symbol, bool>, symbol: Symbol, fuel: nat)
    returns (r: Option<bool>, memo': map<Symbol, bool>)
    requires LeftsIn(rules, nts) && MemoTruthful(rules, nts, memo)
    ensures MemoTruthful(rules, nts, memo') && memo.Keys <= memo'.Keys
    ensures r.Some? ==> r.value == Nullable(rules, symbol)
    ensures r.Some? && symbol in nts ==> symbol in memo'
    ensures symbol in memo ==> r == Some(memo[symbol]) && memo' == memo
    ensures symbol !in nts ==> r == Some(false) && memo' == memo
    ensures symbol !in memo && LeftRecursiveFirst(rules, symbol) ==> r.None?
    decreases fuel
  {
    if symbol in memo {
      return Some(memo[symbol]), memo;
    }
    if symbol !in nts {
      NotLeftNotNullable(rules, nts, symbol);
      return Some(false), memo;
    }
    if fuel == 0 {
      return None, memo;
    }
    ghost var reenters := LeftRecursiveFirst(rules, symbol);
    ghost var first: nat := 0;
    if reenters {
      first :| first < |rules| && rules[first].left == symbol && |rules[first].right| > 0 && rules[first].right[0] == symbol &&
        forall j :: 0 <= j < first ==> rules[j].left != symbol;
    }
    memo' := memo;
    var nullable := false;
    var k := 0;
    while k < |rules| && !nullable
      invariant 0 <= k <= |rules|
      invariant MemoTruthful(rules, nts, memo') && memo.Keys <= memo'.Keys
      invariant !nullable ==> forall i :: 0 <= i < k && rules[i].left == symbol ==> !AllNullable(rules, rules[i].right)
      invariant nullable ==> exists i :: 0 <= i < k && rules[i].left == symbol && AllNullable(rules, rules[i].right)
      invariant reenters ==> k <= first && memo' == memo && !nullable
    {
      if rules[k].left == symbol {
        var right := rules[k].right;
        var all := true;
        var j := 0;
        while j < |right| && all
          invariant 0 <= j <= |right|
          invariant MemoTruthful(rules, nts, memo') && memo.Keys <= memo'.Keys
          invariant all ==> forall i :: 0 <= i < j ==> Nullable(rules, right[i])
          invariant !all ==> exists i :: 0 <= i < j && !Nullable(rules, right[i])
          invariant reenters ==> k == first && j == 0 && memo' == memo
        {
          var v;
          v, memo' := BuildPropsNullable(rules, nts, memo', right[j], fuel - 1);
          if v.None? {
            return None, memo';
          }
          if !v.value {
            all := false;
          }
          j := j + 1;
        }
        if all {
          assert AllNullable(rules, right) by {
            forall s | s in right
              ensures Nullable(rules, s)
            {
              var i :| 0 <= i < |right| && right[i] == s;
            }
          }
          nullable := true;
        } else {
          ghost var i :| 0 <= i < j && !Nullable(rules, right[i]);
          assert right[i] in right;
        }
      }
      k := k + 1;
    }
    NullableStep(rules, symbol);
    memo' := memo'[symbol := nullable];
    return Some(nullable), memo';
  }

  /** `is_nullable`: the memoised answer, `false` for a symbol the recursion never reached. */
  predicate IsNullable(props: map<Symbol, bool>, s: Symbol) {
    s in props && props[s]
  }

  /** A memoised `true` is always right; a missing entry reads as `false` whatever the truth. */
  lemma IsNullableSound(rules: seq<Rule>, nts: set<Symbol>, props: map<Symbol, bool>, s: Symbol)
    requires MemoTruthful(rules, nts, props)
    ensures IsNullable(props, s) ==> Nullable(rules, s)
    ensures s in props ==> (IsNullable(props, s) <==> Nullable(rules, s))
  {
  }

  /** `A -> ε` does not make `A` nullable here: epsilon is a terminal with no rule. */
  lemma EpsilonRuleNotNullable()
    ensures !Nullable([Rule("A", [EPSILON])], "A")
    ensures Nullable([Rule("A", [])], "A")
  {
    var rules := [Rule("A", [EPSILON])];
    NullableStep(rules, EPSILON);
    NullableStep(rules, "A");
    assert EPSILON in rules[0].right;
    var empty := [Rule("A", [])];
    assert empty[0].left == "A" && empty[0].right == [];
    assert DerivesEmpty(empty, "A", 1);
  }

  // ---- from_rules ----

  datatype LegacyGrammar = LegacyGrammar(
    rules: seq<Rule>,
    terminalRules: seq<Rule>,
    startSymbol: Symbol,
    symbols: set<Symbol>,
    nonTerminals: set<Symbol>,
    terminals: set<Symbol>,
    firstSets: SetMap,
    followSets: SetMap,
    props: map<Symbol, bool>)

  /** What `from_rules` ends in: a grammar, a panic, or a recursion deeper than the fuel. */
  datatype Built = Built(grammar: LegacyGrammar) | Panicked | Overflowed

  /** Everything `from_rules` establishes about the grammar it returns. */
  ghost predicate BuiltFrom(input: seq<Rule>, g: LegacyGrammar) {
    var rules := SelectByLeft(input, false);
    g.rules == rules && g.terminalRules == SelectByLeft(input, true) &&
    g.startSymbol == StartOf(rules) &&
    g.nonTerminals == NonTerminalsOf(rules) && g.terminals == AllTerminalsOf(rules) && g.symbols == SymbolsOf(rules) &&
    MemoTruthful(rules, g.nonTerminals, g.props) && (g.startSymbol in g.nonTerminals ==> g.startSymbol in g.props) &&
    IsFirstFixpoint(g.firstSets, rules, g.symbols) &&
    (forall h :: IsFirstPreFixpoint(h, rules, g.symbols) ==> Below(g.firstSets, h)) &&
    !SomeRuleOffEnd(g.firstSets, rules) &&
    IsFollowFixpointAsWritten(g.followSets, g.firstSets, rules, g.nonTerminals, g.startSymbol) &&
    (forall h :: IsFollowPreFixpointAsWritten(h, g.firstSets, rules, g.nonTerminals, g.startSymbol) ==> Below(g.followSets, h))
  }

  /** Every rule's left side is a nonterminal, and every symbol of a rule is among the symbols. */
  lemma SymbolsShape(rules: seq<Rule>)
    ensures LeftsIn(rules, NonTerminalsOf(rules))
    ensures RightsIn(rules, SymbolsOf(rules)) && forall k :: 0 <= k < |rules| ==> rules[k].left in SymbolsOf(rules)
  {
    forall k | 0 <= k < |rules|
      ensures rules[k].left in NonTerminalsOf(rules)
      ensures forall j :: 0 <= j < |rules[k].right| ==> rules[k].right[j] in SymbolsOf(rules)
    {
      NonTerminalsOfMembers(rules, rules[k].left);
      forall j | 0 <= j < |rules[k].right|
        ensures rules[k].right[j] in SymbolsOf(rules)
      {
        var x := rules[k].right[j];
        assert x in rules[k].right;
        NonTerminalsOfMembers(rules, x);
        AllTerminalsOfMembers(rules, x);
      }
    }
  }

  /**
   * `from_rules`: the nonterminal and terminal rules (order kept), then the four construction
   * steps. A grammar comes back only when none of them fails. With no nonterminal rule the start
   * symbol is the empty string, not a nonterminal, and its FOLLOW entry is missing: a panic. A rule
   * `A -> ε` or an empty rule always fails, and so does a start symbol whose first rule is left
   * recursive.
   */
  method FromRules(input: seq<Rule>, fuel: nat) returns (r: Built)
    ensures r.Built? ==> BuiltFrom(input, r.grammar)
    ensures r.Panicked? ==> var rules := SelectByLeft(input, false);
      |rules| == 0 || forall h :: IsFirstPreFixpoint(h, rules, SymbolsOf(rules)) ==> SomeRuleOffEnd(h, rules)
    ensures (forall k :: 0 <= k < |input| ==> IsTerminal(input[k].left)) ==> r.Panicked?
    ensures HasEpsilonOrEmptyRule(SelectByLeft(input, false)) ==> !r.Built?
    ensures var rules := SelectByLeft(input, false); LeftRecursiveFirst(rules, StartOf(rules)) ==> r.Overflowed?
  {
    var terminalRules := SelectByLeft(input, true);
    var rules := SelectByLeft(input, false);
    var info := BuildSymbols(rules);
    SymbolsShape(rules);
    var nullable, props := BuildPropsNullable(rules, info.nonTerminals, map[], info.start, fuel);
    if nullable.None? {
      return Overflowed;
    }
    var first := BuildFirstSetsAsWritten(rules, info.symbols);
    if first.None? {
      return Panicked;
    }
    var follow := BuildFollowSetsAsWritten(rules, first.value, info.nonTerminals, info.start);
    if follow.None? {
      NoRulesPanics(rules);
      return Panicked;
    }
    r := Built(LegacyGrammar(rules, terminalRules, info.start, info.symbols, info.nonTerminals, info.terminals,
                             first.value, follow.value, props));
    NoRulesPanics(rules);
    assert rules[0] in input && IsNonTerminal(rules[0].left);
  }

  /** The start symbol is a nonterminal exactly when there is a rule. */
  lemma NoRulesPanics(rules: seq<Rule>)
    ensures StartOf(rules) in NonTerminalsOf(rules) <==> |rules| > 0
  {
    StartOfFacts(rules);
    NonTerminalsOfMembers(rules, StartOf(rules));
    if |rules| > 0 {
      if StartOf(rules) == "" {
        assert rules[0].left == "";
      }
    }
  }

  // ---- get_token_types ----

  /**
   * The token type of one terminal: the first terminal rule's first right-hand symbol after `^`
   * when there is such a rule, and the terminal's text after `^`, not escaped, when there is none.
   * `None` when the rule found has an empty right side, which panics.
   */
  function TokenTypeOf(g: LegacyGrammar, t: Symbol): (r: Option<TokenTypes.TokenTypeSpec>)
    ensures r.None? <==> TokenTypes.FindRule(g.terminalRules, t).Some? && |TokenTypes.FindRule(g.terminalRules, t).value.right| == 0
    ensures r.Some? ==> r.value.name == t && |r.value.pattern| > 0 && r.value.pattern[0] == '^'
    ensures r.Some? && TokenTypes.FindRule(g.terminalRules, t).None? ==> r.value.pattern[1..] == Stringify(t)
  {
    match TokenTypes.FindRule(g.terminalRules, t)
    case Some(rule) => if |rule.right| > 0 then Some(TokenTypes.TokenTypeSpec(t, "^" + rule.right[0])) else None
    case None => Some(TokenTypes.TokenTypeSpec(t, "^" + Stringify(t)))
  }

  /** The named token types, one per terminal of `order`, in that order; `None` if one panics. */
  function NamedTokenTypes(g: LegacyGrammar, order: seq<Symbol>): (r: Option<seq<TokenTypes.TokenTypeSpec>>)
    ensures r.Some? <==> forall i :: 0 <= i < |order| ==> TokenTypeOf(g, order[i]).Some?
    ensures r.Some? ==> |r.value| == |order| && forall i :: 0 <= i < |order| ==> r.value[i] == TokenTypeOf(g, order[i]).value
  {
    if |order| == 0 then Some([])
    else
      match (TokenTypeOf(g, order[0]), NamedTokenTypes(g, order[1..]))
      case (Some(t), Some(rest)) => Some([t] + rest)
      case _ => None
  }

  /**
   * `get_token_types`: the three unnamed token types, then one per terminal in the iteration order
   * `order` of the terminal set.
   */
  function GetTokenTypes(g: LegacyGrammar, order: seq<Symbol>): (r: Option<seq<TokenTypes.TokenTypeSpec>>)
    ensures r.Some? <==> NamedTokenTypes(g, order).Some?
    ensures r.Some? ==> r.value == TokenTypes.SKIPPED + NamedTokenTypes(g, order).value
  {
    match NamedTokenTypes(g, order)
    case Some(named) => Some(TokenTypes.SKIPPED + named)
    case None => None
  }

  /**
   * With `order` listing the terminal set, the named token types are exactly one per terminal,
   * epsilon and `$` included when they are terminals, with no name twice.
   */
  lemma TokenTypeNames(g: LegacyGrammar, order: seq<Symbol>)
    requires TokenTypes.IsEnumeration(order, g.terminals) && GetTokenTypes(g, order).Some?
    ensures var r := GetTokenTypes(g, order).value;
      |r| == 3 + |g.terminals| &&
      (forall t :: t in g.terminals <==> exists i :: 3 <= i < |r| && r[i].name == t) &&
      (forall i, j :: 3 <= i < j < |r| ==> r[i].name != r[j].name)
  {
    var r := GetTokenTypes(g, order).value;
    var named := NamedTokenTypes(g, order).value;
    assert forall i :: 0 <= i < |named| ==> r[3 + i] == named[i];
    forall t | t in g.terminals
      ensures exists i :: 3 <= i < |r| && r[i].name == t
    {
      var i :| 0 <= i < |order| && order[i] == t;
      assert r[3 + i].name == t;
    }
    assert |order| == |g.terminals| by {
      DistinctCard(order, g.terminals);
    }
  }

  /** A list of distinct elements that covers a set has the set's size. */
  lemma {:induction false} DistinctCard(order: seq<Symbol>, s: set<Symbol>)
    requires TokenTypes.IsEnumeration(order, s)
    ensures |order| == |s|
    decreases |order|
  {
    if |order| > 0 {
      var last := order[|order| - 1];
      var init := order[..|order| - 1];
      assert forall t :: t in init ==> t in s - {last} by {
        forall t | t in init
          ensures t != last
        {
          var i :| 0 <= i < |init| && init[i] == t;
          assert order[i] == t;
        }
      }
      assert forall t :: t in s - {last} ==> t in init by {
        forall t | t in s - {last}
          ensures t in init
        {
          var i :| 0 <= i < |order| && order[i] == t;
          assert i < |order| - 1 && init[i] == t;
        }
      }
      assert forall i, j :: 0 <= i < j < |init| ==> init[i] != init[j] by {
        forall i, j | 0 <= i < j < |init|
          ensures init[i] != init[j]
        {
          assert order[i] == init[i] && order[j] == init[j];
        }
      }
      DistinctCard(init, s - {last});
    } else {
      assert forall t :: t !in s;
      assert s == {};
    }
  }
}
