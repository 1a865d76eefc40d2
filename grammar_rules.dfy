/**
 * Grammar rules and the first two construction steps of a grammar: splitting off terminal rules,
 * collecting the symbols with the augmented start rule, and the nullable set.
 */
module GrammarRules {
  import opened Symbols
  import opened SetFacts

  /** A production `left -> right[0] right[1] ...`. */
  datatype Rule = Rule(left: Symbol, right: seq<Symbol>)

  /** The rules kept by the order-preserving partition whose left side is (or is not) terminal. */
  function SelectByLeft(rules: seq<Rule>, terminalLeft: bool): (r: seq<Rule>)
    ensures forall x :: x in r <==> x in rules && IsTerminal(x.left) == terminalLeft
    ensures |r| <= |rules|
  {
    if |rules| == 0 then []
    else (if IsTerminal(rules[0].left) == terminalLeft then [rules[0]] else []) + SelectByLeft(rules[1..], terminalLeft)
  }

  /** The partition keeps every rule on exactly one side. */
  lemma {:induction false} PartitionSizes(rules: seq<Rule>)
    ensures |SelectByLeft(rules, true)| + |SelectByLeft(rules, false)| == |rules|
  {
    if |rules| > 0 {
      PartitionSizes(rules[1..]);
    }
  }

  /** The augmented start symbol `S'`. */
  function AugmentedStart(start: Symbol): (r: Symbol)
    ensures |r| == |start| + 1 && r[..|start|] == start && r[|start|] == '\''
  {
    start + "'"
  }

  function Lefts(rules: seq<Rule>): set<Symbol> {
    set r | r in rules :: r.left
  }

  /** The nonterminals among `syms`. */
  function NonTerminalsIn(syms: seq<Symbol>): set<Symbol> {
    if |syms| == 0 then {}
    else NonTerminalsIn(syms[..|syms| - 1]) + (if IsNonTerminal(syms[|syms| - 1]) then {syms[|syms| - 1]} else {})
  }

  /** The terminals among `syms`, epsilon excepted. */
  function TerminalsIn(syms: seq<Symbol>): set<Symbol> {
    if |syms| == 0 then {}
    else
      var x := syms[|syms| - 1];
      TerminalsIn(syms[..|syms| - 1]) + (if x != EPSILON && IsTerminal(x) then {x} else {})
  }

  /** Every left side, and every nonterminal on a right-hand side. */
  function NonTerminalsOf(rules: seq<Rule>): set<Symbol> {
    if |rules| == 0 then {}
    else
      var last := rules[|rules| - 1];
      NonTerminalsOf(rules[..|rules| - 1]) + {last.left} + NonTerminalsIn(last.right)
  }

  /** Every terminal other than epsilon that appears on a right-hand side. */
  function TerminalsOf(rules: seq<Rule>): set<Symbol> {
    if |rules| == 0 then {} else TerminalsOf(rules[..|rules| - 1]) + TerminalsIn(rules[|rules| - 1].right)
  }

  lemma {:induction false} NonTerminalsInMembers(syms: seq<Symbol>, x: Symbol)
    ensures x in NonTerminalsIn(syms) <==> x in syms && IsNonTerminal(x)
  {
    if |syms| > 0 {
      NonTerminalsInMembers(syms[..|syms| - 1], x);
      assert syms == syms[..|syms| - 1] + [syms[|syms| - 1]];
    }
  }

  lemma {:induction false} TerminalsInMembers(syms: seq<Symbol>, x: Symbol)
    ensures x in TerminalsIn(syms) <==> x in syms && x != EPSILON && IsTerminal(x)
  {
    if |syms| > 0 {
      TerminalsInMembers(syms[..|syms| - 1], x);
      assert syms == syms[..|syms| - 1] + [syms[|syms| - 1]];
    }
  }

  lemma {:induction false} NonTerminalsOfMembers(rules: seq<Rule>, x: Symbol)
    ensures x in NonTerminalsOf(rules) <==>
      exists k :: 0 <= k < |rules| && (x == rules[k].left || (x in rules[k].right && IsNonTerminal(x)))
  {
    if |rules| > 0 {
      var init := rules[..|rules| - 1];
      NonTerminalsOfMembers(init, x);
      NonTerminalsInMembers(rules[|rules| - 1].right, x);
      forall k | 0 <= k < |init| ensures init[k] == rules[k] { }
    }
  }

  lemma {:induction false} TerminalsOfMembers(rules: seq<Rule>, x: Symbol)
    ensures x in TerminalsOf(rules) <==>
      exists k :: 0 <= k < |rules| && x in rules[k].right && x != EPSILON && IsTerminal(x)
  {
    if |rules| > 0 {
      var init := rules[..|rules| - 1];
      TerminalsOfMembers(init, x);
      TerminalsInMembers(rules[|rules| - 1].right, x);
      forall k | 0 <= k < |init| ensures init[k] == rules[k] { }
    }
  }

  /** The first non-empty left side, or the empty string when there is none. */
  function StartOf(rules: seq<Rule>): Symbol {
    if |rules| == 0 then ""
    else
      var s := StartOf(rules[..|rules| - 1]);
      if s == "" then rules[|rules| - 1].left else s
  }

  /** `StartOf` is empty only when every left side is, and otherwise is the first non-empty one. */
  lemma {:induction false} StartOfFacts(rules: seq<Rule>)
    ensures StartOf(rules) == "" <==> forall k :: 0 <= k < |rules| ==> rules[k].left == ""
    ensures StartOf(rules) != "" ==>
      exists k :: 0 <= k < |rules| && rules[k].left == StartOf(rules) && forall j :: 0 <= j < k ==> rules[j].left == ""
  {
    if |rules| > 0 {
      var init := rules[..|rules| - 1];
      StartOfFacts(init);
      assert forall k :: 0 <= k < |init| ==> init[k] == rules[k];
      if StartOf(init) != "" {
        var k :| 0 <= k < |init| && init[k].left == StartOf(init) && forall j :: 0 <= j < k ==> init[j].left == "";
        assert rules[k].left == StartOf(rules);
      }
    }
  }

  /** The symbol sets and rule list left behind by `build_symbols`. */
  datatype SymbolInfo = SymbolInfo(
    start: Symbol,
    terminals: set<Symbol>,
    nonTerminals: set<Symbol>,
    symbols: set<Symbol>,
    rules: seq<Rule>)

  /**
   * `build_symbols`: the start symbol is the first non-empty left side (the field starts empty and is
   * assigned while it is still empty), every left side and every nonterminal right-hand symbol is a
   * nonterminal, every terminal right-hand symbol except epsilon is a terminal, and afterwards `$`
   * joins the terminals and the augmented rule `S' -> S` becomes rule 0.
   */
  method BuildSymbols(rules: seq<Rule>) returns (info: SymbolInfo)
    ensures info.start == StartOf(rules)
    ensures info.nonTerminals == NonTerminalsOf(rules)
    ensures info.terminals == TerminalsOf(rules) + {EOF}
    ensures info.symbols == info.terminals + info.nonTerminals + {EPSILON}
    ensures info.rules == [Rule(AugmentedStart(info.start), [info.start])] + rules
  {
    var start: Symbol := "";
    var terminals: set<Symbol> := {};
    var nonTerminals: set<Symbol> := {};
    for i := 0 to |rules|
      invariant start == StartOf(rules[..i])
      invariant nonTerminals == NonTerminalsOf(rules[..i])
      invariant terminals == TerminalsOf(rules[..i])
    {
      var rule := rules[i];
      if start == "" {
        start := rule.left;
      }
      nonTerminals := nonTerminals + {rule.left};
      for j := 0 to |rule.right|
        invariant nonTerminals == NonTerminalsOf(rules[..i]) + {rule.left} + NonTerminalsIn(rule.right[..j])
        invariant terminals == TerminalsOf(rules[..i]) + TerminalsIn(rule.right[..j])
      {
        var symbol := rule.right[j];
        assert rule.right[..j + 1][..j] == rule.right[..j];
        if symbol == EPSILON {
          continue;
        }
        if IsTerminal(symbol) {
          terminals := terminals + {symbol};
        } else {
          nonTerminals := nonTerminals + {symbol};
        }
      }
      assert rule.right[..|rule.right|] == rule.right;
      assert rules[..i + 1][..i] == rules[..i];
    }
    assert rules[..|rules|] == rules;
    var symbols := terminals + nonTerminals + {EPSILON} + {EOF};
    terminals := terminals + {EOF};
    info := SymbolInfo(start, terminals, nonTerminals, symbols, [Rule(AugmentedStart(start), [start])] + rules);
  }

  /** Left sides that have an epsilon-only production (`A -> ε`). */
  function NullableSeed(rules: seq<Rule>): set<Symbol> {
    if |rules| == 0 then {}
    else
      var last := rules[|rules| - 1];
      NullableSeed(rules[..|rules| - 1]) + (if last.right == [EPSILON] then {last.left} else {})
  }

  lemma {:induction false} NullableSeedMembers(rules: seq<Rule>, x: Symbol)
    ensures x in NullableSeed(rules) <==> exists k :: 0 <= k < |rules| && rules[k].left == x && rules[k].right == [EPSILON]
  {
    if |rules| > 0 {
      var init := rules[..|rules| - 1];
      NullableSeedMembers(init, x);
      assert forall k :: 0 <= k < |init| ==> init[k] == rules[k];
    }
  }

  /** Some symbol of `right` is in `n`. */
  predicate AnyIn(right: seq<Symbol>, n: set<Symbol>) {
    exists x :: x in right && x in n
  }

  /**
   * A set closed under the source's propagation step: the left side of every rule other than rule 0
   * belongs to it as soon as ANY of its right-hand symbols does.
   */
  predicate AnyClosed(rules: seq<Rule>, n: set<Symbol>) {
    forall k :: 1 <= k < |rules| ==> AnyIn(rules[k].right, n) ==> rules[k].left in n
  }

  /** `n` lies inside every closed set that contains the seed. */
  ghost predicate BelowEveryClosed(rules: seq<Rule>, seed: set<Symbol>, n: set<Symbol>) {
    forall m :: seed <= m && AnyClosed(rules, m) ==> n <= m
  }

  /**
   * `build_props_nullable`: the seed, then whole passes over rules 1.. that add a left side once any
   * right-hand symbol is nullable, until a pass leaves the size unchanged. The result is the least
   * set containing the seed that is closed under that step.
   */
  method BuildNullable(rules: seq<Rule>) returns (nullable: set<Symbol>)
    ensures NullableSeed(rules) <= nullable <= Lefts(rules)
    ensures AnyClosed(rules, nullable)
    ensures BelowEveryClosed(rules, NullableSeed(rules), nullable)
  {
    nullable := {};
    for i := 0 to |rules|
      invariant nullable == NullableSeed(rules[..i])
    {
      assert rules[..i + 1][..i] == rules[..i];
      if rules[i].right == [EPSILON] {
        nullable := nullable + {rules[i].left};
      }
    }
    assert rules[..|rules|] == rules;
    ghost var seed := nullable;
    SeedInLefts(rules);
    var prevSize := 0;
    while |nullable| != prevSize
      invariant seed == NullableSeed(rules) && seed <= nullable <= Lefts(rules)
      invariant BelowEveryClosed(rules, seed, nullable)
      invariant |nullable| == prevSize ==> AnyClosed(rules, nullable)
      decreases Lefts(rules) - nullable, if |nullable| == prevSize then 0 else 1
    {
      prevSize := |nullable|;
      ghost var before := nullable;
      for k := 1 to |rules|
        invariant before <= nullable <= Lefts(rules)
        invariant BelowEveryClosed(rules, seed, nullable)
        invariant PassCovers(rules, before, nullable, k)
      {
        ghost var n0 := nullable;
        if AnyIn(rules[k].right, nullable) {
          AddLeftStaysBelow(rules, seed, nullable, k);
          nullable := nullable + {rules[k].left};
        }
        PassCoversStep(rules, before, n0, nullable, k);
      }
      PassEnd(rules, before, nullable, prevSize);
    }
  }

  /** Every rule among 1..k-1 that had a symbol in `before` has its left side in `n`. */
  predicate PassCovers(rules: seq<Rule>, before: set<Symbol>, n: set<Symbol>, k: nat)
    requires k <= |rules|
  {
    forall j :: 1 <= j < k ==> AnyIn(rules[j].right, before) ==> rules[j].left in n
  }

  lemma PassCoversStep(rules: seq<Rule>, before: set<Symbol>, n0: set<Symbol>, n1: set<Symbol>, k: nat)
    requires 1 <= k < |rules| && before <= n0 <= n1 && PassCovers(rules, before, n0, k)
    requires AnyIn(rules[k].right, n0) ==> rules[k].left in n1
    ensures PassCovers(rules, before, n1, k + 1)
  {
  }

  lemma SeedInLefts(rules: seq<Rule>)
    ensures NullableSeed(rules) <= Lefts(rules)
  {
    forall x | x in NullableSeed(rules)
      ensures x in Lefts(rules)
    {
      NullableSeedMembers(rules, x);
    }
  }

  /** Adding the left side of a rule with a symbol already in the set keeps it inside every closed superset of the seed. */
  lemma AddLeftStaysBelow(rules: seq<Rule>, seed: set<Symbol>, n: set<Symbol>, k: nat)
    requires 1 <= k < |rules| && AnyIn(rules[k].right, n) && BelowEveryClosed(rules, seed, n)
    ensures BelowEveryClosed(rules, seed, n + {rules[k].left})
  {
  }

  /**
   * After a pass: a pass that kept the size found a closed set; one that changed it grew the set
   * strictly.
   */
  lemma PassEnd(rules: seq<Rule>, before: set<Symbol>, after: set<Symbol>, prevSize: nat)
    requires before <= after <= Lefts(rules) && |before| == prevSize
    requires PassCovers(rules, before, after, |rules|)
    ensures |after| == prevSize ==> AnyClosed(rules, after)
    ensures |after| != prevSize ==> Lefts(rules) - after < Lefts(rules) - before
  {
    SubsetCard(before, after);
    if |after| == prevSize {
      SubsetSameCardEqual(before, after);
    } else {
      assert |after - before| > 0 by {
        assert after == before + (after - before);
        assert before * (after - before) == {};
      }
      var x :| x in after - before;
      assert x in (Lefts(rules) - before) - (Lefts(rules) - after);
    }
  }
}
