/**
 * `GrammarParserLL1` of the older crate: an LL(1) parse table built from a grammar of
 * `LegacyGrammars`. For every rule, in order, and every symbol of the FIRST set of its first
 * right-hand symbol (epsilon included), the cell for the rule's left side and that symbol is set to
 * the rule, overwriting what an earlier rule put there. The `is_ll1` flag is cleared only when a
 * freshly created row already holds the symbol, which cannot happen, so it stays set. Cells hold
 * the rule's index in the grammar's rules, where the source holds a reference to the rule.
 */
module LL1Parsers {
  import opened Wrappers
  import opened Symbols
  import opened GrammarRules
  import opened FirstSets
  import opened LegacyFirstSets
  import opened LegacyFollowSets
  import opened LegacyGrammars

  /** For a nonterminal and a lookahead symbol, the index of the rule to expand. */
  type ParseTable = map<Symbol, map<Symbol, nat>>

  /**
   * Building the row entries of `rule` panics: it has an empty right side, its first symbol has no
   * FIRST entry, or it is `A -> $` and `A` has no FOLLOW entry.
   */
  predicate Unbuildable(g: LegacyGrammar, rule: Rule) {
    |rule.right| == 0 || rule.right[0] !in g.firstSets || (rule.right == [EOF] && rule.left !in g.followSets)
  }

  /** No rule among the first `n` panics. */
  predicate BuildableUpTo(g: LegacyGrammar, n: nat) {
    n <= |g.rules| && forall k :: 0 <= k < n ==> !Unbuildable(g, g.rules[k])
  }

  /** `HashMap::insert`'s previous value: the entry already under the key, if any. */
  function Get(row: map<Symbol, nat>, x: Symbol): (r: Option<nat>)
    ensures r.Some? <==> x in row
  {
    if x in row then Some(row[x]) else None
  }

  /** The FIRST set of the first right-hand symbol of rule `k`: the lookaheads it is entered under. */
  function Lookaheads(g: LegacyGrammar, k: nat): set<Symbol>
    requires k < |g.rules| && !Unbuildable(g, g.rules[k])
  {
    g.firstSets[g.rules[k].right[0]]
  }

  /** The table `t` with the cells of row `a` under `keys` set to `k`; no row is created for no keys. */
  function Enter(t: ParseTable, a: Symbol, keys: set<Symbol>, k: nat): ParseTable {
    if keys == {} then t
    else t[a := (if a in t then t[a] else map[]) + map x | x in keys :: k]
  }

  /** Entering one more key is one more cell update, creating the row if needed. */
  lemma EnterOneMore(t: ParseTable, a: Symbol, keys: set<Symbol>, x: Symbol, k: nat)
    ensures var u := Enter(t, a, keys, k);
      Enter(t, a, keys + {x}, k) == u[a := (if a in u then u[a] else map[])[x := k]]
  {
    var u := Enter(t, a, keys, k);
    var base := if a in t then t[a] else map[];
    assert (if a in u then u[a] else map[]) == base + map y | y in keys :: k;
    assert base + (map y | y in keys + {x} :: k) == (base + map y | y in keys :: k)[x := k];
  }

  /** The cells `Enter` sets and keeps: the keys of its row, and every other cell as it was. */
  lemma EnterCells(t: ParseTable, b: Symbol, keys: set<Symbol>, k: nat, a: Symbol, x: Symbol)
    ensures var u := Enter(t, b, keys, k);
      (a in u <==> a in t || (a == b && keys != {})) &&
      (a in u && a != b ==> u[a] == t[a]) &&
      (a in u && a == b ==> (x in u[a] <==> x in keys || (a in t && x in t[a])) &&
                            (x in keys ==> u[a][x] == k) &&
                            (x !in keys && a in t && x in t[a] ==> u[a][x] == t[a][x]) &&
                            (keys != {} ==> u[a] != map[]) &&
                            (a in t ==> t[a].Keys <= u[a].Keys))
  {
    if a == b && keys != {} {
      var y :| y in keys;
      assert y in Enter(t, b, keys, k)[a];
    }
  }

  /** The table after rules 0..n-1 have been entered. */
  function TableAfter(g: LegacyGrammar, n: nat): ParseTable
    requires BuildableUpTo(g, n)
  {
    if n == 0 then map[] else Enter(TableAfter(g, n - 1), g.rules[n - 1].left, Lookaheads(g, n - 1), n - 1)
  }

  /**
   * The cells of the table: a cell is set exactly when some entered rule of the nonterminal has the
   * lookahead in its FIRST set, and it holds the last such rule. A row exists only with a cell in it.
   */
  lemma {:induction false} TableCells(g: LegacyGrammar, n: nat, a: Symbol, x: Symbol)
    requires BuildableUpTo(g, n)
    ensures a in TableAfter(g, n) ==> TableAfter(g, n)[a] != map[]
    ensures (a in TableAfter(g, n) && x in TableAfter(g, n)[a]) <==>
      exists k :: 0 <= k < n && g.rules[k].left == a && x in Lookaheads(g, k)
    ensures a in TableAfter(g, n) && x in TableAfter(g, n)[a] ==>
      var k := TableAfter(g, n)[a][x];
      k < n && g.rules[k].left == a && x in Lookaheads(g, k) &&
      forall j :: k < j < n && g.rules[j].left == a ==> x !in Lookaheads(g, j)
    decreases n
  {
    if n > 0 {
      TableCells(g, n - 1, a, x);
      var t := TableAfter(g, n - 1);
      var f := Lookaheads(g, n - 1);
      var b := g.rules[n - 1].left;
      EnterCells(t, b, f, n - 1, a, x);
      CellsStep(g, n, t, TableAfter(g, n), a, x);
    }
  }

  /** `TableCells` for one table `t` of the first `n` rules. */
  ghost predicate Cells(g: LegacyGrammar, n: nat, t: ParseTable, a: Symbol, x: Symbol)
    requires BuildableUpTo(g, n)
  {
    (a in t ==> t[a] != map[]) &&
    ((a in t && x in t[a]) <==> exists k :: 0 <= k < n && g.rules[k].left == a && x in Lookaheads(g, k)) &&
    (a in t && x in t[a] ==>
       t[a][x] < n && g.rules[t[a][x]].left == a && x in Lookaheads(g, t[a][x]) &&
       forall j :: t[a][x] < j < n && g.rules[j].left == a ==> x !in Lookaheads(g, j))
  }

  /** Entering rule `n - 1` into a table of the first `n - 1` rules gives a table of the first `n`. */
  lemma CellsStep(g: LegacyGrammar, n: nat, t: ParseTable, u: ParseTable, a: Symbol, x: Symbol)
    requires BuildableUpTo(g, n) && n > 0 && Cells(g, n - 1, t, a, x)
    requires var b, f := g.rules[n - 1].left, Lookaheads(g, n - 1);
      (a in u <==> a in t || (a == b && f != {})) &&
      (a in u && a != b ==> u[a] == t[a]) &&
      (a in u && a == b ==> (x in u[a] <==> x in f || (a in t && x in t[a])) &&
                            (x in f ==> u[a][x] == n - 1) &&
                            (x !in f && a in t && x in t[a] ==> u[a][x] == t[a][x]) &&
                            (f != {} ==> u[a] != map[]) &&
                            (a in t ==> t[a].Keys <= u[a].Keys))
    ensures Cells(g, n, u, a, x)
  {
    SomeRuleStep(g, n, a, x);
    var b, f := g.rules[n - 1].left, Lookaheads(g, n - 1);
    if a in u && x in u[a] {
      var k := u[a][x];
      if a == b && x in f {
        assert k == n - 1;
      } else {
        assert a in t && x in t[a] && k == t[a][x];
        forall j | k < j < n && g.rules[j].left == a
          ensures x !in Lookaheads(g, j)
        {
          if j == n - 1 {
            assert a == b && x !in f;
          }
        }
      }
    }
  }

  /** One rule more among those with `x` in the FIRST set of a rule of `a`. */
  lemma SomeRuleStep(g: LegacyGrammar, n: nat, a: Symbol, x: Symbol)
    requires BuildableUpTo(g, n) && n > 0
    ensures (exists k :: 0 <= k < n && g.rules[k].left == a && x in Lookaheads(g, k)) <==>
            (exists k :: 0 <= k < n - 1 && g.rules[k].left == a && x in Lookaheads(g, k)) ||
            (g.rules[n - 1].left == a && x in Lookaheads(g, n - 1))
  {
    if exists k :: 0 <= k < n && g.rules[k].left == a && x in Lookaheads(g, k) {
      var k :| 0 <= k < n && g.rules[k].left == a && x in Lookaheads(g, k);
      if k < n - 1 {
        assert exists k :: 0 <= k < n - 1 && g.rules[k].left == a && x in Lookaheads(g, k);
      }
    }
  }

  class GrammarParserLL1 {
    var isLL1: bool
    var parseTable: ParseTable

    constructor ()
      ensures isLL1 && parseTable == map[]
    {
      isLL1 := true;
      parseTable := map[];
    }

    function IsLL1(): bool
      reads this
    {
      isLL1
    }

    /**
     * `build_parse_table`: `false`, a panic, when some rule cannot be entered; otherwise the table
     * of `TableAfter`. The flag is never cleared.
     */
    method BuildParseTable(g: LegacyGrammar) returns (ok: bool)
      requires parseTable == map[]
      modifies this
      ensures ok <==> BuildableUpTo(g, |g.rules|)
      ensures ok ==> parseTable == TableAfter(g, |g.rules|)
      ensures isLL1 == old(isLL1)
    {
      for k := 0 to |g.rules|
        invariant BuildableUpTo(g, k) && parseTable == TableAfter(g, k) && isLL1 == old(isLL1)
      {
        var rule := g.rules[k];
        if |rule.right| == 0 || rule.right[0] !in g.firstSets {
          return false;
        }
        var symbolSet := g.firstSets[rule.right[0]] - {EPSILON};
        if rule.right == [EOF] {
          if rule.left !in g.followSets {
            return false;
          }
          symbolSet := symbolSet + g.followSets[rule.left];
        }
        EnterRule(g, k);
      }
      return true;
    }

    /** The cells of rule `k`, one lookahead at a time in an arbitrary order. */
    method EnterRule(g: LegacyGrammar, k: nat)
      requires BuildableUpTo(g, k) && k < |g.rules| && !Unbuildable(g, g.rules[k]) && parseTable == TableAfter(g, k)
      modifies this
      ensures parseTable == TableAfter(g, k + 1) && isLL1 == old(isLL1)
    {
      var rule := g.rules[k];
      var a := rule.left;
      var lookaheads := g.firstSets[rule.right[0]];
      ghost var t0 := parseTable;
      var todo := lookaheads;
      while todo != {}
        invariant todo <= lookaheads && isLL1 == old(isLL1)
        invariant parseTable == Enter(t0, a, lookaheads - todo, k)
        decreases todo
      {
        var terminal :| terminal in todo;
        EnterOneMore(t0, a, lookaheads - todo, terminal, k);
        assert (lookaheads - todo) + {terminal} == lookaheads - (todo - {terminal});
        if a in parseTable {
          var row: map<Symbol, nat> := parseTable[a];
          parseTable := parseTable[a := row[terminal := k]];
        } else {
          var row: map<Symbol, nat> := map[];
          var prev := Get(row, terminal);
          row := row[terminal := k];
          isLL1 := isLL1 && prev.None?;
          parseTable := parseTable[a := row];
        }
        todo := todo - {terminal};
      }
      assert lookaheads - todo == lookaheads;
    }
  }

  /**
   * `from_grammar`: a fresh parser with the flag set, then the table; `None` for a panic. For a
   * grammar that construction returned, building never panics, and `is_ll1` is true whatever the
   * grammar.
   */
  method FromGrammar(g: LegacyGrammar) returns (p: Option<GrammarParserLL1>)
    ensures p.Some? <==> BuildableUpTo(g, |g.rules|)
    ensures p.Some? ==> fresh(p.value) && p.value.IsLL1() && p.value.parseTable == TableAfter(g, |g.rules|)
  {
    var parser := new GrammarParserLL1();
    var ok := parser.BuildParseTable(g);
    if !ok {
      return None;
    }
    return Some(parser);
  }

  /** A grammar that construction returned has every rule buildable. */
  lemma BuiltGrammarsBuild(input: seq<Rule>, g: LegacyGrammar)
    requires BuiltFrom(input, g)
    ensures BuildableUpTo(g, |g.rules|)
  {
    SymbolsShape(g.rules);
    forall k | 0 <= k < |g.rules|
      ensures !Unbuildable(g, g.rules[k])
    {
      var rule := g.rules[k];
      assert NullablePrefix(g.firstSets, rule.right) < |rule.right|;
      assert rule.right[0] in g.symbols;
      assert rule.left in g.nonTerminals;
    }
  }

  /**
   * Two rules of one nonterminal whose first symbols share a lookahead are an LL(1) conflict, yet
   * the table keeps only the later rule for it and the flag stays set.
   */
  lemma EarlierRuleOverwritten(g: LegacyGrammar, n: nat, i: nat, j: nat, x: Symbol)
    requires BuildableUpTo(g, n) && i < j < n && g.rules[i].left == g.rules[j].left
    requires x in Lookaheads(g, i) && x in Lookaheads(g, j)
    ensures var a := g.rules[i].left;
      a in TableAfter(g, n) && x in TableAfter(g, n)[a] && TableAfter(g, n)[a][x] != i
  {
    TableCells(g, n, g.rules[i].left, x);
  }
}
