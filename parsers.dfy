/**
 * The LR(0) and SLR(1) parsers of `lexion_lib`: both build the canonical LR(0) collection from the
 * item `S' -> • S` and hand `from_collection` a reduce-lookahead function; they differ only in it.
 */
module LrParsers {
  import opened Wrappers
  import opened Symbols
  import opened GrammarRules
  import opened GrammarModel
  import opened Lr0Items
  import opened Collection
  import opened ParseTable

  /** Item (0, 0): the augmented rule with the dot at the start. */
  const INITIAL: Item := Item(0, 0)

  lemma StatesOkValid(rules: seq<Rule>, states: seq<GraphState>)
    requires StatesOk(rules, states)
    ensures StatesValid(rules, states)
  {
  }

  // ---- LR(0) ----

  /** The LR(0) lookahead: the whole terminal set, `$` included, whatever the item and state. */
  function Lr0Lookahead(g: Grammar): Lookahead {
    (it: Item, st: GraphState, i: nat) => g.terminals
  }

  /** `GrammarParserLR0::from_grammar`: the collection of item (0, 0) and its table. */
  method Lr0FromGrammar(g: Grammar) returns (states: seq<GraphState>, edges: map<nat, seq<GraphEdge>>, t: ParseTableLR)
    requires |g.rules| > 0
    ensures |states| > 0 && states[0] == GraphState(Closure(g.rules, {INITIAL}), true)
    ensures StatesOk(g.rules, states) && EdgesOk(g.rules, states, edges)
    ensures fresh(t) && t.numStates == |states|
    ensures StatesValid(g.rules, states)
    ensures forall i, x :: CellOk(g.rules, g.startSymbol, states, edges, Lr0Lookahead(g), i, x, t.GetAction(i, x))
    ensures (forall x :: x in g.terminals ==> IsTerminal(x)) ==> TableWellFormed(t.table)
  {
    states, edges := BuildCollection(g.rules, INITIAL);
    StatesOkValid(g.rules, states);
    t := FromCollection(g.rules, g.startSymbol, states, edges, Lr0Lookahead(g));
    if forall x :: x in g.terminals ==> IsTerminal(x) {
      forall i, x
        ensures CellOk(g.rules, g.startSymbol, states, edges, Lr0Lookahead(g), i, x, CellOf(t.table, i, x))
      {
        assert t.GetAction(i, x) == CellOf(t.table, i, x);
      }
      FromCollectionWellFormed(g.rules, g.startSymbol, states, edges, Lr0Lookahead(g), t.table);
    }
  }

  /**
   * In the LR(0) table a final, non-accepting state reduces on every terminal that no edge of the
   * state is labelled with, by the rule of its greatest final item.
   */
  lemma Lr0ReducesOnEveryTerminal(g: Grammar, states: seq<GraphState>, edges: map<nat, seq<GraphEdge>>,
                                  i: nat, x: Symbol, a: Action)
    requires StatesValid(g.rules, states) && i < |states|
    requires CellOk(g.rules, g.startSymbol, states, edges, Lr0Lookahead(g), i, x, a)
    requires !StateIsAccept(g.rules, g.startSymbol, states[i]) && StateIsFinal(g.rules, states[i])
    requires x in g.terminals && !HasEdge(edges, i, x)
    ensures exists w :: w in states[i].items && IsFinal(g.rules, w) && a == Reduce(w.rule) &&
                        forall o :: o in states[i].items && IsFinal(g.rules, o) ==> ItemLe(o, w)
  {
    var es := EdgesFrom(edges, i);
    LastEdgeOnFacts(es, x);
    assert LastEdgeOn(es, x).None?;
    var st := states[i];
    var la := Lr0Lookahead(g);
    assert ReduceCellOk(g.rules, st.items, st, i, la, x, a);
    var f :| f in st.items && IsFinal(g.rules, f);
    assert x in la(f, st, i);
    var w :| ReduceWinner(g.rules, st.items, st, i, la, x, w) && a == Reduce(w.rule);
  }

  // ---- SLR(1) ----

  /** FOLLOW of a symbol, an absent entry read as empty. */
  function FollowOrEmpty(g: Grammar, s: Symbol): set<Symbol> {
    FollowOf(g, s).UnwrapOr({})
  }

  /** The SLR(1) lookahead: FOLLOW of the left side of the item's rule. */
  function SlrLookahead(g: Grammar): Lookahead {
    (it: Item, st: GraphState, i: nat) => if it.rule < |g.rules| then FollowOrEmpty(g, g.rules[it.rule].left) else {}
  }

  /** The one conflict resolution `from_grammar` applies: state 114 reduces by rule 96 on `','`. */
  const OVERRIDE_STATE: nat := 114
  const OVERRIDE_SYMBOL: Symbol := "','"
  const OVERRIDE_ACTION: Action := Reduce(96)

  /** `GrammarParserSLR1::from_grammar`: the table of the FOLLOW lookahead, then the override. */
  method Slr1FromGrammar(g: Grammar) returns (states: seq<GraphState>, edges: map<nat, seq<GraphEdge>>, t: ParseTableLR)
    requires |g.rules| > 0
    ensures |states| > 0 && states[0] == GraphState(Closure(g.rules, {INITIAL}), true)
    ensures StatesOk(g.rules, states) && EdgesOk(g.rules, states, edges)
    ensures fresh(t) && t.numStates == |states|
    ensures StatesValid(g.rules, states)
    ensures forall i, x :: (i != OVERRIDE_STATE || x != OVERRIDE_SYMBOL) ==>
              CellOk(g.rules, g.startSymbol, states, edges, SlrLookahead(g), i, x, t.GetAction(i, x))
    ensures t.GetAction(OVERRIDE_STATE, OVERRIDE_SYMBOL) == OVERRIDE_ACTION
    ensures FollowTerminals(g) ==> TableWellFormed(t.table)
  {
    states, edges := BuildCollection(g.rules, INITIAL);
    StatesOkValid(g.rules, states);
    t := FromCollection(g.rules, g.startSymbol, states, edges, SlrLookahead(g));
    ghost var before := t.table;
    if FollowTerminals(g) {
      forall it: Item, st: GraphState, i: nat, y: Symbol | y in SlrLookahead(g)(it, st, i)
        ensures IsTerminal(y)
      {
      }
      forall i, x
        ensures CellOk(g.rules, g.startSymbol, states, edges, SlrLookahead(g), i, x, CellOf(t.table, i, x))
      {
        assert t.GetAction(i, x) == CellOf(t.table, i, x);
      }
      FromCollectionWellFormed(g.rules, g.startSymbol, states, edges, SlrLookahead(g), t.table);
    }
    t.InsertEntry(OVERRIDE_STATE, OVERRIDE_SYMBOL, OVERRIDE_ACTION);
    if FollowTerminals(g) {
      forall i, x
        ensures CellWellFormed(CellOf(t.table, i, x), x)
      {
        assert t.GetAction(i, x) == CellOf(t.table, i, x);
        if i != OVERRIDE_STATE || x != OVERRIDE_SYMBOL {
          assert CellOf(t.table, i, x) == CellOf(before, i, x);
        }
      }
    }
  }

  /** In the SLR(1) table before the override, a cell reducing by rule r lies on a symbol of FOLLOW(left(r)). */
  lemma SlrReduceInFollow(g: Grammar, states: seq<GraphState>, edges: map<nat, seq<GraphEdge>>,
                          i: nat, x: Symbol, r: nat)
    requires StatesValid(g.rules, states)
    requires CellOk(g.rules, g.startSymbol, states, edges, SlrLookahead(g), i, x, Reduce(r))
    ensures r < |g.rules| && x in FollowOrEmpty(g, g.rules[r].left)
  {
    var st := states[i];
    var la := SlrLookahead(g);
    if StateIsAccept(g.rules, g.startSymbol, st) {
      assert false;
    }
    assert ReduceCellOk(g.rules, st.items, st, i, la, x, Reduce(r));
    var w :| ReduceWinner(g.rules, st.items, st, i, la, x, w) && Reduce(r) == Reduce(w.rule);
    assert w.rule < |g.rules|;
  }

  /** Of a constructed grammar, no SLR(1) reduce cell lies on epsilon. */
  lemma SlrNoEpsilonReduce(input: seq<Rule>, g: Grammar, states: seq<GraphState>, edges: map<nat, seq<GraphEdge>>,
                           i: nat, x: Symbol, r: nat)
    requires AcceptableRules(input) && BuiltFrom(input, g)
    requires StatesValid(g.rules, states)
    requires CellOk(g.rules, g.startSymbol, states, edges, SlrLookahead(g), i, x, Reduce(r))
    ensures x != EPSILON
  {
    SlrReduceInFollow(g, states, edges, i, x, r);
    FollowBasics(input, g);
  }
}
