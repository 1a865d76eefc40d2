/**
 * The LR action table (`ParseTableLR`): one cell per (state, symbol), written by
 * `from_collection` from a canonical collection and a reduce-lookahead function, read by the parse
 * engine through `get_action`, where a cell never written reads as `Reject`.
 */
module ParseTable {
  import opened Wrappers
  import opened Symbols
  import opened GrammarRules
  import opened Strings
  import opened SeqFacts
  import opened Lr0Items
  import opened Collection
  import opened SetFacts

  datatype Action = Shift(to: nat) | Goto(to: nat) | Reduce(rule: nat) | Accept | Reject

  /** The `Display` strings: `s<i>`, `<i>`, `r<i>`, `acc`, and nothing for `Reject`. */
  function ActionString(a: Action): string {
    match a
    case Shift(i) => "s" + NatToString(i)
    case Goto(i) => NatToString(i)
    case Reduce(i) => "r" + NatToString(i)
    case Accept => "acc"
    case Reject => ""
  }

  /** Reading a table cell's text back. */
  function ParseActionString(s: string): Option<Action> {
    if s == "" then Some(Reject)
    else if s == "acc" then Some(Accept)
    else if s[0] == 's' && AllDigits(s[1..]) && |s| >= 2 then Some(Shift(DigitsToNat(s[1..])))
    else if s[0] == 'r' && AllDigits(s[1..]) && |s| >= 2 then Some(Reduce(DigitsToNat(s[1..])))
    else if AllDigits(s) then Some(Goto(DigitsToNat(s)))
    else None
  }

  /** Every action can be read back from its text, so no two actions print the same. */
  lemma ActionStringRoundTrip(a: Action)
    ensures ParseActionString(ActionString(a)) == Some(a)
  {
    match a
    case Shift(i) =>
      NatToStringRoundTrip(i);
      assert ActionString(a)[1..] == NatToString(i);
    case Goto(i) =>
      NatToStringRoundTrip(i);
      assert IsDigit(NatToString(i)[0]);
    case Reduce(i) =>
      NatToStringRoundTrip(i);
      assert ActionString(a)[1..] == NatToString(i);
    case Accept =>
    case Reject =>
  }

  lemma ActionStringInjective(a: Action, b: Action)
    requires ActionString(a) == ActionString(b)
    ensures a == b
  {
    ActionStringRoundTrip(a);
    ActionStringRoundTrip(b);
  }

  type Table = map<Symbol, map<nat, Action>>

  /** A cell's content; a cell never written reads as `Reject`. */
  function CellOf(t: Table, state: nat, symbol: Symbol): Action {
    if symbol in t && state in t[symbol] then t[symbol][state] else Reject
  }

  /** `Goto` only on a nonterminal column; `Shift`, `Reduce` and `Accept` only on terminal ones. */
  predicate CellWellFormed(a: Action, x: Symbol) {
    (a.Goto? ==> IsNonTerminal(x)) && (a.Shift? || a.Reduce? || a.Accept? ==> IsTerminal(x))
  }

  class ParseTableLR {
    var table: Table
    var numStates: nat

    constructor (numStates: nat)
      ensures table == map[] && this.numStates == numStates
    {
      table := map[];
      this.numStates := numStates;
    }

    /** `get_action`: the action written in the cell, `Reject` for a cell never written. */
    function GetAction(state: nat, symbol: Symbol): Action
      reads this
    {
      CellOf(table, state, symbol)
    }

    /** `insert_entry`: sets the one cell, overwriting what was there. */
    method InsertEntry(state: nat, symbol: Symbol, action: Action)
      modifies this
      ensures numStates == old(numStates)
      ensures table.Keys == old(table.Keys) + {symbol}
      ensures GetAction(state, symbol) == action
      ensures forall s, y :: (s != state || y != symbol) ==> GetAction(s, y) == old(GetAction(s, y))
    {
      var cell: map<nat, Action> := if symbol in table then table[symbol] else map[];
      cell := cell[state := action];
      table := table[symbol := cell];
    }
  }

  /** The reduce-lookahead function of `from_collection`: an item, its state and the state id. */
  type Lookahead = (Item, GraphState, nat) -> set<Symbol>

  function EdgeAction(e: GraphEdge): Action {
    if IsTerminal(e.symbol) then Shift(e.to) else Goto(e.to)
  }

  /** The last edge of the list labelled x: the one whose write into the cell comes last. */
  function LastEdgeOn(es: seq<GraphEdge>, x: Symbol): Option<GraphEdge> {
    if |es| == 0 then None
    else if es[|es| - 1].symbol == x then Some(es[|es| - 1])
    else LastEdgeOn(es[..|es| - 1], x)
  }

  /** `LastEdgeOn` finds an edge exactly when one is labelled x, and nothing after it is. */
  lemma {:induction false} LastEdgeOnFacts(es: seq<GraphEdge>, x: Symbol)
    ensures LastEdgeOn(es, x).None? <==> forall j :: 0 <= j < |es| ==> es[j].symbol != x
    ensures LastEdgeOn(es, x).Some? ==>
              exists j :: 0 <= j < |es| && es[j] == LastEdgeOn(es, x).value && es[j].symbol == x &&
                          forall k :: j < k < |es| ==> es[k].symbol != x
  {
    if |es| > 0 && es[|es| - 1].symbol == x {
      assert es[|es| - 1] == LastEdgeOn(es, x).value;
    } else if |es| > 0 {
      var front := es[..|es| - 1];
      LastEdgeOnFacts(front, x);
      assert LastEdgeOn(es, x) == LastEdgeOn(front, x);
      if LastEdgeOn(front, x).Some? {
        var j :| 0 <= j < |front| && front[j] == LastEdgeOn(front, x).value && front[j].symbol == x &&
                 forall k :: j < k < |front| ==> front[k].symbol != x;
        assert es[j] == front[j];
        forall k | j < k < |es|
          ensures es[k].symbol != x
        {
          if k < |front| {
            assert es[k] == front[k];
          }
        }
      } else {
        forall j | 0 <= j < |es|
          ensures es[j].symbol != x
        {
          if j < |front| {
            assert es[j] == front[j];
          }
        }
      }
    }
  }

  predicate StatesValid(rules: seq<Rule>, states: seq<GraphState>) {
    forall i :: 0 <= i < |states| ==> ValidItems(rules, states[i].items)
  }

  /**
   * Among the final items of `items` whose lookahead holds x, w is the greatest in item order:
   * the one written last, as the final items are visited in `BTreeSet` order.
   */
  ghost predicate ReduceWinner(rules: seq<Rule>, items: set<Item>, st: GraphState, i: nat, la: Lookahead, x: Symbol, w: Item)
    requires ValidItems(rules, items)
  {
    w in items && IsFinal(rules, w) && x in la(w, st, i) &&
    forall o :: o in items && IsFinal(rules, o) && x in la(o, st, i) ==> ItemLe(o, w)
  }

  /** There is at most one winner. */
  lemma ReduceWinnerUnique(rules: seq<Rule>, items: set<Item>, st: GraphState, i: nat, la: Lookahead, x: Symbol, v: Item, w: Item)
    requires ValidItems(rules, items)
    requires ReduceWinner(rules, items, st, i, la, x, v) && ReduceWinner(rules, items, st, i, la, x, w)
    ensures v == w
  {
  }

  /** The reduce writes leave `Reduce` of the winner's rule, or nothing when no final item looks ahead on x. */
  ghost predicate ReduceCellOk(rules: seq<Rule>, items: set<Item>, st: GraphState, i: nat, la: Lookahead, x: Symbol, a: Action)
    requires ValidItems(rules, items)
  {
    (exists w :: ReduceWinner(rules, items, st, i, la, x, w) && a == Reduce(w.rule)) ||
    ((forall o :: o in items && IsFinal(rules, o) ==> x !in la(o, st, i)) && a == Reject)
  }

  /**
   * A cell of state i before the edges are written: an accepting state has only `Accept` on `$`;
   * another final state has its reduce writes; any other state has nothing.
   */
  ghost predicate BaseCellOk(rules: seq<Rule>, start: Symbol, st: GraphState, i: nat, la: Lookahead, x: Symbol, a: Action)
    requires ValidItems(rules, st.items)
  {
    if StateIsAccept(rules, start, st) then a == (if x == EOF then Accept else Reject)
    else if StateIsFinal(rules, st) then ReduceCellOk(rules, st.items, st, i, la, x, a)
    else a == Reject
  }

  /**
   * What `from_collection` leaves in cell (i, x): the action of the last edge from i labelled x
   * (`Shift` on a terminal, `Goto` otherwise) when there is one, else the cell before the edges;
   * a cell of no state is empty.
   */
  ghost predicate CellOk(rules: seq<Rule>, start: Symbol, states: seq<GraphState>, edges: map<nat, seq<GraphEdge>>,
                         la: Lookahead, i: nat, x: Symbol, a: Action)
    requires StatesValid(rules, states)
  {
    if i >= |states| then a == Reject
    else EdgeCellOk(rules, start, states[i], i, la, EdgesFrom(edges, i), x, a)
  }

  /** A cell of state i once the edges `es` are written. */
  ghost predicate EdgeCellOk(rules: seq<Rule>, start: Symbol, st: GraphState, i: nat, la: Lookahead,
                             es: seq<GraphEdge>, x: Symbol, a: Action)
    requires ValidItems(rules, st.items)
  {
    match LastEdgeOn(es, x)
    case Some(e) => a == EdgeAction(e)
    case None => BaseCellOk(rules, start, st, i, la, x, a)
  }

  /** Every cell of the table is well formed for its column. */
  ghost predicate TableWellFormed(tab: Table) {
    forall i, x :: CellWellFormed(CellOf(tab, i, x), x)
  }

  /** A lookahead function that only ever offers terminals. */
  ghost predicate TerminalLookahead(la: Lookahead) {
    forall it, st, i, y :: y in la(it, st, i) ==> IsTerminal(y)
  }

  /**
   * With a terminal-only lookahead, a cell of `from_collection` is well formed: edges write `Shift`
   * on terminals and `Goto` on the rest, `Accept` sits on `$`, and reduces on lookahead terminals.
   */
  lemma CellOkWellFormed(rules: seq<Rule>, start: Symbol, states: seq<GraphState>, edges: map<nat, seq<GraphEdge>>,
                         la: Lookahead, i: nat, x: Symbol, a: Action)
    requires StatesValid(rules, states) && TerminalLookahead(la)
    requires CellOk(rules, start, states, edges, la, i, x, a)
    ensures CellWellFormed(a, x)
  {
    if i < |states| {
      var es := EdgesFrom(edges, i);
      LastEdgeOnFacts(es, x);
      var st := states[i];
      if LastEdgeOn(es, x).None? && !StateIsAccept(rules, start, st) && StateIsFinal(rules, st) && a.Reduce? {
        var w :| ReduceWinner(rules, st.items, st, i, la, x, w) && a == Reduce(w.rule);
        assert x in la(w, st, i);
      }
    }
  }

  /** The whole table of `from_collection` is well formed, with a terminal-only lookahead. */
  lemma FromCollectionWellFormed(rules: seq<Rule>, start: Symbol, states: seq<GraphState>, edges: map<nat, seq<GraphEdge>>,
                                 la: Lookahead, tab: Table)
    requires StatesValid(rules, states) && TerminalLookahead(la)
    requires forall i, x :: CellOk(rules, start, states, edges, la, i, x, CellOf(tab, i, x))
    ensures TableWellFormed(tab)
  {
    forall i, x
      ensures CellWellFormed(CellOf(tab, i, x), x)
    {
      CellOkWellFormed(rules, start, states, edges, la, i, x, CellOf(tab, i, x));
    }
  }

  /**
   * `from_collection`: every state (in an arbitrary order, as writes of different states never
   * meet) gets `Accept` on `$` if it is accepting, else, if it is final, `Reduce` of each final
   * item on each terminal of its lookahead; then the edges leaving it write `Shift` or `Goto`.
   */
  method FromCollection(rules: seq<Rule>, start: Symbol, states: seq<GraphState>, edges: map<nat, seq<GraphEdge>>,
                        la: Lookahead) returns (t: ParseTableLR)
    requires StatesValid(rules, states)
    ensures fresh(t) && t.numStates == |states|
    ensures forall i, x :: CellOk(rules, start, states, edges, la, i, x, t.GetAction(i, x))
  {
    t := new ParseTableLR(|states|);
    var todo := Range(|states|);
    while todo != {}
      invariant forall i :: i in todo ==> i < |states|
      invariant t.numStates == |states|
      invariant forall i, x :: i !in todo ==> CellOk(rules, start, states, edges, la, i, x, t.GetAction(i, x))
      invariant forall i, x :: i in todo ==> t.GetAction(i, x) == Reject
      decreases todo
    {
      var i :| i in todo;
      FillState(t, rules, start, states, edges, la, i);
      todo := todo - {i};
    }
  }

  /** The writes of one state. */
  method FillState(t: ParseTableLR, rules: seq<Rule>, start: Symbol, states: seq<GraphState>,
                   edges: map<nat, seq<GraphEdge>>, la: Lookahead, i: nat)
    requires StatesValid(rules, states) && i < |states|
    requires forall x :: t.GetAction(i, x) == Reject
    modifies t
    ensures t.numStates == old(t.numStates)
    ensures forall x :: CellOk(rules, start, states, edges, la, i, x, t.GetAction(i, x))
    ensures forall j, x :: j != i ==> t.GetAction(j, x) == old(t.GetAction(j, x))
  {
    FillBase(t, rules, start, states[i], la, i);
    FillEdges(t, rules, start, states[i], la, i, EdgesFrom(edges, i));
  }

  /** The accept or reduce writes of a state. */
  method FillBase(t: ParseTableLR, rules: seq<Rule>, start: Symbol, st: GraphState, la: Lookahead, i: nat)
    requires ValidItems(rules, st.items)
    requires forall x :: t.GetAction(i, x) == Reject
    modifies t
    ensures t.numStates == old(t.numStates)
    ensures forall x :: BaseCellOk(rules, start, st, i, la, x, t.GetAction(i, x))
    ensures forall j, x :: j != i ==> t.GetAction(j, x) == old(t.GetAction(j, x))
  {
    if exists it :: it in st.items && IsAccept(rules, start, it) {
      t.InsertEntry(i, EOF, Accept);
    } else if exists it :: it in st.items && IsFinal(rules, it) {
      FillReduces(t, rules, st, la, i);
    }
  }

  /** The edge writes of a state, in list order: a later edge on the same symbol overwrites. */
  method FillEdges(t: ParseTableLR, rules: seq<Rule>, start: Symbol, st: GraphState, la: Lookahead, i: nat,
                   es: seq<GraphEdge>)
    requires ValidItems(rules, st.items)
    requires forall x :: BaseCellOk(rules, start, st, i, la, x, t.GetAction(i, x))
    modifies t
    ensures t.numStates == old(t.numStates)
    ensures forall x :: EdgeCellOk(rules, start, st, i, la, es, x, t.GetAction(i, x))
    ensures forall j, x :: j != i ==> t.GetAction(j, x) == old(t.GetAction(j, x))
  {
    for j := 0 to |es|
      invariant t.numStates == old(t.numStates)
      invariant forall x :: EdgeCellOk(rules, start, st, i, la, es[..j], x, t.GetAction(i, x))
      invariant forall k, x :: k != i ==> t.GetAction(k, x) == old(t.GetAction(k, x))
    {
      t.InsertEntry(i, es[j].symbol, EdgeAction(es[j]));
      assert es[..j + 1][..j] == es[..j];
    }
    assert es[..|es|] == es;
  }

  /** The reduce writes of a final, non-accepting state: its final items in item order. */
  method FillReduces(t: ParseTableLR, rules: seq<Rule>, st: GraphState, la: Lookahead, i: nat)
    requires ValidItems(rules, st.items)
    requires forall x :: t.GetAction(i, x) == Reject
    modifies t
    ensures t.numStates == old(t.numStates)
    ensures forall x :: ReduceCellOk(rules, st.items, st, i, la, x, t.GetAction(i, x))
    ensures forall j, x :: j != i ==> t.GetAction(j, x) == old(t.GetAction(j, x))
  {
    var finals := set it | it in st.items && IsFinal(rules, it);
    var todo := finals;
    ghost var done: set<Item> := {};
    while todo != {}
      invariant todo <= finals && done <= finals && finals <= done + todo
      invariant forall d, o :: d in done && o in todo ==> ItemLe(d, o) && d != o
      invariant t.numStates == old(t.numStates)
      invariant forall x :: ReduceCellOk(rules, done, st, i, la, x, t.GetAction(i, x))
      invariant forall j, x :: j != i ==> t.GetAction(j, x) == old(t.GetAction(j, x))
      decreases todo
    {
      LeastItemExists(todo);
      var m :| m in todo && forall o :: o in todo ==> ItemLe(m, o);
      ghost var before := t.table;
      forall x
        ensures ReduceCellOk(rules, done, st, i, la, x, CellOf(before, i, x))
      {
        assert t.GetAction(i, x) == CellOf(before, i, x);
      }
      InsertReduces(t, i, la(m, st, i), m.rule);
      forall x
        ensures ReduceCellOk(rules, done + {m}, st, i, la, x, t.GetAction(i, x))
      {
        ReduceStep(rules, done, m, st, i, la, x, CellOf(before, i, x), t.GetAction(i, x));
      }
      todo := todo - {m};
      done := done + {m};
    }
    ReduceFinalsOnly(rules, done, st, i, la);
  }

  /** The writes of one final item: `Reduce(rule)` on each terminal of its lookahead, in any order. */
  method InsertReduces(t: ParseTableLR, i: nat, terms: set<Symbol>, rule: nat)
    modifies t
    ensures t.numStates == old(t.numStates)
    ensures forall x :: x in terms ==> t.GetAction(i, x) == Reduce(rule)
    ensures forall x :: x !in terms ==> t.GetAction(i, x) == old(t.GetAction(i, x))
    ensures forall j, x :: j != i ==> t.GetAction(j, x) == old(t.GetAction(j, x))
  {
    var todo := terms;
    while todo != {}
      invariant todo <= terms
      invariant t.numStates == old(t.numStates)
      invariant forall x :: x in terms - todo ==> t.GetAction(i, x) == Reduce(rule)
      invariant forall x :: x !in terms - todo ==> t.GetAction(i, x) == old(t.GetAction(i, x))
      invariant forall j, x :: j != i ==> t.GetAction(j, x) == old(t.GetAction(j, x))
      decreases todo
    {
      var x :| x in todo;
      t.InsertEntry(i, x, Reduce(rule));
      todo := todo - {x};
    }
  }

  /** Writing a greater final item's reduces keeps the "winner is written last" description. */
  lemma ReduceStep(rules: seq<Rule>, done: set<Item>, m: Item, st: GraphState, i: nat, la: Lookahead, x: Symbol,
                   before: Action, after: Action)
    requires ValidItems(rules, done + {m}) && IsFinal(rules, m)
    requires forall d :: d in done ==> ItemLe(d, m) && d != m
    requires ReduceCellOk(rules, done, st, i, la, x, before)
    requires after == (if x in la(m, st, i) then Reduce(m.rule) else before)
    ensures ReduceCellOk(rules, done + {m}, st, i, la, x, after)
  {
    if x in la(m, st, i) {
      assert ReduceWinner(rules, done + {m}, st, i, la, x, m);
    } else if exists w :: ReduceWinner(rules, done, st, i, la, x, w) && before == Reduce(w.rule) {
      var w :| ReduceWinner(rules, done, st, i, la, x, w) && before == Reduce(w.rule);
      assert ReduceWinner(rules, done + {m}, st, i, la, x, w);
    }
  }

  /** Only final items take part, so the final items stand for the whole state. */
  lemma ReduceFinalsOnly(rules: seq<Rule>, done: set<Item>, st: GraphState, i: nat, la: Lookahead)
    requires ValidItems(rules, st.items) && done == set it | it in st.items && IsFinal(rules, it)
    ensures forall x, a :: ReduceCellOk(rules, done, st, i, la, x, a) ==> ReduceCellOk(rules, st.items, st, i, la, x, a)
  {
    forall x, a | ReduceCellOk(rules, done, st, i, la, x, a)
      ensures ReduceCellOk(rules, st.items, st, i, la, x, a)
    {
      if w :| ReduceWinner(rules, done, st, i, la, x, w) && a == Reduce(w.rule) {
        assert ReduceWinner(rules, st.items, st, i, la, x, w);
      }
    }
  }

  // ---- column order of the printed table ----

  /** The printed column groups: quoted terminals 0, `$` 1, everything else 2. */
  function ColumnRank(s: Symbol): nat {
    if s == EOF then 1 else if IsTerminal(s) then 0 else 2
  }

  function RankIs(n: nat): Symbol -> bool {
    s => ColumnRank(s) == n
  }

  /** `to_prettytable`'s stable sort of the table's symbols (given in map iteration order) by rank. */
  function ColumnOrder(keys: seq<Symbol>): seq<Symbol> {
    Select(keys, RankIs(0)) + Select(keys, RankIs(1)) + Select(keys, RankIs(2))
  }

  /** Every symbol selected for a rank has that rank. */
  lemma SelectRank(keys: seq<Symbol>, n: nat, k: nat)
    requires k < |Select(keys, RankIs(n))|
    ensures ColumnRank(Select(keys, RankIs(n))[k]) == n
  {
    SelectMember(keys, RankIs(n), Select(keys, RankIs(n))[k]);
  }

  /** The column order is a rearrangement of the table's symbols. */
  lemma ColumnOrderPermutation(keys: seq<Symbol>)
    ensures multiset(ColumnOrder(keys)) == multiset(keys)
  {
    SelectPartition(keys, RankIs(0), RankIs(1), RankIs(2));
  }

  /** The column order is sorted by rank. */
  lemma ColumnOrderSorted(keys: seq<Symbol>)
    ensures forall i, j :: 0 <= i < j < |ColumnOrder(keys)| ==> ColumnRank(ColumnOrder(keys)[i]) <= ColumnRank(ColumnOrder(keys)[j])
  {
    var a, b, c := Select(keys, RankIs(0)), Select(keys, RankIs(1)), Select(keys, RankIs(2));
    var o := ColumnOrder(keys);
    assert o == a + b + c;
    forall i | 0 <= i < |o|
      ensures ColumnRank(o[i]) == (if i < |a| then 0 else if i < |a| + |b| then 1 else 2)
    {
      if i < |a| {
        assert o[i] == a[i];
        SelectRank(keys, 0, i);
      } else if i < |a| + |b| {
        assert o[i] == b[i - |a|];
        SelectRank(keys, 1, i - |a|);
      } else {
        assert o[i] == c[i - |a| - |b|];
        SelectRank(keys, 2, i - |a| - |b|);
      }
    }
  }
}
