/**
 * The canonical collection of LR(0) item sets (`CanonicalCollectionGraph::new`): states numbered
 * 0, 1, 2, … in the order a LIFO worklist discovers them, joined by edges labelled with the
 * symbol they move over. The bimap of states becomes a sequence indexed by state id, the edge map
 * a map from a state id to the edges leaving it in insertion order.
 */
module Collection {
  import opened Wrappers
  import opened Symbols
  import opened GrammarRules
  import opened SetFacts
  import opened Lr0Items

  /** A state: its items and whether they have been closed. Equality compares both. */
  datatype GraphState = GraphState(items: set<Item>, isClosured: bool)

  datatype GraphEdge = GraphEdge(from: nat, to: nat, symbol: Symbol)

  /** A worklist entry: the items of a candidate state, the state it was reached from, the symbol. */
  datatype StackEntry = StackEntry(items: set<Item>, prev: Option<GraphState>, symbol: Symbol)

  /** `GraphState::closure`: a closed state stays as it is; otherwise its items are closed and the flag is set. */
  method CloseState(rules: seq<Rule>, st: GraphState) returns (r: GraphState)
    requires ValidItems(rules, st.items)
    ensures st.isClosured ==> r == st
    ensures !st.isClosured ==> r == GraphState(Closure(rules, st.items), true)
  {
    if st.isClosured {
      return st;
    }
    var items := CloseItems(rules, st.items);
    r := GraphState(items, true);
  }

  /** `GraphState::is_final`: some item of the state is final. */
  predicate StateIsFinal(rules: seq<Rule>, st: GraphState)
    requires forall it :: it in st.items ==> it.rule < |rules|
  {
    exists it :: it in st.items && IsFinal(rules, it)
  }

  /** `GraphState::is_accept`: some item of the state is accepting. */
  predicate StateIsAccept(rules: seq<Rule>, start: Symbol, st: GraphState)
    requires forall it :: it in st.items ==> it.rule < |rules|
  {
    exists it :: it in st.items && IsAccept(rules, start, it)
  }

  /** An accepting state is final. */
  lemma AcceptStateIsFinal(rules: seq<Rule>, start: Symbol, st: GraphState)
    requires (forall it :: it in st.items ==> it.rule < |rules|) && StateIsAccept(rules, start, st)
    ensures StateIsFinal(rules, st)
  {
    var it :| it in st.items && IsAccept(rules, start, it);
    AcceptIsFinal(rules, start, it);
  }

  /** The symbols after the dot of the non-final items: the labels of the edges leaving the state. */
  function NextSymbols(rules: seq<Rule>, items: set<Item>): set<Symbol>
    requires ValidItems(rules, items)
  {
    set it | it in items && !IsFinal(rules, it) :: NextSymbol(rules, it)
  }

  /** The id of a state (`get_by_right`), if it is registered. */
  function IndexOf(states: seq<GraphState>, st: GraphState): (r: Option<nat>)
    ensures r.None? <==> st !in states
    ensures r.Some? ==> r.value < |states| && states[r.value] == st
  {
    if |states| == 0 then None
    else if states[|states| - 1] == st then Some(|states| - 1)
    else IndexOf(states[..|states| - 1], st)
  }

  function EdgesFrom(edges: map<nat, seq<GraphEdge>>, from: nat): seq<GraphEdge> {
    if from in edges then edges[from] else []
  }

  /** The edge is appended to the list of its source state, which is created when missing. */
  function AddEdge(edges: map<nat, seq<GraphEdge>>, e: GraphEdge): map<nat, seq<GraphEdge>> {
    edges[e.from := EdgesFrom(edges, e.from) + [e]]
  }

  predicate HasEdge(edges: map<nat, seq<GraphEdge>>, from: nat, x: Symbol) {
    exists j :: 0 <= j < |EdgesFrom(edges, from)| && EdgesFrom(edges, from)[j].symbol == x
  }

  // ---- what the builder maintains ----

  /** Every registered state is closed, flagged as such, made of valid items, and no two are equal. */
  ghost predicate StatesOk(rules: seq<Rule>, states: seq<GraphState>) {
    (forall i :: 0 <= i < |states| ==>
       states[i].isClosured && ValidItems(rules, states[i].items) && IsClosed(rules, states[i].items)) &&
    (forall i, j :: 0 <= i < j < |states| ==> states[i] != states[j])
  }

  /** An edge from state f joins registered states, is labelled by a next symbol of f, and leads to the closure of goto. */
  ghost predicate EdgeOk(rules: seq<Rule>, states: seq<GraphState>, f: nat, e: GraphEdge)
    requires StatesOk(rules, states)
  {
    e.from == f && f < |states| && e.to < |states| &&
    e.symbol in NextSymbols(rules, states[f].items) &&
    states[e.to].items == Closure(rules, Goto(rules, states[f].items, e.symbol))
  }

  ghost predicate EdgesOk(rules: seq<Rule>, states: seq<GraphState>, edges: map<nat, seq<GraphEdge>>)
    requires StatesOk(rules, states)
  {
    forall f :: f in edges ==> forall j :: 0 <= j < |edges[f]| ==> EdgeOk(rules, states, f, edges[f][j])
  }

  /** The entry was pushed by a registered state for one of its next symbols. */
  ghost predicate SuccessorEntry(rules: seq<Rule>, states: seq<GraphState>, p: StackEntry)
    requires StatesOk(rules, states)
  {
    p.prev.Some? && p.prev.value in states &&
    ValidItems(rules, p.prev.value.items) &&
    p.symbol in NextSymbols(rules, p.prev.value.items) &&
    p.items == Goto(rules, p.prev.value.items, p.symbol)
  }

  /** Every next symbol of every registered state has its edge, or an entry still waiting on the stack. */
  ghost predicate Complete(rules: seq<Rule>, states: seq<GraphState>, edges: map<nat, seq<GraphEdge>>, stack: seq<StackEntry>)
    requires StatesOk(rules, states)
  {
    forall i, x :: 0 <= i < |states| && x in NextSymbols(rules, states[i].items) ==>
      HasEdge(edges, i, x) || StackEntry(Goto(rules, states[i].items, x), Some(states[i]), x) in stack
  }

  ghost predicate BuilderInvariant(rules: seq<Rule>, initial: Item, states: seq<GraphState>,
                                   edges: map<nat, seq<GraphEdge>>, stack: seq<StackEntry>)
  {
    ValidItem(rules, initial) &&
    StatesOk(rules, states) && EdgesOk(rules, states, edges) && Complete(rules, states, edges, stack) &&
    (|states| == 0 ==> stack == [StackEntry({initial}, None, "")] && edges == map[]) &&
    (|states| > 0 ==> states[0] == GraphState(Closure(rules, {initial}), true) &&
                      forall k :: 0 <= k < |stack| ==> SuccessorEntry(rules, states, stack[k]))
  }

  /** The item sets of the registered states. */
  ghost function Registered(states: seq<GraphState>): set<set<Item>> {
    set i | 0 <= i < |states| :: states[i].items
  }

  /**
   * `CanonicalCollectionGraph::new`: pop an entry, close its items; a state not seen before gets
   * the next id and pushes one entry per distinct next symbol (in an arbitrary order) carrying
   * goto on that symbol; then, whenever the entry has a predecessor, an edge from the
   * predecessor's id to the state's id is added, whether the state was new or not.
   */
  method BuildCollection(rules: seq<Rule>, initial: Item) returns (states: seq<GraphState>, edges: map<nat, seq<GraphEdge>>)
    requires ValidItem(rules, initial)
    ensures |states| > 0 && states[0] == GraphState(Closure(rules, {initial}), true)
    ensures StatesOk(rules, states) && EdgesOk(rules, states, edges)
    ensures forall i, x :: 0 <= i < |states| && x in NextSymbols(rules, states[i].items) ==> HasEdge(edges, i, x)
  {
    var stack := [StackEntry({initial}, None, "")];
    states := [];
    edges := map[];
    while |stack| > 0
      invariant BuilderInvariant(rules, initial, states, edges, stack)
      invariant Registered(states) <= PowerSet(AllItems(rules))
      decreases PowerSet(AllItems(rules)) - Registered(states), |stack|
    {
      var entry := stack[|stack| - 1];
      ghost var states0, edges0, stack0 := states, edges, stack;
      stack := stack[..|stack| - 1];
      EntryValid(rules, initial, states, edges, stack0);
      var state := CloseState(rules, GraphState(entry.items, false));
      ClosureFacts(rules, entry.items);
      var successors: seq<StackEntry> := [];
      if IndexOf(states, state).None? {
        RegisterGrows(rules, states, state);
        states := states + [state];
        successors := PushSuccessors(rules, state);
        stack := stack + successors;
      }
      if entry.prev.Some? {
        var from := IndexOf(states, entry.prev.value).value;
        var to := IndexOf(states, state).value;
        edges := AddEdge(edges, GraphEdge(from, to, entry.symbol));
      }
      StepKeeps(rules, initial, states0, edges0, stack0, state, successors, states, edges, stack);
    }
  }

  /** The popped entry's items are valid, so they can be closed, and its predecessor is registered. */
  lemma EntryValid(rules: seq<Rule>, initial: Item, states: seq<GraphState>,
                   edges: map<nat, seq<GraphEdge>>, stack: seq<StackEntry>)
    requires BuilderInvariant(rules, initial, states, edges, stack) && |stack| > 0
    ensures ValidItems(rules, stack[|stack| - 1].items)
    ensures stack[|stack| - 1].prev.Some? ==> stack[|stack| - 1].prev.value in states
  {
    if |states| > 0 {
      var p := stack[|stack| - 1];
      assert SuccessorEntry(rules, states, p);
      GotoValid(rules, p.prev.value.items, p.symbol);
    }
  }

  lemma RegisterGrows(rules: seq<Rule>, states: seq<GraphState>, state: GraphState)
    requires StatesOk(rules, states) && state.isClosured && ValidItems(rules, state.items) && state !in states
    requires Registered(states) <= PowerSet(AllItems(rules))
    ensures Registered(states + [state]) == Registered(states) + {state.items}
    ensures state.items !in Registered(states) && state.items in PowerSet(AllItems(rules))
  {
    var s1 := states + [state];
    assert forall i :: 0 <= i < |states| ==> s1[i] == states[i];
    assert s1[|states|] == state;
    forall i | 0 <= i < |states|
      ensures states[i].items != state.items
    {
      assert states[i] != state && states[i].isClosured;
    }
  }

  /**
   * The entries pushed for a state: each carries goto on one of its next symbols and the state as
   * predecessor, and every next symbol has one.
   */
  ghost predicate SuccessorsOf(rules: seq<Rule>, state: GraphState, successors: seq<StackEntry>)
    requires ValidItems(rules, state.items)
  {
    (forall k :: 0 <= k < |successors| ==>
      successors[k].prev == Some(state) && successors[k].symbol in NextSymbols(rules, state.items) &&
      successors[k].items == Goto(rules, state.items, successors[k].symbol)) &&
    (forall x :: x in NextSymbols(rules, state.items) ==>
      StackEntry(Goto(rules, state.items, x), Some(state), x) in successors)
  }

  /** The entries a newly registered state pushes: one per distinct next symbol, in an arbitrary order. */
  method PushSuccessors(rules: seq<Rule>, state: GraphState) returns (successors: seq<StackEntry>)
    requires ValidItems(rules, state.items)
    ensures SuccessorsOf(rules, state, successors)
    ensures |successors| == |NextSymbols(rules, state.items)|
    ensures forall j, k :: 0 <= j < k < |successors| ==> successors[j].symbol != successors[k].symbol
  {
    var syms := NextSymbols(rules, state.items);
    var todo := syms;
    successors := [];
    while todo != {}
      invariant todo <= syms
      invariant forall k :: 0 <= k < |successors| ==>
        successors[k].prev == Some(state) && successors[k].symbol in syms - todo &&
        successors[k].items == Goto(rules, state.items, successors[k].symbol)
      invariant forall x :: x in syms - todo ==> StackEntry(Goto(rules, state.items, x), Some(state), x) in successors
      invariant |successors| + |todo| == |syms|
      invariant forall j, k :: 0 <= j < k < |successors| ==> successors[j].symbol != successors[k].symbol
      decreases todo
    {
      var x :| x in todo;
      successors := successors + [StackEntry(Goto(rules, state.items, x), Some(state), x)];
      todo := todo - {x};
    }
  }

  /** How one step of the worklist loop builds its new states, stack and edges. */
  ghost predicate Step(rules: seq<Rule>,
                       states0: seq<GraphState>, edges0: map<nat, seq<GraphEdge>>, stack0: seq<StackEntry>,
                       state: GraphState, successors: seq<StackEntry>,
                       states: seq<GraphState>, edges: map<nat, seq<GraphEdge>>, stack: seq<StackEntry>)
    requires |stack0| > 0 && ValidItems(rules, stack0[|stack0| - 1].items)
  {
    var entry := stack0[|stack0| - 1];
    state == GraphState(Closure(rules, entry.items), true) &&
    (state !in states0 ==> states == states0 + [state] && stack == stack0[..|stack0| - 1] + successors &&
                           SuccessorsOf(rules, state, successors)) &&
    (state in states0 ==> states == states0 && stack == stack0[..|stack0| - 1]) &&
    (entry.prev.Some? ==>
       entry.prev.value in states &&
       edges == AddEdge(edges0, GraphEdge(IndexOf(states, entry.prev.value).value, IndexOf(states, state).value, entry.symbol))) &&
    (entry.prev.None? ==> edges == edges0)
  }

  /** One step of the worklist loop keeps the invariant. */
  lemma StepKeeps(rules: seq<Rule>, initial: Item,
                  states0: seq<GraphState>, edges0: map<nat, seq<GraphEdge>>, stack0: seq<StackEntry>,
                  state: GraphState, successors: seq<StackEntry>,
                  states: seq<GraphState>, edges: map<nat, seq<GraphEdge>>, stack: seq<StackEntry>)
    requires BuilderInvariant(rules, initial, states0, edges0, stack0) && |stack0| > 0
    requires ValidItems(rules, stack0[|stack0| - 1].items)
    requires Step(rules, states0, edges0, stack0, state, successors, states, edges, stack)
    ensures BuilderInvariant(rules, initial, states, edges, stack)
  {
    var entry := stack0[|stack0| - 1];
    ClosureFacts(rules, entry.items);
    StatesStep(rules, states0, state, states);
    EdgesStep(rules, initial, states0, edges0, stack0, state, states, edges);
    CompleteStep(rules, initial, states0, edges0, stack0, state, successors, states, edges, stack);
    StackStep(rules, initial, states0, edges0, stack0, state, successors, states, edges, stack);
  }

  lemma StackStep(rules: seq<Rule>, initial: Item,
                  states0: seq<GraphState>, edges0: map<nat, seq<GraphEdge>>, stack0: seq<StackEntry>,
                  state: GraphState, successors: seq<StackEntry>,
                  states: seq<GraphState>, edges: map<nat, seq<GraphEdge>>, stack: seq<StackEntry>)
    requires BuilderInvariant(rules, initial, states0, edges0, stack0) && |stack0| > 0
    requires ValidItems(rules, stack0[|stack0| - 1].items)
    requires Step(rules, states0, edges0, stack0, state, successors, states, edges, stack)
    requires StatesOk(rules, states)
    ensures |states| > 0 && states[0] == GraphState(Closure(rules, {initial}), true)
    ensures forall k :: 0 <= k < |stack| ==> SuccessorEntry(rules, states, stack[k])
  {
    if |states0| > 0 {
      assert states[0] == states0[0];
      forall k | 0 <= k < |stack|
        ensures SuccessorEntry(rules, states, stack[k])
      {
        if k < |stack0| - 1 {
          assert stack[k] == stack0[k] && SuccessorEntry(rules, states0, stack0[k]);
        }
      }
    } else {
      assert stack0 == [StackEntry({initial}, None, "")];
    }
  }

  lemma StatesStep(rules: seq<Rule>, states0: seq<GraphState>, state: GraphState, states: seq<GraphState>)
    requires StatesOk(rules, states0)
    requires state.isClosured && ValidItems(rules, state.items) && IsClosed(rules, state.items)
    requires state !in states0 ==> states == states0 + [state]
    requires state in states0 ==> states == states0
    ensures StatesOk(rules, states)
  {
    if state !in states0 {
      assert forall i :: 0 <= i < |states0| ==> states[i] == states0[i];
    }
  }

  lemma EdgesStep(rules: seq<Rule>, initial: Item,
                  states0: seq<GraphState>, edges0: map<nat, seq<GraphEdge>>, stack0: seq<StackEntry>,
                  state: GraphState, states: seq<GraphState>, edges: map<nat, seq<GraphEdge>>)
    requires BuilderInvariant(rules, initial, states0, edges0, stack0) && |stack0| > 0
    requires ValidItems(rules, stack0[|stack0| - 1].items)
    requires state == GraphState(Closure(rules, stack0[|stack0| - 1].items), true)
    requires StatesOk(rules, states) && states0 <= states
    requires state in states
    requires var entry := stack0[|stack0| - 1];
      (entry.prev.Some? ==>
         entry.prev.value in states &&
         edges == AddEdge(edges0, GraphEdge(IndexOf(states, entry.prev.value).value, IndexOf(states, state).value, entry.symbol))) &&
      (entry.prev.None? ==> edges == edges0)
    ensures EdgesOk(rules, states, edges)
  {
    var entry := stack0[|stack0| - 1];
    forall f, j | f in edges0 && 0 <= j < |edges0[f]|
      ensures EdgeOk(rules, states, f, edges0[f][j])
    {
      assert EdgeOk(rules, states0, f, edges0[f][j]);
      assert states[f] == states0[f] && states[edges0[f][j].to] == states0[edges0[f][j].to];
    }
    if entry.prev.Some? {
      assert |states0| > 0;
      assert SuccessorEntry(rules, states0, entry);
      var e := GraphEdge(IndexOf(states, entry.prev.value).value, IndexOf(states, state).value, entry.symbol);
      assert EdgeOk(rules, states, e.from, e);
      forall f, j | f in edges && 0 <= j < |edges[f]|
        ensures EdgeOk(rules, states, f, edges[f][j])
      {
        if f == e.from && j == |edges[f]| - 1 {
          assert edges[f][j] == e;
        } else {
          assert edges[f][j] == edges0[f][j];
        }
      }
    }
  }

  lemma CompleteStep(rules: seq<Rule>, initial: Item,
                     states0: seq<GraphState>, edges0: map<nat, seq<GraphEdge>>, stack0: seq<StackEntry>,
                     state: GraphState, successors: seq<StackEntry>,
                     states: seq<GraphState>, edges: map<nat, seq<GraphEdge>>, stack: seq<StackEntry>)
    requires BuilderInvariant(rules, initial, states0, edges0, stack0) && |stack0| > 0
    requires ValidItems(rules, stack0[|stack0| - 1].items)
    requires Step(rules, states0, edges0, stack0, state, successors, states, edges, stack)
    requires StatesOk(rules, states)
    ensures Complete(rules, states, edges, stack)
  {
    forall i, x | 0 <= i < |states| && x in NextSymbols(rules, states[i].items)
      ensures HasEdge(edges, i, x) || StackEntry(Goto(rules, states[i].items, x), Some(states[i]), x) in stack
    {
      CompleteAt(rules, initial, states0, edges0, stack0, state, successors, states, edges, stack, i, x);
    }
  }

  lemma CompleteAt(rules: seq<Rule>, initial: Item,
                   states0: seq<GraphState>, edges0: map<nat, seq<GraphEdge>>, stack0: seq<StackEntry>,
                   state: GraphState, successors: seq<StackEntry>,
                   states: seq<GraphState>, edges: map<nat, seq<GraphEdge>>, stack: seq<StackEntry>,
                   i: nat, x: Symbol)
    requires BuilderInvariant(rules, initial, states0, edges0, stack0) && |stack0| > 0
    requires ValidItems(rules, stack0[|stack0| - 1].items)
    requires Step(rules, states0, edges0, stack0, state, successors, states, edges, stack)
    requires StatesOk(rules, states)
    requires i < |states| && x in NextSymbols(rules, states[i].items)
    ensures HasEdge(edges, i, x) || StackEntry(Goto(rules, states[i].items, x), Some(states[i]), x) in stack
  {
    var entry := stack0[|stack0| - 1];
    var rest := stack0[..|stack0| - 1];
    var want := StackEntry(Goto(rules, states[i].items, x), Some(states[i]), x);
    if i < |states0| {
      assert states[i] == states0[i];
      if HasEdge(edges0, i, x) {
        HasEdgeKept(edges0, edges, i, x);
      } else if want in rest {
        assert want in stack;
      } else {
        assert want == entry;
        IndexOfDistinct(states, i);
        var e := GraphEdge(i, IndexOf(states, state).value, x);
        assert edges == AddEdge(edges0, e);
        assert EdgesFrom(edges, i)[|EdgesFrom(edges, i)| - 1] == e;
      }
    } else {
      assert states[i] == state && SuccessorsOf(rules, state, successors);
      assert want in successors;
    }
  }

  /** Adding an edge keeps every edge already there. */
  lemma HasEdgeKept(edges0: map<nat, seq<GraphEdge>>, edges: map<nat, seq<GraphEdge>>, i: nat, x: Symbol)
    requires HasEdge(edges0, i, x)
    requires edges == edges0 || exists e :: edges == AddEdge(edges0, e)
    ensures HasEdge(edges, i, x)
  {
    var j :| 0 <= j < |EdgesFrom(edges0, i)| && EdgesFrom(edges0, i)[j].symbol == x;
    if edges != edges0 {
      var e :| edges == AddEdge(edges0, e);
      assert EdgesFrom(edges, i)[j] == EdgesFrom(edges0, i)[j];
    }
  }

  /** In a sequence of distinct states, a state's id is its position. */
  lemma IndexOfDistinct(states: seq<GraphState>, i: nat)
    requires i < |states| && forall a, b :: 0 <= a < b < |states| ==> states[a] != states[b]
    ensures IndexOf(states, states[i]) == Some(i)
  {
  }
}
