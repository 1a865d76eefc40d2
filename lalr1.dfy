/**
 * The LALR(1) parser of `lexion_lib`: for every final item of every final state a fresh
 * `SetConstructorLALR1` runs the backward search `lalr1` / `lalr` over predecessor states (`pred`)
 * and the forward scan `trans`, and the lookahead sets found become the reduce lookahead of
 * `from_collection`.
 */
module Lalr1 {
  import opened Wrappers
  import opened Symbols
  import opened GrammarRules
  import opened GrammarModel
  import opened Lr0Items
  import opened Collection
  import ParseTable
  import opened SetFacts
  import opened Reachability

  /** The constructor's `goto`: the goto items as a new state, closed. */
  function GotoState(rules: seq<Rule>, st: GraphState, x: Symbol): (r: GraphState)
    requires ValidItems(rules, st.items)
    ensures ValidItems(rules, r.items)
  {
    GotoValid(rules, st.items, x);
    ClosureFacts(rules, Goto(rules, st.items, x));
    GraphState(Closure(rules, Goto(rules, st.items, x)), true)
  }

  /** The goto state is marked closured, is closed, and holds the goto items. */
  lemma GotoStateClosed(rules: seq<Rule>, st: GraphState, x: Symbol)
    requires ValidItems(rules, st.items)
    ensures GotoState(rules, st, x).isClosured && IsClosed(rules, GotoState(rules, st, x).items)
    ensures Goto(rules, st.items, x) <= GotoState(rules, st, x).items
  {
    GotoValid(rules, st.items, x);
    ClosureFacts(rules, Goto(rules, st.items, x));
  }

  // ---- pred ----

  /** The states of the collection whose goto over x is `state`. */
  function DirectPreds(rules: seq<Rule>, states: seq<GraphState>, state: GraphState, x: Symbol): (r: set<GraphState>)
    requires ParseTable.StatesValid(rules, states)
    ensures forall s :: s in r <==> s in states && GotoState(rules, s, x) == state
  {
    set s | s in states && GotoState(rules, s, x) == state
  }

  /**
   * `pred(state, w)`: the states of the collection from which the gotos along w lead to `state`;
   * an empty w, or the epsilon-only w, gives `state` itself.
   */
  function Pred(rules: seq<Rule>, states: seq<GraphState>, state: GraphState, w: seq<Symbol>): (r: set<GraphState>)
    requires ParseTable.StatesValid(rules, states)
    ensures forall t :: t in r ==> t == state || t in states
    ensures |w| == 0 || w == [EPSILON] ==> r == {state}
    decreases |w|
  {
    if |w| == 0 || w == [EPSILON] then {state}
    else
      var prefix := w[..|w| - 1];
      set s, t | s in DirectPreds(rules, states, state, w[|w| - 1]) && t in Pred(rules, states, s, prefix) :: t
  }

  /** Membership in `pred` one step back: through a state whose goto over the last symbol is `state`. */
  lemma PredMember(rules: seq<Rule>, states: seq<GraphState>, state: GraphState, w: seq<Symbol>, t: GraphState)
    requires ParseTable.StatesValid(rules, states)
    requires |w| > 0 && w != [EPSILON]
    ensures t in Pred(rules, states, state, w) <==>
              exists s :: s in states && GotoState(rules, s, w[|w| - 1]) == state && t in Pred(rules, states, s, w[..|w| - 1])
  {
  }

  /** The state reached from t by the gotos along w, in order. */
  function GotoRun(rules: seq<Rule>, t: GraphState, w: seq<Symbol>): GraphState
    requires ValidItems(rules, t.items)
    decreases |w|
  {
    if |w| == 0 then t else GotoState(rules, GotoRun(rules, t, w[..|w| - 1]), w[|w| - 1])
  }

  /** Every state the run from t along w passes through before its end is a state of the collection. */
  ghost predicate RunInCollection(rules: seq<Rule>, states: seq<GraphState>, t: GraphState, w: seq<Symbol>)
    requires ValidItems(rules, t.items)
  {
    forall k :: 0 <= k < |w| ==> GotoRun(rules, t, w[..k]) in states
  }

  /** A run stays in the collection when its shorter run does and the state before the last step is in it. */
  lemma RunSnoc(rules: seq<Rule>, states: seq<GraphState>, t: GraphState, w: seq<Symbol>)
    requires ValidItems(rules, t.items) && |w| > 0
    ensures RunInCollection(rules, states, t, w) <==>
              RunInCollection(rules, states, t, w[..|w| - 1]) && GotoRun(rules, t, w[..|w| - 1]) in states
  {
    var p := w[..|w| - 1];
    if RunInCollection(rules, states, t, w) {
      forall k | 0 <= k < |p|
        ensures GotoRun(rules, t, p[..k]) in states
      {
        assert p[..k] == w[..k];
      }
      assert p == w[..|p|];
    }
    if RunInCollection(rules, states, t, p) && GotoRun(rules, t, p) in states {
      forall k | 0 <= k < |w|
        ensures GotoRun(rules, t, w[..k]) in states
      {
        if k < |p| {
          assert w[..k] == p[..k];
        } else {
          assert w[..k] == p;
        }
      }
    }
  }

  /**
   * For a w without epsilon, `pred` is exactly the set of start points of runs along w that stay
   * in the collection and end in `state`.
   */
  lemma {:induction false} PredIsRuns(rules: seq<Rule>, states: seq<GraphState>, state: GraphState, w: seq<Symbol>, t: GraphState)
    requires ParseTable.StatesValid(rules, states) && ValidItems(rules, t.items)
    requires EPSILON !in w
    ensures t in Pred(rules, states, state, w) <==> RunInCollection(rules, states, t, w) && GotoRun(rules, t, w) == state
    decreases |w|
  {
    if |w| > 0 {
      var p, x := w[..|w| - 1], w[|w| - 1];
      assert w != [EPSILON];
      assert EPSILON !in p by {
        assert forall k :: 0 <= k < |p| ==> p[k] == w[k];
      }
      PredMember(rules, states, state, w, t);
      RunSnoc(rules, states, t, w);
      if t in Pred(rules, states, state, w) {
        var s :| s in states && GotoState(rules, s, x) == state && t in Pred(rules, states, s, p);
        PredIsRuns(rules, states, s, p, t);
      } else if RunInCollection(rules, states, t, w) && GotoRun(rules, t, w) == state {
        var s := GotoRun(rules, t, p);
        PredIsRuns(rules, states, s, p, t);
      }
    }
  }


  // ---- what `trans` scans ----

  datatype Outcome = Done | Panic | OutOfFuel

  /** What `trans` may put into a lookahead set: a terminal other than epsilon (`$` included). */
  predicate LookaheadOk(x: Symbol) {
    IsTerminal(x) && x != EPSILON
  }

  /** The lookahead `trans` reads off a single item: its next symbol, when that is a terminal other than epsilon. */
  function DirectOf(rules: seq<Rule>, it: Item): set<Symbol>
    requires ValidItem(rules, it)
  {
    if it.dot < |rules[it.rule].right| && LookaheadOk(rules[it.rule].right[it.dot]) then {rules[it.rule].right[it.dot]}
    else {}
  }

  /** An item over whose next symbol `trans` may recurse: that symbol is not a proper lookahead, and it is nullable. */
  predicate NullableNext(g: Grammar, it: Item)
    requires ValidItem(g.rules, it)
  {
    it.dot < |g.rules[it.rule].right| &&
    !LookaheadOk(g.rules[it.rule].right[it.dot]) && IsNullable(g, g.rules[it.rule].right[it.dot])
  }

  /** The goto state over an item's next symbol. */
  function NextState(g: Grammar, st: GraphState, it: Item): (r: GraphState)
    requires ValidItems(g.rules, st.items) && it in st.items && it.dot < |g.rules[it.rule].right|
    ensures ValidItems(g.rules, r.items)
  {
    GotoState(g.rules, st, g.rules[it.rule].right[it.dot])
  }

  /**
   * An item on which `trans` recurses into the very state it is scanning: its next symbol is not
   * a non-epsilon terminal, is nullable, and the goto over it returns to the state.
   */
  predicate SelfLoopItem(g: Grammar, st: GraphState, it: Item)
    requires ValidItems(g.rules, st.items) && it in st.items
  {
    NullableNext(g, it) && NextState(g, st, it) == st
  }

  /** Every state of a set has valid items. */
  predicate AllValid(rules: seq<Rule>, ts: set<GraphState>) {
    forall t :: t in ts ==> ValidItems(rules, t.items)
  }

  /** The lookaheads a state offers `trans` directly: `$` for an accepting state, every proper lookahead after a dot otherwise. */
  function Contributed(g: Grammar, st: GraphState): (r: set<Symbol>)
    requires ValidItems(g.rules, st.items)
    ensures forall x :: x in r ==> LookaheadOk(x)
  {
    if StateIsAccept(g.rules, g.startSymbol, st) then {EOF}
    else set it, x | it in st.items && x in DirectOf(g.rules, it) :: x
  }

  /** What the states of a set offer directly, together. */
  function Offered(g: Grammar, ts: set<GraphState>): (r: set<Symbol>)
    requires AllValid(g.rules, ts)
  {
    set t, x | t in ts && x in Contributed(g, t) :: x
  }

  /**
   * The states `trans` goes on into from st when `tm` holds the states of `ts`: none from an
   * accepting state, otherwise the goto over the next symbol of each `NullableNext` item, when
   * that goto is in `ts`.
   */
  function NullableSuccessors(g: Grammar, ts: set<GraphState>, st: GraphState): (r: set<GraphState>)
    requires ValidItems(g.rules, st.items)
    ensures forall n {:trigger n in r} :: n in r ==> n in ts && ValidItems(g.rules, n.items)
  {
    if StateIsAccept(g.rules, g.startSymbol, st) then {}
    else set it | it in st.items && NullableNext(g, it) && NextState(g, st, it) in ts :: NextState(g, st, it)
  }

  /** The relation of `trans`'s recursion over the states of ts: each to its nullable successors. */
  function Steps(g: Grammar, ts: set<GraphState>): (m: map<GraphState, set<GraphState>>)
    requires AllValid(g.rules, ts)
    ensures m.Keys == ts && forall t {:trigger m[t]} :: t in ts ==> m[t] == NullableSuccessors(g, ts, t)
  {
    map t | t in ts :: NullableSuccessors(g, ts, t)
  }

  /** The states reached from st by nullable successors are st itself and states of ts. */
  lemma ReachWithin(g: Grammar, ts: set<GraphState>, st: GraphState, d: nat)
    requires AllValid(g.rules, ts)
    ensures forall t {:trigger t in Reach(Steps(g, ts), st, d)} :: t in Reach(Steps(g, ts), st, d) ==> t == st || t in ts
  {
  }

  /**
   * What the states reached from st along chains of at most d nullable successors offer
   * directly: everything a `trans` of depth d from st adds.
   */
  function Scanned(g: Grammar, ts: set<GraphState>, st: GraphState, d: nat): (r: set<Symbol>)
    requires AllValid(g.rules, ts) && ValidItems(g.rules, st.items)
  {
    ReachWithin(g, ts, st, d);
    set t, x | t in Reach(Steps(g, ts), st, d) && x in Contributed(g, t) :: x
  }

  /** The states `Reach` finds are in `ts` or st itself, so what they offer is offered by `ts` with st. */
  lemma ScannedOffered(g: Grammar, ts: set<GraphState>, st: GraphState, d: nat)
    requires ValidItems(g.rules, st.items) && AllValid(g.rules, ts)
    ensures Scanned(g, ts, st, d) <= Offered(g, ts + {st})
  {
    ReachWithin(g, ts, st, d);
  }

  /**
   * What the scan of one item of a non-accepting st adds with fuel d: its proper lookahead, or
   * what the scan of its nullable successor finds with one level less.
   */
  function ItemScan(g: Grammar, ts: set<GraphState>, st: GraphState, it: Item, d: nat): set<Symbol>
    requires AllValid(g.rules, ts) && ValidItems(g.rules, st.items) && it in st.items && d > 0
  {
    DirectOf(g.rules, it) +
    if NullableNext(g, it) && NextState(g, st, it) in ts then Scanned(g, ts, NextState(g, st, it), d - 1) else {}
  }

  /** The scan of an item is its goto's scan when `trans` recurses over it, its proper lookahead otherwise. */
  lemma ItemScanCases(g: Grammar, ts: set<GraphState>, st: GraphState, it: Item, d: nat)
    requires AllValid(g.rules, ts) && ValidItems(g.rules, st.items) && it in st.items && d > 0
    ensures NullableNext(g, it) && NextState(g, st, it) in ts ==>
              ItemScan(g, ts, st, it, d) == Scanned(g, ts, NextState(g, st, it), d - 1) && DirectOf(g.rules, it) == {}
    ensures !(NullableNext(g, it) && NextState(g, st, it) in ts) ==> ItemScan(g, ts, st, it, d) == DirectOf(g.rules, it)
  {
  }

  /** What the scans of a set of items of st add, together. */
  function ItemsScan(g: Grammar, ts: set<GraphState>, st: GraphState, items: set<Item>, d: nat): set<Symbol>
    requires AllValid(g.rules, ts) && ValidItems(g.rules, st.items) && items <= st.items && d > 0
  {
    set it, x | it in items && x in ItemScan(g, ts, st, it, d) :: x
  }

  /** For a non-accepting state of ts, the scan of depth d is the union of the scans of its items. */
  lemma ScannedByItems(g: Grammar, ts: set<GraphState>, st: GraphState, d: nat)
    requires AllValid(g.rules, ts) && st in ts && d > 0 && !StateIsAccept(g.rules, g.startSymbol, st)
    ensures Scanned(g, ts, st, d) == ItemsScan(g, ts, st, st.items, d)
  {
    var m := Steps(g, ts);
    ReachWithin(g, ts, st, d);
    forall x | x in Scanned(g, ts, st, d)
      ensures x in ItemsScan(g, ts, st, st.items, d)
    {
      var t :| t in Reach(m, st, d) && x in Contributed(g, t);
      if t == st {
        var it :| it in st.items && x in DirectOf(g.rules, it);
        assert x in ItemScan(g, ts, st, it, d);
      } else {
        assert t in ReachBeyond(m, st, d - 1);
        var n :| n in Next(m, st) && t in Reach(m, n, d - 1);
        var it :| it in st.items && NullableNext(g, it) && NextState(g, st, it) in ts && n == NextState(g, st, it);
        ReachWithin(g, ts, n, d - 1);
        assert x in Scanned(g, ts, n, d - 1);
        assert x in ItemScan(g, ts, st, it, d);
      }
    }
    forall x | x in ItemsScan(g, ts, st, st.items, d)
      ensures x in Scanned(g, ts, st, d)
    {
      var it :| it in st.items && x in ItemScan(g, ts, st, it, d);
      if x in DirectOf(g.rules, it) {
        assert x in Contributed(g, st);
      } else {
        var n := NextState(g, st, it);
        ReachWithin(g, ts, n, d - 1);
        var t :| t in Reach(m, n, d - 1) && x in Contributed(g, t);
        assert n in Next(m, st);
        assert t in ReachBeyond(m, st, d - 1);
      }
    }
  }

  // ---- what `lalr` marks ----

  /** The pairs `lalr` marks for an item in st: the rule's left side with each predecessor of st along the part before the dot. */
  function Seeds(g: Grammar, states: seq<GraphState>, st: GraphState, it: Item): set<(Symbol, GraphState)>
    requires ParseTable.StatesValid(g.rules, states) && ValidItem(g.rules, it)
  {
    set s | s in Pred(g.rules, states, st, g.rules[it.rule].right[..it.dot]) :: (g.rules[it.rule].left, s)
  }

  /** From a marked pair (A, s), `lalr` recurses into the items of s whose next symbol is A and whose rest is nullable. */
  predicate Includes(g: Grammar, a: Symbol, it: Item)
    requires ValidItem(g.rules, it)
  {
    it.dot < |g.rules[it.rule].right| && g.rules[it.rule].right[it.dot] == a &&
    IsNullableSequence(g, g.rules[it.rule].right[it.dot + 1..])
  }

  /** The seeds of the items of s, among `items`, that `lalr` recurses into from the pair (a, s). */
  ghost function DemandsIn(g: Grammar, states: seq<GraphState>, a: Symbol, s: GraphState, items: set<Item>): set<(Symbol, GraphState)>
    requires ParseTable.StatesValid(g.rules, states) && ValidItems(g.rules, s.items) && items <= s.items
  {
    set it, q | it in items && Includes(g, a, it) && q in Seeds(g, states, s, it) :: q
  }

  /** Pair p is closed in v: the seeds of every item `lalr` recurses into from p are in v. */
  ghost predicate ClosedAt(g: Grammar, states: seq<GraphState>, p: (Symbol, GraphState), v: set<(Symbol, GraphState)>)
    requires ParseTable.StatesValid(g.rules, states) && ValidItems(g.rules, p.1.items)
  {
    DemandsIn(g, states, p.0, p.1, p.1.items) <= v
  }

  /** Every pair of v is closed in v. */
  ghost predicate IncludesClosed(g: Grammar, states: seq<GraphState>, v: set<(Symbol, GraphState)>)
    requires ParseTable.StatesValid(g.rules, states)
  {
    forall p :: p in v && ValidItems(g.rules, p.1.items) ==> ClosedAt(g, states, p, v)
  }

  /** Every pair of v outside v0 is closed in v. */
  ghost predicate NewClosed(g: Grammar, states: seq<GraphState>, v0: set<(Symbol, GraphState)>, v: set<(Symbol, GraphState)>)
    requires ParseTable.StatesValid(g.rules, states)
  {
    forall p :: p in v && p !in v0 && ValidItems(g.rules, p.1.items) ==> ClosedAt(g, states, p, v)
  }

  /** v lies within every closed set that holds v0 and the seeds. */
  ghost predicate Least(g: Grammar, states: seq<GraphState>, v0: set<(Symbol, GraphState)>, seeds: set<(Symbol, GraphState)>,
                        v: set<(Symbol, GraphState)>)
    requires ParseTable.StatesValid(g.rules, states)
  {
    forall w :: IncludesClosed(g, states, w) && v0 <= w && seeds <= w ==> v <= w
  }

  /** Every pair of v is over a state of the collection. */
  predicate PairsOver(g: Grammar, states: seq<GraphState>, v: set<(Symbol, GraphState)>) {
    forall p :: p in v ==> p.1 in states && ValidItems(g.rules, p.1.items)
  }

  /** A larger set of states offers at least as much. */
  lemma OfferedGrows(g: Grammar, ts: set<GraphState>, us: set<GraphState>)
    requires AllValid(g.rules, us) && ts <= us
    ensures Offered(g, ts) <= Offered(g, us)
  {
  }

  /** The goto states of the pairs: the states `lalr` hands to `trans`. */
  function Gotos(g: Grammar, v: set<(Symbol, GraphState)>): (r: set<GraphState>)
    requires forall p :: p in v ==> ValidItems(g.rules, p.1.items)
    ensures AllValid(g.rules, r)
  {
    set p | p in v :: GotoState(g.rules, p.1, p.0)
  }

  /** The lookaheads of a set of marked pairs: what the goto state of each offers directly. */
  function LaOf(g: Grammar, v: set<(Symbol, GraphState)>): (r: set<Symbol>)
    requires forall p :: p in v ==> ValidItems(g.rules, p.1.items)
  {
    set p, x | p in v && x in Contributed(g, GotoState(g.rules, p.1, p.0)) :: x
  }

  /** v is the least set of pairs over the collection that holds the seeds of (st, it) and is closed. */
  ghost predicate LeastClosed(g: Grammar, states: seq<GraphState>, st: GraphState, it: Item, v: set<(Symbol, GraphState)>)
    requires ParseTable.StatesValid(g.rules, states) && ValidItem(g.rules, it)
  {
    PairsOver(g, states, v) && Seeds(g, states, st, it) <= v && IncludesClosed(g, states, v) &&
    forall w :: IncludesClosed(g, states, w) && Seeds(g, states, st, it) <= w ==> v <= w
  }

  /**
   * The LALR(1) lookahead of the final item `it` of st: what the goto states of the least closed
   * set of pairs over its seeds offer directly.
   */
  ghost predicate IsLalrLookahead(g: Grammar, states: seq<GraphState>, st: GraphState, it: Item, la: set<Symbol>)
    requires ParseTable.StatesValid(g.rules, states) && ValidItem(g.rules, it)
  {
    exists v :: LeastClosed(g, states, st, it, v) && la == LaOf(g, v)
  }

  /** A marked pair adds what its goto state offers. */
  lemma LaOfAdd(g: Grammar, v: set<(Symbol, GraphState)>, p: (Symbol, GraphState))
    requires forall q :: q in v + {p} ==> ValidItems(g.rules, q.1.items)
    ensures LaOf(g, v + {p}) == LaOf(g, v) + Contributed(g, GotoState(g.rules, p.1, p.0))
  {
    forall x | x in Contributed(g, GotoState(g.rules, p.1, p.0))
      ensures x in LaOf(g, v + {p})
    {
    }
  }

  /** States all among the gotos of v offer only what v's lookaheads hold. */
  lemma OfferedWithinLaOf(g: Grammar, ts: set<GraphState>, v: set<(Symbol, GraphState)>)
    requires forall p :: p in v ==> ValidItems(g.rules, p.1.items)
    requires ts <= Gotos(g, v)
    ensures Offered(g, ts) <= LaOf(g, v)
  {
    forall x | x in Offered(g, ts)
      ensures x in LaOf(g, v)
    {
      var t :| t in ts && x in Contributed(g, t);
      var p :| p in v && t == GotoState(g.rules, p.1, p.0);
    }
  }

  /** An item that `lalr` recurses into from (a, s) demands its seeds. */
  lemma SeedsDemanded(g: Grammar, states: seq<GraphState>, a: Symbol, s: GraphState, items: set<Item>, it: Item)
    requires ParseTable.StatesValid(g.rules, states) && ValidItems(g.rules, s.items) && items <= s.items
    requires it in items && Includes(g, a, it)
    ensures Seeds(g, states, s, it) <= DemandsIn(g, states, a, s, items)
  {
  }

  /** The demands of one more item add that item's seeds when `lalr` recurses into it. */
  lemma DemandsInAdd(g: Grammar, states: seq<GraphState>, a: Symbol, s: GraphState, items: set<Item>, it: Item)
    requires ParseTable.StatesValid(g.rules, states) && ValidItems(g.rules, s.items) && items <= s.items && it in s.items
    ensures DemandsIn(g, states, a, s, items + {it}) ==
              DemandsIn(g, states, a, s, items) + (if Includes(g, a, it) then Seeds(g, states, s, it) else {})
  {
    if Includes(g, a, it) {
      SeedsDemanded(g, states, a, s, items + {it}, it);
    }
  }

  /** Closedness of the new pairs composes over two successive growths. */
  lemma NewClosedThen(g: Grammar, states: seq<GraphState>, v0: set<(Symbol, GraphState)>, v1: set<(Symbol, GraphState)>,
                      v2: set<(Symbol, GraphState)>)
    requires ParseTable.StatesValid(g.rules, states) && v1 <= v2
    requires NewClosed(g, states, v0, v1) && NewClosed(g, states, v1, v2)
    ensures NewClosed(g, states, v0, v2)
  {
  }

  /** A pair closed in v, with the pairs after it closed, leaves the pairs after those before it closed. */
  lemma NewClosedAdd(g: Grammar, states: seq<GraphState>, v0: set<(Symbol, GraphState)>, p: (Symbol, GraphState),
                     v: set<(Symbol, GraphState)>)
    requires ParseTable.StatesValid(g.rules, states) && ValidItems(g.rules, p.1.items)
    requires NewClosed(g, states, v0 + {p}, v) && ClosedAt(g, states, p, v)
    ensures NewClosed(g, states, v0, v)
  {
  }

  /** Leastness composes: a growth within every closed set holding the seeds, after one that was. */
  lemma LeastThen(g: Grammar, states: seq<GraphState>, v0: set<(Symbol, GraphState)>, seeds: set<(Symbol, GraphState)>,
                  v1: set<(Symbol, GraphState)>, more: set<(Symbol, GraphState)>, v2: set<(Symbol, GraphState)>)
    requires ParseTable.StatesValid(g.rules, states) && more <= seeds
    requires Least(g, states, v0, seeds, v1) && Least(g, states, v1, more, v2)
    ensures Least(g, states, v0, seeds, v2)
  {
  }

  /**
   * Leastness composes through a recursion from a pair already in v0: a closed set holding v0
   * holds the seeds of the items that pair demands.
   */
  lemma LeastThenDemanded(g: Grammar, states: seq<GraphState>, v0: set<(Symbol, GraphState)>, v1: set<(Symbol, GraphState)>,
                          v2: set<(Symbol, GraphState)>, a: Symbol, s: GraphState, it: Item)
    requires ParseTable.StatesValid(g.rules, states) && ValidItems(g.rules, s.items) && it in s.items
    requires (a, s) in v0 && Includes(g, a, it)
    requires Least(g, states, v0, {}, v1) && Least(g, states, v1, Seeds(g, states, s, it), v2)
    ensures Least(g, states, v0, {}, v2)
  {
    forall w | IncludesClosed(g, states, w) && v0 <= w
      ensures v2 <= w
    {
      assert ClosedAt(g, states, (a, s), w);
      SeedsDemanded(g, states, a, s, s.items, it);
    }
  }

  /** Leastness from v0 with one pair added is leastness from v0 with that pair as a seed. */
  lemma LeastAdd(g: Grammar, states: seq<GraphState>, v0: set<(Symbol, GraphState)>, p: (Symbol, GraphState),
                 v: set<(Symbol, GraphState)>)
    requires ParseTable.StatesValid(g.rules, states)
    requires Least(g, states, v0 + {p}, {}, v)
    ensures Least(g, states, v0, {p}, v)
  {
    forall w | IncludesClosed(g, states, w) && v0 <= w && {p} <= w
      ensures v <= w
    {
      assert v0 + {p} <= w;
    }
  }

  // ---- the constructor ----

  /** `SetConstructorLALR1`: the lookahead set under construction and the two visited sets. */
  class SetConstructor {
    const g: Grammar
    const states: seq<GraphState>
    var lookaheads: set<Symbol>
    var tm: set<GraphState>
    var visited: set<(Symbol, GraphState)>

    /**
     * The collection's states are valid, the states in `tm` are valid, the visited pairs are over
     * the collection's states, and every lookahead found is a proper one.
     */
    ghost predicate Valid()
      reads this
    {
      ParseTable.StatesValid(g.rules, states) && (forall x :: x in lookaheads ==> LookaheadOk(x)) &&
      AllValid(g.rules, tm) && PairsOver(g, states, visited)
    }

    /** Every lookahead found is offered directly by a state of `tm`. */
    ghost predicate Bounded()
      requires Valid()
      reads this
    {
      lookaheads <= Offered(g, tm)
    }

    constructor (g: Grammar, states: seq<GraphState>)
      requires ParseTable.StatesValid(g.rules, states)
      ensures Valid() && Bounded()
      ensures this.g == g && this.states == states
      ensures lookaheads == {} && tm == {} && visited == {}
    {
      this.g := g;
      this.states := states;
      lookaheads := {};
      tm := {};
      visited := {};
    }

    /**
     * `trans`: records the state in `tm`; an accepting state contributes `$` only; otherwise every
     * non-epsilon terminal after a dot is added, and for a nullable other next symbol the scan
     * goes on in its goto state, but only when that state is already in `tm`. So `tm` gains the
     * state alone, and a finished scan adds exactly what the states on the chains of nullable
     * successors from it offer, no chain being longer than the fuel. That recursion can revisit
     * the same state forever; fuel bounds it.
     */
    method Trans(state: GraphState, fuel: nat) returns (o: Outcome)
      requires Valid() && ValidItems(g.rules, state.items)
      modifies this
      ensures Valid()
      ensures tm == old(tm) + {state} && visited == old(visited)
      ensures old(lookaheads) <= lookaheads <= old(lookaheads) + Scanned(g, tm, state, fuel)
      ensures o != Panic
      ensures o == Done ==> fuel > 0
      ensures o == Done ==> lookaheads == old(lookaheads) + Scanned(g, tm, state, fuel)
      ensures o == Done ==> PathsBounded(Steps(g, tm), state, fuel)
      ensures o == Done && StateIsAccept(g.rules, g.startSymbol, state) ==> lookaheads == old(lookaheads) + {EOF}
      ensures !StateIsAccept(g.rules, g.startSymbol, state) && (exists it :: it in state.items && SelfLoopItem(g, state, it)) ==>
                o == OutOfFuel
      decreases fuel, 2
    {
      tm := tm + {state};
      if fuel == 0 {
        return OutOfFuel;
      }
      if exists it :: it in state.items && IsAccept(g.rules, g.startSymbol, it) {
        lookaheads := lookaheads + {EOF};
        assert Next(Steps(g, tm), state) == {};
        assert Reach(Steps(g, tm), state, fuel) == {state};
        assert EOF in Contributed(g, state);
        ContributedScanned(g, tm, state, fuel);
        PathsBoundedStep(Steps(g, tm), state, fuel);
        return Done;
      }
      ghost var ts := tm;
      o := TransItems(state, fuel);
      if o == Done {
        ScannedByItems(g, ts, state, fuel);
        forall s | s in Next(Steps(g, ts), state)
          ensures PathsBounded(Steps(g, ts), s, fuel - 1)
        {
          var it :| it in state.items && NullableNext(g, it) && NextState(g, state, it) in ts && s == NextState(g, state, it);
        }
        PathsBoundedStep(Steps(g, ts), state, fuel);
      }
    }

    /**
     * The loop of `trans` over the items of a non-accepting state already in `tm`, in order. A
     * finished loop adds the scans of all items; one cut short stays within the state's scan.
     */
    method TransItems(state: GraphState, fuel: nat) returns (o: Outcome)
      requires Valid() && ValidItems(g.rules, state.items) && fuel > 0
      requires state in tm && !StateIsAccept(g.rules, g.startSymbol, state)
      modifies this
      ensures Valid() && tm == old(tm) && visited == old(visited)
      ensures o != Panic
      ensures old(lookaheads) <= lookaheads <= old(lookaheads) + Scanned(g, tm, state, fuel)
      ensures o == Done ==> lookaheads == old(lookaheads) + ItemsScan(g, tm, state, state.items, fuel)
      ensures o == Done ==> forall it :: it in state.items && NullableNext(g, it) && NextState(g, state, it) in tm ==>
                PathsBounded(Steps(g, tm), NextState(g, state, it), fuel - 1)
      ensures (exists it :: it in state.items && SelfLoopItem(g, state, it)) ==> o == OutOfFuel
      decreases fuel, 1
    {
      var todo := state.items;
      ghost var done: set<Item> := {};
      while todo != {}
        invariant Valid() && todo <= state.items && done <= state.items && state.items <= todo + done
        invariant todo !! done
        invariant tm == old(tm) && visited == old(visited)
        invariant lookaheads == old(lookaheads) + ItemsScan(g, tm, state, done, fuel)
        invariant forall it :: it in done && NullableNext(g, it) && NextState(g, state, it) in tm ==>
                    PathsBounded(Steps(g, tm), NextState(g, state, it), fuel - 1)
        invariant forall it :: it in done ==> !SelfLoopItem(g, state, it)
        decreases todo
      {
        LeastItemExists(todo);
        var it :| it in todo && forall p :: p in todo ==> ItemLe(it, p);
        o := TransItem(state, it, fuel);
        ItemScanCases(g, tm, state, it, fuel);
        if o != Done {
          ItemsScanGrows(g, tm, state, done, it, fuel);
          return;
        }
        ItemsScanAdd(g, tm, state, done, it, fuel);
        todo := todo - {it};
        done := done + {it};
      }
      assert done == state.items;
      ScannedByItems(g, tm, state, fuel);
      o := Done;
    }

    /**
     * One round of `trans`'s loop over the items of a non-accepting state already in `tm`: a
     * proper lookahead after the dot is added; over a nullable other next symbol whose goto is in
     * `tm`, the scan goes on there with one level less.
     */
    method TransItem(state: GraphState, it: Item, fuel: nat) returns (o: Outcome)
      requires Valid() && ValidItems(g.rules, state.items) && it in state.items && fuel > 0
      requires state in tm && !StateIsAccept(g.rules, g.startSymbol, state)
      modifies this
      ensures Valid() && tm == old(tm) && visited == old(visited)
      ensures o != Panic
      ensures !(NullableNext(g, it) && NextState(g, state, it) in tm) ==>
                o == Done && lookaheads == old(lookaheads) + DirectOf(g.rules, it)
      ensures NullableNext(g, it) && NextState(g, state, it) in tm ==>
                old(lookaheads) <= lookaheads <= old(lookaheads) + Scanned(g, tm, NextState(g, state, it), fuel - 1)
      ensures NullableNext(g, it) && NextState(g, state, it) in tm && o == Done ==>
                lookaheads == old(lookaheads) + Scanned(g, tm, NextState(g, state, it), fuel - 1) &&
                PathsBounded(Steps(g, tm), NextState(g, state, it), fuel - 1)
      ensures o == Done ==> !SelfLoopItem(g, state, it)
      decreases fuel, 0
    {
      o := Done;
      var right := g.rules[it.rule].right;
      if it.dot < |right| {
        var x := right[it.dot];
        if x != EPSILON && IsTerminal(x) {
          assert x in DirectOf(g.rules, it) && x in Contributed(g, state);
          lookaheads := lookaheads + {x};
        } else if IsNullable(g, x) {
          var next := GotoState(g.rules, state, x);
          if next in tm {
            ghost var ts := tm;
            o := Trans(next, fuel - 1);
            assert tm == ts && next == NextState(g, state, it);
          }
        }
      }
    }

    /**
     * `lalr`: over the predecessor states s of `state` along the part of the rule before the dot
     * that were not yet visited with the rule's left side A when the call began, mark (A, s)
     * visited, run `trans` on goto(s, A), then recurse into the items of s whose next symbol is A
     * with a nullable rest. Reading the next symbol of a complete item panics. The pairs marked
     * lie in every closed set holding the seeds and the earlier marks; on a finished run the new
     * ones are closed, and the lookaheads hold what the goto states of all marked pairs offer.
     */
    method Lalr(item: Item, state: GraphState, fuel: nat) returns (o: Outcome)
      requires Valid() && Bounded() && ValidItem(g.rules, item) && state in states
      requires tm <= Gotos(g, visited) && LaOf(g, visited) <= lookaheads
      modifies this
      ensures Valid() && Bounded() && tm <= Gotos(g, visited)
      ensures old(tm) <= tm && old(lookaheads) <= lookaheads && old(visited) <= visited
      ensures Least(g, states, old(visited), Seeds(g, states, state, item), visited)
      ensures o == Done ==> Seeds(g, states, state, item) <= visited
      ensures o == Done ==> NewClosed(g, states, old(visited), visited)
      ensures o == Done ==> LaOf(g, visited) <= lookaheads
      ensures o == Done ==>
                forall s :: s in Pred(g.rules, states, state, g.rules[item.rule].right[..item.dot]) &&
                            (g.rules[item.rule].left, s) !in old(visited) ==>
                  GotoState(g.rules, s, g.rules[item.rule].left) in tm &&
                  forall it :: it in s.items ==> it.dot < |g.rules[it.rule].right|
      decreases fuel, 0
    {
      if fuel == 0 {
        return OutOfFuel;
      }
      var rule := g.rules[item.rule];
      var a := rule.left;
      var alpha := rule.right[..item.dot];
      var snapshot := visited;
      var preds := Pred(g.rules, states, state, alpha);
      ghost var seeds := Seeds(g, states, state, item);
      var todo := set s | s in preds && (a, s) !in snapshot;
      while todo != {}
        invariant Valid() && Bounded() && todo <= preds && tm <= Gotos(g, visited) && LaOf(g, visited) <= lookaheads
        invariant old(tm) <= tm && old(lookaheads) <= lookaheads && snapshot <= visited
        invariant Least(g, states, snapshot, seeds, visited)
        invariant forall s :: s in preds && s !in todo ==> (a, s) in visited
        invariant NewClosed(g, states, snapshot, visited)
        invariant forall s :: s in preds && s !in todo && (a, s) !in snapshot ==>
                    GotoState(g.rules, s, a) in tm && forall it :: it in s.items ==> it.dot < |g.rules[it.rule].right|
        decreases todo
      {
        var s :| s in todo;
        ghost var head := visited;
        assert (a, s) in seeds;
        o := Visit(s, a, fuel - 1);
        LeastThen(g, states, snapshot, seeds, head, {(a, s)}, visited);
        if o != Done {
          return;
        }
        NewClosedThen(g, states, snapshot, head, visited);
        todo := todo - {s};
      }
      assert seeds <= visited by {
        forall p | p in seeds
          ensures p in visited
        {
          var s :| s in preds && p == (a, s);
        }
      }
      o := Done;
    }

    /**
     * One round of `lalr`'s loop for the predecessor s: mark (A, s) visited, run `trans` on
     * goto(s, A), then go through the items of s.
     */
    method Visit(s: GraphState, a: Symbol, fuel: nat) returns (o: Outcome)
      requires Valid() && Bounded() && s in states
      requires tm <= Gotos(g, visited) && LaOf(g, visited) <= lookaheads
      modifies this
      ensures Valid() && Bounded() && tm <= Gotos(g, visited)
      ensures old(tm) <= tm && old(lookaheads) <= lookaheads && old(visited) + {(a, s)} <= visited
      ensures Least(g, states, old(visited), {(a, s)}, visited)
      ensures o == Done ==> NewClosed(g, states, old(visited), visited)
      ensures o == Done ==> LaOf(g, visited) <= lookaheads
      ensures o == Done ==> GotoState(g.rules, s, a) in tm && forall it :: it in s.items ==> it.dot < |g.rules[it.rule].right|
      decreases fuel, 2
    {
      ghost var head := visited;
      visited := visited + {(a, s)};
      var next := GotoState(g.rules, s, a);
      ghost var tm0 := tm;
      o := Trans(next, fuel);
      assert next in Gotos(g, visited);
      ScannedOffered(g, tm, next, fuel);
      OfferedGrows(g, tm0, tm);
      if o != Done {
        LeastAdd(g, states, head, (a, s), visited);
        return;
      }
      LaOfAdd(g, head, (a, s));
      ContributedScanned(g, tm, next, fuel);
      o := LalrItems(s, a, fuel);
      LeastAdd(g, states, head, (a, s), visited);
      if o == Done {
        NewClosedAdd(g, states, head, (a, s), visited);
      }
    }

    /**
     * The inner loop of `lalr` over the items of s in order: a complete item panics, an item whose
     * next symbol is A and whose rest is nullable recurses into `lalr`.
     */
    method LalrItems(s: GraphState, a: Symbol, fuel: nat) returns (o: Outcome)
      requires Valid() && Bounded() && s in states && (a, s) in visited
      requires tm <= Gotos(g, visited) && LaOf(g, visited) <= lookaheads
      modifies this
      ensures Valid() && Bounded() && tm <= Gotos(g, visited)
      ensures old(tm) <= tm && old(lookaheads) <= lookaheads && old(visited) <= visited
      ensures Least(g, states, old(visited), {}, visited)
      ensures o == Done ==> ClosedAt(g, states, (a, s), visited)
      ensures o == Done ==> NewClosed(g, states, old(visited), visited)
      ensures o == Done ==> LaOf(g, visited) <= lookaheads
      ensures o == Done ==> forall it :: it in s.items ==> it.dot < |g.rules[it.rule].right|
      ensures (exists it :: it in s.items && it.dot == |g.rules[it.rule].right|) ==> o != Done
      decreases fuel, 1
    {
      ghost var start := visited;
      var todo := s.items;
      ghost var done: set<Item> := {};
      while todo != {}
        invariant Valid() && Bounded() && todo <= s.items && done <= s.items && s.items <= todo + done
        invariant tm <= Gotos(g, visited) && LaOf(g, visited) <= lookaheads
        invariant old(tm) <= tm && old(lookaheads) <= lookaheads && start <= visited
        invariant Least(g, states, start, {}, visited)
        invariant forall it :: it in done ==> it.dot < |g.rules[it.rule].right|
        invariant DemandsIn(g, states, a, s, done) <= visited
        invariant NewClosed(g, states, start, visited)
        decreases todo
      {
        LeastItemExists(todo);
        var it :| it in todo && forall p :: p in todo ==> ItemLe(it, p);
        var right := g.rules[it.rule].right;
        if it.dot >= |right| {
          return Panic;
        }
        DemandsInAdd(g, states, a, s, done, it);
        if right[it.dot] == a && IsNullableSequence(g, right[it.dot + 1..]) {
          ghost var before := visited;
          o := Lalr(it, s, fuel);
          LeastThenDemanded(g, states, start, before, visited, a, s, it);
          if o != Done {
            return;
          }
          NewClosedThen(g, states, start, before, visited);
        }
        todo := todo - {it};
        done := done + {it};
      }
      assert done == s.items;
      o := Done;
    }

    /** `lalr1`: nothing for an item of the augmented start rule, `lalr` otherwise. */
    method Lalr1(item: Item, state: GraphState, fuel: nat) returns (o: Outcome)
      requires Valid() && Bounded() && ValidItem(g.rules, item) && state in states
      requires tm <= Gotos(g, visited) && LaOf(g, visited) <= lookaheads
      modifies this
      ensures Valid() && Bounded() && tm <= Gotos(g, visited)
      ensures old(tm) <= tm && old(lookaheads) <= lookaheads && old(visited) <= visited
      ensures g.rules[item.rule].left == AugmentedStartSymbol(g) ==>
                o == Done && lookaheads == old(lookaheads) && tm == old(tm) && visited == old(visited)
      ensures g.rules[item.rule].left != AugmentedStartSymbol(g) ==>
                Least(g, states, old(visited), Seeds(g, states, state, item), visited)
      ensures g.rules[item.rule].left != AugmentedStartSymbol(g) && o == Done ==>
                Seeds(g, states, state, item) <= visited && NewClosed(g, states, old(visited), visited) &&
                LaOf(g, visited) <= lookaheads
    {
      if g.rules[item.rule].left == AugmentedStartSymbol(g) {
        return Done;
      }
      o := Lalr(item, state, fuel);
    }
  }

  /** The scans of one more item add that item's scan. */
  lemma ItemsScanAdd(g: Grammar, ts: set<GraphState>, st: GraphState, items: set<Item>, it: Item, d: nat)
    requires AllValid(g.rules, ts) && ValidItems(g.rules, st.items) && items <= st.items && it in st.items && d > 0
    ensures ItemsScan(g, ts, st, items + {it}, d) == ItemsScan(g, ts, st, items, d) + ItemScan(g, ts, st, it, d)
  {
    forall x | x in ItemScan(g, ts, st, it, d)
      ensures x in ItemsScan(g, ts, st, items + {it}, d)
    {
    }
  }

  /** The scans of some items of a non-accepting state, and the scan of one more item, lie within the state's scan. */
  lemma ItemsScanGrows(g: Grammar, ts: set<GraphState>, st: GraphState, items: set<Item>, it: Item, d: nat)
    requires AllValid(g.rules, ts) && st in ts && items <= st.items && it in st.items && d > 0
    requires !StateIsAccept(g.rules, g.startSymbol, st)
    ensures ItemsScan(g, ts, st, items, d) + ItemScan(g, ts, st, it, d) <= Scanned(g, ts, st, d)
  {
    ItemsScanAdd(g, ts, st, items, it, d);
    ScannedByItems(g, ts, st, d);
  }

  /** A finished scan of depth d from st holds what st itself offers. */
  lemma ContributedScanned(g: Grammar, ts: set<GraphState>, st: GraphState, d: nat)
    requires AllValid(g.rules, ts) && ValidItems(g.rules, st.items) && d > 0
    ensures Contributed(g, st) <= Scanned(g, ts, st, d)
  {
  }

  // ---- from_grammar ----

  /** The lookahead sets by (state id, final item). */
  type LookaheadSets = map<(nat, Item), set<Symbol>>

  /** The final items of the final states: the keys `from_grammar` stores a lookahead set under. */
  function FinalPairs(rules: seq<Rule>, states: seq<GraphState>): set<(nat, Item)>
    requires ParseTable.StatesValid(rules, states)
  {
    set i, it | 0 <= i < |states| && it in states[i].items && IsFinal(rules, it) :: (i, it)
  }

  /** Every stored set holds proper lookaheads, and the set of an augmented-rule item is empty. */
  predicate SetsOk(g: Grammar, states: seq<GraphState>, m: LookaheadSets)
    requires ParseTable.StatesValid(g.rules, states)
  {
    forall k :: k in m ==>
      k in FinalPairs(g.rules, states) &&
      (forall x :: x in m[k] ==> LookaheadOk(x)) &&
      (g.rules[k.1.rule].left == AugmentedStartSymbol(g) ==> m[k] == {})
  }

  /** Every stored set of an item outside the augmented start rule is that item's LALR(1) lookahead. */
  ghost predicate SetsLalr(g: Grammar, states: seq<GraphState>, m: LookaheadSets)
    requires ParseTable.StatesValid(g.rules, states)
  {
    forall i, it :: 0 <= i < |states| && it in states[i].items && (i, it) in m &&
                    g.rules[it.rule].left != AugmentedStartSymbol(g) ==>
      IsLalrLookahead(g, states, states[i], it, m[(i, it)])
  }

  /**
   * The loop of `from_grammar` over the final states (in any order) and their final items: each
   * gets a fresh constructor, runs `lalr1`, and its lookahead set is stored.
   */
  method LalrLookaheadSets(g: Grammar, states: seq<GraphState>, fuel: nat) returns (o: Outcome, m: LookaheadSets)
    requires ParseTable.StatesValid(g.rules, states)
    ensures SetsOk(g, states, m) && SetsLalr(g, states, m)
    ensures o == Done ==> m.Keys == FinalPairs(g.rules, states)
  {
    m := map[];
    var todo := Range(|states|);
    while todo != {}
      invariant todo <= Range(|states|)
      invariant SetsOk(g, states, m) && SetsLalr(g, states, m)
      invariant forall i, it :: (i, it) in FinalPairs(g.rules, states) ==> ((i, it) in m <==> i !in todo)
      decreases todo
    {
      var i :| i in todo;
      o, m := StateLookaheadSets(g, states, i, fuel, m);
      if o != Done {
        return;
      }
      todo := todo - {i};
    }
    o := Done;
  }

  /** The sets of the final items of state i. */
  method StateLookaheadSets(g: Grammar, states: seq<GraphState>, i: nat, fuel: nat, m0: LookaheadSets)
    returns (o: Outcome, m: LookaheadSets)
    requires ParseTable.StatesValid(g.rules, states) && i < |states|
    requires SetsOk(g, states, m0) && SetsLalr(g, states, m0)
    ensures SetsOk(g, states, m) && SetsLalr(g, states, m)
    ensures forall j, it :: j != i ==> ((j, it) in m <==> (j, it) in m0)
    ensures o == Done ==> forall it :: it in states[i].items && IsFinal(g.rules, it) ==> (i, it) in m
  {
    m := m0;
    var finals := set it | it in states[i].items && IsFinal(g.rules, it);
    var todo := finals;
    while todo != {}
      invariant todo <= finals
      invariant SetsOk(g, states, m) && SetsLalr(g, states, m)
      invariant forall j, it :: j != i ==> ((j, it) in m <==> (j, it) in m0)
      invariant forall it :: it in finals - todo ==> (i, it) in m
      decreases todo
    {
      var it :| it in todo;
      var la;
      o, la := ItemLookaheads(g, states, states[i], it, fuel);
      if o != Done {
        return;
      }
      assert (i, it) in FinalPairs(g.rules, states);
      m := m[(i, it) := la];
      todo := todo - {it};
    }
    o := Done;
  }

  /**
   * One round of the inner loop of `from_grammar`: a fresh constructor runs `lalr1` on the final
   * item `it` of st, and its lookaheads become the item's set.
   */
  method ItemLookaheads(g: Grammar, states: seq<GraphState>, st: GraphState, it: Item, fuel: nat)
    returns (o: Outcome, la: set<Symbol>)
    requires ParseTable.StatesValid(g.rules, states) && st in states && ValidItem(g.rules, it)
    ensures forall x :: x in la ==> LookaheadOk(x)
    ensures g.rules[it.rule].left == AugmentedStartSymbol(g) ==> o == Done && la == {}
    ensures o == Done && g.rules[it.rule].left != AugmentedStartSymbol(g) ==> IsLalrLookahead(g, states, st, it, la)
  {
    var c := new SetConstructor(g, states);
    o := c.Lalr1(it, st, fuel);
    if o == Done && g.rules[it.rule].left != AugmentedStartSymbol(g) {
      LalrFound(g, states, st, it, c.visited, c.tm, c.lookaheads);
    }
    la := c.lookaheads;
  }

  /**
   * A finished `lalr1` from an empty constructor: the pairs it marked are the least closed set
   * over the item's seeds, and its lookaheads are what their goto states offer.
   */
  lemma LalrFound(g: Grammar, states: seq<GraphState>, st: GraphState, it: Item,
                  v: set<(Symbol, GraphState)>, tm: set<GraphState>, la: set<Symbol>)
    requires ParseTable.StatesValid(g.rules, states) && ValidItem(g.rules, it)
    requires PairsOver(g, states, v) && AllValid(g.rules, tm)
    requires la <= Offered(g, tm) && tm <= Gotos(g, v) && LaOf(g, v) <= la
    requires Seeds(g, states, st, it) <= v
    requires NewClosed(g, states, {}, v) && Least(g, states, {}, Seeds(g, states, st, it), v)
    ensures IsLalrLookahead(g, states, st, it, la)
  {
    OfferedWithinLaOf(g, tm, v);
    assert IncludesClosed(g, states, v);
    assert LeastClosed(g, states, st, it, v);
  }


  /** The LALR(1) lookahead of an item is determined: the least closed set of pairs is unique. */
  lemma LalrLookaheadUnique(g: Grammar, states: seq<GraphState>, st: GraphState, it: Item, la1: set<Symbol>, la2: set<Symbol>)
    requires ParseTable.StatesValid(g.rules, states) && ValidItem(g.rules, it)
    requires IsLalrLookahead(g, states, st, it, la1) && IsLalrLookahead(g, states, st, it, la2)
    ensures la1 == la2
  {
    var v1 :| LeastClosed(g, states, st, it, v1) && la1 == LaOf(g, v1);
    var v2 :| LeastClosed(g, states, st, it, v2) && la2 == LaOf(g, v2);
    assert v1 <= v2 && v2 <= v1;
  }

  /** The table's reduce lookahead: the stored set of the (state id, item) pair, empty when there is none. */
  function LalrLookahead(m: LookaheadSets): ParseTable.Lookahead {
    (it: Item, st: GraphState, i: nat) => if (i, it) in m then m[(i, it)] else {}
  }

  /**
   * `GrammarParserLALR1::from_grammar`: the collection of item (0, 0), the lookahead sets, and the
   * table built with them. A panic or an exhausted fuel bound leaves no table.
   */
  method LalrFromGrammar(g: Grammar, fuel: nat)
    returns (o: Outcome, states: seq<GraphState>, edges: map<nat, seq<GraphEdge>>, m: LookaheadSets, t: ParseTable.ParseTableLR?)
    requires |g.rules| > 0
    ensures |states| > 0 && states[0] == GraphState(Closure(g.rules, {Item(0, 0)}), true)
    ensures StatesOk(g.rules, states) && EdgesOk(g.rules, states, edges)
    ensures ParseTable.StatesValid(g.rules, states) && SetsOk(g, states, m) && SetsLalr(g, states, m)
    ensures o == Done <==> t != null
    ensures o == Done ==> m.Keys == FinalPairs(g.rules, states)
    ensures t != null ==> fresh(t) && t.numStates == |states|
    ensures t != null ==>
              forall i, x :: ParseTable.CellOk(g.rules, g.startSymbol, states, edges, LalrLookahead(m), i, x, t.GetAction(i, x))
    ensures t != null ==> ParseTable.TableWellFormed(t.table)
  {
    states, edges := BuildCollection(g.rules, Item(0, 0));
    o, m := LalrLookaheadSets(g, states, fuel);
    if o != Done {
      t := null;
      return;
    }
    t := ParseTable.FromCollection(g.rules, g.startSymbol, states, edges, LalrLookahead(m));
    LalrLookaheadTerminal(g, states, m);
    forall i, x
      ensures ParseTable.CellOk(g.rules, g.startSymbol, states, edges, LalrLookahead(m), i, x, ParseTable.CellOf(t.table, i, x))
    {
      assert t.GetAction(i, x) == ParseTable.CellOf(t.table, i, x);
    }
    ParseTable.FromCollectionWellFormed(g.rules, g.startSymbol, states, edges, LalrLookahead(m), t.table);
  }

  lemma LalrLookaheadTerminal(g: Grammar, states: seq<GraphState>, m: LookaheadSets)
    requires ParseTable.StatesValid(g.rules, states) && SetsOk(g, states, m)
    ensures ParseTable.TerminalLookahead(LalrLookahead(m))
  {
    forall it: Item, st: GraphState, i: nat, y: Symbol | y in LalrLookahead(m)(it, st, i)
      ensures IsTerminal(y)
    {
      assert (i, it) in m;
    }
  }

  /**
   * A reduce cell of the LALR(1) table lies on a proper lookahead (a terminal, never epsilon) of
   * a final item of that state, and never reduces by an augmented start rule.
   */
  lemma LalrReduceCell(g: Grammar, states: seq<GraphState>, edges: map<nat, seq<GraphEdge>>, m: LookaheadSets,
                       i: nat, x: Symbol, r: nat)
    requires ParseTable.StatesValid(g.rules, states) && SetsOk(g, states, m)
    requires ParseTable.CellOk(g.rules, g.startSymbol, states, edges, LalrLookahead(m), i, x, ParseTable.Reduce(r))
    ensures LookaheadOk(x)
    ensures r < |g.rules| && g.rules[r].left != AugmentedStartSymbol(g)
    ensures exists w :: w in states[i].items && IsFinal(g.rules, w) && w.rule == r && (i, w) in m && x in m[(i, w)]
  {
    var st := states[i];
    var la := LalrLookahead(m);
    if StateIsAccept(g.rules, g.startSymbol, st) {
      assert false;
    }
    assert ParseTable.ReduceCellOk(g.rules, st.items, st, i, la, x, ParseTable.Reduce(r));
    var w :| ParseTable.ReduceWinner(g.rules, st.items, st, i, la, x, w) && ParseTable.Reduce(r) == ParseTable.Reduce(w.rule);
    assert (i, w) in m;
  }
}
