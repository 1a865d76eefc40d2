/**
 * LR(0) items (`LR0Item`): a rule index and a dot position. A set of items is the content of an
 * automaton state; `goto` moves the dot over one symbol and `closure` adds the predictions.
 * Items refer to the rules of a grammar by index, so every function takes that rule list.
 */
module Lr0Items {
  import opened Symbols
  import opened GrammarRules
  import opened Strings
  import opened SetFacts

  datatype Item = Item(rule: nat, dot: nat)

  /** The item names a rule, and its dot lies within that rule's right side. */
  predicate ValidItem(rules: seq<Rule>, it: Item) {
    it.rule < |rules| && it.dot <= |rules[it.rule].right|
  }

  predicate ValidItems(rules: seq<Rule>, items: set<Item>) {
    forall it :: it in items ==> ValidItem(rules, it)
  }

  /** `is_final`: nothing follows the dot, or the rule is an epsilon rule. */
  predicate IsFinal(rules: seq<Rule>, it: Item)
    requires it.rule < |rules|
  {
    it.dot == |rules[it.rule].right| || rules[it.rule].right == [EPSILON]
  }

  /** `is_accept`: the item `S' -> S •`, recognised by the content of its rule. */
  predicate IsAccept(rules: seq<Rule>, start: Symbol, it: Item)
    requires it.rule < |rules|
  {
    rules[it.rule].left == AugmentedStart(start) && rules[it.rule].right == [start] && it.dot == 1
  }

  /** An accepting item is final. */
  lemma AcceptIsFinal(rules: seq<Rule>, start: Symbol, it: Item)
    requires it.rule < |rules| && IsAccept(rules, start, it)
    ensures IsFinal(rules, it)
  {
  }

  /** The symbol after the dot of a non-final item. */
  function NextSymbol(rules: seq<Rule>, it: Item): Symbol
    requires ValidItem(rules, it) && !IsFinal(rules, it)
  {
    rules[it.rule].right[it.dot]
  }

  /** The marker `to_string` puts at the dot. */
  const DOT: Symbol := "•"

  function InsertAt(s: seq<Symbol>, i: nat, x: Symbol): (r: seq<Symbol>)
    requires i <= |s|
    ensures |r| == |s| + 1 && r[i] == x
    ensures r[..i] == s[..i] && r[i + 1..] == s[i..]
  {
    s[..i] + [x] + s[i..]
  }

  /** `to_string`: `L -> X1 … • … Xn`, the right side with the dot marker at the dot position. */
  function ItemToString(rules: seq<Rule>, it: Item): string
    requires ValidItem(rules, it)
  {
    rules[it.rule].left + " -> " + Join(ItemTokens(rules, it), " ")
  }

  function ItemTokens(rules: seq<Rule>, it: Item): (r: seq<Symbol>)
    requires ValidItem(rules, it)
    ensures |r| == |rules[it.rule].right| + 1 && r[it.dot] == DOT
    ensures r[..it.dot] + r[it.dot + 1..] == rules[it.rule].right
  {
    var right := rules[it.rule].right;
    var r := InsertAt(right, it.dot, DOT);
    assert right == right[..it.dot] + right[it.dot..];
    r
  }

  /** When the right side has no dot marker of its own, the marker in the rendering sits exactly at the dot. */
  lemma TokensMarkDot(rules: seq<Rule>, it: Item, j: nat)
    requires ValidItem(rules, it) && DOT !in rules[it.rule].right && j <= |rules[it.rule].right|
    ensures ItemTokens(rules, it)[j] == DOT <==> j == it.dot
  {
    var right := rules[it.rule].right;
    var r := ItemTokens(rules, it);
    if j < it.dot {
      assert r[j] == r[..it.dot][j] == right[..it.dot][j];
    } else if j > it.dot {
      assert r[j] == r[it.dot + 1..][j - it.dot - 1] == right[it.dot..][j - it.dot - 1];
    }
  }

  /** The order of a `BTreeSet` of items: by rule index, then by dot position. */
  predicate ItemLe(a: Item, b: Item) {
    a.rule < b.rule || (a.rule == b.rule && a.dot <= b.dot)
  }

  /** A non-empty item set has a least item, which is where ordered iteration starts. */
  lemma {:induction false} LeastItemExists(s: set<Item>)
    requires s != {}
    ensures exists m :: m in s && forall o :: o in s ==> ItemLe(m, o)
    decreases |s|
  {
    var x :| x in s;
    if s - {x} != {} {
      LeastItemExists(s - {x});
      var m :| m in s - {x} && forall o :: o in s - {x} ==> ItemLe(m, o);
      if ItemLe(m, x) {
        assert m in s && forall o :: o in s ==> ItemLe(m, o);
      } else {
        forall o | o in s
          ensures ItemLe(x, o)
        {
          if o != x {
            assert ItemLe(m, o);
          }
        }
      }
    } else {
      assert s == {x};
    }
  }

  // ---- goto ----

  /** `goto`: every item whose next symbol is x, with the dot moved over it. */
  function Goto(rules: seq<Rule>, items: set<Item>, x: Symbol): set<Item>
    requires forall it :: it in items ==> it.rule < |rules|
  {
    set it | it in items && it.dot < |rules[it.rule].right| && rules[it.rule].right[it.dot] == x :: Item(it.rule, it.dot + 1)
  }

  /**
   * Membership in `goto`: exactly the items one past an occurrence of x after a dot in `items`.
   * Every such item has its dot past the first position, so no prediction (dot 0) is ever in it:
   * the result still needs closing.
   */
  lemma GotoMembers(rules: seq<Rule>, items: set<Item>, x: Symbol, it: Item)
    requires forall i :: i in items ==> i.rule < |rules|
    ensures it in Goto(rules, items, x) <==>
      it.dot >= 1 && Item(it.rule, it.dot - 1) in items && it.dot - 1 < |rules[it.rule].right| &&
      rules[it.rule].right[it.dot - 1] == x
  {
    if it.dot >= 1 && Item(it.rule, it.dot - 1) in items && it.dot - 1 < |rules[it.rule].right| &&
       rules[it.rule].right[it.dot - 1] == x {
      var p := Item(it.rule, it.dot - 1);
      assert p in items && Item(p.rule, p.dot + 1) == it;
    }
  }

  /** `goto` keeps valid items valid and has no item with the dot at the start. */
  lemma GotoValid(rules: seq<Rule>, items: set<Item>, x: Symbol)
    requires ValidItems(rules, items)
    ensures ValidItems(rules, Goto(rules, items, x))
    ensures forall it :: it in Goto(rules, items, x) ==> it.dot >= 1
  {
  }

  /** `goto` is monotone in the item set. */
  lemma GotoMono(rules: seq<Rule>, a: set<Item>, b: set<Item>, x: Symbol)
    requires (forall it :: it in b ==> it.rule < |rules|) && a <= b
    ensures Goto(rules, a, x) <= Goto(rules, b, x)
  {
  }

  // ---- closure ----

  /** The items with dot 0 for rule k, for every rule whose left side is x. */
  function Predictions(rules: seq<Rule>, x: Symbol, n: nat): set<Item>
    requires n <= |rules|
  {
    set k | 0 <= k < n && rules[k].left == x :: Item(k, 0)
  }

  /** What one pass of `closure` adds for one item. */
  function PredictOne(rules: seq<Rule>, it: Item): set<Item>
    requires ValidItem(rules, it)
  {
    if IsFinal(rules, it) then {} else Predictions(rules, NextSymbol(rules, it), |rules|)
  }

  /** What one pass of `closure` adds for a whole item set. */
  function Predict(rules: seq<Rule>, items: set<Item>): set<Item>
    requires ValidItems(rules, items)
  {
    set it, k | it in items && !IsFinal(rules, it) && 0 <= k < |rules| && rules[k].left == NextSymbol(rules, it) :: Item(k, 0)
  }

  lemma PredictMembers(rules: seq<Rule>, items: set<Item>, p: Item)
    requires ValidItems(rules, items)
    ensures p in Predict(rules, items) <==>
      p.dot == 0 && p.rule < |rules| &&
      exists it :: it in items && !IsFinal(rules, it) && rules[p.rule].left == NextSymbol(rules, it)
  {
    if p.dot == 0 && p.rule < |rules| &&
       exists it :: it in items && !IsFinal(rules, it) && rules[p.rule].left == NextSymbol(rules, it) {
      var it :| it in items && !IsFinal(rules, it) && rules[p.rule].left == NextSymbol(rules, it);
      assert Item(p.rule, 0) == p;
    }
  }

  lemma PredictAdd(rules: seq<Rule>, items: set<Item>, it: Item)
    requires ValidItems(rules, items) && ValidItem(rules, it)
    ensures Predict(rules, items + {it}) == Predict(rules, items) + PredictOne(rules, it)
  {
    forall p | p in Predict(rules, items + {it})
      ensures p in Predict(rules, items) + PredictOne(rules, it)
    {
      PredictMembers(rules, items + {it}, p);
      PredictMembers(rules, items, p);
    }
    forall p | p in Predict(rules, items) + PredictOne(rules, it)
      ensures p in Predict(rules, items + {it})
    {
      PredictMembers(rules, items + {it}, p);
      PredictMembers(rules, items, p);
    }
  }

  lemma PredictValid(rules: seq<Rule>, items: set<Item>)
    requires ValidItems(rules, items)
    ensures ValidItems(rules, Predict(rules, items))
  {
  }

  lemma PredictMono(rules: seq<Rule>, a: set<Item>, b: set<Item>)
    requires ValidItems(rules, b) && a <= b
    ensures Predict(rules, a) <= Predict(rules, b)
  {
    forall p | p in Predict(rules, a)
      ensures p in Predict(rules, b)
    {
      PredictMembers(rules, a, p);
      PredictMembers(rules, b, p);
    }
  }

  /** No pass of `closure` would add anything. */
  predicate IsClosed(rules: seq<Rule>, items: set<Item>)
    requires ValidItems(rules, items)
  {
    Predict(rules, items) <= items
  }

  /** Every valid item of the rules. */
  function AllItems(rules: seq<Rule>): (r: set<Item>)
    ensures forall it :: it in r <==> ValidItem(rules, it)
  {
    set k, d | 0 <= k < |rules| && 0 <= d <= |rules[k].right| :: Item(k, d)
  }

  /**
   * The closure of an item set as `closure` computes it: passes that add the predictions of the
   * whole current set, until a pass adds nothing.
   */
  function Closure(rules: seq<Rule>, items: set<Item>): (r: set<Item>)
    requires ValidItems(rules, items)
    ensures ValidItems(rules, r)
    decreases AllItems(rules) - items
  {
    PredictValid(rules, items);
    if Predict(rules, items) <= items then items
    else
      assert items < items + Predict(rules, items) <= AllItems(rules);
      Closure(rules, items + Predict(rules, items))
  }

  /** The closure contains the items, is closed, and adds only predictions (dot 0). */
  lemma {:induction false} ClosureFacts(rules: seq<Rule>, items: set<Item>)
    requires ValidItems(rules, items)
    ensures items <= Closure(rules, items)
    ensures IsClosed(rules, Closure(rules, items))
    ensures forall it :: it in Closure(rules, items) - items ==> it.dot == 0
    decreases AllItems(rules) - items
  {
    PredictValid(rules, items);
    if !(Predict(rules, items) <= items) {
      var next := items + Predict(rules, items);
      assert items < next <= AllItems(rules);
      ClosureFacts(rules, next);
    }
  }

  /** The closure is the least closed superset: it lies inside every closed superset. */
  lemma {:induction false} ClosureLeast(rules: seq<Rule>, items: set<Item>, j: set<Item>)
    requires ValidItems(rules, j) && items <= j && IsClosed(rules, j)
    ensures Closure(rules, items) <= j
    decreases AllItems(rules) - items
  {
    PredictValid(rules, items);
    if !(Predict(rules, items) <= items) {
      var next := items + Predict(rules, items);
      PredictMono(rules, items, j);
      assert items < next <= AllItems(rules);
      ClosureLeast(rules, next, j);
    }
  }

  /** Closing twice is closing once, and a closed set is its own closure. */
  lemma ClosureIdempotent(rules: seq<Rule>, items: set<Item>)
    requires ValidItems(rules, items)
    ensures IsClosed(rules, items) ==> Closure(rules, items) == items
    ensures Closure(rules, Closure(rules, items)) == Closure(rules, items)
  {
    var c := Closure(rules, items);
    ClosureFacts(rules, items);
    ClosureFacts(rules, c);
    ClosureLeast(rules, c, c);
    if IsClosed(rules, items) {
      ClosureLeast(rules, items, items);
    }
  }

  /**
   * In a closed set, every non-final item whose next symbol is X brings the prediction of every
   * rule for X.
   */
  lemma ClosedHasPredictions(rules: seq<Rule>, items: set<Item>, it: Item, k: nat)
    requires ValidItems(rules, items) && IsClosed(rules, items)
    requires it in items && !IsFinal(rules, it) && k < |rules| && rules[k].left == NextSymbol(rules, it)
    ensures Item(k, 0) in items
  {
    PredictMembers(rules, items, Item(k, 0));
  }

  /** The items listed in a buffer. */
  function Elems(s: seq<Item>): set<Item> {
    set a | a in s
  }

  lemma ElemsAppend(s: seq<Item>, a: Item)
    ensures Elems(s + [a]) == Elems(s) + {a}
  {
    assert forall b :: b in s + [a] <==> b in s || b == a;
  }

  /** The inner loop of a pass: the dot-0 item of every rule for x, appended in rule order. */
  method AppendPredictions(rules: seq<Rule>, x: Symbol, additions: seq<Item>) returns (r: seq<Item>)
    ensures Elems(r) == Elems(additions) + Predictions(rules, x, |rules|)
    ensures |r| >= |additions| && r[..|additions|] == additions
  {
    r := additions;
    for k := 0 to |rules|
      invariant Elems(r) == Elems(additions) + Predictions(rules, x, k)
      invariant |r| >= |additions| && r[..|additions|] == additions
    {
      if rules[k].left == x {
        ElemsAppend(r, Item(k, 0));
        assert (r + [Item(k, 0)])[..|additions|] == r[..|additions|];
        r := r + [Item(k, 0)];
      }
      assert Predictions(rules, x, k + 1) == Predictions(rules, x, k) + (if rules[k].left == x then {Item(k, 0)} else {});
    }
  }

  /** One pass of `closure` over the items: the `additions` buffer it fills. */
  method CollectAdditions(rules: seq<Rule>, items: set<Item>) returns (additions: seq<Item>)
    requires ValidItems(rules, items)
    ensures Elems(additions) == Predict(rules, items)
  {
    additions := [];
    var todo := items;
    ghost var done: set<Item> := {};
    while todo != {}
      invariant todo <= items && done <= items && items <= done + todo
      invariant Elems(additions) == Predict(rules, done)
      decreases todo
    {
      var it :| it in todo;
      PredictAdd(rules, done, it);
      if !IsFinal(rules, it) {
        additions := AppendPredictions(rules, rules[it.rule].right[it.dot], additions);
      }
      todo := todo - {it};
      done := done + {it};
    }
    assert done == items;
  }

  /**
   * `closure`: repeated passes over the set, each collecting in `additions` the dot-0 item of every
   * rule for the next symbol of every non-final item, then adding them all, until a pass leaves the
   * size unchanged.
   */
  method CloseItems(rules: seq<Rule>, items: set<Item>) returns (closed: set<Item>)
    requires ValidItems(rules, items)
    ensures closed == Closure(rules, items)
  {
    closed := items;
    while true
      invariant ValidItems(rules, closed)
      invariant Closure(rules, closed) == Closure(rules, items)
      decreases AllItems(rules) - closed
    {
      var additions := CollectAdditions(rules, closed);
      var prevSize := |closed|;
      ClosureStep(rules, closed);
      var next := closed + Elems(additions);
      if prevSize == |next| {
        SubsetSameCardEqual(closed, next);
        break;
      }
      closed := next;
    }
  }

  /** One pass of `closure`: either it adds nothing and the set is its closure, or it grows the set. */
  lemma ClosureStep(rules: seq<Rule>, items: set<Item>)
    requires ValidItems(rules, items)
    ensures var next := items + Predict(rules, items);
      ValidItems(rules, next) && items <= next &&
      (next == items ==> Closure(rules, items) == items) &&
      (next != items ==> items < next <= AllItems(rules) && Closure(rules, next) == Closure(rules, items))
  {
    PredictValid(rules, items);
  }
}
