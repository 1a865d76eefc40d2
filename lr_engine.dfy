/**
 * The stack machine of `GrammarParserLR::parse_trace`: a stack of state and node entries, the
 * lookahead token, and a derivation graph whose nodes are appended to an arena; the table decides
 * each step. The tokenizer is a parameter: the result of its k-th `next` call, and the cursor
 * location it reports after k calls.
 */
module LrEngine {
  import opened Wrappers
  import opened Symbols
  import opened GrammarRules
  import opened Location
  import opened Tokens
  import ParseTable

  type TokenSource = nat -> Lexed

  /** A node of the derivation: its token, its rule (0 for a leaf) and its children in edge order. */
  datatype DerivationNode = DerivationNode(token: Token, rule: nat, children: seq<nat>)

  datatype StackItem = StateItem(state: nat) | NodeItem(id: nat)

  /** The machine between two steps: the stack, the node arena, the lookahead, the number of `next` calls made. */
  datatype Config = Config(stack: seq<StackItem>, nodes: seq<DerivationNode>, lookahead: Token, calls: nat)

  datatype Outcome = Accepted(root: nat, nodes: seq<DerivationNode>) | Failed(error: SyntaxError) | Panicked | OutOfFuel

  datatype StepResult = Next(next: Config) | Stop(outcome: Outcome)

  const END_OF_INPUT: string := "unexpected end of input"

  /** The message of a `Reject`. */
  function RejectMessage(value: string): (m: string)
    ensures value == EOF ==> m == END_OF_INPUT
    ensures value != EOF ==> m == "unexpected token '" + value + "'"
  {
    if value == EOF then END_OF_INPUT else "unexpected token '" + value + "'"
  }

  /** The error of a `Reject`: the lookahead's range and message. */
  function RejectError(t: Token): SyntaxError {
    SyntaxError(FromLocLen(t.loc, |t.value|), RejectMessage(t.value))
  }

  /** The topmost state entry of the stack. */
  function LastState(stack: seq<StackItem>): (r: Option<nat>)
    ensures r.None? <==> forall k :: 0 <= k < |stack| ==> stack[k].NodeItem?
  {
    if |stack| == 0 then None
    else if stack[|stack| - 1].StateItem? then Some(stack[|stack| - 1].state)
    else
      var r := LastState(stack[..|stack| - 1]);
      assert forall k :: 0 <= k < |stack| - 1 ==> stack[..|stack| - 1][k] == stack[k];
      r
  }

  /**
   * The action of a step: for a state on top, the cell of that state and the lookahead's kind;
   * for a node on top, the cell of the nearest state entry and the left side of the node's rule.
   * `None` is a panic (a missing node, no state entry, a rule index outside the grammar).
   */
  function ActionOf(rules: seq<Rule>, tab: ParseTable.Table, c: Config): Option<ParseTable.Action>
    requires |c.stack| > 0
  {
    match c.stack[|c.stack| - 1]
    case StateItem(i) => Some(ParseTable.CellOf(tab, i, c.lookahead.kind))
    case NodeItem(id) =>
      if id >= |c.nodes| then None
      else match LastState(c.stack)
        case None => None
        case Some(i) =>
          if c.nodes[id].rule >= |rules| then None
          else Some(ParseTable.CellOf(tab, i, rules[c.nodes[id].rule].left))
  }

  /** The number of children of a reduce by the rule: none for an epsilon rule. */
  function ChildCount(rule: Rule): nat {
    if rule.right == [EPSILON] then 0 else |rule.right|
  }

  /** The node ids at the even offsets of a drained span, in order; `None` if one is not a node. */
  function ChildIds(span: seq<StackItem>): (r: Option<seq<nat>>)
    ensures r.Some? ==> |r.value| == (|span| + 1) / 2
    ensures r.Some? ==> forall k :: 0 <= k < |r.value| ==> span[2 * k] == NodeItem(r.value[k])
    ensures r.None? ==> exists k :: 0 <= k < |span| && k % 2 == 0 && span[k].StateItem?
    decreases |span|
  {
    if |span| == 0 then Some([])
    else if span[0].StateItem? then None
    else
      var rest := if |span| >= 2 then span[2..] else [];
      match ChildIds(rest)
      case None =>
        var k :| 0 <= k < |rest| && k % 2 == 0 && rest[k].StateItem?;
        assert span[k + 2] == rest[k];
        None
      case Some(ids) =>
        assert forall k :: 0 <= k < |ids| ==> span[2 * (k + 1)] == rest[2 * k];
        Some([span[0].id] + ids)
  }

  /**
   * `Reduce(r)`: a node for the rule's left side (at the lookahead's location) is appended, the
   * top 2n entries are drained, their node entries become its children in order, and the node
   * is pushed. A rule outside the grammar, a stack shorter than 2n, or a drained state where a
   * node should be panics.
   */
  function ReduceStep(rules: seq<Rule>, c: Config, r: nat): StepResult {
    if r >= |rules| then Stop(Panicked)
    else
      var rule := rules[r];
      var n := ChildCount(rule);
      if 2 * n > |c.stack| then Stop(Panicked)
      else
        var base := |c.stack| - 2 * n;
        match ChildIds(c.stack[base..])
        case None => Stop(Panicked)
        case Some(ids) =>
          var node := DerivationNode(Token(rule.left, rule.left, c.lookahead.loc), r, ids);
          Next(Config(c.stack[..base] + [NodeItem(|c.nodes|)], c.nodes + [node], c.lookahead, c.calls))
  }

  /** One step with the chosen action. */
  function Apply(rules: seq<Rule>, next: TokenSource, c: Config, a: ParseTable.Action): StepResult {
    match a
    case Accept =>
      if |c.stack| < 2 then Stop(Panicked)
      else if c.stack[|c.stack| - 2].NodeItem? then Stop(Accepted(c.stack[|c.stack| - 2].id, c.nodes))
      else Next(c)
    case Goto(s) => Next(c.(stack := c.stack + [StateItem(s)]))
    case Shift(s) =>
      var leaf := DerivationNode(c.lookahead, 0, []);
      var stack := c.stack + [NodeItem(|c.nodes|), StateItem(s)];
      (match next(c.calls)
       case LexFailed(e) => Stop(Failed(e))
       case Lexed(t) => Next(Config(stack, c.nodes + [leaf], t, c.calls + 1)))
    case Reduce(r) => ReduceStep(rules, c, r)
    case Reject => Stop(Failed(RejectError(c.lookahead)))
  }

  function Step(rules: seq<Rule>, tab: ParseTable.Table, next: TokenSource, c: Config): StepResult
    requires |c.stack| > 0
  {
    match ActionOf(rules, tab, c)
    case None => Stop(Panicked)
    case Some(a) => Apply(rules, next, c, a)
  }

  /** The error when the stack runs empty: end of input at the tokenizer's cursor. */
  function EmptyStackError(cursorLoc: nat -> SourceLocation, calls: nat): SyntaxError {
    SyntaxError(FromLocation(cursorLoc(calls)), END_OF_INPUT)
  }

  /** The loop, at most `fuel` steps. */
  function Run(rules: seq<Rule>, tab: ParseTable.Table, next: TokenSource, cursorLoc: nat -> SourceLocation,
               c: Config, fuel: nat): Outcome
    decreases fuel
  {
    if |c.stack| == 0 then Failed(EmptyStackError(cursorLoc, c.calls))
    else if fuel == 0 then OutOfFuel
    else match Step(rules, tab, next, c)
      case Stop(o) => o
      case Next(c') => Run(rules, tab, next, cursorLoc, c', fuel - 1)
  }

  lemma RunNext(rules: seq<Rule>, tab: ParseTable.Table, next: TokenSource, cursorLoc: nat -> SourceLocation,
                c: Config, fuel: nat)
    requires |c.stack| > 0 && fuel > 0 && Step(rules, tab, next, c).Next?
    ensures Run(rules, tab, next, cursorLoc, c, fuel) == Run(rules, tab, next, cursorLoc, Step(rules, tab, next, c).next, fuel - 1)
  {
  }

  /** One iteration of the loop with the chosen action: it stops, or the loop runs on from the next configuration. */
  lemma RunAction(rules: seq<Rule>, tab: ParseTable.Table, next: TokenSource, cursorLoc: nat -> SourceLocation,
                  c: Config, fuel: nat, a: ParseTable.Action)
    requires |c.stack| > 0 && fuel > 0 && ActionOf(rules, tab, c) == Some(a)
    ensures var r := Apply(rules, next, c, a);
            (r.Stop? ==> Run(rules, tab, next, cursorLoc, c, fuel) == r.outcome) &&
            (r.Next? ==> Run(rules, tab, next, cursorLoc, c, fuel) ==
                         Run(rules, tab, next, cursorLoc, Config(r.next.stack, r.next.nodes, r.next.lookahead, r.next.calls), fuel - 1))
  {
  }

  /** The stack `[State(0)]` and the first token, read before the loop. */
  function Parse(rules: seq<Rule>, tab: ParseTable.Table, next: TokenSource, cursorLoc: nat -> SourceLocation,
                 fuel: nat): Outcome
  {
    match next(0)
    case LexFailed(e) => Failed(e)
    case Lexed(t) => Run(rules, tab, next, cursorLoc, Config([StateItem(0)], [], t, 1), fuel)
  }

  /**
   * `parse_trace`, with the trace left out and at most `fuel` iterations of the loop.
   */
  method ParseTrace(rules: seq<Rule>, t: ParseTable.ParseTableLR, next: TokenSource, cursorLoc: nat -> SourceLocation,
                    fuel: nat) returns (o: Outcome)
    ensures o == Parse(rules, t.table, next, cursorLoc, fuel)
  {
    var first := next(0);
    if first.LexFailed? {
      return Failed(first.error);
    }
    var stack := [StateItem(0)];
    var nodes: seq<DerivationNode> := [];
    var lookahead := first.token;
    var calls := 1;
    var steps := fuel;
    while |stack| > 0
      invariant Run(rules, t.table, next, cursorLoc, Config(stack, nodes, lookahead, calls), steps) ==
                Parse(rules, t.table, next, cursorLoc, fuel)
      decreases steps
    {
      if steps == 0 {
        return OutOfFuel;
      }
      var r := Iterate(rules, t, next, cursorLoc, stack, nodes, lookahead, calls, steps);
      if r.Stop? {
        return r.outcome;
      }
      stack, nodes, lookahead, calls := r.next.stack, r.next.nodes, r.next.lookahead, r.next.calls;
      steps := steps - 1;
    }
    return Failed(EmptyStackError(cursorLoc, calls));
  }

  /** The body of the loop: how the loop ends from here, or the configuration it runs on from. */
  method Iterate(rules: seq<Rule>, t: ParseTable.ParseTableLR, next: TokenSource, cursorLoc: nat -> SourceLocation,
                 stack: seq<StackItem>, nodes: seq<DerivationNode>, lookahead: Token, calls: nat, steps: nat)
    returns (r: StepResult)
    requires |stack| > 0 && steps > 0
    ensures var c := Config(stack, nodes, lookahead, calls);
            (r.Stop? ==> Run(rules, t.table, next, cursorLoc, c, steps) == r.outcome) &&
            (r.Next? ==> Run(rules, t.table, next, cursorLoc, c, steps) ==
                         Run(rules, t.table, next, cursorLoc, Config(r.next.stack, r.next.nodes, r.next.lookahead, r.next.calls), steps - 1))
  {
    var action := ChooseAction(rules, t, stack, nodes, lookahead, calls);
    if action.None? {
      return Stop(Panicked);
    }
    r := ApplyAction(rules, next, stack, nodes, lookahead, calls, action.value);
    RunAction(rules, t.table, next, cursorLoc, Config(stack, nodes, lookahead, calls), steps, action.value);
  }

  /** The selection at the head of the loop body; `None` where the source panics. */
  method ChooseAction(rules: seq<Rule>, t: ParseTable.ParseTableLR, stack: seq<StackItem>, nodes: seq<DerivationNode>,
                      lookahead: Token, calls: nat) returns (action: Option<ParseTable.Action>)
    requires |stack| > 0
    ensures action == ActionOf(rules, t.table, Config(stack, nodes, lookahead, calls))
  {
    match stack[|stack| - 1] {
      case StateItem(i) =>
        action := Some(t.GetAction(i, lookahead.kind));
      case NodeItem(id) =>
        if id >= |nodes| {
          return None;
        }
        var below := LastState(stack);
        if below.None? || nodes[id].rule >= |rules| {
          return None;
        }
        action := Some(t.GetAction(below.value, rules[nodes[id].rule].left));
    }
  }

  /** The action's arm of the loop body: the next configuration, or how the loop ends. */
  method ApplyAction(rules: seq<Rule>, next: TokenSource, stack0: seq<StackItem>, nodes0: seq<DerivationNode>,
                     lookahead0: Token, calls0: nat, action: ParseTable.Action) returns (r: StepResult)
    ensures r == Apply(rules, next, Config(stack0, nodes0, lookahead0, calls0), action)
  {
    var stack, nodes, lookahead, calls := stack0, nodes0, lookahead0, calls0;
    match action {
      case Accept =>
        if |stack| < 2 {
          return Stop(Panicked);
        }
        if stack[|stack| - 2].NodeItem? {
          return Stop(Accepted(stack[|stack| - 2].id, nodes));
        }
      case Goto(s) =>
        stack := stack + [StateItem(s)];
      case Shift(s) =>
        var leaf := DerivationNode(lookahead, 0, []);
        stack := stack + [NodeItem(|nodes|), StateItem(s)];
        nodes := nodes + [leaf];
        var lexed := next(calls);
        if lexed.LexFailed? {
          return Stop(Failed(lexed.error));
        }
        lookahead := lexed.token;
        calls := calls + 1;
      case Reduce(rule) =>
        var reduced;
        reduced, stack, nodes := Reduce(rules, stack, nodes, lookahead, rule);
        if !reduced {
          return Stop(Panicked);
        }
      case Reject =>
        return Stop(Failed(RejectError(lookahead)));
    }
    r := Next(Config(stack, nodes, lookahead, calls));
  }

  /** The reduce of the loop body, with the drain's children collected one by one. */
  method Reduce(rules: seq<Rule>, stack0: seq<StackItem>, nodes0: seq<DerivationNode>, lookahead: Token, r: nat)
    returns (ok: bool, stack: seq<StackItem>, nodes: seq<DerivationNode>)
    ensures var c := Config(stack0, nodes0, lookahead, 0);
            match ReduceStep(rules, c, r)
            case Stop(o) => !ok && o == Panicked
            case Next(c') => ok && stack == c'.stack && nodes == c'.nodes
  {
    stack, nodes := stack0, nodes0;
    if r >= |rules| {
      return false, stack, nodes;
    }
    var rule := rules[r];
    var n := ChildCount(rule);
    if 2 * n > |stack| {
      return false, stack, nodes;
    }
    var base := |stack| - 2 * n;
    var span := stack[base..];
    var ids: seq<nat> := [];
    for k := 0 to n
      invariant |ids| == k
      invariant forall j :: 0 <= j < k ==> span[2 * j] == NodeItem(ids[j])
    {
      match span[2 * k]
      case StateItem(_) =>
        assert ChildIds(span).None?;
        return false, stack0, nodes0;
      case NodeItem(id) =>
        ids := ids + [id];
    }
    assert ChildIds(span) == Some(ids) by {
      ChildIdsUnique(span, ids);
    }
    var node := DerivationNode(Token(rule.left, rule.left, lookahead.loc), r, ids);
    stack := stack[..base] + [NodeItem(|nodes|)];
    nodes := nodes + [node];
    ok := true;
  }

  /** The node ids at the even offsets are all there is to `ChildIds`. */
  lemma {:induction false} ChildIdsUnique(span: seq<StackItem>, ids: seq<nat>)
    requires |span| % 2 == 0 && |ids| == |span| / 2
    requires forall j :: 0 <= j < |ids| ==> span[2 * j] == NodeItem(ids[j])
    ensures ChildIds(span) == Some(ids)
    decreases |span|
  {
    if |span| > 0 {
      assert span[0] == NodeItem(ids[0]);
      var rest := span[2..];
      forall j | 0 <= j < |ids| - 1
        ensures rest[2 * j] == NodeItem(ids[1..][j])
      {
        assert rest[2 * j] == span[2 * (j + 1)];
      }
      ChildIdsUnique(rest, ids[1..]);
      assert ids == [ids[0]] + ids[1..];
    }
  }

  // ---- what the loop maintains ----

  /** A step never empties the stack. */
  lemma StepKeepsStack(rules: seq<Rule>, tab: ParseTable.Table, next: TokenSource, c: Config)
    requires |c.stack| > 0 && Step(rules, tab, next, c).Next?
    ensures |Step(rules, tab, next, c).next.stack| > 0
    ensures c.nodes <= Step(rules, tab, next, c).next.nodes
  {
  }

  /**
   * The stack never runs empty, so the error after the loop is never produced: the outcome does
   * not depend on the cursor location the tokenizer would report.
   */
  lemma {:induction false} RunIgnoresCursor(rules: seq<Rule>, tab: ParseTable.Table, next: TokenSource,
                                           cl1: nat -> SourceLocation, cl2: nat -> SourceLocation, c: Config, fuel: nat)
    requires |c.stack| > 0
    ensures Run(rules, tab, next, cl1, c, fuel) == Run(rules, tab, next, cl2, c, fuel)
    decreases fuel
  {
    if fuel > 0 && Step(rules, tab, next, c).Next? {
      StepKeepsStack(rules, tab, next, c);
      RunIgnoresCursor(rules, tab, next, cl1, cl2, Step(rules, tab, next, c).next, fuel - 1);
    }
  }

  lemma ParseIgnoresCursor(rules: seq<Rule>, tab: ParseTable.Table, next: TokenSource,
                           cl1: nat -> SourceLocation, cl2: nat -> SourceLocation, fuel: nat)
    ensures Parse(rules, tab, next, cl1, fuel) == Parse(rules, tab, next, cl2, fuel)
  {
    if next(0).Lexed? {
      RunIgnoresCursor(rules, tab, next, cl1, cl2, Config([StateItem(0)], [], next(0).token, 1), fuel);
    }
  }

  /** State entries at the even positions, node entries at the odd ones. */
  predicate Alternates(stack: seq<StackItem>) {
    |stack| > 0 && forall k :: 0 <= k < |stack| ==> (stack[k].StateItem? <==> k % 2 == 0)
  }

  /** With alternation, the nearest state below a node on top is the entry directly beneath it. */
  lemma NearestStateBelow(stack: seq<StackItem>)
    requires Alternates(stack) && stack[|stack| - 1].NodeItem?
    ensures |stack| >= 2 && LastState(stack) == Some(stack[|stack| - 2].state)
  {
    var p := stack[..|stack| - 1];
    assert p[|p| - 1] == stack[|stack| - 2];
  }

  /**
   * Node entries name nodes of the arena, every node's rule is a rule of the grammar, and every
   * node's children come before it in the arena (so the derivation has no cycle).
   */
  predicate NodesOk(rules: seq<Rule>, c: Config) {
    (forall k :: 0 <= k < |c.stack| && c.stack[k].NodeItem? ==> c.stack[k].id < |c.nodes|) &&
    ArenaOk(rules, c.nodes)
  }

  predicate ArenaOk(rules: seq<Rule>, nodes: seq<DerivationNode>) {
    forall j :: 0 <= j < |nodes| ==> nodes[j].rule < |rules| && forall k :: 0 <= k < |nodes[j].children| ==> nodes[j].children[k] < j
  }

  /** Every token the tokenizer gives has a terminal kind. */
  ghost predicate TerminalTokens(next: TokenSource) {
    forall k :: next(k).Lexed? ==> IsTerminal(next(k).token.kind)
  }

  predicate LeftsNonTerminal(rules: seq<Rule>) {
    |rules| > 0 && forall r :: 0 <= r < |rules| ==> IsNonTerminal(rules[r].left)
  }

  /** What the loop keeps on a well-formed table. */
  predicate Shaped(rules: seq<Rule>, c: Config) {
    Alternates(c.stack) && IsTerminal(c.lookahead.kind) && NodesOk(rules, c)
  }

  /**
   * On a well-formed table, with terminal tokens and nonterminal left sides, a step keeps the
   * alternation (so no drained state is ever found where a child node should be), always changes
   * the configuration (so an `Accept` never spins), and panics only on an `Accept` over the bare
   * initial stack or a `Reduce` whose rule is missing or longer than the stack.
   */
  lemma StepKeepsShape(rules: seq<Rule>, tab: ParseTable.Table, next: TokenSource, c: Config)
    requires Shaped(rules, c) && ParseTable.TableWellFormed(tab) && TerminalTokens(next) && LeftsNonTerminal(rules)
    ensures ActionOf(rules, tab, c).Some?
    ensures Step(rules, tab, next, c).Next? ==>
              Shaped(rules, Step(rules, tab, next, c).next) && Step(rules, tab, next, c).next != c
    ensures Step(rules, tab, next, c) == Stop(Panicked) ==>
              (ActionOf(rules, tab, c) == Some(ParseTable.Accept) && |c.stack| == 1) ||
              (ActionOf(rules, tab, c).value.Reduce? &&
               (ActionOf(rules, tab, c).value.rule >= |rules| ||
                2 * ChildCount(rules[ActionOf(rules, tab, c).value.rule]) > |c.stack|))
  {
    var top := c.stack[|c.stack| - 1];
    if top.NodeItem? {
      NearestStateBelow(c.stack);
      var x := rules[c.nodes[top.id].rule].left;
      assert ParseTable.CellWellFormed(ParseTable.CellOf(tab, c.stack[|c.stack| - 2].state, x), x);
    } else {
      var a := ParseTable.CellOf(tab, top.state, c.lookahead.kind);
      assert ParseTable.CellWellFormed(a, c.lookahead.kind);
      if a.Reduce? {
        ReduceKeepsShape(rules, c, a.rule);
      } else if a.Shift? {
        ShiftKeepsShape(rules, next, c, a.to);
      }
    }
  }

  lemma ShiftKeepsShape(rules: seq<Rule>, next: TokenSource, c: Config, s: nat)
    requires Shaped(rules, c) && c.stack[|c.stack| - 1].StateItem? && TerminalTokens(next) && LeftsNonTerminal(rules)
    ensures Apply(rules, next, c, ParseTable.Shift(s)).Next? ==>
              Shaped(rules, Apply(rules, next, c, ParseTable.Shift(s)).next)
  {
  }

  lemma ReduceKeepsShape(rules: seq<Rule>, c: Config, r: nat)
    requires Shaped(rules, c) && c.stack[|c.stack| - 1].StateItem?
    ensures ReduceStep(rules, c, r).Next? ==> Shaped(rules, ReduceStep(rules, c, r).next) && ReduceStep(rules, c, r).next != c
    ensures ReduceStep(rules, c, r) == Stop(Panicked) ==> r >= |rules| || 2 * ChildCount(rules[r]) > |c.stack|
  {
    if r < |rules| && 2 * ChildCount(rules[r]) <= |c.stack| {
      var n := ChildCount(rules[r]);
      var base := |c.stack| - 2 * n;
      var span := c.stack[base..];
      var ids := DrainedIds(c.stack, base);
      ChildIdsUnique(span, ids);
      forall k | 0 <= k < |ids|
        ensures ids[k] < |c.nodes|
      {
        assert c.stack[base + 2 * k] == span[2 * k];
      }
      var stack := c.stack[..base] + [NodeItem(|c.nodes|)];
      var node := DerivationNode(Token(rules[r].left, rules[r].left, c.lookahead.loc), r, ids);
      assert ReduceStep(rules, c, r) == Next(Config(stack, c.nodes + [node], c.lookahead, c.calls));
      PushNodeAlternates(c.stack, base, |c.nodes|);
      assert forall k :: 0 <= k < |stack| && stack[k].NodeItem? ==> stack[k].id < |c.nodes| + 1 by {
        forall k | 0 <= k < |stack| && stack[k].NodeItem?
          ensures stack[k].id < |c.nodes| + 1
        {
          if k < base {
            assert stack[k] == c.stack[k];
          }
        }
      }
    }
  }

  /** The node ids at the even offsets of the top entries from an odd `base` of an alternating stack. */
  function DrainedIds(stack: seq<StackItem>, base: nat): (ids: seq<nat>)
    requires Alternates(stack) && base <= |stack| && base % 2 == 1
    ensures |ids| == (|stack| - base) / 2
    ensures forall j :: 0 <= j < |ids| ==> stack[base..][2 * j] == NodeItem(ids[j])
  {
    seq((|stack| - base) / 2, k requires 0 <= k < (|stack| - base) / 2 => stack[base + 2 * k].id)
  }

  lemma PushNodeAlternates(stack: seq<StackItem>, base: nat, id: nat)
    requires Alternates(stack) && base <= |stack| && base % 2 == 1
    ensures Alternates(stack[..base] + [NodeItem(id)])
  {
    var s := stack[..base] + [NodeItem(id)];
    forall k | 0 <= k < |s|
      ensures s[k].StateItem? <==> k % 2 == 0
    {
      if k < base {
        assert s[k] == stack[k];
      }
    }
  }

  /** What the loop keeps, over any number of steps: an accepted root names a node of the final arena. */
  lemma {:induction false} RunKeepsShape(rules: seq<Rule>, tab: ParseTable.Table, next: TokenSource,
                                         cursorLoc: nat -> SourceLocation, c: Config, fuel: nat)
    requires Shaped(rules, c) && ParseTable.TableWellFormed(tab) && TerminalTokens(next) && LeftsNonTerminal(rules)
    ensures var o := Run(rules, tab, next, cursorLoc, c, fuel);
            o.Accepted? ==> o.root < |o.nodes| && ArenaOk(rules, o.nodes) && c.nodes <= o.nodes
    decreases fuel
  {
    if fuel > 0 {
      StepKeepsShape(rules, tab, next, c);
      var r := Step(rules, tab, next, c);
      if r.Next? {
        StepKeepsStack(rules, tab, next, c);
        RunNext(rules, tab, next, cursorLoc, c, fuel);
        RunKeepsShape(rules, tab, next, cursorLoc, r.next, fuel - 1);
      } else if r.outcome.Accepted? {
        AcceptFromNode(rules, tab, next, c);
      }
    }
  }

  /** An accept names the node entry directly beneath the top, over the unchanged arena. */
  lemma AcceptFromNode(rules: seq<Rule>, tab: ParseTable.Table, next: TokenSource, c: Config)
    requires |c.stack| > 0 && Step(rules, tab, next, c).Stop? && Step(rules, tab, next, c).outcome.Accepted?
    ensures ActionOf(rules, tab, c) == Some(ParseTable.Accept)
    ensures |c.stack| >= 2 && c.stack[|c.stack| - 2] == NodeItem(Step(rules, tab, next, c).outcome.root)
    ensures Step(rules, tab, next, c).outcome.nodes == c.nodes
  {
  }

  /**
   * On a well-formed table, with terminal tokens and nonterminal left sides, an accepted parse
   * gives a root inside an arena where every rule exists and every child precedes its parent.
   */
  lemma ParseAcceptedIsTree(rules: seq<Rule>, tab: ParseTable.Table, next: TokenSource,
                            cursorLoc: nat -> SourceLocation, fuel: nat)
    requires ParseTable.TableWellFormed(tab) && TerminalTokens(next) && LeftsNonTerminal(rules)
    ensures var o := Parse(rules, tab, next, cursorLoc, fuel);
            o.Accepted? ==> o.root < |o.nodes| && ArenaOk(rules, o.nodes)
  {
    if next(0).Lexed? {
      RunKeepsShape(rules, tab, next, cursorLoc, Config([StateItem(0)], [], next(0).token, 1), fuel);
    }
  }
}
