/**
 * The older stack machine of `src/lib`'s `GrammarParserLR::parse_trace`. It makes the same moves
 * as `lexion_lib`'s; its tokens carry a single location, a reject reports the lookahead's
 * location, and running out of stack reports the tokenizer's cursor with an empty message. The
 * derivation is an arena of nodes with children appended in order.
 */
module LegacyLrEngine {
  import opened Wrappers
  import opened Symbols
  import opened GrammarRules
  import opened LegacyTokens
  import ParseTable
  import Lr = LrEngine
  import Location
  import Tokens

  type TokenSource = nat -> Lexed

  datatype DerivationNode = DerivationNode(token: Token, rule: nat, children: seq<nat>)

  datatype Config = Config(stack: seq<Lr.StackItem>, nodes: seq<DerivationNode>, lookahead: Token, calls: nat)

  datatype Outcome = Accepted(root: nat, nodes: seq<DerivationNode>) | Failed(error: ParseError) | Panicked | OutOfFuel

  datatype StepResult = Next(next: Config) | Stop(outcome: Outcome)

  /** The error of a `Reject`: at the lookahead, with the same message as `lexion_lib`'s. */
  function RejectError(t: Token): (e: ParseError)
    ensures e.loc == t.loc && e.message == Lr.RejectMessage(t.value)
  {
    ParseError(t.loc, Lr.RejectMessage(t.value))
  }

  /** The action of a step, chosen as in `lexion_lib`; `None` is a panic. */
  function ActionOf(rules: seq<Rule>, tab: ParseTable.Table, c: Config): Option<ParseTable.Action>
    requires |c.stack| > 0
  {
    match c.stack[|c.stack| - 1]
    case StateItem(i) => Some(ParseTable.CellOf(tab, i, c.lookahead.kind))
    case NodeItem(id) =>
      if id >= |c.nodes| then None
      else match Lr.LastState(c.stack)
        case None => None
        case Some(i) =>
          if c.nodes[id].rule >= |rules| then None
          else Some(ParseTable.CellOf(tab, i, rules[c.nodes[id].rule].left))
  }

  /** `Reduce(r)`, as in `lexion_lib`: the drained node entries become the new node's children. */
  function ReduceStep(rules: seq<Rule>, c: Config, r: nat): StepResult {
    if r >= |rules| then Stop(Panicked)
    else
      var rule := rules[r];
      var n := Lr.ChildCount(rule);
      if 2 * n > |c.stack| then Stop(Panicked)
      else
        var base := |c.stack| - 2 * n;
        match Lr.ChildIds(c.stack[base..])
        case None => Stop(Panicked)
        case Some(ids) =>
          var node := DerivationNode(Token(rule.left, rule.left, c.lookahead.loc), r, ids);
          Next(Config(c.stack[..base] + [Lr.NodeItem(|c.nodes|)], c.nodes + [node], c.lookahead, c.calls))
  }

  function Apply(rules: seq<Rule>, next: TokenSource, c: Config, a: ParseTable.Action): StepResult {
    match a
    case Accept =>
      if |c.stack| < 2 then Stop(Panicked)
      else if c.stack[|c.stack| - 2].NodeItem? then Stop(Accepted(c.stack[|c.stack| - 2].id, c.nodes))
      else Next(c)
    case Goto(s) => Next(c.(stack := c.stack + [Lr.StateItem(s)]))
    case Shift(s) =>
      var leaf := DerivationNode(c.lookahead, 0, []);
      var stack := c.stack + [Lr.NodeItem(|c.nodes|), Lr.StateItem(s)];
      (match next(c.calls)
       case LexFailed(e) => Stop(Failed(e))
       case Lexed(t) => Next(Config(stack, c.nodes + [leaf], t, c.calls + 1)))
    case Reduce(r) => ReduceStep(rules, c, r)
    case Reject => Stop(Failed(RejectError(c.lookahead)))
  }

  function Step(rules: seq<Rule>, tab: ParseTable.Table, next: TokenSource, c: Config): StepResult
    requires |c.stack| > 0
  {
    match ActionOf(rules, tab, c)
    case None => Stop(Panicked)
    case Some(a) => Apply(rules, next, c, a)
  }

  /** The error when the stack runs empty: the tokenizer's cursor and an empty message. */
  function EmptyStackError(cursorLoc: nat -> SourceLocation, calls: nat): (e: ParseError)
    ensures e.loc == cursorLoc(calls) && e.message == ""
  {
    ParseError(cursorLoc(calls), "")
  }

  function Run(rules: seq<Rule>, tab: ParseTable.Table, next: TokenSource, cursorLoc: nat -> SourceLocation,
               c: Config, fuel: nat): Outcome
    decreases fuel
  {
    if |c.stack| == 0 then Failed(EmptyStackError(cursorLoc, c.calls))
    else if fuel == 0 then OutOfFuel
    else match Step(rules, tab, next, c)
      case Stop(o) => o
      case Next(c') => Run(rules, tab, next, cursorLoc, c', fuel - 1)
  }

  lemma RunNext(rules: seq<Rule>, tab: ParseTable.Table, next: TokenSource, cursorLoc: nat -> SourceLocation,
                c: Config, fuel: nat)
    requires |c.stack| > 0 && fuel > 0 && Step(rules, tab, next, c).Next?
    ensures Run(rules, tab, next, cursorLoc, c, fuel) == Run(rules, tab, next, cursorLoc, Step(rules, tab, next, c).next, fuel - 1)
  {
  }

  /** One iteration of the loop with the chosen action: it stops, or the loop runs on from the next configuration. */
  lemma RunAction(rules: seq<Rule>, tab: ParseTable.Table, next: TokenSource, cursorLoc: nat -> SourceLocation,
                  c: Config, fuel: nat, a: ParseTable.Action)
    requires |c.stack| > 0 && fuel > 0 && ActionOf(rules, tab, c) == Some(a)
    ensures var r := Apply(rules, next, c, a);
            (r.Stop? ==> Run(rules, tab, next, cursorLoc, c, fuel) == r.outcome) &&
            (r.Next? ==> Run(rules, tab, next, cursorLoc, c, fuel) ==
                         Run(rules, tab, next, cursorLoc, Config(r.next.stack, r.next.nodes, r.next.lookahead, r.next.calls), fuel - 1))
  {
  }

  function Parse(rules: seq<Rule>, tab: ParseTable.Table, next: TokenSource, cursorLoc: nat -> SourceLocation,
                 fuel: nat): Outcome
  {
    match next(0)
    case LexFailed(e) => Failed(e)
    case Lexed(t) => Run(rules, tab, next, cursorLoc, Config([Lr.StateItem(0)], [], t, 1), fuel)
  }

  /** `parse_trace`, with the trace left out and at most `fuel` iterations of the loop. */
  method ParseTrace(rules: seq<Rule>, t: ParseTable.ParseTableLR, next: TokenSource, cursorLoc: nat -> SourceLocation,
                    fuel: nat) returns (o: Outcome)
    ensures o == Parse(rules, t.table, next, cursorLoc, fuel)
  {
    var first := next(0);
    if first.LexFailed? {
      return Failed(first.error);
    }
    var stack := [Lr.StateItem(0)];
    var nodes: seq<DerivationNode> := [];
    var lookahead := first.token;
    var calls := 1;
    var steps := fuel;
    while |stack| > 0
      invariant Run(rules, t.table, next, cursorLoc, Config(stack, nodes, lookahead, calls), steps) ==
                Parse(rules, t.table, next, cursorLoc, fuel)
      decreases steps
    {
      if steps == 0 {
        return OutOfFuel;
      }
      var r := Iterate(rules, t, next, cursorLoc, stack, nodes, lookahead, calls, steps);
      if r.Stop? {
        return r.outcome;
      }
      stack, nodes, lookahead, calls := r.next.stack, r.next.nodes, r.next.lookahead, r.next.calls;
      steps := steps - 1;
    }
    return Failed(EmptyStackError(cursorLoc, calls));
  }

  /** The body of the loop: how the loop ends from here, or the configuration it runs on from. */
  method Iterate(rules: seq<Rule>, t: ParseTable.ParseTableLR, next: TokenSource, cursorLoc: nat -> SourceLocation,
                 stack: seq<Lr.StackItem>, nodes: seq<DerivationNode>, lookahead: Token, calls: nat, steps: nat)
    returns (r: StepResult)
    requires |stack| > 0 && steps > 0
    ensures var c := Config(stack, nodes, lookahead, calls);
            (r.Stop? ==> Run(rules, t.table, next, cursorLoc, c, steps) == r.outcome) &&
            (r.Next? ==> Run(rules, t.table, next, cursorLoc, c, steps) ==
                         Run(rules, t.table, next, cursorLoc, Config(r.next.stack, r.next.nodes, r.next.lookahead, r.next.calls), steps - 1))
  {
    var action := ChooseAction(rules, t, stack, nodes, lookahead, calls);
    if action.None? {
      return Stop(Panicked);
    }
    r := ApplyAction(rules, next, stack, nodes, lookahead, calls, action.value);
    RunAction(rules, t.table, next, cursorLoc, Config(stack, nodes, lookahead, calls), steps, action.value);
  }

  method ChooseAction(rules: seq<Rule>, t: ParseTable.ParseTableLR, stack: seq<Lr.StackItem>, nodes: seq<DerivationNode>,
                      lookahead: Token, calls: nat) returns (action: Option<ParseTable.Action>)
    requires |stack| > 0
    ensures action == ActionOf(rules, t.table, Config(stack, nodes, lookahead, calls))
  {
    match stack[|stack| - 1] {
      case StateItem(i) =>
        action := Some(t.GetAction(i, lookahead.kind));
      case NodeItem(id) =>
        if id >= |nodes| {
          return None;
        }
        var below := Lr.LastState(stack);
        if below.None? || nodes[id].rule >= |rules| {
          return None;
        }
        action := Some(t.GetAction(below.value, rules[nodes[id].rule].left));
    }
  }

  method ApplyAction(rules: seq<Rule>, next: TokenSource, stack0: seq<Lr.StackItem>, nodes0: seq<DerivationNode>,
                     lookahead0: Token, calls0: nat, action: ParseTable.Action) returns (r: StepResult)
    ensures r == Apply(rules, next, Config(stack0, nodes0, lookahead0, calls0), action)
  {
    var stack, nodes, lookahead, calls := stack0, nodes0, lookahead0, calls0;
    match action {
      case Accept =>
        if |stack| < 2 {
          return Stop(Panicked);
        }
        if stack[|stack| - 2].NodeItem? {
          return Stop(Accepted(stack[|stack| - 2].id, nodes));
        }
      case Goto(s) =>
        stack := stack + [Lr.StateItem(s)];
      case Shift(s) =>
        var leaf := DerivationNode(lookahead, 0, []);
        stack := stack + [Lr.NodeItem(|nodes|), Lr.StateItem(s)];
        nodes := nodes + [leaf];
        var lexed := next(calls);
        if lexed.LexFailed? {
          return Stop(Failed(lexed.error));
        }
        lookahead := lexed.token;
        calls := calls + 1;
      case Reduce(rule) =>
        var reduced;
        reduced, stack, nodes := Reduce(rules, stack, nodes, lookahead, rule);
        if !reduced {
          return Stop(Panicked);
        }
      case Reject =>
        return Stop(Failed(RejectError(lookahead)));
    }
    r := Next(Config(stack, nodes, lookahead, calls));
  }

  /** The reduce of the loop body; the node is appended and its children attached one by one. */
  method Reduce(rules: seq<Rule>, stack0: seq<Lr.StackItem>, nodes0: seq<DerivationNode>, lookahead: Token, r: nat)
    returns (ok: bool, stack: seq<Lr.StackItem>, nodes: seq<DerivationNode>)
    ensures var c := Config(stack0, nodes0, lookahead, 0);
            match ReduceStep(rules, c, r)
            case Stop(o) => !ok && o == Panicked
            case Next(c') => ok && stack == c'.stack && nodes == c'.nodes
  {
    stack, nodes := stack0, nodes0;
    if r >= |rules| {
      return false, stack, nodes;
    }
    var rule := rules[r];
    var n := Lr.ChildCount(rule);
    if 2 * n > |stack| {
      return false, stack, nodes;
    }
    var base := |stack| - 2 * n;
    var span := stack[base..];
    var ids: seq<nat> := [];
    for k := 0 to n
      invariant |ids| == k
      invariant forall j :: 0 <= j < k ==> span[2 * j] == Lr.NodeItem(ids[j])
    {
      match span[2 * k]
      case StateItem(_) =>
        assert Lr.ChildIds(span).None?;
        return false, stack0, nodes0;
      case NodeItem(id) =>
        ids := ids + [id];
    }
    assert Lr.ChildIds(span) == Some(ids) by {
      Lr.ChildIdsUnique(span, ids);
    }
    var node := DerivationNode(Token(rule.left, rule.left, lookahead.loc), r, ids);
    stack := stack[..base] + [Lr.NodeItem(|nodes|)];
    nodes := nodes + [node];
    ok := true;
  }

  // ---- the two engines side by side ----

  /** A single-point location as `lexion_lib` writes it. */
  function LiftLoc(l: SourceLocation): Location.SourceLocation {
    Location.SourceLocation(l.file, Location.FileLocation(l.line, l.col))
  }

  function LiftToken(t: Token): Tokens.Token {
    Tokens.Token(t.kind, t.value, LiftLoc(t.loc))
  }

  function LiftNode(n: DerivationNode): Lr.DerivationNode {
    Lr.DerivationNode(LiftToken(n.token), n.rule, n.children)
  }

  function LiftNodes(ns: seq<DerivationNode>): (r: seq<Lr.DerivationNode>)
    ensures |r| == |ns| && forall k :: 0 <= k < |ns| ==> r[k] == LiftNode(ns[k])
  {
    seq(|ns|, k requires 0 <= k < |ns| => LiftNode(ns[k]))
  }

  function LiftConfig(c: Config): Lr.Config {
    Lr.Config(c.stack, LiftNodes(c.nodes), LiftToken(c.lookahead), c.calls)
  }

  /** A tokenizer error as a range of one point. */
  function LiftError(e: ParseError): Tokens.SyntaxError {
    Tokens.SyntaxError(Location.FromLocation(LiftLoc(e.loc)), e.message)
  }

  function LiftLexed(x: Lexed): Tokens.Lexed {
    match x
    case Lexed(t) => Tokens.Lexed(LiftToken(t))
    case LexFailed(e) => Tokens.LexFailed(LiftError(e))
  }

  function LiftSource(next: TokenSource): Lr.TokenSource {
    (k: nat) => LiftLexed(next(k))
  }

  function LiftCursor(cursorLoc: nat -> SourceLocation): nat -> Location.SourceLocation {
    (k: nat) => LiftLoc(cursorLoc(k))
  }

  /**
   * The outcomes correspond: the same accepted root over the same arena, the same panic or
   * exhausted fuel, or a failure whose range starts where the older error is located, in the same
   * file, with the same message, except that an empty stack reads "unexpected end of input" in
   * `lexion_lib` and is empty here.
   */
  predicate Agree(lo: Outcome, o: Lr.Outcome) {
    match lo
    case Accepted(root, nodes) => o == Lr.Accepted(root, LiftNodes(nodes))
    case Panicked => o == Lr.Panicked
    case OutOfFuel => o == Lr.OutOfFuel
    case Failed(e) =>
      o.Failed? && o.error.range.file == e.loc.file && o.error.range.start == LiftLoc(e.loc).loc &&
      (o.error.message == e.message || (e.message == "" && o.error.message == Lr.END_OF_INPUT))
  }

  /** One step of each engine on corresponding configurations: the same action and a corresponding result. */
  lemma StepAgrees(rules: seq<Rule>, tab: ParseTable.Table, next: TokenSource, c: Config)
    requires |c.stack| > 0
    ensures ActionOf(rules, tab, c) == Lr.ActionOf(rules, tab, LiftConfig(c))
    ensures var r := Step(rules, tab, next, c);
            var r' := Lr.Step(rules, tab, LiftSource(next), LiftConfig(c));
            (r.Next? <==> r'.Next?) &&
            (r.Next? ==> r'.next == LiftConfig(r.next) && |r.next.stack| > 0) &&
            (r.Stop? ==> Agree(r.outcome, r'.outcome))
  {
    var a := ActionOf(rules, tab, c);
    if a.Some? {
      ApplyAgrees(rules, next, c, a.value);
    }
  }

  lemma ApplyAgrees(rules: seq<Rule>, next: TokenSource, c: Config, a: ParseTable.Action)
    requires |c.stack| > 0
    ensures var r := Apply(rules, next, c, a);
            var r' := Lr.Apply(rules, LiftSource(next), LiftConfig(c), a);
            (r.Next? <==> r'.Next?) &&
            (r.Next? ==> r'.next == LiftConfig(r.next) && |r.next.stack| > 0) &&
            (r.Stop? ==> Agree(r.outcome, r'.outcome))
  {
    match a
    case Shift(s) =>
      var leaf := DerivationNode(c.lookahead, 0, []);
      assert LiftNodes(c.nodes + [leaf]) == LiftNodes(c.nodes) + [LiftNode(leaf)];
      assert LiftSource(next)(c.calls) == LiftLexed(next(c.calls));
    case Reduce(r) =>
      if r < |rules| && 2 * Lr.ChildCount(rules[r]) <= |c.stack| {
        var base := |c.stack| - 2 * Lr.ChildCount(rules[r]);
        var ids := Lr.ChildIds(c.stack[base..]);
        if ids.Some? {
          var node := DerivationNode(Token(rules[r].left, rules[r].left, c.lookahead.loc), r, ids.value);
          assert LiftNodes(c.nodes + [node]) == LiftNodes(c.nodes) + [LiftNode(node)];
        }
      }
    case Accept =>
    case Goto(s) =>
    case Reject =>
  }

  /** Over any number of steps the two engines agree. */
  lemma {:induction false} RunAgrees(rules: seq<Rule>, tab: ParseTable.Table, next: TokenSource,
                                     cursorLoc: nat -> SourceLocation, c: Config, fuel: nat)
    ensures Agree(Run(rules, tab, next, cursorLoc, c, fuel),
                  Lr.Run(rules, tab, LiftSource(next), LiftCursor(cursorLoc), LiftConfig(c), fuel))
    decreases fuel
  {
    if |c.stack| == 0 {
      assert LiftCursor(cursorLoc)(c.calls) == LiftLoc(cursorLoc(c.calls));
    } else if fuel > 0 {
      StepAgrees(rules, tab, next, c);
      var r := Step(rules, tab, next, c);
      if r.Next? {
        RunNext(rules, tab, next, cursorLoc, c, fuel);
        Lr.RunNext(rules, tab, LiftSource(next), LiftCursor(cursorLoc), LiftConfig(c), fuel);
        RunAgrees(rules, tab, next, cursorLoc, r.next, fuel - 1);
      }
    }
  }

  /** `parse` agrees with `lexion_lib`'s on the lifted token stream. */
  lemma ParseAgrees(rules: seq<Rule>, tab: ParseTable.Table, next: TokenSource, cursorLoc: nat -> SourceLocation, fuel: nat)
    ensures Agree(Parse(rules, tab, next, cursorLoc, fuel), Lr.Parse(rules, tab, LiftSource(next), LiftCursor(cursorLoc), fuel))
  {
    assert LiftSource(next)(0) == LiftLexed(next(0));
    if next(0).Lexed? {
      var c := Config([Lr.StateItem(0)], [], next(0).token, 1);
      assert LiftConfig(c) == Lr.Config([Lr.StateItem(0)], [], LiftToken(next(0).token), 1);
      RunAgrees(rules, tab, next, cursorLoc, c, fuel);
    }
  }

  /**
   * On a well-formed table, with terminal tokens and nonterminal left sides, an accepted parse
   * gives a root inside an arena where every rule exists and every child precedes its parent.
   */
  lemma ParseAcceptedIsTree(rules: seq<Rule>, tab: ParseTable.Table, next: TokenSource,
                            cursorLoc: nat -> SourceLocation, fuel: nat)
    requires ParseTable.TableWellFormed(tab) && Lr.LeftsNonTerminal(rules)
    requires forall k :: next(k).Lexed? ==> IsTerminal(next(k).token.kind)
    ensures var o := Parse(rules, tab, next, cursorLoc, fuel);
            o.Accepted? ==> o.root < |o.nodes| &&
                            forall j :: 0 <= j < |o.nodes| ==> o.nodes[j].rule < |rules| &&
                                                               forall k :: 0 <= k < |o.nodes[j].children| ==> o.nodes[j].children[k] < j
  {
    ParseAgrees(rules, tab, next, cursorLoc, fuel);
    assert Lr.TerminalTokens(LiftSource(next)) by {
      forall k ensures LiftSource(next)(k).Lexed? ==> IsTerminal(LiftSource(next)(k).token.kind) {
        assert LiftSource(next)(k) == LiftLexed(next(k));
      }
    }
    Lr.ParseAcceptedIsTree(rules, tab, LiftSource(next), LiftCursor(cursorLoc), fuel);
  }
}
