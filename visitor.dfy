/** The statements and expressions of `lexion_lang`'s syntax tree. */
module Ast {
  import opened Wrappers
  import Types

  datatype Lit =
    | Integer(i: int)
    /** A float literal, kept as its text: its floating-point value is not modelled. */
    | Float(text: string)
    | String(s: string)
    | Boolean(b: bool)

  datatype Expr =
    | NoneExpr
    | UnaryExpr(operator: string, operand: Expr)
    | BinaryExpr(operator: string, left: Expr, right: Expr)
    | TernaryExpr(operator: string, first: Expr, second: Expr, third: Expr)
    | CallExpr(callee: Expr, args: seq<Expr>)
    | IdentExpr(ident: string)
    | LitExpr(lit: Lit)

  datatype Param = Param(name: string, ty: Types.Type)

  datatype VarDecl = VarDecl(name: string, ty: Option<Types.Type>, init: Option<Expr>)

  datatype Block = Block(stmts: seq<Stmt>)

  datatype Stmt =
    | FuncDeclStmt(name: string, params: seq<Param>, ty: Option<Types.Type>, body: Option<Block>)
    | BlockStmt(block: Block)
    | VarDeclStmt(decls: seq<VarDecl>)
    | ExprStmt(expr: Expr)
}

/**
 * `ASTVisitor`: a walk that calls the caller's callback before and after every statement and
 * expression it reaches. The callback's effect is the caller's business, so the walk is modelled
 * by the sequence of calls it makes.
 */
module Visitor {
  import opened Wrappers
  import opened Ast

  datatype Node = StmtNode(stmt: Stmt) | ExprNode(expr: Expr)

  datatype TraversalType = Preorder | Postorder

  /** One call of the callback. */
  datatype Event = Event(traversal: TraversalType, node: Node)

  /** The events of several walks, one after the other. */
  function Flatten(parts: seq<seq<Event>>): (r: seq<Event>) {
    if |parts| == 0 then [] else parts[0] + Flatten(parts[1..])
  }

  /**
   * `visit_expr`: the preorder call, the operands' walks (a call's callee before its arguments),
   * and the postorder call.
   */
  function VisitExpr(e: Expr): seq<Event>
    decreases e, 0
  {
    var children :=
      match e
      case UnaryExpr(_, operand) => VisitExpr(operand)
      case BinaryExpr(_, left, right) => VisitExpr(left) + VisitExpr(right)
      case TernaryExpr(_, first, second, third) => VisitExpr(first) + VisitExpr(second) + VisitExpr(third)
      case CallExpr(callee, args) =>
        VisitExpr(callee) + Flatten(ExprWalks(args))
      case _ => [];
    [Event(Preorder, ExprNode(e))] + children + [Event(Postorder, ExprNode(e))]
  }

  /**
   * `visit_stmt`: the preorder call, the walks of a block's statements, of a function body's
   * statements or of an expression statement's expression, and the postorder call.
   */
  function VisitStmt(s: Stmt): seq<Event>
    decreases s, 0
  {
    var children :=
      match s
      case FuncDeclStmt(_, _, _, body) =>
        if body.Some? then Flatten(StmtWalks(body.value.stmts)) else []
      case BlockStmt(b) => Flatten(StmtWalks(b.stmts))
      case ExprStmt(e) => VisitExpr(e)
      case VarDeclStmt(_) => [];
    [Event(Preorder, StmtNode(s))] + children + [Event(Postorder, StmtNode(s))]
  }

  /** The walks of several expressions, one per expression. */
  function ExprWalks(es: seq<Expr>): (r: seq<seq<Event>>)
    ensures |r| == |es|
    decreases es, 1
  {
    seq(|es|, i requires 0 <= i < |es| => VisitExpr(es[i]))
  }

  /** The walks of several statements, one per statement. */
  function StmtWalks(ss: seq<Stmt>): (r: seq<seq<Event>>)
    ensures |r| == |ss|
    decreases ss, 1
  {
    seq(|ss|, i requires 0 <= i < |ss| => VisitStmt(ss[i]))
  }

  /** `visit`: the walks of the top-level statements, in order. */
  function Visit(ast: seq<Stmt>): seq<Event> {
    Flatten(StmtWalks(ast))
  }

  /**
   * Replaying calls against a stack of open nodes: a preorder call opens its node, a postorder
   * call must close the innermost open node. `None` when one does not.
   */
  function Replay(open: seq<Node>, events: seq<Event>): Option<seq<Node>>
    decreases |events|
  {
    if |events| == 0 then Some(open)
    else
      var e := events[0];
      if e.traversal == Preorder then Replay(open + [e.node], events[1..])
      else if |open| > 0 && open[|open| - 1] == e.node then Replay(open[..|open| - 1], events[1..])
      else None
  }

  lemma {:induction false} ReplayAppend(open: seq<Node>, a: seq<Event>, b: seq<Event>)
    ensures Replay(open, a + b) == if Replay(open, a).Some? then Replay(Replay(open, a).value, b) else None
    decreases |a|
  {
    if |a| == 0 {
      assert a + b == b;
    } else {
      assert (a + b)[0] == a[0] && (a + b)[1..] == a[1..] + b;
      var e := a[0];
      if e.traversal == Preorder {
        ReplayAppend(open + [e.node], a[1..], b);
      } else if |open| > 0 && open[|open| - 1] == e.node {
        ReplayAppend(open[..|open| - 1], a[1..], b);
      }
    }
  }

  /** Walks that each close what they open, one after the other, close what they open. */
  lemma {:induction false} FlattenNested(open: seq<Node>, parts: seq<seq<Event>>)
    requires forall i :: 0 <= i < |parts| ==> Replay(open, parts[i]) == Some(open)
    ensures Replay(open, Flatten(parts)) == Some(open)
    decreases |parts|
  {
    if |parts| > 0 {
      ReplayAppend(open, parts[0], Flatten(parts[1..]));
      FlattenNested(open, parts[1..]);
    }
  }

  /** A walk bracketed by a node's two calls. */
  lemma Bracket(open: seq<Node>, n: Node, children: seq<Event>)
    requires Replay(open + [n], children) == Some(open + [n])
    ensures Replay(open, [Event(Preorder, n)] + children + [Event(Postorder, n)]) == Some(open)
  {
    var pre, post := [Event(Preorder, n)], [Event(Postorder, n)];
    ReplayAppend(open, pre + children, post);
    ReplayAppend(open, pre, children);
    assert (open + [n])[..|open + [n]| - 1] == open;
  }

  /**
   * The calls of an expression's walk are properly nested: whatever nodes are open before it, each
   * postorder call closes the innermost open node and the walk ends with the same nodes open.
   */
  lemma {:induction false} ExprNested(open: seq<Node>, e: Expr)
    ensures Replay(open, VisitExpr(e)) == Some(open)
    decreases e
  {
    var inner := open + [ExprNode(e)];
    match e {
      case UnaryExpr(_, operand) =>
        ExprNested(inner, operand);
      case BinaryExpr(_, left, right) =>
        ExprNested(inner, left);
        ExprNested(inner, right);
        ReplayAppend(inner, VisitExpr(left), VisitExpr(right));
      case TernaryExpr(_, first, second, third) =>
        ExprNested(inner, first);
        ExprNested(inner, second);
        ExprNested(inner, third);
        ReplayAppend(inner, VisitExpr(first), VisitExpr(second));
        ReplayAppend(inner, VisitExpr(first) + VisitExpr(second), VisitExpr(third));
      case CallExpr(callee, args) =>
        var parts := ExprWalks(args);
        forall i | 0 <= i < |args|
          ensures Replay(inner, parts[i]) == Some(inner)
        {
          ExprNested(inner, args[i]);
        }
        FlattenNested(inner, parts);
        ExprNested(inner, callee);
        ReplayAppend(inner, VisitExpr(callee), Flatten(parts));
      case _ =>
    }
    Bracket(open, ExprNode(e), VisitExpr(e)[1..|VisitExpr(e)| - 1]);
    assert VisitExpr(e) == [Event(Preorder, ExprNode(e))] + VisitExpr(e)[1..|VisitExpr(e)| - 1] + [Event(Postorder, ExprNode(e))];
  }

  /** The walks of several statements, for the same open nodes, each close what they open. */
  lemma StmtsNested(open: seq<Node>, stmts: seq<Stmt>)
    ensures Replay(open, Flatten(StmtWalks(stmts))) == Some(open)
    decreases stmts, 1
  {
    var parts := StmtWalks(stmts);
    forall i | 0 <= i < |stmts|
      ensures Replay(open, parts[i]) == Some(open)
    {
      StmtNested(open, stmts[i]);
    }
    FlattenNested(open, parts);
  }

  /** The calls of a statement's walk are properly nested, as for expressions. */
  lemma {:induction false} StmtNested(open: seq<Node>, s: Stmt)
    ensures Replay(open, VisitStmt(s)) == Some(open)
    decreases s, 0
  {
    var inner := open + [StmtNode(s)];
    var pre, post := [Event(Preorder, StmtNode(s))], [Event(Postorder, StmtNode(s))];
    match s {
      case FuncDeclStmt(_, _, _, body) =>
        if body.Some? {
          var ss := body.value.stmts;
          var c := Flatten(StmtWalks(ss));
          StmtsNested(inner, ss);
          assert VisitStmt(s) == pre + c + post;
          Bracket(open, StmtNode(s), c);
        } else {
          assert VisitStmt(s) == pre + [] + post;
          Bracket(open, StmtNode(s), []);
        }
      case BlockStmt(b) =>
        var c := Flatten(StmtWalks(b.stmts));
        StmtsNested(inner, b.stmts);
        assert VisitStmt(s) == pre + c + post;
        Bracket(open, StmtNode(s), c);
      case ExprStmt(e) =>
        ExprNested(inner, e);
        assert VisitStmt(s) == pre + VisitExpr(e) + post;
        Bracket(open, StmtNode(s), VisitExpr(e));
      case VarDeclStmt(_) =>
        assert VisitStmt(s) == pre + [] + post;
        Bracket(open, StmtNode(s), []);
    }
  }

  /**
   * A whole walk is properly nested: starting with nothing open, every postorder call closes the
   * innermost node still open, and nothing is left open at the end.
   */
  lemma VisitNested(ast: seq<Stmt>)
    ensures Replay([], Visit(ast)) == Some([])
  {
    StmtsNested([], ast);
  }

  /** A function's body block gets no calls of its own: the function's walk is the block's with the block's own two calls replaced by the function's. */
  lemma FunctionBodyHasNoEvents(name: string, params: seq<Param>, ty: Option<Types.Type>, body: Block)
    ensures var f, b := VisitStmt(FuncDeclStmt(name, params, ty, Some(body))), VisitStmt(BlockStmt(body));
            |f| == |b| && f[1..|f| - 1] == b[1..|b| - 1]
  {
  }

  /** A variable declaration's walk is its two calls alone: initialisers are not walked. */
  lemma VarDeclHasNoChildren(decls: seq<VarDecl>)
    ensures VisitStmt(VarDeclStmt(decls)) == [Event(Preorder, StmtNode(VarDeclStmt(decls))), Event(Postorder, StmtNode(VarDeclStmt(decls)))]
  {
  }

  /** A leaf expression's walk is its two calls alone. */
  lemma LeafExprs(ident: string, lit: Lit)
    ensures |VisitExpr(NoneExpr)| == 2 && |VisitExpr(IdentExpr(ident))| == 2 && |VisitExpr(LitExpr(lit))| == 2
  {
  }

  /** Every walk starts with the node's preorder call and ends with its postorder call. */
  lemma WalkBrackets(s: Stmt, e: Expr)
    ensures |VisitStmt(s)| >= 2 && VisitStmt(s)[0] == Event(Preorder, StmtNode(s)) && VisitStmt(s)[|VisitStmt(s)| - 1] == Event(Postorder, StmtNode(s))
    ensures |VisitExpr(e)| >= 2 && VisitExpr(e)[0] == Event(Preorder, ExprNode(e)) && VisitExpr(e)[|VisitExpr(e)| - 1] == Event(Postorder, ExprNode(e))
  {
  }
}
