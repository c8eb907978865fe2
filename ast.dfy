/** The abstract syntax tree (libs/parser/include/parser/Ast.h). Every child
    is an `AstNode::PtrType`, so any kind of node can stand in any child
    position; the visitor's `dynamic_cast` chain becomes `match`. */
module Ast {
  import opened Tokens

  datatype Node =
    | Program(fn: Node)
    | Function(name: Token, body: seq<Node>)
    | Return(token: Token, expr: Node)
    | Unary(operation: Token, expr: Node)
    | Literal(value: Value)

  /** Number of Unary nodes anywhere in a tree. */
  function UnaryCount(n: Node): nat
  {
    match n
    case Program(f) => UnaryCount(f)
    case Function(_, body) => BodyUnaryCount(body)
    case Return(_, e) => UnaryCount(e)
    case Unary(_, e) => 1 + UnaryCount(e)
    case Literal(_) => 0
  }

  function BodyUnaryCount(body: seq<Node>): nat
  {
    if body == [] then 0 else UnaryCount(body[0]) + BodyUnaryCount(body[1..])
  }

  /** Whether some Literal of the tree holds a value other than an int. */
  predicate HasNonIntLiteral(n: Node)
  {
    match n
    case Program(f) => HasNonIntLiteral(f)
    case Function(_, body) => BodyHasNonIntLiteral(body)
    case Return(_, e) => HasNonIntLiteral(e)
    case Unary(_, e) => HasNonIntLiteral(e)
    case Literal(v) => !v.IntVal?
  }

  predicate BodyHasNonIntLiteral(body: seq<Node>)
  {
    body != [] && (HasNonIntLiteral(body[0]) || BodyHasNonIntLiteral(body[1..]))
  }

  /** An expression as the parser builds it: a Literal under zero or more
      Unary nodes. */
  predicate IsExpr(n: Node)
  {
    match n
    case Unary(_, e) => IsExpr(e)
    case Literal(_) => true
    case _ => false
  }

  /** A program as the parser builds it: one Function whose statements
      are all Returns of expressions. */
  predicate IsProgram(n: Node)
  {
    n.Program? && n.fn.Function? &&
    forall k :: 0 <= k < |n.fn.body| ==> n.fn.body[k].Return? && IsExpr(n.fn.body[k].expr)
  }
}
