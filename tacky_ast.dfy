/** The intermediate representation (libs/codegen/include/codegen/TackyAst.h).
    As in the syntax tree, every child is a `TackyNode::PtrType`, so a
    Unary's source may itself be a Unary. */
module Tacky {
  import opened Tokens

  datatype Node =
    | Program(fn: Node)
    | Function(name: Token, instructions: seq<Node>)
    | Return(value: Node)
    | Unary(operation: Token, src: Node, dst: Node)
    | IntConst(n: int)
    | Var(varName: string)

  /** The names written by the Unary nodes of a tree: the source's names
      first, then the node's own destination. */
  function Temps(t: Node): seq<string>
  {
    match t
    case Program(f) => Temps(f)
    case Function(_, ins) => ListTemps(ins)
    case Return(v) => Temps(v)
    case Unary(_, s, d) => Temps(s) + (if d.Var? then [d.varName] else [])
    case IntConst(_) => []
    case Var(_) => []
  }

  function ListTemps(ins: seq<Node>): seq<string>
  {
    if ins == [] then [] else Temps(ins[0]) + ListTemps(ins[1..])
  }

  /** The variable names anywhere in the tree. */
  function VarNames(t: Node): set<string>
  {
    match t
    case Program(f) => VarNames(f)
    case Function(_, ins) => ListVarNames(ins)
    case Return(v) => VarNames(v)
    case Unary(_, s, d) => VarNames(s) + VarNames(d)
    case IntConst(_) => {}
    case Var(x) => {x}
  }

  function ListVarNames(ins: seq<Node>): set<string>
  {
    if ins == [] then {} else VarNames(ins[0]) + ListVarNames(ins[1..])
  }

  /** An expression as the lowering builds it: an IntConst under zero or
      more Unary nodes, each writing a Var. */
  predicate IsExpr(t: Node)
  {
    match t
    case Unary(_, s, d) => d.Var? && IsExpr(s)
    case IntConst(_) => true
    case _ => false
  }

  /** A program as the lowering builds it: one Function whose
      instructions are all Returns of expressions. */
  predicate IsProgram(t: Node)
  {
    t.Program? && t.fn.Function? &&
    forall k :: 0 <= k < |t.fn.instructions| ==> t.fn.instructions[k].Return? && IsExpr(t.fn.instructions[k].value)
  }
}
