/** The assembly tree (libs/codegen/include/codegen/AssemblerAst.h). Any
    node may stand as an operand, so the tree is a single sum type. */
module Asm {
  import opened Tokens

  /** `RegisterInstructionNode::Register`: the only register is W0. */
  datatype Reg = W0

  /** `UnaryInstructionNode::Operator`. */
  datatype UnaryOperator = Neg | Not

  datatype Node =
    | Compound(instructions: seq<Node>)
    | Program(fn: Node)
    | Function(name: Token, instructions: seq<Node>)
    | Mov(src: Node, dst: Node)
    | Ret
    | Literal(value: Value)
    | Register(which: Reg)
    | Unary(op: UnaryOperator, operand: Node)
    | AllocateStack(size: int := 0)
    | DeAllocateStack(size: int := 0)
    | Pseudo(identifier: string)
    | Stack(offset: int := 0)
    | Store(stackOffset: int)

  /** Whether a Neg instruction occurs anywhere in the tree. */
  predicate HasNeg(n: Node)
  {
    match n
    case Compound(ins) => ListHasNeg(ins)
    case Program(f) => HasNeg(f)
    case Function(_, ins) => ListHasNeg(ins)
    case Mov(s, d) => HasNeg(s) || HasNeg(d)
    case Unary(op, o) => op == Neg || HasNeg(o)
    case _ => false
  }

  predicate ListHasNeg(ins: seq<Node>)
  {
    ins != [] && (HasNeg(ins[0]) || ListHasNeg(ins[1..]))
  }

  /** The identifiers of the pseudo-registers anywhere in the tree. */
  function PseudoNames(n: Node): set<string>
  {
    match n
    case Compound(ins) => ListPseudoNames(ins)
    case Program(f) => PseudoNames(f)
    case Function(_, ins) => ListPseudoNames(ins)
    case Mov(s, d) => PseudoNames(s) + PseudoNames(d)
    case Unary(_, o) => PseudoNames(o)
    case Pseudo(x) => {x}
    case _ => {}
  }

  function ListPseudoNames(ins: seq<Node>): set<string>
  {
    if ins == [] then {} else PseudoNames(ins[0]) + ListPseudoNames(ins[1..])
  }

  /** A two-instruction compound (every Compound the lowering builds). */
  lemma PairFacts(a: Node, b: Node)
    ensures ListHasNeg([a, b]) == (HasNeg(a) || HasNeg(b))
    ensures ListPseudoNames([a, b]) == PseudoNames(a) + PseudoNames(b)
  {
    assert [a, b][1..] == [b];
    assert [b][1..] == [];
    assert ListHasNeg([b]) == HasNeg(b);
    assert ListPseudoNames([b]) == PseudoNames(b);
  }
}
