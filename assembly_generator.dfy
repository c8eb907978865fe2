/** Lowering of the intermediate representation to the assembly tree
    (libs/codegen/include/codegen/AssemblyGenerator.h and
    libs/codegen/sources/AssemblyGenerator.cpp). The two files disagree on
    how a Return is lowered; both are kept, as the two values of
    `ReturnLowering`. */
module AsmGen {
  import opened Tokens
  import Tacky
  import Asm

  datatype ReturnLowering =
    /** The inline visit in the header: the value is moved into W0. */
    | MovToW0
    /** The out-of-line visit in the .cpp file: the value's own node is
        placed before the Ret, with no move. */
    | NoMov

  /** The `visit` overloads. Every unary operator becomes `Not`, and a
      Unary's destination is lowered twice, once for the Mov and once for
      the Unary instruction. */
  function LowerNode(t: Tacky.Node, v: ReturnLowering): (r: Asm.Node)
    ensures r.Program? <==> t.Program?
    ensures t.Function? ==> r.Function? && r.name == t.name && |r.instructions| == |t.instructions|
    ensures t.Return? || t.Unary? ==> r.Compound? && |r.instructions| == 2
    decreases t
  {
    match t
    case Program(f) => Asm.Program(LowerNode(f, v))
    case Function(name, ins) => Asm.Function(name, LowerList(ins, v))
    case Return(value) =>
      if v == MovToW0 then Asm.Compound([Asm.Mov(LowerNode(value, v), Asm.Register(Asm.W0)), Asm.Ret])
      else Asm.Compound([LowerNode(value, v), Asm.Ret])
    case Unary(_, src, dst) =>
      Asm.Compound([Asm.Mov(LowerNode(src, v), LowerNode(dst, v)), Asm.Unary(Asm.Not, LowerNode(dst, v))])
    case IntConst(n) => Asm.Literal(IntVal(n))
    case Var(x) => Asm.Pseudo(x)
  }

  /** The loop of the Function visit. */
  function LowerList(ins: seq<Tacky.Node>, v: ReturnLowering): (r: seq<Asm.Node>)
    ensures |r| == |ins|
    decreases ins
  {
    if ins == [] then [] else [LowerNode(ins[0], v)] + LowerList(ins[1..], v)
  }

  /** `generate_assembly`: the list holds the lowered program only. */
  function GenerateAssembly(program: Tacky.Node, v: ReturnLowering): (r: seq<Asm.Node>)
    ensures |r| == 1 && (r[0].Program? <==> program.Program?)
  {
    [LowerNode(program, v)]
  }

  /** A Function lowers to a Function of the same name whose instruction
      `i` is the lowering of IR instruction `i`. */
  lemma {:induction false} LowerListAt(ins: seq<Tacky.Node>, v: ReturnLowering, i: nat)
    requires i < |ins|
    ensures LowerList(ins, v)[i] == LowerNode(ins[i], v)
    decreases i
  {
    if i > 0 {
      LowerListAt(ins[1..], v, i - 1);
    }
  }

  /** No lowering ever produces a Neg. */
  lemma {:induction false} NeverNeg(t: Tacky.Node, v: ReturnLowering)
    ensures !Asm.HasNeg(LowerNode(t, v))
    decreases t, 1
  {
    match t
    case Program(f) => NeverNeg(f, v);
    case Function(_, ins) => ListNeverNeg(ins, v);
    case Return(value) =>
      NeverNeg(value, v);
      Asm.PairFacts(Asm.Mov(LowerNode(value, v), Asm.Register(Asm.W0)), Asm.Ret);
      Asm.PairFacts(LowerNode(value, v), Asm.Ret);
    case Unary(_, src, dst) =>
      NeverNeg(src, v);
      NeverNeg(dst, v);
      Asm.PairFacts(Asm.Mov(LowerNode(src, v), LowerNode(dst, v)), Asm.Unary(Asm.Not, LowerNode(dst, v)));
    case IntConst(_) =>
    case Var(_) =>
  }

  lemma {:induction false} ListNeverNeg(ins: seq<Tacky.Node>, v: ReturnLowering)
    ensures !Asm.ListHasNeg(LowerList(ins, v))
    decreases ins, 0
  {
    if ins != [] {
      NeverNeg(ins[0], v);
      ListNeverNeg(ins[1..], v);
      assert LowerList(ins, v)[1..] == LowerList(ins[1..], v);
    }
  }

  /** The pseudo-registers of the lowering are exactly the variables of
      the IR. */
  lemma {:induction false} PseudoNamesAreVars(t: Tacky.Node, v: ReturnLowering)
    ensures Asm.PseudoNames(LowerNode(t, v)) == Tacky.VarNames(t)
    decreases t, 1
  {
    match t
    case Program(f) => PseudoNamesAreVars(f, v);
    case Function(_, ins) => ListPseudoNamesAreVars(ins, v);
    case Return(value) =>
      PseudoNamesAreVars(value, v);
      Asm.PairFacts(Asm.Mov(LowerNode(value, v), Asm.Register(Asm.W0)), Asm.Ret);
      Asm.PairFacts(LowerNode(value, v), Asm.Ret);
    case Unary(_, src, dst) =>
      PseudoNamesAreVars(src, v);
      PseudoNamesAreVars(dst, v);
      Asm.PairFacts(Asm.Mov(LowerNode(src, v), LowerNode(dst, v)), Asm.Unary(Asm.Not, LowerNode(dst, v)));
    case IntConst(_) =>
    case Var(_) =>
  }

  lemma {:induction false} ListPseudoNamesAreVars(ins: seq<Tacky.Node>, v: ReturnLowering)
    ensures Asm.ListPseudoNames(LowerList(ins, v)) == Tacky.ListVarNames(ins)
    decreases ins, 0
  {
    if ins != [] {
      PseudoNamesAreVars(ins[0], v);
      ListPseudoNamesAreVars(ins[1..], v);
      assert LowerList(ins, v)[1..] == LowerList(ins[1..], v);
    }
  }

  /** The header's Return lowering with its move into W0 taken out again:
      `Compound[Mov(x, W0), Ret]` becomes `Compound[x, Ret]`, everywhere. */
  function DropMovToW0(n: Asm.Node): Asm.Node
  {
    match n
    case Compound(ins) =>
      if |ins| == 2 && ins[0].Mov? && ins[0].dst == Asm.Register(Asm.W0) && ins[1] == Asm.Ret
      then Asm.Compound([DropMovToW0(ins[0].src), Asm.Ret])
      else Asm.Compound(DropMovList(ins))
    case Program(f) => Asm.Program(DropMovToW0(f))
    case Function(name, ins) => Asm.Function(name, DropMovList(ins))
    case Mov(s, d) => Asm.Mov(DropMovToW0(s), DropMovToW0(d))
    case Unary(op, o) => Asm.Unary(op, DropMovToW0(o))
    case _ => n
  }

  function DropMovList(ins: seq<Asm.Node>): seq<Asm.Node>
  {
    if ins == [] then [] else [DropMovToW0(ins[0])] + DropMovList(ins[1..])
  }

  lemma DropMovPair(a: Asm.Node, b: Asm.Node)
    requires b != Asm.Ret
    ensures DropMovToW0(Asm.Compound([a, b])) == Asm.Compound([DropMovToW0(a), DropMovToW0(b)])
  {
    assert [a, b][1..] == [b];
    assert [b][1..] == [];
    assert DropMovList([b]) == [DropMovToW0(b)];
  }

  /** The two Return lowerings differ in the move into W0 and in nothing
      else. */
  lemma {:induction false} VariantsDifferByMov(t: Tacky.Node)
    ensures DropMovToW0(LowerNode(t, MovToW0)) == LowerNode(t, NoMov)
    decreases t, 1
  {
    match t
    case Program(f) => VariantsDifferByMov(f);
    case Function(_, ins) => ListVariantsDifferByMov(ins);
    case Return(value) => VariantsDifferByMov(value);
    case Unary(_, src, dst) =>
      VariantsDifferByMov(src);
      VariantsDifferByMov(dst);
      var m := Asm.Mov(LowerNode(src, MovToW0), LowerNode(dst, MovToW0));
      var u := Asm.Unary(Asm.Not, LowerNode(dst, MovToW0));
      DropMovPair(m, u);
    case IntConst(_) =>
    case Var(_) =>
  }

  lemma {:induction false} ListVariantsDifferByMov(ins: seq<Tacky.Node>)
    ensures DropMovList(LowerList(ins, MovToW0)) == LowerList(ins, NoMov)
    decreases ins, 0
  {
    if ins != [] {
      VariantsDifferByMov(ins[0]);
      ListVariantsDifferByMov(ins[1..]);
      assert LowerList(ins, MovToW0)[1..] == LowerList(ins[1..], MovToW0);
    }
  }

  /** `AssemblyGenerator`. */
  class AssemblyGenerator {
    const programNode: Tacky.Node
    const variant: ReturnLowering
    var instructions: seq<Asm.Node>

    constructor(programNode: Tacky.Node, variant: ReturnLowering)
      ensures this.programNode == programNode && this.variant == variant && instructions == []
    {
      this.programNode := programNode;
      this.variant := variant;
      instructions := [];
    }

    /** `generate_assembly`: the list is cleared, then gets the lowered
        program. */
    method Generate() returns (r: seq<Asm.Node>)
      modifies this
      ensures r == GenerateAssembly(programNode, variant) && instructions == r
    {
      instructions := [];
      var node := Visit(programNode);
      instructions := instructions + [node];
      r := instructions;
    }

    /** The `visit` overloads. */
    method Visit(t: Tacky.Node) returns (a: Asm.Node)
      ensures a == LowerNode(t, variant)
      decreases t
    {
      match t {
        case Program(f) =>
          var fn := Visit(f);
          a := Asm.Program(fn);
        case Function(name, ins) =>
          var lowered: seq<Asm.Node> := [];
          for i := 0 to |ins|
            invariant lowered == LowerList(ins[..i], variant)
          {
            assert ins[i] in ins;
            var node := Visit(ins[i]);
            LowerListSnoc(ins[..i], ins[i], variant);
            assert ins[..i + 1] == ins[..i] + [ins[i]];
            lowered := lowered + [node];
          }
          assert ins[..|ins|] == ins;
          a := Asm.Function(name, lowered);
        case Return(value) =>
          var lv := Visit(value);
          if variant == MovToW0 {
            var mov := Asm.Mov(lv, Asm.Register(Asm.W0));
            a := Asm.Compound([mov, Asm.Ret]);
          } else {
            a := Asm.Compound([lv, Asm.Ret]);
          }
        case Unary(_, src, dst) =>
          var s := Visit(src);
          var d := Visit(dst);
          var mov := Asm.Mov(s, d);
          var d2 := Visit(dst);
          var unary := Asm.Unary(Asm.Not, d2);
          a := Asm.Compound([mov, unary]);
        case IntConst(n) =>
          a := Asm.Literal(IntVal(n));
        case Var(x) =>
          a := Asm.Pseudo(x);
      }
    }
  }

  lemma {:induction false} LowerListSnoc(ins: seq<Tacky.Node>, t: Tacky.Node, v: ReturnLowering)
    ensures LowerList(ins + [t], v) == LowerList(ins, v) + [LowerNode(t, v)]
    decreases |ins|
  {
    if ins != [] {
      assert (ins + [t])[1..] == ins[1..] + [t];
      LowerListSnoc(ins[1..], t, v);
    } else {
      assert LowerList([t], v) == [LowerNode(t, v)] + LowerList([], v);
    }
  }
}
