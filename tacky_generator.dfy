/** Lowering of the syntax tree to the intermediate representation
    (libs/codegen/include/codegen/TackyGenerator.h). The functions thread
    the temporary counter explicitly; the `TackyGenerator` class keeps it in
    a field, as the source does, and its methods are proved to agree with
    the functions. */
module TackyGen {
  import opened Wrappers
  import opened Decimal
  import opened Tokens
  import Ast
  import Tacky

  /** `std::get<int>` on a Literal whose value is not an int throws
      `std::bad_variant_access`. */
  datatype LowerError = BadVariantAccess

  /** A lowered node together with the counter value after it. */
  datatype Lowered<T> = Lowered(node: T, next: nat)

  /** `generate_temp_name_` for counter value `k`. */
  function TempName(k: nat): (r: string)
    ensures |r| > 4 && r[..4] == "tmp." && AllDigits(r[4..])
  {
    "tmp." + NatToString(k)
  }

  /** The names `tmp.a`, ..., `tmp.(b-1)`, in that order. */
  function TempRange(a: nat, b: nat): (r: seq<string>)
    requires a <= b
    ensures |r| == b - a
    decreases b - a
  {
    if a == b then [] else [TempName(a)] + TempRange(a + 1, b)
  }

  /** The visits of the generator, from counter value `k`. */
  function LowerAt(n: Ast.Node, k: nat): (r: Result<Lowered<Tacky.Node>, LowerError>)
    ensures r.Success? <==> !Ast.HasNonIntLiteral(n)
    ensures r.Success? ==> r.value.next == k + Ast.UnaryCount(n)
    decreases n
  {
    match n
    case Program(f) =>
      (match LowerAt(f, k)
       case Failure(e) => Failure(e)
       case Success(l) => Success(Lowered(Tacky.Program(l.node), l.next)))
    case Function(name, body) =>
      (match LowerBody(body, k)
       case Failure(e) => Failure(e)
       case Success(l) => Success(Lowered(Tacky.Function(name, l.node), l.next)))
    case Return(_, e) =>
      (match LowerAt(e, k)
       case Failure(e) => Failure(e)
       case Success(l) => Success(Lowered(Tacky.Return(l.node), l.next)))
    case Unary(op, e) =>
      // The child is lowered before the temporary is named.
      (match LowerAt(e, k)
       case Failure(e) => Failure(e)
       case Success(l) => Success(Lowered(Tacky.Unary(op, l.node, Tacky.Var(TempName(l.next))), l.next + 1)))
    case Literal(v) =>
      if v.IntVal? then Success(Lowered(Tacky.IntConst(v.i), k)) else Failure(BadVariantAccess)
  }

  /** The loop of the Function visit: the statements lowered in order. */
  function LowerBody(body: seq<Ast.Node>, k: nat): (r: Result<Lowered<seq<Tacky.Node>>, LowerError>)
    ensures r.Success? <==> !Ast.BodyHasNonIntLiteral(body)
    ensures r.Success? ==> r.value.next == k + Ast.BodyUnaryCount(body) && |r.value.node| == |body|
    decreases body
  {
    if body == [] then Success(Lowered([], k))
    else
      match LowerAt(body[0], k)
      case Failure(e) => Failure(e)
      case Success(first) => PrependNode(first.node, LowerBody(body[1..], first.next))
  }

  function PrependNode(t: Tacky.Node, r: Result<Lowered<seq<Tacky.Node>>, LowerError>): Result<Lowered<seq<Tacky.Node>>, LowerError>
  {
    PrependNodes([t], r)
  }

  function PrependNodes(ts: seq<Tacky.Node>, r: Result<Lowered<seq<Tacky.Node>>, LowerError>): Result<Lowered<seq<Tacky.Node>>, LowerError>
  {
    match r
    case Failure(e) => Failure(e)
    case Success(l) => Success(Lowered(ts + l.node, l.next))
  }

  /** `generate_tacky`, on a fresh generator. */
  function GenerateTacky(program: Ast.Node): (r: Result<Tacky.Node, LowerError>)
    ensures r.Success? <==> !Ast.HasNonIntLiteral(program)
    ensures r.Success? ==> Corresponds(program, r.value) && Tacky.Temps(r.value) == TempRange(0, Ast.UnaryCount(program))
  {
    var l := LowerAt(program, 0);
    if l.Failure? then Failure(l.error)
    else
      LowerShape(program, 0, l.value);
      Success(l.value.node)
  }

  // ---------------------------------------------------------------------
  // What the lowering produces.

  /** `t` has the shape of `n`: the same constructors in the same places,
      the same names and operator tokens, a Literal's int in an IntConst,
      and a variable as the destination of every Unary. */
  predicate Corresponds(n: Ast.Node, t: Tacky.Node)
  {
    match n
    case Program(f) => t.Program? && Corresponds(f, t.fn)
    case Function(name, body) => t.Function? && t.name == name && BodyCorresponds(body, t.instructions)
    case Return(_, e) => t.Return? && Corresponds(e, t.value)
    case Unary(op, e) => t.Unary? && t.operation == op && Corresponds(e, t.src) && t.dst.Var?
    case Literal(v) => v.IntVal? && t == Tacky.IntConst(v.i)
  }

  predicate BodyCorresponds(body: seq<Ast.Node>, ins: seq<Tacky.Node>)
  {
    |body| == |ins| && (body != [] ==> Corresponds(body[0], ins[0]) && BodyCorresponds(body[1..], ins[1..]))
  }

  lemma TempRangeAppend(a: nat, b: nat, c: nat)
    requires a <= b <= c
    ensures TempRange(a, b) + TempRange(b, c) == TempRange(a, c)
    decreases b - a
  {
    if a < b {
      TempRangeAppend(a + 1, b, c);
    }
  }

  /** A successful lowering from counter `k` keeps the shape of the tree
      and writes the temporaries `tmp.k`, `tmp.(k+1)`, ... in the order the
      Unary nodes are finished, innermost first. */
  lemma {:induction false} LowerShape(n: Ast.Node, k: nat, l: Lowered<Tacky.Node>)
    requires LowerAt(n, k) == Success(l)
    ensures Corresponds(n, l.node)
    ensures Tacky.Temps(l.node) == TempRange(k, l.next)
    decreases n, 1
  {
    match n
    case Program(f) =>
      LowerShape(f, k, LowerAt(f, k).value);
    case Function(name, body) =>
      LowerBodyShape(body, k, LowerBody(body, k).value);
    case Return(_, e) =>
      LowerShape(e, k, LowerAt(e, k).value);
    case Unary(op, e) =>
      var inner := LowerAt(e, k).value;
      LowerShape(e, k, inner);
      TempRangeAppend(k, inner.next, inner.next + 1);
    case Literal(v) =>
  }

  lemma {:induction false} LowerBodyShape(body: seq<Ast.Node>, k: nat, l: Lowered<seq<Tacky.Node>>)
    requires LowerBody(body, k) == Success(l)
    ensures BodyCorresponds(body, l.node)
    ensures Tacky.ListTemps(l.node) == TempRange(k, l.next)
    decreases body, 0
  {
    if body != [] {
      var first := LowerAt(body[0], k).value;
      var rest := LowerBody(body[1..], first.next).value;
      LowerShape(body[0], k, first);
      LowerBodyShape(body[1..], first.next, rest);
      assert l.node == [first.node] + rest.node;
      assert l.node[1..] == rest.node;
      TempRangeAppend(k, first.next, l.next);
    }
  }

  /** Temporaries are never named twice. */
  lemma TempNamesDistinct(a: nat, b: nat, i: nat, j: nat)
    requires a <= b && i < j < b - a
    ensures TempRange(a, b)[i] != TempRange(a, b)[j]
  {
    TempRangeAt(a, b, i);
    TempRangeAt(a, b, j);
    if TempName(a + i) == TempName(a + j) {
      assert NatToString(a + i) == TempName(a + i)[4..];
      assert NatToString(a + j) == TempName(a + j)[4..];
      NatToStringInjective(a + i, a + j);
    }
  }

  lemma {:induction false} TempRangeAt(a: nat, b: nat, i: nat)
    requires a <= b && i < b - a
    ensures TempRange(a, b)[i] == TempName(a + i)
    decreases b - a
  {
    if i > 0 {
      TempRangeAt(a + 1, b, i - 1);
    }
  }

  /** A fresh generator names its temporaries `tmp.0`, `tmp.1`, ..., one
      per Unary node, all different. */
  lemma GenerateTackyTemps(program: Ast.Node, t: Tacky.Node)
    requires GenerateTacky(program) == Success(t)
    ensures Corresponds(program, t)
    ensures Tacky.Temps(t) == TempRange(0, Ast.UnaryCount(program))
    ensures forall i, j :: 0 <= i < j < |Tacky.Temps(t)| ==> Tacky.Temps(t)[i] != Tacky.Temps(t)[j]
  {
    forall i, j | 0 <= i < j < |Tacky.Temps(t)| ensures Tacky.Temps(t)[i] != Tacky.Temps(t)[j] {
      TempNamesDistinct(0, Ast.UnaryCount(program), i, j);
    }
  }

  lemma {:induction false} BodyCorrespondsAt(body: seq<Ast.Node>, ins: seq<Tacky.Node>, k: nat)
    requires BodyCorresponds(body, ins) && k < |body|
    ensures Corresponds(body[k], ins[k])
    decreases k
  {
    if k > 0 {
      BodyCorrespondsAt(body[1..], ins[1..], k - 1);
    }
  }

  lemma {:induction false} ExprCorresponds(e: Ast.Node, t: Tacky.Node)
    requires Ast.IsExpr(e) && Corresponds(e, t)
    ensures Tacky.IsExpr(t)
    decreases e
  {
    if e.Unary? {
      ExprCorresponds(e.expr, t.src);
    }
  }

  /** A program of the parser's shape lowers to a program of the same
      shape: a Function of Returns of expressions. */
  lemma GeneratedIsProgram(program: Ast.Node, t: Tacky.Node)
    requires Ast.IsProgram(program) && GenerateTacky(program) == Success(t)
    ensures Tacky.IsProgram(t)
    ensures t.fn.name == program.fn.name && |t.fn.instructions| == |program.fn.body|
  {
    GenerateTackyTemps(program, t);
    var body := program.fn.body;
    var ins := t.fn.instructions;
    forall k | 0 <= k < |ins| ensures ins[k].Return? && Tacky.IsExpr(ins[k].value) {
      BodyCorrespondsAt(body, ins, k);
      ExprCorresponds(body[k].expr, ins[k].value);
    }
  }

  /** The Function visit lowers statement `i` from the counter left by the
      statements before it, and the statements keep their order. */
  lemma {:induction false} LowerBodyAt(body: seq<Ast.Node>, k: nat, l: Lowered<seq<Tacky.Node>>, i: nat)
    requires LowerBody(body, k) == Success(l) && i < |body|
    ensures LowerAt(body[i], k + Ast.BodyUnaryCount(body[..i])) == Success(Lowered(l.node[i], k + Ast.BodyUnaryCount(body[..i + 1])))
    decreases i
  {
    var first := LowerAt(body[0], k).value;
    if i == 0 {
      assert body[..1] == [body[0]];
      assert body[..0] == [];
    } else {
      var rest := LowerBody(body[1..], first.next).value;
      LowerBodyAt(body[1..], first.next, rest, i - 1);
      assert body[..i][1..] == body[1..][..i - 1];
      assert body[..i + 1][1..] == body[1..][..i];
      assert l.node[i] == rest.node[i - 1];
    }
  }

  /** A tree of the lowered shape holds one temporary per Unary node. */
  lemma {:induction false} TempCount(n: Ast.Node, t: Tacky.Node)
    requires Corresponds(n, t)
    ensures |Tacky.Temps(t)| == Ast.UnaryCount(n)
    decreases n, 1
  {
    match n
    case Program(f) => TempCount(f, t.fn);
    case Function(_, body) => BodyTempCount(body, t.instructions);
    case Return(_, e) => TempCount(e, t.value);
    case Unary(_, e) => TempCount(e, t.src);
    case Literal(_) =>
  }

  lemma {:induction false} BodyTempCount(body: seq<Ast.Node>, ins: seq<Tacky.Node>)
    requires BodyCorresponds(body, ins)
    ensures |Tacky.ListTemps(ins)| == Ast.BodyUnaryCount(body)
    decreases body, 0
  {
    if body != [] {
      TempCount(body[0], ins[0]);
      BodyTempCount(body[1..], ins[1..]);
    }
  }

  lemma SplitAppend<T>(a: seq<T>, b: seq<T>, c: seq<T>, d: seq<T>)
    requires a + b == c + d && |a| == |c|
    ensures a == c && b == d
  {
    assert a == (a + b)[..|a|] && c == (c + d)[..|c|];
    assert b == (a + b)[|a|..] && d == (c + d)[|c|..];
  }

  /** The Unary visit, once its child is lowered. */
  lemma LowerUnaryStep(n: Ast.Node, k: nat, l: Lowered<Tacky.Node>)
    requires n.Unary? && LowerAt(n.expr, k) == Success(l)
    ensures LowerAt(n, k) == Success(Lowered(Tacky.Unary(n.operation, l.node, Tacky.Var(TempName(l.next))), l.next + 1))
  {
  }

  /** One statement of the Function visit, in front of the rest. */
  lemma LowerBodyStep(body: seq<Ast.Node>, k: nat, first: Lowered<Tacky.Node>, rest: Lowered<seq<Tacky.Node>>)
    requires body != [] && LowerAt(body[0], k) == Success(first)
    requires LowerBody(body[1..], first.next) == Success(rest)
    ensures LowerBody(body, k) == Success(Lowered([first.node] + rest.node, rest.next))
  {
  }

  lemma SplitTempRange(x: seq<string>, y: seq<string>, a: nat, b: nat, c: nat)
    requires a <= b <= c && |x| == b - a && x + y == TempRange(a, c)
    ensures x == TempRange(a, b) && y == TempRange(b, c)
  {
    TempRangeAppend(a, b, c);
    SplitAppend(x, y, TempRange(a, b), TempRange(b, c));
  }

  /** Conversely, the lowering from counter `k` is the only tree of the
      lowered shape whose temporaries are `tmp.k`, `tmp.(k+1)`, ... in
      order. */
  lemma {:induction false} LowerComplete(n: Ast.Node, k: nat, t: Tacky.Node)
    requires Corresponds(n, t) && Tacky.Temps(t) == TempRange(k, k + Ast.UnaryCount(n))
    ensures LowerAt(n, k) == Success(Lowered(t, k + Ast.UnaryCount(n)))
    decreases n, 1
  {
    match n
    case Program(f) => LowerComplete(f, k, t.fn);
    case Function(_, body) => LowerBodyComplete(body, k, t.instructions);
    case Return(_, e) => LowerComplete(e, k, t.value);
    case Unary(_, e) => LowerCompleteUnary(n, k, t);
    case Literal(_) =>
  }

  lemma {:induction false} LowerCompleteUnary(n: Ast.Node, k: nat, t: Tacky.Node)
    requires n.Unary? && Corresponds(n, t) && Tacky.Temps(t) == TempRange(k, k + Ast.UnaryCount(n))
    ensures LowerAt(n, k) == Success(Lowered(t, k + Ast.UnaryCount(n)))
    decreases n, 0
  {
    var m := k + Ast.UnaryCount(n.expr);
    TempCount(n.expr, t.src);
    SplitTempRange(Tacky.Temps(t.src), [t.dst.varName], k, m, m + 1);
    assert TempRange(m, m + 1) == [TempName(m)];
    LowerComplete(n.expr, k, t.src);
    LowerUnaryStep(n, k, Lowered(t.src, m));
    assert t == Tacky.Unary(t.operation, t.src, Tacky.Var(TempName(m)));
  }

  lemma {:induction false} LowerBodyComplete(body: seq<Ast.Node>, k: nat, ins: seq<Tacky.Node>)
    requires BodyCorresponds(body, ins) && Tacky.ListTemps(ins) == TempRange(k, k + Ast.BodyUnaryCount(body))
    ensures LowerBody(body, k) == Success(Lowered(ins, k + Ast.BodyUnaryCount(body)))
    decreases body, 0
  {
    if body != [] {
      var m := k + Ast.UnaryCount(body[0]);
      TempCount(body[0], ins[0]);
      SplitTempRange(Tacky.Temps(ins[0]), Tacky.ListTemps(ins[1..]), k, m, k + Ast.BodyUnaryCount(body));
      LowerComplete(body[0], k, ins[0]);
      LowerBodyComplete(body[1..], m, ins[1..]);
      LowerBodyStep(body, k, Lowered(ins[0], m), Lowered(ins[1..], k + Ast.BodyUnaryCount(body)));
      assert ins == [ins[0]] + ins[1..];
    }
  }

  /** Together: the lowering of `n` from counter `k` is exactly the tree
      of `n`'s shape that writes `tmp.k`, ..., `tmp.(k+u-1)` in order,
      where `u` is the number of Unary nodes of `n`. */
  lemma LowerIsCorresponds(n: Ast.Node, k: nat, t: Tacky.Node)
    ensures LowerAt(n, k) == Success(Lowered(t, k + Ast.UnaryCount(n))) <==>
      Corresponds(n, t) && Tacky.Temps(t) == TempRange(k, k + Ast.UnaryCount(n))
  {
    if LowerAt(n, k) == Success(Lowered(t, k + Ast.UnaryCount(n))) {
      LowerShape(n, k, Lowered(t, k + Ast.UnaryCount(n)));
    }
    if Corresponds(n, t) && Tacky.Temps(t) == TempRange(k, k + Ast.UnaryCount(n)) {
      LowerComplete(n, k, t);
    }
  }

  // ---------------------------------------------------------------------
  // The generator object.

  predicate Agrees<T(==)>(r: Result<T, LowerError>, s: Result<Lowered<T>, LowerError>, counter: nat)
  {
    match s
    case Success(l) => r == Success(l.node) && counter == l.next
    case Failure(e) => r == Failure(e)
  }

  class TackyGenerator {
    const programNode: Ast.Node
    /** `curr_tmp_num_`. */
    var currTmpNum: nat

    constructor(programNode: Ast.Node)
      ensures this.programNode == programNode && currTmpNum == 0
    {
      this.programNode := programNode;
      currTmpNum := 0;
    }

    /** `generate_tacky`. */
    method Generate() returns (r: Result<Tacky.Node, LowerError>)
      modifies this
      ensures Agrees(r, LowerAt(programNode, old(currTmpNum)), currTmpNum)
    {
      r := Visit(programNode);
    }

    /** `generate_temp_name_`: the counter is read, then incremented. */
    method GenerateTempName() returns (name: string)
      modifies this
      ensures name == TempName(old(currTmpNum)) && currTmpNum == old(currTmpNum) + 1
    {
      name := "tmp." + NatToString(currTmpNum);
      currTmpNum := currTmpNum + 1;
    }

    /** The `visit` overloads, chosen by the node's kind. */
    method Visit(n: Ast.Node) returns (r: Result<Tacky.Node, LowerError>)
      modifies this
      ensures Agrees(r, LowerAt(n, old(currTmpNum)), currTmpNum)
      decreases n
    {
      match n {
        case Program(f) =>
          var fn :- Visit(f);
          return Success(Tacky.Program(fn));
        case Function(name, body) =>
          var instructions: seq<Tacky.Node> := [];
          ghost var start := currTmpNum;
          assert body[0..] == body;
          PrependNoNodes(LowerBody(body, start));
          for i := 0 to |body|
            invariant LowerBody(body, start) == PrependNodes(instructions, LowerBody(body[i..], currTmpNum))
          {
            assert body[i] in body;
            ghost var before := currTmpNum;
            assert body[i..][1..] == body[i + 1..];
            var ins :- Visit(body[i]);
            PrependNodesTwice(instructions, ins, LowerBody(body[i + 1..], currTmpNum));
            instructions := instructions + [ins];
          }
          assert instructions + [] == instructions;
          return Success(Tacky.Function(name, instructions));
        case Return(_, e) =>
          var value :- Visit(e);
          return Success(Tacky.Return(value));
        case Unary(op, e) =>
          var src :- Visit(e);
          var dstName := GenerateTempName();
          return Success(Tacky.Unary(op, src, Tacky.Var(dstName)));
        case Literal(v) =>
          if !v.IntVal? {
            return Failure(BadVariantAccess);
          }
          return Success(Tacky.IntConst(v.i));
      }
    }
  }

  lemma PrependNodesTwice(done: seq<Tacky.Node>, t: Tacky.Node, r: Result<Lowered<seq<Tacky.Node>>, LowerError>)
    ensures PrependNodes(done, PrependNode(t, r)) == PrependNodes(done + [t], r)
  {
    if r.Success? {
      assert done + ([t] + r.value.node) == (done + [t]) + r.value.node;
    }
  }

  lemma PrependNoNodes(r: Result<Lowered<seq<Tacky.Node>>, LowerError>)
    ensures PrependNodes([], r) == r
  {
    if r.Success? {
      assert [] + r.value.node == r.value.node;
    }
  }
}
