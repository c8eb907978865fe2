/** The compiler from end to end: scanning, parsing, lowering to the
    intermediate representation, lowering to assembly, the
    pseudo-register pass and the fix-instructions pass, each fed the
    previous one's result, with the frame size the pseudo-register pass
    returns handed to the fix pass. */
module Pipeline {
  import opened Wrappers
  import Tokens
  import Scanner
  import Ast
  import Parser
  import Tacky
  import TackyGen
  import Asm
  import AsmGen
  import PseudoPass
  import FixPass

  /** The stage that failed, with its own error. */
  datatype CompileError =
    | ScanFailed(scanError: Scanner.ScanError)
    | ParseFailed(parseError: Parser.ParseError)
    | LowerFailed(lowerError: TackyGen.LowerError)
    | FixFailed(fixError: FixPass.FixError)

  /** The offsets list the pseudo-register pass ends with. */
  function Frame(t: Tacky.Node, v: AsmGen.ReturnLowering): PseudoPass.Table
  {
    PseudoPass.AllocList(AsmGen.GenerateAssembly(t, v), []).offsets
  }

  /** The back end: assembly generation, the pseudo-register pass from an
      empty offsets list, then the fix pass with the frame size the
      pseudo-register pass returned. */
  function Backend(t: Tacky.Node, v: AsmGen.ReturnLowering): (r: Result<seq<Asm.Node>, FixPass.FixError>)
    ensures r.Success? ==> |r.value| == 1
  {
    var pass := PseudoPass.AllocList(AsmGen.GenerateAssembly(t, v), []);
    FixPass.FixList(pass.value, PseudoPass.FrameSize(pass.offsets))
  }

  function Compile(source: string, v: AsmGen.ReturnLowering): (r: Result<seq<Asm.Node>, CompileError>)
    ensures r.Success? ==> Scanner.Scan(source).Success? && |r.value| == 1
  {
    match Scanner.Scan(source)
    case Failure(e) => Failure(ScanFailed(e))
    case Success(toks) =>
      match Parser.ParseProgramAt(toks)
      case Failure(e) => Failure(ParseFailed(e))
      case Success(p) =>
        match TackyGen.GenerateTacky(p.node)
        case Failure(e) => Failure(LowerFailed(e))
        case Success(t) =>
          match Backend(t, v)
          case Failure(e) => Failure(FixFailed(e))
          case Success(out) => Success(out)
  }

  // ---------------------------------------------------------------
  // What the back end makes of a program

  /** The instruction a Return's lowering places before its Ret. */
  function StatementBody(value: Tacky.Node, v: AsmGen.ReturnLowering): Asm.Node
  {
    if v == AsmGen.MovToW0 then Asm.Mov(AsmGen.LowerNode(value, v), Asm.Register(Asm.W0))
    else AsmGen.LowerNode(value, v)
  }

  /** Each Return as it leaves the back end: its statement with the
      frame's slots filled in, then the stack release, then Ret. */
  function Epilogued(ins: seq<Tacky.Node>, v: AsmGen.ReturnLowering, tbl: PseudoPass.Table, size: int): seq<Asm.Node>
    requires forall k :: 0 <= k < |ins| ==> ins[k].Return?
  {
    seq(|ins|, k requires 0 <= k < |ins| =>
      Asm.Compound([PseudoPass.Resolve(StatementBody(ins[k].value, v), tbl), Asm.DeAllocateStack(size), Asm.Ret]))
  }

  /** The temporary a Return's value is written to, when the value is a
      Unary. */
  function ReturnTemp(n: Tacky.Node): set<string>
  {
    if n.Return? && n.value.Unary? && n.value.dst.Var? then {n.value.dst.varName} else {}
  }

  /** The temporaries that Unary-valued Returns write to. */
  function ReturnedTemps(ins: seq<Tacky.Node>): set<string>
  {
    set k | 0 <= k < |ins| && ins[k].Return? && ins[k].value.Unary? && ins[k].value.dst.Var? ::
      ins[k].value.dst.varName
  }

  lemma ReturnedTempsSplit(ins: seq<Tacky.Node>)
    requires ins != []
    ensures ReturnedTemps(ins) == ReturnTemp(ins[0]) + ReturnedTemps(ins[1..])
  {
    forall x | x in ReturnedTemps(ins) ensures x in ReturnTemp(ins[0]) + ReturnedTemps(ins[1..]) {
      var k :| 0 <= k < |ins| && ins[k].Return? && ins[k].value.Unary? && ins[k].value.dst.Var? &&
        ins[k].value.dst.varName == x;
      if k > 0 { assert ins[1..][k - 1] == ins[k]; }
    }
    forall x | x in ReturnedTemps(ins[1..]) ensures x in ReturnedTemps(ins) {
      var k :| 0 <= k < |ins[1..]| && ins[1..][k].Return? && ins[1..][k].value.Unary? &&
        ins[1..][k].value.dst.Var? && ins[1..][k].value.dst.varName == x;
      assert ins[1..][k] == ins[k + 1];
    }
  }

  lemma PairMovNames(a: Asm.Node, b: Asm.Node)
    ensures PseudoPass.ListMovNames([a, b]) == PseudoPass.MovNames(a) + PseudoPass.MovNames(b)
  {
    assert [a, b][1..] == [b];
    assert [b][1..] == [];
    assert PseudoPass.ListMovNames([b]) == PseudoPass.MovNames(b);
  }

  lemma PairResolve(a: Asm.Node, b: Asm.Node, tbl: PseudoPass.Table)
    ensures PseudoPass.ResolveList([a, b], tbl) == [PseudoPass.Resolve(a, tbl), PseudoPass.Resolve(b, tbl)]
  {
    assert [a, b][1..] == [b];
    assert [b][1..] == [];
    assert PseudoPass.ResolveList([b], tbl) == [PseudoPass.Resolve(b, tbl)];
  }

  /** A lowered expression is never itself a pseudo-register. */
  lemma ExprNotPseudo(value: Tacky.Node, v: AsmGen.ReturnLowering)
    requires Tacky.IsExpr(value)
    ensures AsmGen.LowerNode(value, v).Literal? || AsmGen.LowerNode(value, v).Compound?
  {
  }

  /** No reached Mov operand of a lowered expression is a
      pseudo-register, except the destination of a Unary at the top. */
  lemma ExprMovNames(value: Tacky.Node, v: AsmGen.ReturnLowering)
    requires Tacky.IsExpr(value)
    ensures PseudoPass.MovNames(AsmGen.LowerNode(value, v)) ==
      (if value.Unary? then {value.dst.varName} else {})
    ensures PseudoPass.MovNames(StatementBody(value, v)) ==
      (if v == AsmGen.NoMov && value.Unary? then {value.dst.varName} else {})
  {
    ExprNotPseudo(value, v);
    if value.Unary? {
      ExprNotPseudo(value.src, v);
      var d := AsmGen.LowerNode(value.dst, v);
      assert d == Asm.Pseudo(value.dst.varName);
      var m := Asm.Mov(AsmGen.LowerNode(value.src, v), d);
      PairMovNames(m, Asm.Unary(Asm.Not, d));
      assert AsmGen.LowerNode(value, v) == Asm.Compound([m, Asm.Unary(Asm.Not, d)]);
    }
  }

  lemma ReturnMovNames(ret: Tacky.Node, v: AsmGen.ReturnLowering)
    requires ret.Return? && Tacky.IsExpr(ret.value)
    ensures PseudoPass.MovNames(AsmGen.LowerNode(ret, v)) == (if v == AsmGen.NoMov then ReturnTemp(ret) else {})
  {
    ExprMovNames(ret.value, v);
    assert AsmGen.LowerNode(ret, v) == Asm.Compound([StatementBody(ret.value, v), Asm.Ret]);
    PairMovNames(StatementBody(ret.value, v), Asm.Ret);
  }

  /** The names the pseudo-register pass reaches in a lowered function
      body: none with the header's lowering, and the temporaries of the
      Unary-valued Returns with the .cpp file's. */
  lemma {:induction false} LoweredMovNames(ins: seq<Tacky.Node>, v: AsmGen.ReturnLowering)
    requires forall k :: 0 <= k < |ins| ==> ins[k].Return? && Tacky.IsExpr(ins[k].value)
    ensures PseudoPass.ListMovNames(AsmGen.LowerList(ins, v)) ==
      (if v == AsmGen.NoMov then ReturnedTemps(ins) else {})
    decreases ins
  {
    if ins == [] {
      assert ReturnedTemps(ins) == {};
    } else {
      var l := AsmGen.LowerList(ins, v);
      assert l[1..] == AsmGen.LowerList(ins[1..], v);
      ReturnMovNames(ins[0], v);
      LoweredMovNames(ins[1..], v);
      ReturnedTempsSplit(ins);
    }
  }

  /** The frame size the back end uses: 0 with the header's lowering, and
      four bytes per distinct temporary of a Unary-valued Return with the
      .cpp file's. */
  lemma BackendFrame(t: Tacky.Node, v: AsmGen.ReturnLowering)
    requires Tacky.IsProgram(t)
    ensures PseudoPass.FrameSize(Frame(t, v)) ==
      (if v == AsmGen.NoMov then 4 * |ReturnedTemps(t.fn.instructions)| else 0)
  {
    var l := AsmGen.LowerList(t.fn.instructions, v);
    var p := AsmGen.LowerNode(t, v);
    assert AsmGen.LowerNode(t.fn, v) == Asm.Function(t.fn.name, l);
    assert p == Asm.Program(Asm.Function(t.fn.name, l));
    assert [p][1..] == [];
    assert PseudoPass.MovNames(p) == PseudoPass.MovNames(p.fn) == PseudoPass.ListMovNames(l);
    assert PseudoPass.ListMovNames([p]) == PseudoPass.MovNames(p) + PseudoPass.ListMovNames([]);
    PseudoPass.PassFrame([p]);
    LoweredMovNames(t.fn.instructions, v);
  }

  /** With the header's lowering the pass rewrites nothing: the value is
      under a Mov into W0, whose operands are not pseudo-registers. */
  lemma HeaderUnresolved(value: Tacky.Node, tbl: PseudoPass.Table)
    requires Tacky.IsExpr(value)
    ensures PseudoPass.Resolve(StatementBody(value, AsmGen.MovToW0), tbl) == StatementBody(value, AsmGen.MovToW0)
  {
  }

  lemma {:induction false} ResolveListAt(ins: seq<Asm.Node>, tbl: PseudoPass.Table, k: nat)
    requires k < |ins|
    ensures |PseudoPass.ResolveList(ins, tbl)| == |ins|
    ensures PseudoPass.ResolveList(ins, tbl)[k] == PseudoPass.Resolve(ins[k], tbl)
    decreases k
  {
    ResolveListLength(ins, tbl);
    if k > 0 {
      ResolveListAt(ins[1..], tbl, k - 1);
    }
  }

  lemma {:induction false} ResolveListLength(ins: seq<Asm.Node>, tbl: PseudoPass.Table)
    ensures |PseudoPass.ResolveList(ins, tbl)| == |ins|
    decreases ins
  {
    if ins != [] {
      ResolveListLength(ins[1..], tbl);
    }
  }

  /** A lowered Return after the pseudo-register pass. */
  lemma ResolvedReturn(ret: Tacky.Node, v: AsmGen.ReturnLowering, tbl: PseudoPass.Table)
    requires ret.Return?
    ensures PseudoPass.Resolve(AsmGen.LowerNode(ret, v), tbl) ==
      Asm.Compound([PseudoPass.Resolve(StatementBody(ret.value, v), tbl), Asm.Ret])
  {
    assert AsmGen.LowerNode(ret, v) == Asm.Compound([StatementBody(ret.value, v), Asm.Ret]);
    PairResolve(StatementBody(ret.value, v), Asm.Ret, tbl);
  }

  /** The fix pass on a compound of one instruction and a Ret. */
  lemma FixPair(x: Asm.Node, size: int)
    requires !x.Ret?
    ensures FixPass.FixCompound(Asm.Compound([x, Asm.Ret]), size) ==
      Asm.Compound([x, Asm.DeAllocateStack(size), Asm.Ret])
  {
    assert FixPass.FirstRetFrom([x, Asm.Ret], 1) == 1;
  }

  /** The pseudo-register pass on a lowered program: one Program whose
      Function's instructions are the lowered ones resolved against the
      final offsets list. */
  lemma ResolvedProgram(t: Tacky.Node, v: AsmGen.ReturnLowering)
    requires Tacky.IsProgram(t)
    ensures PseudoPass.AllocList(AsmGen.GenerateAssembly(t, v), []).value ==
      [Asm.Program(Asm.Function(t.fn.name,
        PseudoPass.ResolveList(AsmGen.LowerList(t.fn.instructions, v), Frame(t, v))))]
  {
    var l := AsmGen.LowerList(t.fn.instructions, v);
    var p := AsmGen.LowerNode(t, v);
    assert AsmGen.LowerNode(t.fn, v) == Asm.Function(t.fn.name, l);
    assert p == Asm.Program(Asm.Function(t.fn.name, l));
    assert AsmGen.GenerateAssembly(t, v) == [p];
    PseudoPass.AllocListSound([p], []);
    var tbl := Frame(t, v);
    assert [p][1..] == [];
    assert PseudoPass.Resolve(p, tbl) == Asm.Program(Asm.Function(t.fn.name, PseudoPass.ResolveList(l, tbl)));
    assert PseudoPass.ResolveList([p], tbl) == [PseudoPass.Resolve(p, tbl)] + PseudoPass.ResolveList([], tbl);
  }

  /** The fix pass's inner fix on each resolved Return: the stack release
      goes right before its Ret. */
  lemma FixedReturns(ins: seq<Tacky.Node>, v: AsmGen.ReturnLowering, tbl: PseudoPass.Table, size: int)
    requires forall k :: 0 <= k < |ins| ==> ins[k].Return?
    ensures var r := PseudoPass.ResolveList(AsmGen.LowerList(ins, v), tbl);
      (forall k :: 0 <= k < |r| ==> !r[k].Ret?) && FixPass.FixEach(r, size) == Epilogued(ins, v, tbl, size)
  {
    var l := AsmGen.LowerList(ins, v);
    var r := PseudoPass.ResolveList(l, tbl);
    ResolveListLength(l, tbl);
    var e := Epilogued(ins, v, tbl, size);
    forall k | 0 <= k < |r|
      ensures !r[k].Ret? && FixPass.FixCompound(r[k], size) == e[k]
    {
      ResolveListAt(l, tbl, k);
      AsmGen.LowerListAt(ins, v, k);
      ResolvedReturn(ins[k], v, tbl);
      FixPair(PseudoPass.Resolve(StatementBody(ins[k].value, v), tbl), size);
    }
  }

  /** The fix pass on a single Program: its Function visit, which cannot
      fail. */
  lemma FixProgram(name: Tokens.Token, r: seq<Asm.Node>, size: int)
    ensures FixPass.FixList([Asm.Program(Asm.Function(name, r))], size) ==
      Success([Asm.Program(Asm.Function(name, FixPass.FixFunctionBody(r, size)))])
  {
    var f := Asm.Program(Asm.Function(name, FixPass.FixFunctionBody(r, size)));
    assert FixPass.FixNode(Asm.Function(name, r), size) == Success(f.fn);
    assert FixPass.FixNode(Asm.Program(Asm.Function(name, r)), size) == Success(f);
    assert [Asm.Program(Asm.Function(name, r))][1..] == [];
    assert FixPass.FixList([Asm.Program(Asm.Function(name, r))], size) == FixPass.PrependFixed([f], FixPass.FixList([], size));
    assert [f] + [] == [f];
  }

  /** What the back end makes of a program of the parser's shape: the
      fix pass does not fail, and the single Function it returns starts
      with the stack allocation, followed by each Return with its slots
      filled in and the stack released before its Ret. */
  lemma BackendShape(t: Tacky.Node, v: AsmGen.ReturnLowering)
    requires Tacky.IsProgram(t)
    ensures var tbl := Frame(t, v);
      var size := PseudoPass.FrameSize(tbl);
      Backend(t, v) == Success([Asm.Program(Asm.Function(t.fn.name,
        [Asm.AllocateStack(size)] + Epilogued(t.fn.instructions, v, tbl, size)))])
  {
    var tbl := Frame(t, v);
    var size := PseudoPass.FrameSize(tbl);
    var r := PseudoPass.ResolveList(AsmGen.LowerList(t.fn.instructions, v), tbl);
    ResolvedProgram(t, v);
    FixedReturns(t.fn.instructions, v, tbl, size);
    FixPass.FixFunctionWithoutRet(r, size);
    FixProgram(t.fn.name, r, size);
  }

  /** The compiler's only failures come from scanning, parsing and the IR
      lowering: the fix pass's undefined Mov handler is never reached. */
  lemma CompileFixNeverFails(source: string, v: AsmGen.ReturnLowering)
    ensures !(Compile(source, v).Failure? && Compile(source, v).error.FixFailed?)
  {
    var scanned := Scanner.Scan(source);
    if scanned.Success? {
      var parsed := Parser.ParseProgramAt(scanned.value);
      if parsed.Success? {
        Parser.ParseProgramShape(scanned.value, parsed.value);
        var lowered := TackyGen.GenerateTacky(parsed.value.node);
        if lowered.Success? {
          TackyGen.GeneratedIsProgram(parsed.value.node, lowered.value);
          BackendShape(lowered.value, v);
        }
      }
    }
  }

  /** The shape of the back end's output for a program of the parser's
      shape, in the terms of the instructions alone. */
  lemma BackendOutput(t: Tacky.Node, v: AsmGen.ReturnLowering, out: seq<Asm.Node>)
    requires Tacky.IsProgram(t) && Backend(t, v) == Success(out)
    ensures |out| == 1 && out[0].Program? && out[0].fn.Function?
    ensures var body := out[0].fn.instructions;
      |body| == |t.fn.instructions| + 1 &&
      body[0].AllocateStack? && body[0].size >= 0 && body[0].size % 4 == 0 &&
      (v == AsmGen.MovToW0 ==> body[0].size == 0) &&
      forall k :: 1 <= k < |body| ==>
        body[k].Compound? && |body[k].instructions| == 3 &&
        body[k].instructions[1] == Asm.DeAllocateStack(body[0].size) && body[k].instructions[2] == Asm.Ret
  {
    BackendShape(t, v);
    BackendFrame(t, v);
  }

  /** Every compiled program is one Function that first allocates its
      frame, a multiple of four bytes and 0 with the header's lowering,
      and then holds one compound per Return, each releasing the frame
      right before its Ret. */
  lemma CompileShape(source: string, v: AsmGen.ReturnLowering, out: seq<Asm.Node>)
    requires Compile(source, v) == Success(out)
    ensures |out| == 1 && out[0].Program? && out[0].fn.Function?
    ensures var body := out[0].fn.instructions;
      |body| >= 1 && body[0].AllocateStack? && body[0].size >= 0 && body[0].size % 4 == 0 &&
      (v == AsmGen.MovToW0 ==> body[0].size == 0) &&
      forall k :: 1 <= k < |body| ==>
        body[k].Compound? && |body[k].instructions| == 3 &&
        body[k].instructions[1] == Asm.DeAllocateStack(body[0].size) && body[k].instructions[2] == Asm.Ret
  {
    var toks := Scanner.Scan(source).value;
    var p := Parser.ParseProgramAt(toks).value;
    Parser.ParseProgramShape(toks, p);
    var t := TackyGen.GenerateTacky(p.node).value;
    TackyGen.GeneratedIsProgram(p.node, t);
    BackendOutput(t, v, out);
  }
}
