/** The recursive-descent parser (libs/parser/sources/LanguageParser.cpp).
    The functions below take the cursor as an explicit position and return
    the position after what they parsed; the `LanguageParser` class at the
    end keeps the cursor in a field, as the source does, and each of its
    methods is proved to agree with the function of the same step. */
module Parser {
  import opened Wrappers
  import opened Tokens
  import opened Ast

  datatype ParseError =
    /** `consume_` met a token of the wrong kind. */
    | UnexpectedToken(message: string)
    /** `parse_expr_` met a token that starts no expression. */
    | InvalidExpression
    /** `parse_stmt_` met a token other than `return`: the source falls
        off the end of a value-returning function there. */
    | NotAStatement
    /** `peek_` indexed past the last token (the vector is read without a
        bounds check, so the source's behaviour is undefined). */
    | ReadPastEnd

  /** A parse result together with the cursor position after it. */
  datatype Parsed<T> = Parsed(node: T, next: nat)

  /** `peek_`. */
  function PeekAt(toks: seq<Token>, i: nat): (r: Result<Token, ParseError>)
    ensures r.Success? <==> i < |toks|
    ensures r.Success? ==> r.value == toks[i]
  {
    if i < |toks| then Success(toks[i]) else Failure(ReadPastEnd)
  }

  /** `is_at_end_`. */
  function IsAtEndAt(toks: seq<Token>, i: nat): (r: Result<bool, ParseError>)
    ensures r.Success? <==> i < |toks|
    ensures r == Success(true) <==> i < |toks| && toks[i].kind == EndOfFile
  {
    match PeekAt(toks, i)
    case Failure(e) => Failure(e)
    case Success(t) => Success(t.kind == EndOfFile)
  }

  /** `check_`: never true at an ENDOFFILE token. */
  function CheckAt(toks: seq<Token>, i: nat, kind: TokenType): (r: Result<bool, ParseError>)
    ensures r.Success? <==> i < |toks|
    ensures r == Success(true) <==> i < |toks| && toks[i].kind == kind && kind != EndOfFile
  {
    match IsAtEndAt(toks, i)
    case Failure(e) => Failure(e)
    case Success(atEnd) => Success(!atEnd && toks[i].kind == kind)
  }

  /** Whether `match_` accepts the token `t` for one of `kinds`. */
  predicate Matches(t: Token, kinds: seq<TokenType>)
  {
    t.kind != EndOfFile && t.kind in kinds
  }

  /** `match_`: every kind tried reads the token at the cursor, and the
      caller advances the cursor by one exactly when the answer is `true`. */
  function MatchAt(toks: seq<Token>, i: nat, kinds: seq<TokenType>): (r: Result<bool, ParseError>)
    ensures r.Success? <==> kinds == [] || i < |toks|
    ensures r == Success(true) <==> i < |toks| && toks[i].kind != EndOfFile && toks[i].kind in kinds
  {
    if kinds == [] then Success(false)
    else if i < |toks| then Success(Matches(toks[i], kinds))
    else Failure(ReadPastEnd)
  }

  /** `consume_`: the token at the cursor if it has the expected kind. */
  function ConsumeAt(toks: seq<Token>, i: nat, kind: TokenType, message: string): (r: Result<Token, ParseError>)
    ensures r.Success? <==> i < |toks| && toks[i].kind == kind && kind != EndOfFile
    ensures r.Success? ==> r.value == toks[i]
    ensures r.Failure? ==> r.error == if i < |toks| then UnexpectedToken(message) else ReadPastEnd
  {
    if i < |toks| && toks[i].kind == kind && kind != EndOfFile then Success(toks[i])
    else if i < |toks| then Failure(UnexpectedToken(message))
    else Failure(ReadPastEnd)
  }

  /** What was parsed in `r`, followed by the closing token `kind` that
      `consume_` demands. */
  function ThenConsume(toks: seq<Token>, r: Result<Parsed<Node>, ParseError>, kind: TokenType, message: string): (res: Result<Parsed<Node>, ParseError>)
    requires kind != EndOfFile
    ensures res.Success? <==> r.Success? && r.value.next < |toks| && toks[r.value.next].kind == kind
    ensures res.Success? ==> res.value == Parsed(r.value.node, r.value.next + 1)
  {
    match r
    case Failure(e) => Failure(e)
    case Success(p) =>
      if p.next < |toks| && toks[p.next].kind == kind then Success(Parsed(p.node, p.next + 1))
      else if p.next < |toks| then Failure(UnexpectedToken(message))
      else Failure(ReadPastEnd)
  }

  /** `parse_expr_` (with `parse_literal_expr_`). Every `match_` reads the
      token at the cursor, so a cursor past the last token fails first. A
      Unary node records `peek_()` after the operator has been matched,
      that is the token following the operator, and not the operator. */
  function ParseExprAt(toks: seq<Token>, i: nat): (r: Result<Parsed<Node>, ParseError>)
    requires i <= |toks|
    ensures r.Success? ==> i < r.value.next <= |toks|
    ensures i == |toks| ==> r == Failure(ReadPastEnd)
    ensures i < |toks| && toks[i].kind !in {Number, Minus, Complement, LeftParen} ==> r == Failure(InvalidExpression)
    decreases |toks| - i
  {
    if i == |toks| then Failure(ReadPastEnd)
    else if toks[i].kind == Number then Success(Parsed(Literal(toks[i].value), i + 1))
    else if toks[i].kind in {Minus, Complement} then
      if i + 1 == |toks| then Failure(ReadPastEnd)
      else
        match ParseExprAt(toks, i + 1)
        case Failure(e) => Failure(e)
        case Success(expr) => Success(Parsed(Unary(toks[i + 1], expr.node), expr.next))
    else if toks[i].kind == LeftParen then
      ThenConsume(toks, ParseExprAt(toks, i + 1), RightParen, "Expected ')'")
    else Failure(InvalidExpression)
  }

  /** `parse_return_stmt_`, entered with the cursor just past `return`:
      the Return node keeps the keyword token. */
  function ParseReturnAt(toks: seq<Token>, i: nat): (r: Result<Parsed<Node>, ParseError>)
    requires 0 < i <= |toks|
    ensures r.Success? ==> i < r.value.next <= |toks|
    ensures r.Success? ==> r.value.node.Return? && r.value.node.token == toks[i - 1] && toks[r.value.next - 1].kind == Semicolon
  {
    match ThenConsume(toks, ParseExprAt(toks, i), Semicolon, "Expected ';' after return value.")
    case Failure(e) => Failure(e)
    case Success(expr) => Success(Parsed(Node.Return(toks[i - 1], expr.node), expr.next))
  }

  /** `parse_stmt_`: only `return` starts a statement. */
  function ParseStmtAt(toks: seq<Token>, i: nat): (r: Result<Parsed<Node>, ParseError>)
    requires i <= |toks|
    ensures r.Success? ==> i < r.value.next <= |toks|
    ensures i == |toks| ==> r == Failure(ReadPastEnd)
    ensures i < |toks| && toks[i].kind != Tokens.Return ==> r == Failure(NotAStatement)
  {
    if i == |toks| then Failure(ReadPastEnd)
    else if toks[i].kind == Tokens.Return then ParseReturnAt(toks, i + 1)
    else Failure(NotAStatement)
  }

  /** The statements collected so far, put in front of the rest of a
      block's parse. */
  function PrependNodes(done: seq<Node>, r: Result<Parsed<seq<Node>>, ParseError>): Result<Parsed<seq<Node>>, ParseError>
  {
    match r
    case Success(p) => Success(Parsed(done + p.node, p.next))
    case Failure(e) => Failure(e)
  }

  /** `parse_block_`: statements until `}` or ENDOFFILE, then `}`. The
      loop test reads the token at the cursor; at ENDOFFILE the closing
      `consume_` fails. */
  function ParseBlockAt(toks: seq<Token>, i: nat): (r: Result<Parsed<seq<Node>>, ParseError>)
    requires i <= |toks|
    ensures r.Success? ==> i < r.value.next <= |toks|
    ensures i == |toks| ==> r == Failure(ReadPastEnd)
    ensures i < |toks| && toks[i].kind == EndOfFile ==> r == Failure(UnexpectedToken("Expected right brace"))
    decreases |toks| - i
  {
    if i == |toks| then Failure(ReadPastEnd)
    else if toks[i].kind == RightBrace then Success(Parsed([], i + 1))
    else if toks[i].kind == EndOfFile then Failure(UnexpectedToken("Expected right brace"))
    else
      match ParseStmtAt(toks, i)
      case Failure(e) => Failure(e)
      case Success(stmt) => PrependNodes([stmt.node], ParseBlockAt(toks, stmt.next))
  }

  /** The tokens from `i` on start with `int NAME ( void ) {`. */
  predicate HasHeader(toks: seq<Token>, i: nat)
  {
    i + 6 <= |toks| &&
    toks[i].kind == Int && toks[i + 1].kind == Identifier && toks[i + 2].kind == LeftParen &&
    toks[i + 3].kind == Void && toks[i + 4].kind == RightParen && toks[i + 5].kind == LeftBrace
  }

  /** The header consumed by `parse_function_stmt_`:
      `int NAME ( void ) {`, answering the NAME token. */
  function ParseHeaderAt(toks: seq<Token>, i: nat): (r: Result<Token, ParseError>)
    ensures r.Success? <==> HasHeader(toks, i)
    ensures r.Success? ==> r.value == toks[i + 1]
  {
    var intKw := ConsumeAt(toks, i, Int, "Expected int");
    if intKw.Failure? then Failure(intKw.error) else
    var name := ConsumeAt(toks, i + 1, Identifier, "Expected name of function.");
    if name.Failure? then Failure(name.error) else
    var open := ConsumeAt(toks, i + 2, LeftParen, "Expected left paren");
    if open.Failure? then Failure(open.error) else
    var voidKw := ConsumeAt(toks, i + 3, Void, "Expected void");
    if voidKw.Failure? then Failure(voidKw.error) else
    var close := ConsumeAt(toks, i + 4, RightParen, "Expected right paren");
    if close.Failure? then Failure(close.error) else
    var brace := ConsumeAt(toks, i + 5, LeftBrace, "Expected left brace");
    if brace.Failure? then Failure(brace.error) else
    name
  }

  /** `parse_function_stmt_`: the header, then a block. */
  function ParseFunctionAt(toks: seq<Token>, i: nat): (r: Result<Parsed<Node>, ParseError>)
    requires i <= |toks|
    ensures !HasHeader(toks, i) ==> r.Failure?
    ensures r.Success? ==> r.value.node.Function? && r.value.node.name == toks[i + 1] && i + 6 < r.value.next <= |toks|
  {
    var header := ParseHeaderAt(toks, i);
    if header.Failure? then Failure(header.error)
    else
      var body := ParseBlockAt(toks, i + 6);
      if body.Failure? then Failure(body.error)
      else Success(Parsed(Function(header.value, body.value.node), body.value.next))
  }

  /** `parse_program`, from the first token. */
  function ParseProgramAt(toks: seq<Token>): (r: Result<Parsed<Node>, ParseError>)
    ensures r.Success? ==> r.value.node.Program? && r.value.node.fn.Function? && 6 < r.value.next <= |toks|
  {
    match ParseFunctionAt(toks, 0)
    case Failure(e) => Failure(e)
    case Success(f) => Success(Parsed(Program(f.node), f.next))
  }

  // ---------------------------------------------------------------------
  // A reference grammar for expressions, independent of the cursor.

  /** The tokens from `i` up to (not including) `j` spell exactly the
      expression `e`: `NUMBER`, `-` or `~` followed by an expression (the
      node keeping the token after the operator), or a parenthesised
      expression. */
  predicate Spells(toks: seq<Token>, i: nat, j: nat, e: Node)
    decreases j - i
  {
    i < j <= |toks| &&
    if toks[i].kind == Number then j == i + 1 && e == Literal(toks[i].value)
    else if toks[i].kind in {Minus, Complement} then
      e.Unary? && i + 1 < j && e.operation == toks[i + 1] && Spells(toks, i + 1, j, e.expr)
    else if toks[i].kind == LeftParen then
      i + 1 < j && toks[j - 1].kind == RightParen && Spells(toks, i + 1, j - 1, e)
    else false
  }

  /** Whether a range spells an expression depends on that range alone. */
  lemma {:induction false} SpellsFrame(a: seq<Token>, b: seq<Token>, i: nat, j: nat, e: Node)
    requires i <= j <= |a| && j <= |b|
    requires forall k :: i <= k < j ==> a[k] == b[k]
    ensures Spells(a, i, j, e) == Spells(b, i, j, e)
    decreases j - i
  {
    if i < j && e.Unary? {
      SpellsFrame(a, b, i + 1, j, e.expr);
    }
    if i + 1 < j {
      SpellsFrame(a, b, i + 1, j - 1, e);
    }
  }

  /** Soundness of `parse_expr_`: what it consumes spells what it returns. */
  lemma {:induction false} ParseExprSound(toks: seq<Token>, i: nat, p: Parsed<Node>)
    requires i <= |toks| && ParseExprAt(toks, i) == Success(p)
    ensures Spells(toks, i, p.next, p.node)
    decreases |toks| - i
  {
    if toks[i].kind in {Minus, Complement} {
      ParseExprSound(toks, i + 1, Parsed(p.node.expr, p.next));
    } else if toks[i].kind == LeftParen {
      ParseExprSound(toks, i + 1, Parsed(p.node, p.next - 1));
    }
  }

  /** Completeness of `parse_expr_`: a spelled expression followed by any
      tokens at all is parsed to that expression, stopping right after it. */
  lemma {:induction false} ParseExprComplete(toks: seq<Token>, i: nat, j: nat, e: Node)
    requires Spells(toks, i, j, e)
    ensures ParseExprAt(toks, i) == Success(Parsed(e, j))
    decreases j - i
  {
    if toks[i].kind in {Minus, Complement} {
      ParseExprComplete(toks, i + 1, j, e.expr);
    } else if toks[i].kind == LeftParen {
      ParseExprComplete(toks, i + 1, j - 1, e);
    }
  }

  /** Together: `parse_expr_` at `i` returns `e` and stops at `j` exactly
      when the tokens in between spell `e`. */
  lemma ParseExprIsSpells(toks: seq<Token>, i: nat, j: nat, e: Node)
    requires i <= |toks|
    ensures ParseExprAt(toks, i) == Success(Parsed(e, j)) <==> Spells(toks, i, j, e)
  {
    if ParseExprAt(toks, i) == Success(Parsed(e, j)) {
      ParseExprSound(toks, i, Parsed(e, j));
    }
    if Spells(toks, i, j, e) {
      ParseExprComplete(toks, i, j, e);
    }
  }

  /** The Unary node keeps no trace of which operator was written: `-` and
      `~` in the same place parse identically. */
  lemma OperatorForgotten(toks: seq<Token>, i: nat, minus: Token, complement: Token)
    requires i < |toks|
    requires minus.kind == Minus && complement.kind == Complement
    ensures ParseExprAt(toks[i := minus], i) == ParseExprAt(toks[i := complement], i)
  {
    var a := toks[i := minus];
    var b := toks[i := complement];
    ParseExprFrame(a, b, i + 1);
  }

  /** `parse_expr_` at `i` reads no token before `i`. */
  lemma {:induction false} ParseExprFrame(a: seq<Token>, b: seq<Token>, i: nat)
    requires i <= |a| == |b|
    requires forall k :: i <= k < |a| ==> a[k] == b[k]
    ensures ParseExprAt(a, i) == ParseExprAt(b, i)
    decreases |a| - i
  {
    if i < |a| {
      ParseExprFrame(a, b, i + 1);
    }
  }

  // ---------------------------------------------------------------------
  // Statements, blocks and programs.

  /** The tokens from `i` up to `j` spell the statement `s`: `return`, an
      expression, `;`. */
  predicate SpellsStatement(toks: seq<Token>, i: nat, j: nat, s: Node)
  {
    i + 2 < j <= |toks| && toks[i].kind == Tokens.Return && toks[j - 1].kind == Semicolon &&
    s.Return? && s.token == toks[i] && Spells(toks, i + 1, j - 1, s.expr)
  }

  /** The tokens from `i` spell the statements of `body` one after
      another, statement `k` ending just before position `ends[k]`, and
      then the closing `}` at position `close`. */
  predicate SpellsBlock(toks: seq<Token>, i: nat, ends: seq<nat>, body: seq<Node>, close: nat)
    decreases |ends|
  {
    |ends| == |body| && close < |toks| && toks[close].kind == RightBrace &&
    if ends == [] then i == close
    else SpellsStatement(toks, i, ends[0], body[0]) && SpellsBlock(toks, ends[0], ends[1..], body[1..], close)
  }

  /** A block is parsed statement by statement: tokens spelling the
      statements of `body`, then `}`, give `body`. */
  lemma {:induction false} ParseBlockComplete(toks: seq<Token>, i: nat, ends: seq<nat>, body: seq<Node>, close: nat)
    requires SpellsBlock(toks, i, ends, body, close)
    ensures ParseBlockAt(toks, i) == Success(Parsed(body, close + 1))
    decreases |ends|
  {
    if ends == [] {
      ParseBlockClose(toks, i);
    } else {
      ParseBlockComplete(toks, ends[0], ends[1..], body[1..], close);
      ParseStmtComplete(toks, i, ends[0], body[0]);
      ParseBlockFirstStatement(toks, i, ends[0], body, close);
    }
  }

  /** A spelled statement in front of the rest of a block. */
  lemma ParseBlockFirstStatement(toks: seq<Token>, i: nat, j: nat, body: seq<Node>, close: nat)
    requires body != [] && i < |toks| && toks[i].kind == Tokens.Return
    requires ParseStmtAt(toks, i) == Success(Parsed(body[0], j))
    requires j <= |toks| && ParseBlockAt(toks, j) == Success(Parsed(body[1..], close + 1))
    ensures ParseBlockAt(toks, i) == Success(Parsed(body, close + 1))
  {
    assert [body[0]] + body[1..] == body;
    ParseBlockCons(toks, i, Parsed(body[0], j), Parsed(body[1..], close + 1), body);
  }

  /** A `}` at the cursor closes an empty block. */
  lemma ParseBlockClose(toks: seq<Token>, i: nat)
    requires i < |toks| && toks[i].kind == RightBrace
    ensures ParseBlockAt(toks, i) == Success(Parsed([], i + 1))
  {
  }

  /** `parse_stmt_` on tokens spelling a statement returns it. */
  lemma ParseStmtComplete(toks: seq<Token>, i: nat, j: nat, s: Node)
    requires SpellsStatement(toks, i, j, s)
    ensures ParseStmtAt(toks, i) == Success(Parsed(s, j))
  {
    ParseExprComplete(toks, i + 1, j - 1, s.expr);
  }

  /** One statement of a block: what `parse_stmt_` returns is put in
      front of the rest of the block. */
  lemma ParseBlockStep(toks: seq<Token>, i: nat)
    requires i < |toks| && toks[i].kind != RightBrace && toks[i].kind != EndOfFile
    ensures var stmt := ParseStmtAt(toks, i);
      stmt.Success? ==>
        ParseBlockAt(toks, i) == PrependNodes([stmt.value.node], ParseBlockAt(toks, stmt.value.next))
    ensures ParseStmtAt(toks, i).Failure? ==> ParseBlockAt(toks, i) == Failure(ParseStmtAt(toks, i).error)
  {
  }

  /** A parsed statement followed by a parsed rest of block. */
  lemma ParseBlockCons(toks: seq<Token>, i: nat, stmt: Parsed<Node>, rest: Parsed<seq<Node>>, body: seq<Node>)
    requires i < |toks| && toks[i].kind != RightBrace && toks[i].kind != EndOfFile
    requires ParseStmtAt(toks, i) == Success(stmt)
    requires stmt.next <= |toks| && ParseBlockAt(toks, stmt.next) == Success(rest)
    requires body == [stmt.node] + rest.node
    ensures ParseBlockAt(toks, i) == Success(Parsed(body, rest.next))
  {
  }

  /** Soundness of `parse_stmt_`: what it consumes spells the Return it
      returns. */
  lemma ParseStmtSound(toks: seq<Token>, i: nat, p: Parsed<Node>)
    requires i <= |toks| && ParseStmtAt(toks, i) == Success(p)
    ensures SpellsStatement(toks, i, p.next, p.node)
  {
    var e := ParseExprAt(toks, i + 1).value;
    assert p == Parsed(Node.Return(toks[i], e.node), e.next + 1);
    ParseExprSound(toks, i + 1, e);
  }

  /** A spelled statement in front of a spelled rest of block. */
  lemma SpellsBlockCons(toks: seq<Token>, i: nat, j: nat, ends: seq<nat>, body: seq<Node>, close: nat)
    ensures body != [] && SpellsStatement(toks, i, j, body[0]) && SpellsBlock(toks, j, ends, body[1..], close) ==>
      SpellsBlock(toks, i, [j] + ends, body, close)
  {
    assert ([j] + ends)[1..] == ends;
  }

  /** Soundness of `parse_block_`: the tokens a successful block parse
      consumes spell its statements one after another, then the `}` just
      before where it stops. */
  lemma {:induction false} ParseBlockSound(toks: seq<Token>, i: nat, body: seq<Node>, close: nat)
    requires i <= |toks| && ParseBlockAt(toks, i) == Success(Parsed(body, close + 1))
    ensures exists ends :: SpellsBlock(toks, i, ends, body, close)
    decreases |toks| - i
  {
    if toks[i].kind == RightBrace {
      assert SpellsBlock(toks, i, [], body, close);
    } else {
      var j := ParseBlockSoundStep(toks, i, body, close);
      ParseBlockSound(toks, j, body[1..], close);
      var ends :| SpellsBlock(toks, j, ends, body[1..], close);
      SpellsBlockCons(toks, i, j, ends, body, close);
    }
  }

  /** The first statement of a parsed block that does not start with
      `}`: it is spelled up to `j`, where the rest of the block parses. */
  lemma ParseBlockSoundStep(toks: seq<Token>, i: nat, body: seq<Node>, close: nat) returns (j: nat)
    requires i < |toks| && toks[i].kind != RightBrace
    requires ParseBlockAt(toks, i) == Success(Parsed(body, close + 1))
    ensures body != [] && i < j <= |toks| && SpellsStatement(toks, i, j, body[0])
    ensures ParseBlockAt(toks, j) == Success(Parsed(body[1..], close + 1))
  {
    ParseBlockStep(toks, i);
    var stmt := ParseStmtAt(toks, i).value;
    var rest := ParseBlockAt(toks, stmt.next).value;
    ParseStmtSound(toks, i, stmt);
    assert body == [stmt.node] + rest.node;
    j := stmt.next;
  }

  /** Together: `parse_block_` at `i` returns `body` and stops just after
      position `close` exactly when the tokens from `i` spell the
      statements of `body` and then `}` at `close`. */
  lemma ParseBlockIsSpells(toks: seq<Token>, i: nat, body: seq<Node>, close: nat)
    requires i <= |toks|
    ensures ParseBlockAt(toks, i) == Success(Parsed(body, close + 1)) <==>
      exists ends :: SpellsBlock(toks, i, ends, body, close)
  {
    ParsedBlockSpelled(toks, i, body, close);
    SpelledBlockParsed(toks, i, body, close);
  }

  lemma ParsedBlockSpelled(toks: seq<Token>, i: nat, body: seq<Node>, close: nat)
    requires i <= |toks|
    ensures ParseBlockAt(toks, i) == Success(Parsed(body, close + 1)) ==>
      exists ends :: SpellsBlock(toks, i, ends, body, close)
  {
    if ParseBlockAt(toks, i) == Success(Parsed(body, close + 1)) {
      ParseBlockSound(toks, i, body, close);
    }
  }

  lemma SpelledBlockParsed(toks: seq<Token>, i: nat, body: seq<Node>, close: nat)
    ensures (exists ends :: SpellsBlock(toks, i, ends, body, close)) ==>
      ParseBlockAt(toks, i) == Success(Parsed(body, close + 1))
  {
    if exists ends :: SpellsBlock(toks, i, ends, body, close) {
      var ends :| SpellsBlock(toks, i, ends, body, close);
      ParseBlockComplete(toks, i, ends, body, close);
    }
  }

  /** What `parse_stmt_` returns: a Return node keeping its keyword. */
  lemma ParseStmtShape(toks: seq<Token>, i: nat, p: Parsed<Node>)
    requires i <= |toks| && ParseStmtAt(toks, i) == Success(p)
    ensures p.node.Return? && p.node.token == toks[i] && toks[i].kind == Tokens.Return
    ensures toks[p.next - 1].kind == Semicolon
  {
  }

  /** A successful block parse ends just after a `}`. */
  lemma {:induction false} ParseBlockEndsInBrace(toks: seq<Token>, i: nat, p: Parsed<seq<Node>>)
    requires i <= |toks| && ParseBlockAt(toks, i) == Success(p)
    ensures toks[p.next - 1].kind == RightBrace
    decreases |toks| - i
  {
    if toks[i].kind != RightBrace {
      ParseBlockStep(toks, i);
      var stmt := ParseStmtAt(toks, i).value;
      ParseBlockEndsInBrace(toks, stmt.next, ParseBlockAt(toks, stmt.next).value);
    }
  }

  /** What `parse_expr_` returns is a Literal under Unary nodes. */
  lemma {:induction false} ParseExprIsExpr(toks: seq<Token>, i: nat, p: Parsed<Node>)
    requires i <= |toks| && ParseExprAt(toks, i) == Success(p)
    ensures IsExpr(p.node)
    decreases |toks| - i
  {
    if toks[i].kind in {Minus, Complement} {
      ParseExprIsExpr(toks, i + 1, Parsed(p.node.expr, p.next));
    } else if toks[i].kind == LeftParen {
      ParseExprIsExpr(toks, i + 1, ParseExprAt(toks, i + 1).value);
    }
  }

  lemma ParseStmtIsExpr(toks: seq<Token>, i: nat, p: Parsed<Node>)
    requires i <= |toks| && ParseStmtAt(toks, i) == Success(p)
    ensures p.node.Return? && IsExpr(p.node.expr)
  {
    ParseExprIsExpr(toks, i + 1, ParseExprAt(toks, i + 1).value);
  }

  /** A successful block parse returns only Return nodes of expressions,
      each keeping its `return` keyword token. */
  lemma {:induction false} ParseBlockAllReturns(toks: seq<Token>, i: nat, p: Parsed<seq<Node>>)
    requires i <= |toks| && ParseBlockAt(toks, i) == Success(p)
    ensures forall k :: 0 <= k < |p.node| ==>
      p.node[k].Return? && p.node[k].token.kind == Tokens.Return && IsExpr(p.node[k].expr)
    decreases |toks| - i
  {
    if toks[i].kind != RightBrace {
      ParseBlockStep(toks, i);
      var stmt := ParseStmtAt(toks, i).value;
      ParseStmtShape(toks, i, stmt);
      ParseStmtIsExpr(toks, i, stmt);
      var rest := ParseBlockAt(toks, stmt.next).value;
      ParseBlockAllReturns(toks, stmt.next, rest);
      assert p.node == [stmt.node] + rest.node;
    }
  }

  /** The shape of every parsed program: a Program holding one Function
      named by the IDENTIFIER after `int`, after the fixed header
      `int NAME ( void ) {`, whose body holds only Return statements and
      whose last token is `}`. */
  lemma ParseProgramShape(toks: seq<Token>, p: Parsed<Node>)
    requires ParseProgramAt(toks) == Success(p)
    ensures HasHeader(toks, 0) && |toks| > 6
    ensures toks[p.next - 1].kind == RightBrace
    ensures p.node.Program? && p.node.fn.Function? && p.node.fn.name == toks[1]
    ensures IsProgram(p.node)
  {
    var body := ParseBlockAt(toks, 6).value;
    assert ParseHeaderAt(toks, 0).Success?;
    assert p == Parsed(Program(Function(toks[1], body.node)), body.next);
    ParseBlockEndsInBrace(toks, 6, body);
    ParseBlockAllReturns(toks, 6, body);
  }

  /** The header `int NAME ( void ) {` followed by a block parses to that
      block, whatever tokens come after the closing `}`. */
  lemma {:induction false} ParseProgramComplete(toks: seq<Token>, ends: seq<nat>, body: seq<Node>, close: nat)
    requires HasHeader(toks, 0)
    requires SpellsBlock(toks, 6, ends, body, close)
    ensures ParseProgramAt(toks) == Success(Parsed(Program(Function(toks[1], body)), close + 1))
  {
    ProgramBlockSpelled(toks, ends, body, close);
    ParseProgramOfBlock(toks, body, close + 1);
  }

  /** The block after a header parses as spelled (stated as an implication
      so that the spelled block is not re-checked at the call). */
  lemma ProgramBlockSpelled(toks: seq<Token>, ends: seq<nat>, body: seq<Node>, close: nat)
    ensures HasHeader(toks, 0) && SpellsBlock(toks, 6, ends, body, close) ==>
      ParseBlockAt(toks, 6) == Success(Parsed(body, close + 1))
  {
    if HasHeader(toks, 0) && SpellsBlock(toks, 6, ends, body, close) {
      ParseBlockComplete(toks, 6, ends, body, close);
    }
  }

  /** Soundness of `parse_program`: a parsed program is the header
      `int NAME ( void ) {` followed by a spelled block whose `}` is the
      last token consumed. */
  lemma ParseProgramSound(toks: seq<Token>, fn: Node, close: nat)
    requires ParseProgramAt(toks) == Success(Parsed(Program(fn), close + 1))
    ensures HasHeader(toks, 0) && fn == Function(toks[1], fn.body)
    ensures exists ends :: SpellsBlock(toks, 6, ends, fn.body, close)
  {
    var body := ParseBlockAt(toks, 6).value;
    assert ParseHeaderAt(toks, 0).Success?;
    assert fn == Function(toks[1], body.node) && body.next == close + 1;
    ParseBlockSound(toks, 6, body.node, close);
  }

  /** Together: `parse_program` returns the Function `name` with `body`,
      stopping just after `close`, exactly when the tokens are the header
      naming it followed by a spelled block closing at `close`. */
  lemma ParseProgramIsSpells(toks: seq<Token>, name: Token, body: seq<Node>, close: nat)
    ensures ParseProgramAt(toks) == Success(Parsed(Program(Function(name, body)), close + 1)) <==>
      HasHeader(toks, 0) && name == toks[1] && exists ends :: SpellsBlock(toks, 6, ends, body, close)
  {
    if ParseProgramAt(toks) == Success(Parsed(Program(Function(name, body)), close + 1)) {
      ParseProgramSound(toks, Function(name, body), close);
    }
    if HasHeader(toks, 0) && name == toks[1] && exists ends :: SpellsBlock(toks, 6, ends, body, close) {
      var ends :| SpellsBlock(toks, 6, ends, body, close);
      ParseProgramComplete(toks, ends, body, close);
    }
  }

  lemma {:induction false} ParseProgramOfBlock(toks: seq<Token>, body: seq<Node>, next: nat)
    requires HasHeader(toks, 0) && ParseBlockAt(toks, 6) == Success(Parsed(body, next))
    ensures ParseProgramAt(toks) == Success(Parsed(Program(Function(toks[1], body)), next))
  {
    assert ParseHeaderAt(toks, 0) == Success(toks[1]);
    assert ParseFunctionAt(toks, 0) == Success(Parsed(Function(toks[1], body), next));
  }

  // ---------------------------------------------------------------------
  // The parser object.

  /** Whether a method's answer `r` and final cursor agree with the
      specification's answer `s`. */
  predicate Agrees<T(==)>(r: Result<T, ParseError>, s: Result<Parsed<T>, ParseError>, cursor: nat)
  {
    match s
    case Success(p) => r == Success(p.node) && cursor == p.next
    case Failure(e) => r == Failure(e)
  }

  class LanguageParser {
    const tokens: seq<Token>
    /** `curr_token_idx_`. */
    var idx: nat

    ghost predicate Valid()
      reads this
    {
      idx <= |tokens|
    }

    constructor(tokens: seq<Token>)
      ensures Valid()
      ensures this.tokens == tokens && idx == 0
    {
      this.tokens := tokens;
      idx := 0;
    }

    /** `advance_`, only ever called after a successful `check_`. */
    method Advance() returns (t: Token)
      requires idx < |tokens|
      modifies this`idx
      ensures Valid()
      ensures t == tokens[old(idx)] && idx == old(idx) + 1
    {
      t := tokens[idx];
      idx := idx + 1;
    }

    /** `match_`. */
    method Match(kinds: seq<TokenType>) returns (r: Result<bool, ParseError>)
      requires Valid()
      modifies this`idx
      ensures Valid()
      ensures r == MatchAt(tokens, old(idx), kinds)
      ensures idx == if r == Success(true) then old(idx) + 1 else old(idx)
    {
      for k := 0 to |kinds|
        invariant idx == old(idx)
        invariant k > 0 ==> idx < |tokens|
        invariant idx < |tokens| ==> !Matches(tokens[idx], kinds[..k])
      {
        var found :- CheckAt(tokens, idx, kinds[k]);
        if found {
          var _ := Advance();
          return Success(true);
        }
        assert kinds[..k + 1] == kinds[..k] + [kinds[k]];
      }
      assert kinds[..|kinds|] == kinds;
      return Success(false);
    }

    /** `consume_`. */
    method Consume(kind: TokenType, message: string) returns (r: Result<Token, ParseError>)
      requires Valid()
      modifies this`idx
      ensures Valid()
      ensures r == ConsumeAt(tokens, old(idx), kind, message)
      ensures r.Success? ==> idx == old(idx) + 1
    {
      var found :- CheckAt(tokens, idx, kind);
      if found {
        var t := Advance();
        return Success(t);
      }
      return Failure(UnexpectedToken(message));
    }

    /** `parse_expr_`. */
    method ParseExpr() returns (r: Result<Node, ParseError>)
      requires Valid()
      modifies this`idx
      ensures Valid()
      ensures Agrees(r, ParseExprAt(tokens, old(idx)), idx)
      decreases |tokens| - idx
    {
      var isNumber :- Match([Number]);
      if isNumber {
        return Success(Literal(tokens[idx - 1].value));
      }
      // The cursor has not moved, so the next matches read the same token
      // and cannot fail.
      var isUnary := Match([Minus, Complement]);
      if isUnary == Success(true) {
        var token :- PeekAt(tokens, idx);
        var expr :- ParseExpr();
        return Success(Unary(token, expr));
      }
      var isGroup := Match([LeftParen]);
      if isGroup == Success(true) {
        var expr :- ParseExpr();
        var _ :- Consume(RightParen, "Expected ')'");
        return Success(expr);
      }
      return Failure(InvalidExpression);
    }

    /** `parse_return_stmt_`. */
    method ParseReturn() returns (r: Result<Node, ParseError>)
      requires Valid() && 0 < idx
      modifies this`idx
      ensures Valid()
      ensures Agrees(r, ParseReturnAt(tokens, old(idx)), idx)
    {
      var keyword := tokens[idx - 1];
      var expr :- ParseExpr();
      var _ :- Consume(Semicolon, "Expected ';' after return value.");
      return Success(Node.Return(keyword, expr));
    }

    /** `parse_stmt_`. */
    method ParseStmt() returns (r: Result<Node, ParseError>)
      requires Valid()
      modifies this`idx
      ensures Valid()
      ensures Agrees(r, ParseStmtAt(tokens, old(idx)), idx)
    {
      var isReturn :- Match([Tokens.Return]);
      if isReturn {
        r := ParseReturn();
        return;
      }
      return Failure(NotAStatement);
    }

    /** `parse_block_`. */
    method ParseBlock() returns (r: Result<seq<Node>, ParseError>)
      requires Valid()
      modifies this`idx
      ensures Valid()
      ensures Agrees(r, ParseBlockAt(tokens, old(idx)), idx)
    {
      var statements: seq<Node> := [];
      PrependNoNodes(ParseBlockAt(tokens, idx));
      while true
        invariant Valid()
        invariant ParseBlockAt(tokens, old(idx)) == PrependNodes(statements, ParseBlockAt(tokens, idx))
        decreases |tokens| - idx
      {
        var closes :- CheckAt(tokens, idx, RightBrace);
        if closes || tokens[idx].kind == EndOfFile {
          break;
        }
        ghost var before := idx;
        var stmt :- ParseStmt();
        PrependNodesTwice(statements, stmt, ParseBlockAt(tokens, idx));
        statements := statements + [stmt];
      }
      var _ :- Consume(RightBrace, "Expected right brace");
      assert statements + [] == statements;
      return Success(statements);
    }

    /** `parse_function_stmt_`. */
    method ParseFunction() returns (r: Result<Node, ParseError>)
      requires Valid()
      modifies this`idx
      ensures Valid()
      ensures Agrees(r, ParseFunctionAt(tokens, old(idx)), idx)
    {
      ghost var i := idx;
      var _ :- Consume(Int, "Expected int");
      var name :- Consume(Identifier, "Expected name of function.");
      var _ :- Consume(LeftParen, "Expected left paren");
      var _ :- Consume(Void, "Expected void");
      var _ :- Consume(RightParen, "Expected right paren");
      var _ :- Consume(LeftBrace, "Expected left brace");
      assert HasHeader(tokens, i) && name == tokens[i + 1];
      var body :- ParseBlock();
      return Success(Function(name, body));
    }

    /** `parse_program`, on a fresh parser. */
    method ParseProgram() returns (r: Result<Node, ParseError>)
      requires Valid() && idx == 0
      modifies this`idx
      ensures Valid()
      ensures Agrees(r, ParseProgramAt(tokens), idx)
    {
      var f :- ParseFunction();
      return Success(Program(f));
    }
  }

  lemma PrependNoNodes(r: Result<Parsed<seq<Node>>, ParseError>)
    ensures PrependNodes([], r) == r
  {
    if r.Success? {
      assert [] + r.value.node == r.value.node;
    }
  }

  lemma PrependNodesTwice(done: seq<Node>, stmt: Node, r: Result<Parsed<seq<Node>>, ParseError>)
    ensures PrependNodes(done, PrependNodes([stmt], r)) == PrependNodes(done + [stmt], r)
  {
    if r.Success? {
      assert done + ([stmt] + r.value.node) == (done + [stmt]) + r.value.node;
    }
  }
}
