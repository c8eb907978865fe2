/** Tokens and their debug rendering (libs/scanner/include/scanner/Token.h). */
module Tokens {
  import opened Wrappers
  import opened Decimal

  /** Token kinds. TokenType.h is not part of this model; these are the
      enumerators the scanner and the parser refer to. */
  datatype TokenType =
    | LeftParen | RightParen | LeftBrace | RightBrace | Semicolon
    | Minus | Complement
    | Number | String | Identifier
    | And | Else | False | For | Fun | If | Or | Print | Return | True | While | Int | Void
    | EndOfFile

  /** `TokenValueType`: exactly one of monostate, string, int, bool, nullptr. */
  datatype Value = Empty | Str(s: string) | IntVal(i: int) | BoolVal(b: bool) | NullPtr

  /** A token; `line` is 0 unless the scanner sets it. */
  datatype Token = Token(kind: TokenType, value: Value, lexeme: string, line: int := 0)

  predicate NoNewline(s: string) {
    forall k :: 0 <= k < |s| ==> s[k] != '\n'
  }

  /** `operator<<(ostream&, const TokenValueType&)`; a bool is written
      without `boolalpha`, so as 1 or 0. */
  function RenderValue(v: Value): (r: string)
    ensures |r| >= 5
  {
    match v
    case Empty => "empty"
    case Str(s) => "string: " + s
    case IntVal(i) => "int: " + IntToString(i)
    case BoolVal(b) => "bool: " + (if b then "1" else "0")
    case NullPtr => "nullptr"
  }

  /** Reads a rendered value back. */
  function ParseValue(s: string): Option<Value>
  {
    if s == "empty" then Some(Empty)
    else if s == "nullptr" then Some(NullPtr)
    else if |s| >= 8 && s[..8] == "string: " then Some(Str(s[8..]))
    else if |s| >= 5 && s[..5] == "int: " then
      (match SignedValue(s[5..])
       case Some(i) => Some(IntVal(i))
       case None => None)
    else if s == "bool: 1" then Some(BoolVal(true))
    else if s == "bool: 0" then Some(BoolVal(false))
    else None
  }

  /** Every value renders to a text it can be recovered from, so distinct
      values render differently. */
  lemma ParseRenderValue(v: Value)
    ensures ParseValue(RenderValue(v)) == Some(v)
  {
    match v
    case Str(s) => ParseRenderStr(s);
    case IntVal(i) => ParseRenderInt(i);
    case BoolVal(b) => ParseRenderBool(b);
    case Empty =>
    case NullPtr =>
  }

  lemma ParseRenderStr(s: string)
    ensures ParseValue("string: " + s) == Some(Str(s))
  {
    var r := "string: " + s;
    assert r[0] == 's';
    assert r[..8] == "string: " && r[8..] == s;
  }

  lemma ParseRenderInt(i: int)
    ensures ParseValue("int: " + IntToString(i)) == Some(IntVal(i))
  {
    var r := "int: " + IntToString(i);
    assert r[0] == 'i';
    assert |r| >= 8 ==> r[..8][0] == 'i';
    assert r[..5] == "int: " && r[5..] == IntToString(i);
    SignedValueOfIntToString(i);
  }

  lemma ParseRenderBool(b: bool)
    ensures ParseValue("bool: " + (if b then "1" else "0")) == Some(BoolVal(b))
  {
    var r := "bool: " + (if b then "1" else "0");
    assert r == if b then "bool: 1" else "bool: 0";
    assert r[0] == 'b' && |r| == 7;
  }

  lemma RenderValueInjective(v: Value, w: Value)
    requires RenderValue(v) == RenderValue(w)
    ensures v == w
  {
    ParseRenderValue(v);
    ParseRenderValue(w);
  }

  /** `operator<<(ostream&, const Token&)`. The rendering of a token kind
      lives in TokenType.h, which is not part of this model, so it is the
      parameter `kindName`. */
  function RenderToken(kindName: TokenType -> string, t: Token): (r: string)
    ensures |r| > 0 && r[|r| - 1] == '\n'
  {
    Line("token_type: ", kindName(t.kind)) +
    (Line("token_value: ", RenderValue(t.value)) +
     (Line("lexeme: ", t.lexeme) +
      Line("line: ", IntToString(t.line))))
  }

  /** One labelled output line, newline included. */
  function Line(tag: string, text: string): (r: string)
    ensures |r| > 0 && r[|r| - 1] == '\n'
  {
    tag + text + "\n"
  }

  /** Index of the first newline of `s`, or |s| when there is none. */
  function NewlineIndex(s: string): (k: nat)
    ensures k <= |s| && NoNewline(s[..k]) && (k < |s| ==> s[k] == '\n')
  {
    if s == [] then 0
    else if s[0] == '\n' then 0
    else
      var k := 1 + NewlineIndex(s[1..]);
      assert s[..k] == [s[0]] + s[1..][..k - 1];
      k
  }

  /** The lines of a text; a final newline does not open an empty line. */
  function SplitLines(s: string): seq<string>
    decreases |s|
  {
    if s == [] then []
    else
      var k := NewlineIndex(s);
      if k == |s| then [s] else [s[..k]] + SplitLines(s[k + 1..])
  }

  lemma {:induction false} NewlineIndexOfLine(a: string, b: string)
    requires NoNewline(a)
    ensures NewlineIndex(a + "\n" + b) == |a|
  {
    if a != [] {
      assert (a + "\n" + b)[1..] == a[1..] + "\n" + b;
      NewlineIndexOfLine(a[1..], b);
    }
  }

  lemma SplitLinesCons(a: string, b: string)
    requires NoNewline(a)
    ensures SplitLines(a + "\n" + b) == [a] + SplitLines(b)
  {
    var s := a + "\n" + b;
    NewlineIndexOfLine(a, b);
    assert s[..|a|] == a && s[|a| + 1..] == b;
  }

  /** Lines written one after another, each ended by a newline. */
  function JoinLines(lines: seq<string>): string
  {
    if lines == [] then "" else lines[0] + "\n" + JoinLines(lines[1..])
  }

  /** Splitting undoes joining, as long as no line holds a newline. */
  lemma {:induction false} SplitJoinLines(lines: seq<string>)
    requires forall k :: 0 <= k < |lines| ==> NoNewline(lines[k])
    ensures SplitLines(JoinLines(lines)) == lines
  {
    if lines != [] {
      SplitJoinLines(lines[1..]);
      SplitLinesCons(lines[0], JoinLines(lines[1..]));
    }
  }

  /** A token renders as exactly four newline-terminated lines, in the order
      type, value, lexeme, line, whenever none of its parts holds a newline. */
  lemma RenderTokenLines(kindName: TokenType -> string, t: Token)
    requires NoNewline(kindName(t.kind)) && NoNewline(RenderValue(t.value)) && NoNewline(t.lexeme)
    ensures SplitLines(RenderToken(kindName, t)) ==
      ["token_type: " + kindName(t.kind),
       "token_value: " + RenderValue(t.value),
       "lexeme: " + t.lexeme,
       "line: " + IntToString(t.line)]
    ensures RenderToken(kindName, t)[|RenderToken(kindName, t)| - 1] == '\n'
  {
    var a := "token_type: " + kindName(t.kind);
    var b := "token_value: " + RenderValue(t.value);
    var c := "lexeme: " + t.lexeme;
    var d := "line: " + IntToString(t.line);
    NoNewlineConcat("token_type: ", kindName(t.kind));
    NoNewlineConcat("token_value: ", RenderValue(t.value));
    NoNewlineConcat("lexeme: ", t.lexeme);
    NoNewlineConcat("line: ", IntToString(t.line));
    var r := RenderToken(kindName, t);
    assert JoinLines([d]) == d + "\n" + "";
    assert JoinLines([c, d]) == c + "\n" + JoinLines([d]);
    assert JoinLines([b, c, d]) == b + "\n" + JoinLines([c, d]);
    assert JoinLines([a, b, c, d]) == a + "\n" + JoinLines([b, c, d]);
    assert r == JoinLines([a, b, c, d]);
    SplitJoinLines([a, b, c, d]);
    LastOfAppend(a + "\n", (b + "\n") + ((c + "\n") + (d + "\n")));
    LastOfAppend(b + "\n", (c + "\n") + (d + "\n"));
    LastOfAppend(c + "\n", d + "\n");
  }

  lemma LastOfAppend(a: string, b: string)
    requires |b| > 0
    ensures (a + b)[|a + b| - 1] == b[|b| - 1]
  {
  }

  lemma NoNewlineConcat(a: string, b: string)
    requires NoNewline(a) && NoNewline(b)
    ensures NoNewline(a + b)
  {
    assert forall k :: |a| <= k < |a + b| ==> (a + b)[k] == b[k - |a|];
  }

  /** Rendering a scanned value never breaks a line, except for a string
      value that itself holds a newline. */
  lemma RenderValueNoNewline(v: Value)
    requires v.Str? ==> NoNewline(v.s)
    ensures NoNewline(RenderValue(v))
  {
    match v
    case Str(s) => NoNewlineConcat("string: ", s);
    case IntVal(i) => NoNewlineConcat("int: ", IntToString(i));
    case _ =>
  }
}
