/** The scanner (libs/scanner/include/scanner/TokenScanner.h and
    libs/scanner/sources/TokenScanner.cpp): source text to tokens,
    one maximal-munch step at a time. */
module Scanner {
  import opened Wrappers
  import opened Decimal
  import opened Tokens

  /** The largest value `std::stoi` accepts for a 32-bit `int`. */
  const IntMax: int := 2147483647

  datatype ScanError =
    | InvalidToken(line: int, character: char)
    /** `std::stoi` throws `std::out_of_range`. */
    | LiteralOutOfRange(lexeme: string)

  /** `keywords_`: the fixed keyword table, looked up by exact string. */
  const Keywords: map<string, TokenType> := map[
    "and" := And, "else" := Else, "false" := False, "for" := For, "fun" := Fun,
    "if" := If, "or" := Or, "print" := Print, "return" := Return, "true" := True,
    "while" := While, "int" := Int, "void" := Void]

  /** `is_alpha_`: ASCII letters and `_`. A letter never reaches the
      digit case of `get_next_token_`, nor any case before it. */
  predicate IsAlpha(c: char)
    ensures IsAlpha(c) ==> !IsDigit(c) && !IsPunct(c) && !IsBlank(c)
  {
    'a' <= c <= 'z' || 'A' <= c <= 'Z' || c == '_'
  }

  /** `is_alpha_numeric_`: every character of a word is one that
      `get_next_token_` accepts. */
  predicate IsAlphaNumeric(c: char)
    ensures IsAlphaNumeric(c) ==> IsValidChar(c)
  {
    IsAlpha(c) || IsDigit(c)
  }

  predicate IsPunct(c: char) {
    c == '(' || c == ')' || c == '{' || c == '}' || c == ';'
  }

  predicate IsNewline(c: char) {
    c == '\n' || c == '\r'
  }

  predicate IsBlank(c: char) {
    IsNewline(c) || c == '\t' || c == ' '
  }

  /** The characters some case of `get_next_token_` accepts. */
  predicate IsValidChar(c: char) {
    IsPunct(c) || IsBlank(c) || IsDigit(c) || IsAlpha(c)
  }

  function PunctKind(c: char): TokenType
    requires IsPunct(c)
  {
    match c
    case '(' => LeftParen
    case ')' => RightParen
    case '{' => LeftBrace
    case '}' => RightBrace
    case ';' => Semicolon
  }

  /** Membership in the run `number_` (digits) or `identifier_`
      (letters, digits, `_`) extends. */
  predicate InRun(c: char, word: bool) {
    if word then IsAlphaNumeric(c) else IsDigit(c)
  }

  /** End of the maximal run that starts at `i`. */
  function RunEnd(s: string, i: nat, word: bool): (j: nat)
    requires i <= |s|
    ensures i <= j <= |s|
    ensures forall k :: i <= k < j ==> InRun(s[k], word)
    ensures j == |s| || !InRun(s[j], word)
    decreases |s| - i
  {
    if i < |s| && InRun(s[i], word) then RunEnd(s, i + 1, word) else i
  }

  /** A run of digits, read as a string, is all digits. */
  lemma RunIsDigits(s: string, i: nat, j: nat)
    requires i <= j <= |s| && forall k :: i <= k < j ==> InRun(s[k], false)
    ensures AllDigits(s[i..j])
  {
    assert forall k :: 0 <= k < j - i ==> s[i..j][k] == s[i + k];
  }

  /** `std::stoi` on a digit run. */
  function StringToInt(lexeme: string): (r: Result<int, ScanError>)
    requires AllDigits(lexeme)
    ensures r.Success? <==> DigitsValue(lexeme) <= IntMax
    ensures r.Success? ==> 0 <= r.value == DigitsValue(lexeme)
    ensures r.Failure? ==> r.error == LiteralOutOfRange(lexeme)
  {
    var n := DigitsValue(lexeme);
    if n <= IntMax then Success(n) else Failure(LiteralOutOfRange(lexeme))
  }

  /** The token `identifier_` adds for a word. */
  function WordToken(lexeme: string, line: int): (r: Token)
    ensures r.lexeme == lexeme && r.line == line
    ensures r.kind == Identifier <==> lexeme !in Keywords
    ensures r.value == (if lexeme in Keywords then Empty else Str(lexeme))
  {
    if lexeme in Keywords then Token(Keywords[lexeme], Empty, lexeme, line)
    else Token(Identifier, Str(lexeme), lexeme, line)
  }

  /** What one call of `get_next_token_` does: the token it adds, if any,
      and the position and line it leaves behind. */
  datatype Step = Step(token: Option<Token>, next: nat, line: int)

  function OptionToSeq<T>(o: Option<T>): seq<T>
  {
    if o.Some? then [o.value] else []
  }

  function ScanStep(s: string, pos: nat, line: int): (r: Result<Step, ScanError>)
    requires pos < |s|
    ensures r.Success? ==> pos < r.value.next <= |s|
    ensures r.Success? ==> forall k :: pos <= k < r.value.next ==> IsValidChar(s[k])
    ensures r.Success? && r.value.token.Some? ==>
      r.value.token.value.lexeme == s[pos..r.value.next] &&
      r.value.token.value.line == line && r.value.line == line
    ensures r.Success? && r.value.token.None? ==>
      r.value.next == pos + 1 && IsBlank(s[pos]) &&
      r.value.line == if IsNewline(s[pos]) then line + 1 else line
    ensures r.Failure? <==> !IsValidChar(s[pos]) || (IsDigit(s[pos]) && DigitsValue(s[pos..RunEnd(s, pos + 1, false)]) > IntMax)
    ensures !IsValidChar(s[pos]) ==> r == Failure(InvalidToken(line, s[pos]))
    ensures IsValidChar(s[pos]) && r.Failure? ==> r.error == LiteralOutOfRange(s[pos..RunEnd(s, pos + 1, false)])
    ensures r.Success? && IsDigit(s[pos]) ==> r.value.next == RunEnd(s, pos + 1, false)
    ensures r.Success? && IsAlpha(s[pos]) ==> r.value.next == RunEnd(s, pos + 1, true)
  {
    var c := s[pos];
    if IsPunct(c) then
      Success(Step(Some(Token(PunctKind(c), Empty, s[pos..pos + 1], line)), pos + 1, line))
    else if IsNewline(c) then
      Success(Step(None, pos + 1, line + 1))
    else if c == '\t' || c == ' ' then
      Success(Step(None, pos + 1, line))
    else if IsDigit(c) then
      var j := RunEnd(s, pos + 1, false);
      var lexeme := s[pos..j];
      RunIsDigits(s, pos, j);
      var n :- StringToInt(lexeme);
      Success(Step(Some(Token(Number, IntVal(n), lexeme, line)), j, line))
    else if IsAlpha(c) then
      var j := RunEnd(s, pos + 1, true);
      Success(Step(Some(WordToken(s[pos..j], line)), j, line))
    else
      Failure(InvalidToken(line, c))
  }

  /** `get_tokens` from position `pos` on; no end-of-input token is added. */
  function ScanFrom(s: string, pos: nat, line: int): (r: Result<seq<Token>, ScanError>)
    requires pos <= |s|
    ensures r.Success? ==> |r.value| <= |s| - pos
    decreases |s| - pos
  {
    if pos == |s| then Success([])
    else
      var st :- ScanStep(s, pos, line);
      var rest :- ScanFrom(s, st.next, st.line);
      Success(OptionToSeq(st.token) + rest)
  }

  /** A fresh scanner starts at position 0 on line 1. */
  function Scan(s: string): (r: Result<seq<Token>, ScanError>)
    ensures r.Success? ==> |r.value| <= |s|
  {
    ScanFrom(s, 0, 1)
  }

  function Prepend(ts: seq<Token>, r: Result<seq<Token>, ScanError>): Result<seq<Token>, ScanError>
  {
    match r
    case Success(rest) => Success(ts + rest)
    case Failure(e) => Failure(e)
  }

  lemma ScanFromUnfold(s: string, pos: nat, line: int)
    requires pos < |s|
    ensures ScanFrom(s, pos, line) ==
      match ScanStep(s, pos, line)
      case Success(st) => Prepend(OptionToSeq(st.token), ScanFrom(s, st.next, st.line))
      case Failure(e) => Failure(e)
  {
  }

  lemma PrependTwice(a: seq<Token>, b: seq<Token>, r: Result<seq<Token>, ScanError>)
    ensures Prepend(a, Prepend(b, r)) == Prepend(a + b, r)
  {
    if r.Success? {
      assert a + (b + r.value) == (a + b) + r.value;
    }
  }

  predicate AllAlphaNumeric(s: string) {
    forall k :: 0 <= k < |s| ==> IsAlphaNumeric(s[k])
  }

  /** The four shapes a scanned token can have. */
  predicate WellFormedToken(t: Token) {
    |t.lexeme| > 0 &&
    ((|t.lexeme| == 1 && IsPunct(t.lexeme[0]) && t.kind == PunctKind(t.lexeme[0]) && t.value == Empty) ||
     (AllDigits(t.lexeme) && t.kind == Number && DigitsValue(t.lexeme) <= IntMax &&
      t.value == IntVal(DigitsValue(t.lexeme))) ||
     (IsAlpha(t.lexeme[0]) && AllAlphaNumeric(t.lexeme) && t.lexeme in Keywords &&
      t.kind == Keywords[t.lexeme] && t.value == Empty) ||
     (IsAlpha(t.lexeme[0]) && AllAlphaNumeric(t.lexeme) && t.lexeme !in Keywords &&
      t.kind == Identifier && t.value == Str(t.lexeme)))
  }

  /** One successful step of a successful scan. */
  lemma ScanFromSuccess(s: string, pos: nat, line: int)
    requires pos < |s| && ScanFrom(s, pos, line).Success?
    ensures ScanStep(s, pos, line).Success?
    ensures var st := ScanStep(s, pos, line).value;
      ScanFrom(s, st.next, st.line).Success? &&
      ScanFrom(s, pos, line).value == OptionToSeq(st.token) + ScanFrom(s, st.next, st.line).value
  {
  }

  lemma ScanStepWellFormed(s: string, pos: nat, line: int)
    requires pos < |s|
    requires ScanStep(s, pos, line).Success? && ScanStep(s, pos, line).value.token.Some?
    ensures WellFormedToken(ScanStep(s, pos, line).value.token.value)
  {
    var st := ScanStep(s, pos, line).value;
    var lexeme := s[pos..st.next];
    assert forall k :: 0 <= k < |lexeme| ==> lexeme[k] == s[pos + k];
  }

  /** Every token of a successful scan is a punctuation mark, a number that
      carries the decimal value of its lexeme, a keyword with no value, or
      an identifier that carries its own lexeme. */
  lemma {:induction false} ScanTokensWellFormed(s: string, pos: nat, line: int)
    requires pos <= |s| && ScanFrom(s, pos, line).Success?
    ensures forall t :: t in ScanFrom(s, pos, line).value ==> WellFormedToken(t)
    decreases |s| - pos
  {
    if pos < |s| {
      var st := ScanStep(s, pos, line).value;
      ScanTokensWellFormed(s, st.next, st.line);
      if st.token.Some? {
        ScanStepWellFormed(s, pos, line);
      }
    }
  }

  lemma WellFormedNotEndOfFile(t: Token)
    requires WellFormedToken(t)
    ensures t.kind != EndOfFile
  {
  }

  /** No end-of-input token is ever appended. */
  lemma ScanHasNoEndOfFile(s: string)
    requires Scan(s).Success?
    ensures forall i :: 0 <= i < |Scan(s).value| ==> Scan(s).value[i].kind != EndOfFile
  {
    ScanTokensWellFormed(s, 0, 1);
    forall i | 0 <= i < |Scan(s).value| ensures Scan(s).value[i].kind != EndOfFile {
      WellFormedNotEndOfFile(Scan(s).value[i]);
    }
  }

  function RemoveBlanks(s: string): string
  {
    if s == [] then [] else (if IsBlank(s[0]) then [] else [s[0]]) + RemoveBlanks(s[1..])
  }

  function LexemeText(ts: seq<Token>): string
  {
    if ts == [] then [] else ts[0].lexeme + LexemeText(ts[1..])
  }

  lemma {:induction false} RemoveBlanksAppend(a: string, b: string)
    ensures RemoveBlanks(a + b) == RemoveBlanks(a) + RemoveBlanks(b)
  {
    if a != [] {
      assert (a + b)[1..] == a[1..] + b;
      RemoveBlanksAppend(a[1..], b);
    } else {
      assert a + b == b;
    }
  }

  lemma {:induction false} RemoveBlanksKeeps(a: string)
    requires forall k :: 0 <= k < |a| ==> !IsBlank(a[k])
    ensures RemoveBlanks(a) == a
  {
    if a != [] {
      RemoveBlanksKeeps(a[1..]);
    }
  }

  /** The lexemes, in order, spell the input with its blanks and line
      breaks removed. */
  lemma {:induction false} ScanLexemes(s: string, pos: nat, line: int)
    requires pos <= |s| && ScanFrom(s, pos, line).Success?
    ensures LexemeText(ScanFrom(s, pos, line).value) == RemoveBlanks(s[pos..])
    decreases |s| - pos
  {
    if pos < |s| {
      ScanFromSuccess(s, pos, line);
      var st := ScanStep(s, pos, line).value;
      var next := st.next;
      var rest := ScanFrom(s, next, st.line).value;
      ScanLexemes(s, next, st.line);
      var consumed := s[pos..next];
      assert s[pos..] == consumed + s[next..];
      RemoveBlanksAppend(consumed, s[next..]);
      LexemeTextAppend(OptionToSeq(st.token), rest);
      StepLexeme(s, pos, line);
    }
  }

  lemma {:induction false} LexemeTextAppend(a: seq<Token>, b: seq<Token>)
    ensures LexemeText(a + b) == LexemeText(a) + LexemeText(b)
  {
    if a != [] {
      assert (a + b)[1..] == a[1..] + b;
      LexemeTextAppend(a[1..], b);
    } else {
      assert a + b == b;
    }
  }

  lemma StepLexeme(s: string, pos: nat, line: int)
    requires pos < |s| && ScanStep(s, pos, line).Success?
    ensures var st := ScanStep(s, pos, line).value;
      LexemeText(OptionToSeq(st.token)) == RemoveBlanks(s[pos..st.next])
  {
    var st := ScanStep(s, pos, line).value;
    var consumed := s[pos..st.next];
    if st.token.Some? {
      ScanStepWellFormed(s, pos, line);
      WellFormedLexemeText(st.token.value);
    } else {
      assert consumed == [s[pos]];
    }
  }

  /** A well-formed token's lexeme holds no blank. */
  lemma WellFormedLexemeText(t: Token)
    requires WellFormedToken(t)
    ensures LexemeText([t]) == RemoveBlanks(t.lexeme)
  {
    assert forall k :: 0 <= k < |t.lexeme| ==> !IsBlank(t.lexeme[k]);
    RemoveBlanksKeeps(t.lexeme);
    assert LexemeText([t]) == t.lexeme + LexemeText([]);
  }

  /** A character outside every class of `get_next_token_` makes the scan
      fail, wherever it stands. */
  lemma {:induction false} InvalidCharFails(s: string, pos: nat, line: int, i: nat)
    requires pos <= i < |s| && !IsValidChar(s[i])
    ensures ScanFrom(s, pos, line).Failure?
    decreases |s| - pos
  {
    var r := ScanStep(s, pos, line);
    if r.Success? {
      InvalidCharFails(s, r.value.next, r.value.line, i);
    }
  }

  /** Maximal munch: a run of digits is one NUMBER, not one per digit. */
  lemma DigitRunIsOneNumber()
    ensures Scan("12") == Success([Token(Number, IntVal(12), "12", 1)])
  {
    assert !IsPunct('1') && !IsNewline('1') && IsDigit('1');
    assert RunEnd("12", 1, false) == 2;
    assert "12"[0..2] == "12";
    assert DigitsValue("12") == 12;
    assert StringToInt("12") == Success(12);
    assert ScanStep("12", 0, 1) == Success(Step(Some(Token(Number, IntVal(12), "12", 1)), 2, 1));
    assert ScanFrom("12", 2, 1) == Success([]);
    assert OptionToSeq(Some(Token(Number, IntVal(12), "12", 1))) + [] == [Token(Number, IntVal(12), "12", 1)];
  }

  /** Maximal munch: a word that starts with a keyword is one IDENTIFIER. */
  lemma KeywordPrefixIsOneIdentifier()
    ensures Scan("intx") == Success([Token(Identifier, Str("intx"), "intx", 1)])
  {
    assert IsAlpha('i') && !IsNewline('i');
    assert RunEnd("intx", 1, true) == 4;
    assert "intx"[0..4] == "intx";
    assert WordToken("intx", 1) == Token(Identifier, Str("intx"), "intx", 1);
    assert ScanStep("intx", 0, 1) == Success(Step(Some(Token(Identifier, Str("intx"), "intx", 1)), 4, 1));
    assert ScanFrom("intx", 4, 1) == Success([]);
    assert OptionToSeq(Some(Token(Identifier, Str("intx"), "intx", 1))) + [] == [Token(Identifier, Str("intx"), "intx", 1)];
  }

  /** There is no case for `-` or `~`: any input holding one is rejected. */
  lemma MinusAndComplementRejected(s: string)
    requires '-' in s || '~' in s
    ensures Scan(s).Failure?
  {
    var i :| 0 <= i < |s| && (s[i] == '-' || s[i] == '~');
    InvalidCharFails(s, 0, 1, i);
  }

  /** An invalid-token error always names a character of the input that no
      case accepts; so an input of valid characters only ever fails on an
      out-of-range literal. */
  lemma {:induction false} InvalidTokenIsInvalidChar(s: string, pos: nat, line: int)
    requires pos <= |s| && ScanFrom(s, pos, line).Failure?
    requires ScanFrom(s, pos, line).error.InvalidToken?
    ensures exists i :: pos <= i < |s| && s[i] == ScanFrom(s, pos, line).error.character && !IsValidChar(s[i])
    decreases |s| - pos
  {
    var r := ScanStep(s, pos, line);
    if r.Success? {
      InvalidTokenIsInvalidChar(s, r.value.next, r.value.line);
    }
  }

  function NewlineCount(s: string): nat
  {
    if s == [] then 0 else (if IsNewline(s[0]) then 1 else 0) + NewlineCount(s[1..])
  }

  lemma {:induction false} NewlineCountAppend(a: string, b: string)
    ensures NewlineCount(a + b) == NewlineCount(a) + NewlineCount(b)
  {
    if a != [] {
      assert (a + b)[1..] == a[1..] + b;
      NewlineCountAppend(a[1..], b);
    } else {
      assert a + b == b;
    }
  }

  lemma {:induction false} NewlineCountNone(a: string)
    requires forall k :: 0 <= k < |a| ==> !IsNewline(a[k])
    ensures NewlineCount(a) == 0
  {
    if a != [] {
      NewlineCountNone(a[1..]);
    }
  }

  /** Every token in `ts` is on a line from `lo` to `hi`. */
  predicate LinesBetween(ts: seq<Token>, lo: int, hi: int) {
    forall i :: 0 <= i < |ts| ==> lo <= ts[i].line <= hi
  }

  /** The lines of the tokens in `ts` never decrease. */
  predicate LinesOrdered(ts: seq<Token>) {
    forall i, j :: 0 <= i < j < |ts| ==> ts[i].line <= ts[j].line
  }

  /** Token lines never decrease and stay between the starting line and the
      starting line plus the number of line breaks scanned. */
  lemma {:induction false} ScanLines(s: string, pos: nat, line: int)
    requires pos <= |s| && ScanFrom(s, pos, line).Success?
    ensures LinesBetween(ScanFrom(s, pos, line).value, line, line + NewlineCount(s[pos..]))
    ensures LinesOrdered(ScanFrom(s, pos, line).value)
    decreases |s| - pos
  {
    if pos < |s| {
      ScanFromSuccess(s, pos, line);
      var st := ScanStep(s, pos, line).value;
      ScanLines(s, st.next, st.line);
      ScanLinesStep(s, pos, line, ScanFrom(s, st.next, st.line).value);
    }
  }

  /** The inductive step of `ScanLines`: one step in front of tokens
      whose lines are bounded by the rest of the input. */
  lemma ScanLinesStep(s: string, pos: nat, line: int, rest: seq<Token>)
    requires pos < |s| && ScanStep(s, pos, line).Success?
    ensures var st := ScanStep(s, pos, line).value;
      LinesBetween(rest, st.line, st.line + NewlineCount(s[st.next..])) && LinesOrdered(rest) ==>
      LinesBetween(OptionToSeq(st.token) + rest, line, line + NewlineCount(s[pos..])) &&
      LinesOrdered(OptionToSeq(st.token) + rest)
  {
    var st := ScanStep(s, pos, line).value;
    StepLines(s, pos, line);
    assert s[pos..] == s[pos..st.next] + s[st.next..];
    NewlineCountAppend(s[pos..st.next], s[st.next..]);
    if LinesBetween(rest, st.line, st.line + NewlineCount(s[st.next..])) && LinesOrdered(rest) {
      LinesPrepend(OptionToSeq(st.token), rest, line, st.line, line + NewlineCount(s[pos..]));
    }
  }

  /** One step moves the line on by the line breaks it consumes, and the
      token it adds is on the line the step started on. */
  lemma StepLines(s: string, pos: nat, line: int)
    requires pos < |s| && ScanStep(s, pos, line).Success?
    ensures ScanStep(s, pos, line).value.line == line + NewlineCount(s[pos..ScanStep(s, pos, line).value.next])
    ensures LinesBetween(OptionToSeq(ScanStep(s, pos, line).value.token), line, line)
  {
    var st := ScanStep(s, pos, line).value;
    var consumed := s[pos..st.next];
    if st.token.Some? {
      ScanStepWellFormed(s, pos, line);
      assert forall k :: 0 <= k < |consumed| ==> !IsNewline(consumed[k]) by {
        assert consumed == st.token.value.lexeme;
      }
      NewlineCountNone(consumed);
    } else {
      assert consumed == [s[pos]];
    }
  }

  lemma LinesPrepend(head: seq<Token>, rest: seq<Token>, lo: int, mid: int, hi: int)
    requires LinesBetween(head, lo, lo) && lo <= mid && lo <= hi
    requires LinesBetween(rest, mid, hi) && LinesOrdered(rest)
    ensures LinesBetween(head + rest, lo, hi) && LinesOrdered(head + rest)
  {
  }

  /** The keyword table has thirteen entries, among them "int", "void" and
      "return". */
  lemma KeywordTable()
    ensures |Keywords| == 13
  {
    var ks := ["and", "else", "false", "for", "fun", "if", "or", "print", "return", "true", "while", "int", "void"];
    assert forall i, j :: 0 <= i < j < |ks| ==> ks[i] != ks[j];
    assert Keywords.Keys == {"and", "else", "false", "for", "fun", "if", "or", "print", "return", "true", "while", "int", "void"};
    assert forall x :: x in Keywords.Keys <==> x in ks;
    assert Keywords.Keys == set x | x in ks;
    DistinctCount(ks);
  }

  lemma {:induction false} DistinctCount(ks: seq<string>)
    requires forall i, j :: 0 <= i < j < |ks| ==> ks[i] != ks[j]
    ensures |set x | x in ks| == |ks|
  {
    if ks != [] {
      var t := ks[1..];
      DistinctCount(t);
      assert (set x | x in ks) == {ks[0]} + (set x | x in t);
    }
  }

  /** The three keywords the grammar uses scan to their own kinds, with no
      value. */
  lemma LanguageKeywords(line: int)
    ensures WordToken("int", line) == Token(Int, Empty, "int", line)
    ensures WordToken("void", line) == Token(Void, Empty, "void", line)
    ensures WordToken("return", line) == Token(Return, Empty, "return", line)
  {
  }

  /** Every keyword is spelled in lower case. */
  lemma KeywordsLowerCase(w: string)
    requires w in Keywords
    ensures forall k :: 0 <= k < |w| ==> 'a' <= w[k] <= 'z'
  {
  }

  /** Lookup is by exact string: a spelling with an upper-case letter is
      an identifier, never a keyword. */
  lemma CaseVariantIsIdentifier(w: string, line: int, k: nat)
    requires k < |w| && 'A' <= w[k] <= 'Z'
    ensures WordToken(w, line) == Token(Identifier, Str(w), w, line)
  {
    if w in Keywords {
      KeywordsLowerCase(w);
    }
  }

  /** `TokenScanner`: the fields get_tokens and its helpers update. */
  class TokenScanner {
    const source: string
    var tokens: seq<Token>
    var start: nat
    var current: nat
    var currLine: int

    ghost predicate Valid()
      reads this
    {
      start <= current <= |source|
    }

    constructor (source: string)
      ensures Valid() && this.source == source
      ensures tokens == [] && start == 0 && current == 0 && currLine == 1
    {
      this.source := source;
      tokens := [];
      start := 0;
      current := 0;
      currLine := 1;
    }

    /** `get_tokens`; a thrown error becomes a Failure. */
    method GetTokens() returns (r: Result<seq<Token>, ScanError>)
      requires Valid()
      modifies this
      ensures Valid()
      ensures r == Prepend(old(tokens), ScanFrom(source, old(current), old(currLine)))
      ensures r.Success? ==> current == |source|
    {
      while !IsAtEnd()
        invariant Valid()
        invariant Prepend(old(tokens), ScanFrom(source, old(current), old(currLine))) ==
                  Prepend(tokens, ScanFrom(source, current, currLine))
        decreases |source| - current
      {
        start := current;
        ghost var before, line := tokens, currLine;
        ghost var step := ScanStep(source, start, line);
        ScanFromUnfold(source, start, line);
        var err := NextToken();
        if err.Some? {
          return Failure(err.value);
        }
        PrependTwice(before, OptionToSeq(step.value.token), ScanFrom(source, current, currLine));
      }
      assert tokens + [] == tokens;
      return Success(tokens);
    }

    /** `get_next_token_`: consumes one character and at most one run. */
    method NextToken() returns (err: Option<ScanError>)
      requires Valid() && start == current < |source|
      modifies this`tokens, this`current, this`currLine
      ensures Valid()
      ensures match ScanStep(source, old(current), old(currLine))
        case Success(st) =>
          err == None && current == st.next && currLine == st.line &&
          tokens == old(tokens) + OptionToSeq(st.token)
        case Failure(e) => err == Some(e)
    {
      err := None;
      var c := Advance();
      match c {
        case '(' => AddToken(LeftParen);
        case ')' => AddToken(RightParen);
        case '{' => AddToken(LeftBrace);
        case '}' => AddToken(RightBrace);
        case ';' => AddToken(Semicolon);
        case '\n' => currLine := currLine + 1;
        case '\r' => currLine := currLine + 1;
        case '\t' =>
        case ' ' =>
        case _ =>
          if IsDigit(c) {
            err := Number();
          } else if IsAlpha(c) {
            Identifier();
          } else {
            err := Some(InvalidToken(currLine, c));
          }
      }
    }

    /** `number_`: extends the digit run, then converts it with `std::stoi`. */
    method Number() returns (err: Option<ScanError>)
      requires Valid() && current == start + 1 && IsDigit(source[start])
      modifies this`tokens, this`current
      ensures Valid() && current == RunEnd(source, start + 1, false)
      ensures AllDigits(source[start..current])
      ensures match StringToInt(source[start..current])
        case Success(n) => err == None && tokens == old(tokens) + [Token(Tokens.Number, IntVal(n), source[start..current], currLine)]
        case Failure(e) => err == Some(e) && tokens == old(tokens)
    {
      while IsDigit(Peek())
        invariant Valid() && start < current <= RunEnd(source, start + 1, false)
        invariant RunEnd(source, current, false) == RunEnd(source, start + 1, false)
        invariant tokens == old(tokens)
        decreases |source| - current
      {
        var _ := Advance();
      }
      var lexeme := source[start..current];
      RunIsDigits(source, start, current);
      var n := StringToInt(lexeme);
      if n.Failure? {
        return Some(n.error);
      }
      AddToken(Tokens.Number, IntVal(n.value));
      return None;
    }

    /** `identifier_`: extends the word run, then looks it up in the
        keyword table. */
    method Identifier()
      requires Valid() && current == start + 1 && IsAlpha(source[start])
      modifies this`tokens, this`current
      ensures Valid() && current == RunEnd(source, start + 1, true)
      ensures tokens == old(tokens) + [WordToken(source[start..current], currLine)]
    {
      while IsAlphaNumeric(Peek())
        invariant Valid() && start < current <= RunEnd(source, start + 1, true)
        invariant RunEnd(source, current, true) == RunEnd(source, start + 1, true)
        invariant tokens == old(tokens)
        decreases |source| - current
      {
        var _ := Advance();
      }
      var identifier := source[start..current];
      if identifier in Keywords {
        AddToken(Keywords[identifier]);
      } else {
        AddToken(Tokens.Identifier, Str(identifier));
      }
    }

    /** Both `add_token_` overloads; the one without a value stores the
        empty alternative. */
    method AddToken(kind: TokenType, value: Value := Empty)
      requires Valid()
      modifies this`tokens
      ensures tokens == old(tokens) + [Token(kind, value, source[start..current], currLine)]
    {
      tokens := tokens + [Token(kind, value, source[start..current], currLine)];
    }

    method Advance() returns (c: char)
      requires Valid() && current < |source|
      modifies this`current
      ensures Valid() && c == source[old(current)] && current == old(current) + 1
    {
      c := source[current];
      current := current + 1;
    }

    function IsAtEnd(): (b: bool)
      reads this
      requires Valid()
      ensures b <==> current == |source|
    {
      current >= |source|
    }

    /** The current character, or NUL at the end of the input. */
    function Peek(): (c: char)
      reads this
      requires Valid()
      ensures current < |source| ==> c == source[current]
      ensures current == |source| ==> c == '\0'
    {
      if IsAtEnd() then '\0' else source[current]
    }
  }
}
