/** lexer.c as imperative code: `tokenize` scans the input with a moving
    position and appends tokens, and the global `token` pointer becomes a
    cursor object over the resulting token list. */
module Lexer {
  import opened Wrappers
  import opened CLib
  import opened Defs
  import opened LexerSpec
  import opened LexerProofs

  // ---------------------------------------------------------------------
  // tokenize

  /** `tokenize_keyword`: when `keyword` starts at `p` and is not followed by
      an identifier character, append a token of `kind` (with `len` 0, as
      the source does) and move past the keyword. */
  method TokenizeKeyword(keyword: string, kind: TokenKind, s: string, toks: seq<Token>, p: nat)
    returns (matched: bool, toks': seq<Token>, p': nat)
    requires p <= |s|
    ensures matched <==> KeywordAt(s, p, keyword)
    ensures matched ==> toks' == toks + [Token(kind, 0, p, 0)] && p' == p + |keyword|
    ensures !matched ==> toks' == toks && p' == p
  {
    var len := |keyword|;
    if p + len <= |s| && s[p..p + len] == keyword && !IsLetterOfSymbol(At(s, p + len)) {
      toks' := toks + [Token(kind, 0, p, 0)];
      p' := p + len;
      return true, toks', p';
    }
    return false, toks, p;
  }

  /** The loop `for (; *p && is_letter_of_symbol(*p); p++)`. */
  method SkipIdentifier(s: string, q: nat) returns (p: nat)
    requires q <= |s| && IsCString(s)
    ensures p == IdentEnd(s, q)
  {
    p := q;
    while At(s, p) != NUL && IsLetterOfSymbol(At(s, p))
      invariant q <= p <= |s|
      invariant IdentEnd(s, q) == IdentEnd(s, p)
      decreases |s| - p
    {
      p := p + 1;
    }
  }

  /** The search of the operator table: the index of the first operator whose
      characters start at `p`, or the table's length. */
  method FindOperator(s: string, p: nat) returns (op: nat)
    requires p <= |s| && IsCString(s)
    ensures op == FirstOperator(s, p, Operators)
  {
    op := 0;
    while op < |Operators|
      invariant op <= |Operators|
      invariant forall m :: 0 <= m < op ==> !StartsWith(s, p, Operators[m])
    {
      var len := |Operators[op]|;
      if len <= |s| - p && s[p..p + len] == Operators[op] {
        break;
      }
      op := op + 1;
    }
    FirstOperatorIs(s, p, Operators, op);
  }

  lemma FirstOperatorIs(s: string, i: nat, ops: seq<string>, k: nat)
    requires k <= |ops|
    requires forall m :: 0 <= m < k ==> !StartsWith(s, i, ops[m])
    requires k < |ops| ==> StartsWith(s, i, ops[k])
    ensures FirstOperator(s, i, ops) == k
  {
  }

  /** One pass of the loop, in the terms of `LexFrom`. */
  lemma LexStep(s: string, toks: seq<Token>, p: nat)
    requires p < |s| && !Scan(s, p).Stuck?
    ensures Scan(s, p).Skip? ==> LexFrom(s, p) == LexFrom(s, p + 1)
    ensures Scan(s, p).Emit? ==>
      Prepend(toks, LexFrom(s, p)) == Prepend(toks + [Scan(s, p).tok], LexFrom(s, Scan(s, p).next))
  {
    if Scan(s, p).Emit? {
      PrependAppend(toks, [Scan(s, p).tok], LexFrom(s, Scan(s, p).next));
    }
  }

  /** One pass of the body of the `while (*p)` loop of `tokenize` at a
      character `p`: skip a blank, or append the token that starts there and
      move past it, or report that no rule applies (`stuck`). */
  method TokenizeStep(s: string, toks: seq<Token>, p: nat) returns (stuck: bool, toks': seq<Token>, p': nat)
    requires IsCString(s) && p < |s|
    ensures stuck <==> Scan(s, p).Stuck?
    ensures Scan(s, p).Skip? ==> toks' == toks && p' == p + 1
    ensures Scan(s, p).Emit? ==> toks' == toks + [Scan(s, p).tok] && p' == Scan(s, p).next
  {
    if IsSpace(s[p]) {
      return false, toks, p + 1;
    }
    stuck := false;
    var matched;
    matched, toks', p' := TokenizeKeyword("return", KwReturn, s, toks, p);
    if matched {
      return;
    }
    matched, toks', p' := TokenizeKeyword("if", KwIf, s, toks, p);
    if matched {
      return;
    }
    matched, toks', p' := TokenizeKeyword("else", KwElse, s, toks, p);
    if matched {
      return;
    }
    matched, toks', p' := TokenizeKeyword("while", KwWhile, s, toks, p);
    if matched {
      return;
    }

    if IsFirstLetterOfSymbol(s[p]) {
      p' := SkipIdentifier(s, p);
      return false, toks + [Token(Ident, 0, p, p' - p)], p';
    }

    var op := FindOperator(s, p);
    if op < |Operators| {
      var len := |Operators[op]|;
      return false, toks + [Token(Reserved, 0, p, len)], p + len;
    }

    if IsDigit(s[p]) {
      // strtol(p, &p, 10) reads the digit run and leaves p after it
      p' := DigitEnd(s, p);
      return false, toks + [Token(Number, StrtolInt(s[p..p']), p', SizeT(p - p'))], p';
    }
    return true, toks, p;
  }

  /** `tokenize`: the token list of a C string, or the position of the first
      character no rule accepts (where `error_at` stops the compiler). The
      result is the maximal-munch token list of the input. */
  method Tokenize(s: string) returns (r: Result<seq<Token>, nat>)
    requires IsCString(s)
    ensures r == Lex(s)
    ensures r.Success? ==> Covers(s, 0, r.value)
    ensures r.Failure? <==> exists q :: Unlexable(s, q)
    ensures r.Failure? ==> Unlexable(s, r.error) && forall q: nat :: q < r.error ==> !Unlexable(s, q)
  {
    var toks: seq<Token> := [];
    var p: nat := 0;
    PrependNil(Lex(s));
    while At(s, p) != NUL
      invariant p <= |s|
      invariant Lex(s) == Prepend(toks, LexFrom(s, p))
      decreases |s| - p
    {
      var stuck, toks', p' := TokenizeStep(s, toks, p);
      if stuck {
        r := Failure(p);
        LexFailsAtFirstUnlexable(s);
        return;
      }
      LexStep(s, toks, p);
      toks, p := toks', p';
    }
    toks := toks + [Token(Eof, 0, p, 0)];
    r := Success(toks);
    LexSound(s, 0);
    LexFailsAtFirstUnlexable(s);
  }

  // ---------------------------------------------------------------------
  // The token cursor

  /** `t` is a reserved token whose text is exactly `op`: the test of
      `consume` and `expect` (kind, then length, then the bytes). */
  predicate IsReserved(s: string, t: Token, op: string)
  {
    t.kind == Reserved && t.len == |op| && TokenText(s, t) == op
  }

  /** The global `token`: a position in the token list of `src`. */
  class TokenCursor {
    const src: string
    const tokens: seq<Token>
    var pos: nat

    /** The cursor is on a token of an EOF-terminated list whose operator and
        identifier texts lie inside `src`. */
    ghost predicate Valid()
      reads this
    {
      pos < |tokens| && EofTerminated(tokens) && TextsInBounds(src, tokens)
    }

    /** `token = tokenize(user_input)` */
    constructor(src: string, tokens: seq<Token>)
      requires EofTerminated(tokens) && TextsInBounds(src, tokens)
      ensures this.src == src && this.tokens == tokens && pos == 0
      ensures Valid()
    {
      this.src := src;
      this.tokens := tokens;
      pos := 0;
    }

    function Current(): Token
      reads this
      requires pos < |tokens|
    {
      tokens[pos]
    }

    /** The token list as the parser sees it. */
    function Lexemes(): seq<Lexeme>
    {
      Views(src, tokens)
    }

    /** `at_eof`: only the last token is the EOF token. */
    predicate AtEof()
      reads this
      requires Valid()
      ensures AtEof() <==> pos == |tokens| - 1
      ensures AtEof() <==> Lexemes()[pos] == End
    {
      ViewsAt(src, tokens, pos);
      Current().kind == Eof
    }

    /** `consume(op)`: advance past a reserved token spelled `op`; otherwise
        stay put. */
    method Consume(op: string) returns (b: bool)
      requires Valid()
      modifies this
      ensures Valid()
      ensures b <==> IsReserved(src, tokens[old(pos)], op)
      ensures b <==> Lexemes()[old(pos)] == Punct(op)
      ensures pos == if b then old(pos) + 1 else old(pos)
    {
      ViewsAt(src, tokens, pos);
      var t := tokens[pos];
      if t.kind != Reserved || |op| != t.len || src[t.str..t.str + t.len] != op {
        return false;
      }
      pos := pos + 1;
      return true;
    }

    /** `consume_kind(kind)`: the current token and advance, if it has that
        kind. Consuming the EOF token leaves the cursor past the end. */
    method ConsumeKind(kind: TokenKind) returns (r: Option<Token>)
      requires Valid()
      modifies this
      ensures r.Some? <==> tokens[old(pos)].kind == kind
      ensures r.Some? ==> r.value == tokens[old(pos)] && pos == old(pos) + 1
      ensures r.None? ==> pos == old(pos)
      ensures kind != Eof ==> Valid()
    {
      if tokens[pos].kind == kind {
        r := Some(tokens[pos]);
        pos := pos + 1;
        return;
      }
      return None;
    }

    /** `consume_ident`: the current token and advance, if it is an
        identifier. */
    method ConsumeIdent() returns (r: Option<Token>)
      requires Valid()
      modifies this
      ensures Valid()
      ensures r.Some? <==> tokens[old(pos)].kind == Ident
      ensures r.Some? <==> Lexemes()[old(pos)].Name?
      ensures r.Some? ==> Lexemes()[old(pos)] == Name(At(src, r.value.str))
      ensures r.Some? ==> r.value == tokens[old(pos)] && pos == old(pos) + 1
      ensures r.None? ==> pos == old(pos)
    {
      ViewsAt(src, tokens, pos);
      if tokens[pos].kind == Ident {
        r := Some(tokens[pos]);
        pos := pos + 1;
        return;
      }
      return None;
    }

    /** `expect(op)`: advance past a reserved token spelled `op`; any other
        token is a fatal error reported at that token (its index). */
    method Expect(op: string) returns (r: Outcome<nat>)
      requires Valid()
      modifies this
      ensures Valid()
      ensures r.Pass? <==> IsReserved(src, tokens[old(pos)], op)
      ensures r.Pass? <==> Lexemes()[old(pos)] == Punct(op)
      ensures r.Pass? ==> pos == old(pos) + 1
      ensures r.Fail? ==> r.error == pos == old(pos)
    {
      ViewsAt(src, tokens, pos);
      var t := tokens[pos];
      if t.kind != Reserved || t.len != |op| || src[t.str..t.str + t.len] != op {
        return Fail(pos);
      }
      pos := pos + 1;
      return Pass;
    }

    /** `expect_number`: the value of a number token, advancing past it; any
        other token is a fatal error reported at that token. */
    method ExpectNumber() returns (r: Result<int, nat>)
      requires Valid()
      modifies this
      ensures Valid()
      ensures r.Success? <==> tokens[old(pos)].kind == Number
      ensures r.Success? <==> Lexemes()[old(pos)].Literal?
      ensures r.Success? ==> Lexemes()[old(pos)] == Literal(r.value)
      ensures r.Success? ==> r.value == tokens[old(pos)].val && pos == old(pos) + 1
      ensures r.Failure? ==> r.error == pos == old(pos)
    {
      ViewsAt(src, tokens, pos);
      if tokens[pos].kind != Number {
        return Failure(pos);
      }
      var val := tokens[pos].val;
      pos := pos + 1;
      return Success(val);
    }
  }
}
