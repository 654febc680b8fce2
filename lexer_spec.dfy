/** The tokenizer of lexer.c as functions: one pass of the scanning loop
    (`Scan`), the whole scan (`Lex`), and an independent description of what a
    correct token list for a string is (`Covers`), with the proofs that the two
    agree. */
module LexerSpec {
  import opened Wrappers
  import opened CLib
  import opened Defs

  /** `is_1st_letter_of_symbol` */
  predicate IsFirstLetterOfSymbol(c: char)
  {
    c == '_' || IsAlpha(c)
  }

  /** `is_letter_of_symbol` */
  predicate IsLetterOfSymbol(c: char)
  {
    IsFirstLetterOfSymbol(c) || IsDigit(c)
  }

  /** The operator table of `tokenize`, in the order it is searched. */
  const Operators: seq<string> :=
    ["==", "!=", "<=", ">=", "<", ">", "-", "+", "/", "*", "(", ")", "=", ";"]

  predicate IsOperator(w: string)
  {
    w in Operators
  }

  /** The keywords `tokenize` tries, in order. "for" is not among them. */
  predicate IsKeywordText(w: string)
  {
    w == "return" || w == "if" || w == "else" || w == "while"
  }

  function KeywordText(k: TokenKind): string
  {
    match k
    case KwReturn => "return"
    case KwIf => "if"
    case KwElse => "else"
    case KwWhile => "while"
    case _ => ""
  }

  /** The test of `tokenize_keyword`: the keyword's characters start at `i`
      and are not followed by a character that could continue an identifier. */
  predicate KeywordAt(s: string, i: nat, keyword: string)
  {
    StartsWith(s, i, keyword) && !IsLetterOfSymbol(At(s, i + |keyword|))
  }

  /** The end of the maximal run of identifier characters starting at `i`. */
  function IdentEnd(s: string, i: nat): (j: nat)
    requires i <= |s|
    ensures i <= j <= |s|
    ensures forall k :: i <= k < j ==> IsLetterOfSymbol(s[k])
    ensures !IsLetterOfSymbol(At(s, j))
    decreases |s| - i
  {
    if i < |s| && IsLetterOfSymbol(s[i]) then IdentEnd(s, i + 1) else i
  }

  /** The index of the first entry of `ops` whose characters start at `i`
      (`|ops|` when there is none). */
  function FirstOperator(s: string, i: nat, ops: seq<string>): (k: nat)
    ensures k <= |ops|
    ensures k < |ops| ==> StartsWith(s, i, ops[k])
    ensures forall m :: 0 <= m < k ==> !StartsWith(s, i, ops[m])
  {
    if ops == [] then 0
    else if StartsWith(s, i, ops[0]) then 0
    else 1 + FirstOperator(s, i, ops[1..])
  }

  /** The text a token's `str` and `len` fields designate (empty when they
      do not lie inside the input). */
  function TokenText(s: string, t: Token): string
  {
    if t.str + t.len <= |s| then s[t.str..t.str + t.len] else []
  }

  function EofToken(s: string): Token
  {
    Token(Eof, 0, |s|, 0)
  }

  /** What one pass of the loop body of `tokenize` does at position `i`. */
  datatype Scanned = Skip | Emit(tok: Token, next: nat) | Stuck

  function Scan(s: string, i: nat): (r: Scanned)
    requires i < |s|
    ensures r.Emit? ==> i < r.next <= |s|
  {
    if IsSpace(s[i]) then Skip
    else if KeywordAt(s, i, "return") then Emit(Token(KwReturn, 0, i, 0), i + 6)
    else if KeywordAt(s, i, "if") then Emit(Token(KwIf, 0, i, 0), i + 2)
    else if KeywordAt(s, i, "else") then Emit(Token(KwElse, 0, i, 0), i + 4)
    else if KeywordAt(s, i, "while") then Emit(Token(KwWhile, 0, i, 0), i + 5)
    else if IsFirstLetterOfSymbol(s[i]) then ScanIdent(s, i)
    else ScanOperatorOrNumber(s, i)
  }

  /** The identifier branch: a maximal run of identifier characters. */
  function ScanIdent(s: string, i: nat): (r: Scanned)
    requires i < |s| && IsFirstLetterOfSymbol(s[i])
    ensures r.Emit? && i < r.next <= |s|
  {
    var j := IdentEnd(s, i);
    Emit(Token(Ident, 0, i, j - i), j)
  }

  /** The operator branch, then the number branch. */
  function ScanOperatorOrNumber(s: string, i: nat): (r: Scanned)
    requires i < |s|
    ensures r.Emit? ==> i < r.next <= |s|
  {
    var k := FirstOperator(s, i, Operators);
    if k < |Operators| then
      OperatorLengths();
      Emit(Token(Reserved, 0, i, |Operators[k]|), i + |Operators[k]|)
    else if IsDigit(s[i]) then
      var j := DigitEnd(s, i);
      assert AllDigits(s[i..j]);
      // `str` is left after the digits and `len` is `org_p - p`, negative
      // before it is stored in the size_t field.
      Emit(Token(Number, StrtolInt(s[i..j]), j, SizeT(i - j)), j)
    else Stuck
  }

  /** `tokenize` from position `i` on: the token list, or the position of the
      first character no rule accepts. */
  function LexFrom(s: string, i: nat): Result<seq<Token>, nat>
    requires i <= |s|
    decreases |s| - i
  {
    if i == |s| then Success([EofToken(s)])
    else
      match Scan(s, i)
      case Skip => LexFrom(s, i + 1)
      case Emit(t, j) => Prepend([t], LexFrom(s, j))
      case Stuck => Failure(i)
  }

  function Lex(s: string): Result<seq<Token>, nat>
  {
    LexFrom(s, 0)
  }

  lemma OperatorLengths()
    ensures forall m :: 0 <= m < |Operators| ==> 1 <= |Operators[m]| <= 2
    ensures forall m :: 0 <= m < |Operators| ==> (|Operators[m]| == 2 <==> m < 4)
  {
  }

  /** Every operator comes before all shorter ones. */
  predicate LongestFirst(ops: seq<string>)
  {
    forall m, n :: 0 <= m < n < |ops| ==> |ops[n]| <= |ops[m]|
  }

  /** The operator table lists the two-character operators first, which is
      what makes the first match the longest one. */
  lemma OperatorsLongestFirst()
    ensures LongestFirst(Operators)
  {
    OperatorLengths();
  }

  /** No operator starts with a character that begins a keyword, an
      identifier or a number, or with whitespace. */
  lemma OperatorFirstChars()
    ensures forall m :: 0 <= m < |Operators| ==>
              !IsDigit(Operators[m][0]) && !IsFirstLetterOfSymbol(Operators[m][0]) && !IsSpace(Operators[m][0])
  {
  }

  // ---------------------------------------------------------------------
  // An independent description of a correct token list.

  /** The first position at or after `i` that does not hold whitespace. */
  function SkipSpace(s: string, i: nat): (j: nat)
    requires i <= |s|
    ensures i <= j <= |s|
    ensures forall k :: i <= k < j ==> IsSpace(s[k])
    ensures j < |s| ==> !IsSpace(s[j])
    decreases |s| - i
  {
    if i < |s| && IsSpace(s[i]) then SkipSpace(s, i + 1) else i
  }

  /** The position just after the characters a token was made from. */
  function TokenEnd(t: Token): nat
  {
    match t.kind
    case Number => t.str
    case KwReturn | KwIf | KwElse | KwWhile => t.str + |KeywordText(t.kind)|
    case _ => t.str + t.len
  }

  /** `t` is the token that maximal munch reads from the characters starting
      at `i`: a keyword not followed by an identifier character; otherwise a
      maximal identifier run that is not a keyword; the longest operator of
      the table; or a maximal digit run with its `strtol` value (and the
      quirky `str`/`len` of number tokens). Every token but the EOF one. */
  predicate WellFormedAt(s: string, i: nat, t: Token)
  {
    match t.kind
    case KwReturn | KwIf | KwElse | KwWhile =>
      t.str == i && t.len == 0 && t.val == 0 && KeywordAt(s, i, KeywordText(t.kind))
    case Ident =>
      t.str == i && t.val == 0 && 0 < t.len && i + t.len <= |s|
      && IsFirstLetterOfSymbol(s[i])
      && (forall k :: i <= k < i + t.len ==> IsLetterOfSymbol(s[k]))
      && !IsLetterOfSymbol(At(s, i + t.len))
      && !IsKeywordText(s[i..i + t.len])
    case Reserved =>
      t.str == i && t.val == 0 && i + t.len <= |s|
      && IsOperator(s[i..i + t.len])
      && (forall m :: 0 <= m < |Operators| && StartsWith(s, i, Operators[m]) ==> |Operators[m]| <= t.len)
    case Number =>
      i < t.str <= |s| && AllDigits(s[i..t.str]) && !IsDigit(At(s, t.str))
      && t.len == SizeT(i - t.str) && t.val == StrtolInt(s[i..t.str])
    case _ => false
  }

  /** `ts` is a correct token list for the characters of `s` from `i` on:
      whitespace is skipped, each token is well formed where the previous one
      ended, and the list ends with exactly one EOF token at the end of `s`. */
  predicate Covers(s: string, i: nat, ts: seq<Token>)
    requires i <= |s|
    decreases |ts|
  {
    var j := SkipSpace(s, i);
    |ts| > 0 &&
    if |ts| == 1 then j == |s| && ts[0] == EofToken(s)
    else
      j < |s| && WellFormedAt(s, j, ts[0]) && j < TokenEnd(ts[0]) <= |s|
      && Covers(s, TokenEnd(ts[0]), ts[1..])
  }

  /** The token list ends with the EOF sentinel, and only there. */
  predicate EofTerminated(ts: seq<Token>)
  {
    |ts| > 0 && ts[|ts| - 1].kind == Eof
    && forall k :: 0 <= k < |ts| - 1 ==> ts[k].kind != Eof
  }

  /** The characters of every operator and identifier token lie in the input. */
  predicate TextsInBounds(s: string, ts: seq<Token>)
  {
    forall k :: 0 <= k < |ts| && ts[k].kind in {Reserved, Ident} ==> ts[k].str + ts[k].len <= |s|
  }

  /** A character at which no rule of `tokenize` applies. */
  predicate Unlexable(s: string, p: nat)
  {
    p < |s| && !IsSpace(s[p]) && !IsFirstLetterOfSymbol(s[p]) && !IsDigit(s[p])
    && forall m :: 0 <= m < |Operators| ==> !StartsWith(s, p, Operators[m])
  }

  // ---------------------------------------------------------------------
  // What a token means to the parser.

  /** The part of a token the parser looks at: an operator's text, the first
      character of an identifier, a number's value, a keyword, or EOF. */
  datatype Lexeme = Punct(text: string) | Name(first: char) | Literal(val: int) | Keyword(kind: TokenKind) | End

  function View(s: string, t: Token): Lexeme
  {
    match t.kind
    case Reserved => Punct(TokenText(s, t))
    case Ident => Name(At(s, t.str))
    case Number => Literal(t.val)
    case Eof => End
    case _ => Keyword(t.kind)
  }

  function Views(s: string, ts: seq<Token>): (v: seq<Lexeme>)
    ensures |v| == |ts|
  {
    if ts == [] then [] else [View(s, ts[0])] + Views(s, ts[1..])
  }

  lemma {:induction false} ViewsAt(s: string, ts: seq<Token>, k: nat)
    requires k < |ts|
    ensures Views(s, ts)[k] == View(s, ts[k])
  {
    if k > 0 {
      ViewsAt(s, ts[1..], k - 1);
    }
  }
}
