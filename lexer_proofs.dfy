/** Proofs that `Lex` (the loop of `tokenize`) produces exactly the token
    lists that `Covers` describes: maximal munch, keywords only at an
    identifier boundary, the longest operator first, whitespace dropped, one
    EOF sentinel at the end, and failure only at a character no rule accepts. */
module LexerProofs {
  import opened Wrappers
  import opened CLib
  import opened Defs
  import opened LexerSpec

  lemma {:induction false} IdentEndIs(s: string, i: nat, e: nat)
    requires i <= e <= |s|
    requires forall k :: i <= k < e ==> IsLetterOfSymbol(s[k])
    requires !IsLetterOfSymbol(At(s, e))
    ensures IdentEnd(s, i) == e
    decreases e - i
  {
    if i < e {
      IdentEndIs(s, i + 1, e);
    }
  }

  lemma {:induction false} SkipSpaceAt(s: string, i: nat)
    requires i < |s|
    ensures IsSpace(s[i]) ==> SkipSpace(s, i) == SkipSpace(s, i + 1)
    ensures !IsSpace(s[i]) ==> SkipSpace(s, i) == i
  {
  }

  /** Every character of a keyword can continue an identifier. */
  lemma KeywordLetters(kw: string)
    requires IsKeywordText(kw)
    ensures forall k :: 0 <= k < |kw| ==> IsLetterOfSymbol(kw[k])
  {
  }

  /** Inside a maximal identifier run that is not itself a keyword, no
      keyword test of `tokenize_keyword` succeeds. */
  lemma NoKeywordInIdent(s: string, i: nat, len: nat, kw: string)
    requires IsKeywordText(kw)
    requires i + len <= |s|
    requires forall k :: i <= k < i + len ==> IsLetterOfSymbol(s[k])
    requires !IsLetterOfSymbol(At(s, i + len))
    requires !IsKeywordText(s[i..i + len])
    ensures !KeywordAt(s, i, kw)
  {
    KeywordLetters(kw);
  }

  /** A keyword test can only succeed where an identifier could start. */
  lemma KeywordNeedsLetter(s: string, i: nat)
    requires i < |s| && !IsFirstLetterOfSymbol(s[i])
    ensures !KeywordAt(s, i, "return") && !KeywordAt(s, i, "if")
    ensures !KeywordAt(s, i, "else") && !KeywordAt(s, i, "while")
  {
  }

  /** Each token one pass of the loop emits is well formed where it starts,
      and scanning resumes just after its characters. */
  lemma ScanSound(s: string, i: nat)
    requires i < |s| && Scan(s, i).Emit?
    ensures WellFormedAt(s, i, Scan(s, i).tok)
    ensures TokenEnd(Scan(s, i).tok) == Scan(s, i).next
  {
    if KeywordAt(s, i, "return") || KeywordAt(s, i, "if") || KeywordAt(s, i, "else") || KeywordAt(s, i, "while") {
    } else if IsFirstLetterOfSymbol(s[i]) {
      ScanIdentSound(s, i);
    } else {
      ScanOperatorOrNumberSound(s, i);
    }
  }

  lemma ScanIdentSound(s: string, i: nat)
    requires i < |s| && IsFirstLetterOfSymbol(s[i])
    requires !KeywordAt(s, i, "return") && !KeywordAt(s, i, "if")
    requires !KeywordAt(s, i, "else") && !KeywordAt(s, i, "while")
    ensures WellFormedAt(s, i, ScanIdent(s, i).tok)
    ensures TokenEnd(ScanIdent(s, i).tok) == ScanIdent(s, i).next
  {
    var j := IdentEnd(s, i);
    if IsKeywordText(s[i..j]) {
      assert KeywordAt(s, i, s[i..j]);
    }
  }

  lemma ScanOperatorOrNumberSound(s: string, i: nat)
    requires i < |s| && ScanOperatorOrNumber(s, i).Emit?
    ensures WellFormedAt(s, i, ScanOperatorOrNumber(s, i).tok)
    ensures TokenEnd(ScanOperatorOrNumber(s, i).tok) == ScanOperatorOrNumber(s, i).next
  {
    var k := FirstOperator(s, i, Operators);
    if k < |Operators| {
      OperatorsLongestFirst();
      FirstIsLongest(s, i, Operators);
    }
  }

  /** Conversely, a well-formed token at a non-blank position is exactly
      what one pass of the loop emits there. */
  lemma ScanComplete(s: string, i: nat, t: Token)
    requires i < |s| && !IsSpace(s[i]) && WellFormedAt(s, i, t)
    ensures Scan(s, i) == Emit(t, TokenEnd(t))
  {
    match t.kind
    case KwReturn | KwIf | KwElse | KwWhile =>
      ScanKeyword(s, i, t);
    case Ident =>
      ScanIdentComplete(s, i, t);
    case Reserved =>
      ScanOperator(s, i, t);
    case Number =>
      ScanNumber(s, i, t);
  }

  lemma ScanKeyword(s: string, i: nat, t: Token)
    requires i < |s| && t.kind in {KwReturn, KwIf, KwElse, KwWhile} && WellFormedAt(s, i, t)
    ensures Scan(s, i) == Emit(t, TokenEnd(t))
  {
    assert s[i] == KeywordText(t.kind)[0];
  }

  lemma ScanIdentComplete(s: string, i: nat, t: Token)
    requires i < |s| && t.kind == Ident && WellFormedAt(s, i, t)
    ensures Scan(s, i) == Emit(t, TokenEnd(t))
  {
    NoKeywordInIdent(s, i, t.len, "return");
    NoKeywordInIdent(s, i, t.len, "if");
    NoKeywordInIdent(s, i, t.len, "else");
    NoKeywordInIdent(s, i, t.len, "while");
    IdentEndIs(s, i, i + t.len);
  }

  lemma ScanOperator(s: string, i: nat, t: Token)
    requires i < |s| && t.kind == Reserved && WellFormedAt(s, i, t)
    ensures Scan(s, i) == Emit(t, TokenEnd(t))
  {
    var k := OperatorChosen(s, i, t.len);
    assert !IsFirstLetterOfSymbol(s[i]) && !IsSpace(s[i]) by {
      assert s[i] == Operators[k][0];
      OperatorFirstChars();
    }
    KeywordNeedsLetter(s, i);
    assert Scan(s, i) == ScanOperatorOrNumber(s, i);
  }

  /** Two texts of the same length found at the same place are equal. */
  lemma SamePrefix(s: string, i: nat, a: string, b: string)
    requires StartsWith(s, i, a) && StartsWith(s, i, b) && |a| == |b|
    ensures a == b
  {
  }

  /** In a table ordered longest first, the first entry found is the longest
      one found. */
  lemma FirstIsLongest(s: string, i: nat, ops: seq<string>)
    requires LongestFirst(ops) && FirstOperator(s, i, ops) < |ops|
    ensures forall m :: 0 <= m < |ops| && StartsWith(s, i, ops[m]) ==>
              |ops[m]| <= |ops[FirstOperator(s, i, ops)]|
  {
  }

  /** ... and any longest entry found is the one the first match selects. */
  lemma FirstFindsLongest(s: string, i: nat, ops: seq<string>, m0: nat)
    requires LongestFirst(ops) && m0 < |ops| && StartsWith(s, i, ops[m0])
    requires forall m :: 0 <= m < |ops| && StartsWith(s, i, ops[m]) ==> |ops[m]| <= |ops[m0]|
    ensures FirstOperator(s, i, ops) < |ops| && ops[FirstOperator(s, i, ops)] == ops[m0]
  {
    var k := FirstOperator(s, i, ops);
    assert k <= m0;
    SamePrefix(s, i, ops[k], ops[m0]);
  }

  /** The operator loop of `tokenize` picks the longest operator. */
  lemma OperatorChosen(s: string, i: nat, len: nat) returns (k: nat)
    requires i + len <= |s| && IsOperator(s[i..i + len])
    requires forall m :: 0 <= m < |Operators| && StartsWith(s, i, Operators[m]) ==> |Operators[m]| <= len
    ensures k == FirstOperator(s, i, Operators) && k < |Operators|
    ensures Operators[k] == s[i..i + len]
    ensures ScanOperatorOrNumber(s, i) == Emit(Token(Reserved, 0, i, len), i + len)
  {
    var m0 :| 0 <= m0 < |Operators| && Operators[m0] == s[i..i + len];
    OperatorsLongestFirst();
    k := LongestIndex(s, i, Operators, m0, len);
    ScanOperatorAt(s, i, k);
  }

  lemma LongestIndex(s: string, i: nat, ops: seq<string>, m0: nat, len: nat) returns (k: nat)
    requires LongestFirst(ops) && m0 < |ops| && i + len <= |s| && ops[m0] == s[i..i + len]
    requires forall m :: 0 <= m < |ops| && StartsWith(s, i, ops[m]) ==> |ops[m]| <= len
    ensures k == FirstOperator(s, i, ops) && k < |ops| && ops[k] == s[i..i + len] && |ops[k]| == len
  {
    FirstFindsLongest(s, i, ops, m0);
    k := FirstOperator(s, i, ops);
  }

  lemma ScanOperatorAt(s: string, i: nat, k: nat)
    requires i < |s| && k == FirstOperator(s, i, Operators) && k < |Operators|
    ensures ScanOperatorOrNumber(s, i) == Emit(Token(Reserved, 0, i, |Operators[k]|), i + |Operators[k]|)
  {
  }

  lemma ScanNumber(s: string, i: nat, t: Token)
    requires i < |s| && t.kind == Number && WellFormedAt(s, i, t)
    ensures Scan(s, i) == Emit(t, TokenEnd(t))
  {
    assert IsDigit(s[i..t.str][0]);
    KeywordNeedsLetter(s, i);
    var k := FirstOperator(s, i, Operators);
    if k < |Operators| {
      assert s[i] == Operators[k][0];
      OperatorFirstChars();
    }
    DigitEndIs(s, i, t.str);
    assert ScanOperatorOrNumber(s, i) == Emit(t, TokenEnd(t));
  }

  /** Whatever `tokenize` returns from position `i` is a correct token list. */
  lemma {:induction false} LexSound(s: string, i: nat)
    requires i <= |s| && LexFrom(s, i).Success?
    ensures Covers(s, i, LexFrom(s, i).value)
    decreases |s| - i
  {
    if i < |s| {
      if IsSpace(s[i]) {
        LexSound(s, i + 1);
        CoversSkip(s, i, LexFrom(s, i + 1).value);
      } else {
        var t, j := LexEmits(s, i);
        LexSound(s, j);
        CoversCons(s, i, t, LexFrom(s, j).value);
      }
    }
  }

  /** At a non-blank character, a successful scan emits a well-formed token
      and carries on after it. */
  lemma LexEmits(s: string, i: nat) returns (t: Token, j: nat)
    requires i < |s| && !IsSpace(s[i]) && LexFrom(s, i).Success?
    ensures WellFormedAt(s, i, t) && i < j == TokenEnd(t) <= |s|
    ensures LexFrom(s, j).Success? && LexFrom(s, i).value == [t] + LexFrom(s, j).value
  {
    ScanSound(s, i);
    t, j := Scan(s, i).tok, Scan(s, i).next;
  }

  /** Whitespace in front of a correct list changes nothing. */
  lemma CoversSkip(s: string, i: nat, ts: seq<Token>)
    requires i < |s| && IsSpace(s[i])
    ensures Covers(s, i, ts) <==> Covers(s, i + 1, ts)
  {
    SkipSpaceAt(s, i);
  }

  /** A well-formed token at a non-blank position, followed by a correct list
      for the rest, is a correct list. */
  lemma CoversCons(s: string, i: nat, t: Token, rest: seq<Token>)
    requires i < |s| && !IsSpace(s[i]) && WellFormedAt(s, i, t)
    requires i < TokenEnd(t) <= |s| && Covers(s, TokenEnd(t), rest)
    ensures Covers(s, i, [t] + rest)
  {
    assert ([t] + rest)[1..] == rest;
  }

  /** Every correct token list is what `tokenize` returns. */
  lemma {:induction false} LexComplete(s: string, i: nat, ts: seq<Token>)
    requires i <= |s| && Covers(s, i, ts)
    ensures LexFrom(s, i) == Success(ts)
    decreases |s| - i
  {
    if i < |s| {
      SkipSpaceAt(s, i);
      if IsSpace(s[i]) {
        LexComplete(s, i + 1, ts);
      } else {
        ScanComplete(s, i, ts[0]);
        LexComplete(s, TokenEnd(ts[0]), ts[1..]);
        assert [ts[0]] + ts[1..] == ts;
      }
    } else {
      assert |ts| == 1;
      assert ts == [EofToken(s)];
    }
  }

  /** `tokenize` is maximal munch: it succeeds with `ts` exactly when `ts`
      is a correct token list for `s`. */
  lemma LexIsMaximalMunch(s: string, ts: seq<Token>)
    ensures Lex(s) == Success(ts) <==> Covers(s, 0, ts)
  {
    if Lex(s) == Success(ts) {
      LexSound(s, 0);
    }
    if Covers(s, 0, ts) {
      LexComplete(s, 0, ts);
    }
  }

  /** `tokenize` fails only at a character that no rule accepts. */
  lemma {:induction false} LexFailure(s: string, i: nat)
    requires i <= |s| && LexFrom(s, i).Failure?
    ensures i <= LexFrom(s, i).error && Unlexable(s, LexFrom(s, i).error)
    decreases |s| - i
  {
    assert i < |s|;
    match Scan(s, i)
    case Skip =>
      assert LexFrom(s, i) == LexFrom(s, i + 1);
      LexFailure(s, i + 1);
    case Emit(t, j) =>
      assert LexFrom(s, i) == Prepend([t], LexFrom(s, j));
      LexFailure(s, j);
    case Stuck =>
      StuckUnlexable(s, i);
  }

  lemma StuckUnlexable(s: string, i: nat)
    requires i < |s| && Scan(s, i).Stuck?
    ensures Unlexable(s, i)
  {
    var k := FirstOperator(s, i, Operators);
    assert k == |Operators|;
  }

  /** No character inside the span of an emitted token is unlexable: the
      characters of keywords, identifiers and numbers begin tokens of their
      own, and the second character of every two-character operator is `=`,
      itself an operator. */
  lemma ScanSpanLexable(s: string, i: nat)
    requires i < |s| && Scan(s, i).Emit?
    ensures forall q :: i <= q < Scan(s, i).next ==> !Unlexable(s, q)
  {
    if KeywordAt(s, i, "return") {
      KeywordSpanLexable(s, i, "return");
    } else if KeywordAt(s, i, "if") {
      KeywordSpanLexable(s, i, "if");
    } else if KeywordAt(s, i, "else") {
      KeywordSpanLexable(s, i, "else");
    } else if KeywordAt(s, i, "while") {
      KeywordSpanLexable(s, i, "while");
    } else if !IsFirstLetterOfSymbol(s[i]) {
      OperatorOrNumberSpanLexable(s, i);
    }
  }

  lemma KeywordSpanLexable(s: string, i: nat, kw: string)
    requires IsKeywordText(kw) && KeywordAt(s, i, kw)
    ensures forall q :: i <= q < i + |kw| ==> !Unlexable(s, q)
  {
    KeywordLetters(kw);
    forall q | i <= q < i + |kw|
      ensures !Unlexable(s, q)
    {
      assert s[q] == kw[q - i];
    }
  }

  lemma OperatorOrNumberSpanLexable(s: string, i: nat)
    requires i < |s| && ScanOperatorOrNumber(s, i).Emit?
    ensures forall q :: i <= q < ScanOperatorOrNumber(s, i).next ==> !Unlexable(s, q)
  {
    var k := FirstOperator(s, i, Operators);
    if k < |Operators| {
      OperatorLengths();
      assert !Unlexable(s, i);
      if k < 4 {
        assert s[i + 1] == Operators[k][1] == '=';
        assert StartsWith(s, i + 1, Operators[12]);
      }
    }
  }

  /** From `i` on, `tokenize` fails exactly when some character at or after
      `i` is unlexable, and then it stops at the first such character. */
  lemma {:induction false} LexFailsAtFirst(s: string, i: nat)
    requires i <= |s|
    ensures LexFrom(s, i).Failure? <==> exists p :: i <= p && Unlexable(s, p)
    ensures LexFrom(s, i).Failure? ==>
              forall q :: i <= q < LexFrom(s, i).error ==> !Unlexable(s, q)
    decreases |s| - i
  {
    if i == |s| {
      assert forall p :: i <= p ==> !Unlexable(s, p);
    } else if IsSpace(s[i]) {
      assert LexFrom(s, i) == LexFrom(s, i + 1);
      LexFailsAtFirst(s, i + 1);
      assert !Unlexable(s, i);
      LexableSpan(s, i, i + 1);
    } else {
      match Scan(s, i)
      case Emit(t, j) =>
        assert LexFrom(s, i) == Prepend([t], LexFrom(s, j));
        LexFailsAtFirst(s, j);
        ScanSpanLexable(s, i);
        LexableSpan(s, i, j);
      case Stuck =>
        StuckUnlexable(s, i);
    }
  }

  /** Past a stretch without unlexable characters, the first unlexable
      character (if any) is the same. */
  lemma LexableSpan(s: string, i: nat, j: nat)
    requires i <= j && forall q :: i <= q < j ==> !Unlexable(s, q)
    ensures (exists p :: i <= p && Unlexable(s, p)) <==> (exists p :: j <= p && Unlexable(s, p))
  {
  }

  /** `tokenize` fails exactly when the input holds an unlexable character,
      and it reports the first one. */
  lemma LexFailsAtFirstUnlexable(s: string)
    ensures Lex(s).Failure? <==> exists p :: Unlexable(s, p)
    ensures Lex(s).Failure? ==>
              Unlexable(s, Lex(s).error) && forall q: nat :: q < Lex(s).error ==> !Unlexable(s, q)
  {
    LexFailsAtFirst(s, 0);
    if Lex(s).Failure? {
      LexFailure(s, 0);
    }
  }

  /** "for" is not a keyword of this lexer: it reads as an identifier. */
  lemma ForIsIdentifier()
    ensures Lex("for") == Success([Token(Ident, 0, 0, 3), EofToken("for")])
  {
    var s := "for";
    var ts := [Token(Ident, 0, 0, 3), EofToken(s)];
    assert s[0..3] == s;
    assert Covers(s, 3, ts[1..]);
    LexComplete(s, 0, ts);
  }

  /** A keyword followed by an identifier character is not a keyword:
      "returnx" reads as one identifier. */
  lemma ReturnxIsIdentifier()
    ensures Lex("returnx") == Success([Token(Ident, 0, 0, 7), EofToken("returnx")])
  {
    var s := "returnx";
    var ts := [Token(Ident, 0, 0, 7), EofToken(s)];
    assert s[0..7] == s;
    assert Covers(s, 7, ts[1..]);
    LexComplete(s, 0, ts);
  }

  /** A correct token list ends with exactly one EOF token, placed at the end
      of the input, and every operator and identifier token lies inside it. */
  lemma {:induction false} CoversShape(s: string, i: nat, ts: seq<Token>)
    requires i <= |s| && Covers(s, i, ts)
    ensures EofTerminated(ts) && ts[|ts| - 1] == EofToken(s)
    ensures TextsInBounds(s, ts)
    decreases |ts|
  {
    if |ts| > 1 {
      CoversShape(s, TokenEnd(ts[0]), ts[1..]);
      assert ts[0].kind != Eof;
      forall k | 0 <= k < |ts| && ts[k].kind in {Reserved, Ident}
        ensures ts[k].str + ts[k].len <= |s|
      {
        if k > 0 {
          assert ts[k] == ts[1..][k - 1];
        }
      }
    }
  }

  /** Hence whatever `tokenize` returns is EOF-terminated, and its operator and
      identifier tokens lie inside the input. */
  lemma LexShape(s: string)
    requires Lex(s).Success?
    ensures EofTerminated(Lex(s).value) && Lex(s).value[|Lex(s).value| - 1] == EofToken(s)
    ensures TextsInBounds(s, Lex(s).value)
  {
    LexSound(s, 0);
    CoversShape(s, 0, Lex(s).value);
  }
}
