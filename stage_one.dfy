/** The first-stage compiler of k9cc.c: a tokenizer for `+`, `-` and
    decimal numbers, and a `main` loop that turns `n0 ± n1 ± … ± nk` into
    `mov rax, n0`, one `add`/`sub` per term, and `ret`. */
module StageOne {
  import opened Wrappers
  import opened CLib
  import opened Words
  import LexerSpec
  import LexerProofs

  datatype Kind = Reserved | Num | Eof

  /** A token: its kind, its value (for `Num`; 0 otherwise, as `calloc`
      leaves it) and the position of its first character in the input. */
  datatype Token = Token(kind: Kind, val: int, str: nat)

  // ---------------------------------------------------------------------
  // tokenize

  /** `tokenize` from position `p`: whitespace is skipped, `+` and `-` are
      reserved tokens, a maximal digit run is a number read by `strtol`, the
      end of the string gives the EOF token; any other character is the
      position `error_at` reports. */
  function LexFrom(s: string, p: nat): Result<seq<Token>, nat>
    requires p <= |s|
    decreases |s| - p
  {
    if p == |s| then Success([Token(Eof, 0, p)])
    else if IsSpace(s[p]) then LexFrom(s, p + 1)
    else if s[p] == '+' || s[p] == '-' then Prepend([Token(Reserved, 0, p)], LexFrom(s, p + 1))
    else if IsDigit(s[p]) then
      var e := DigitEnd(s, p);
      Prepend([Token(Num, StrtolInt(s[p..e]), p)], LexFrom(s, e))
    else Failure(p)
  }

  /** A character some rule of `tokenize` accepts. */
  predicate Lexable(c: char)
  {
    IsSpace(c) || c == '+' || c == '-' || IsDigit(c)
  }

  /** The first position at or after `p` holding a character no rule
      accepts, or the end of the string. */
  function FirstBad(s: string, p: nat): (q: nat)
    requires p <= |s|
    ensures p <= q <= |s|
    ensures forall k :: p <= k < q ==> Lexable(s[k])
    ensures q < |s| ==> !Lexable(s[q])
    decreases |s| - p
  {
    if p == |s| || !Lexable(s[p]) then p else FirstBad(s, p + 1)
  }

  /** The token list of stage one: numbers and `+`/`-` operators before one
      final EOF token. */
  predicate WellFormed(s: string, toks: seq<Token>)
  {
    |toks| > 0 && toks[|toks| - 1].kind == Eof &&
    (forall i :: 0 <= i < |toks| - 1 ==> toks[i].kind != Eof) &&
    (forall i :: 0 <= i < |toks| && toks[i].kind == Reserved ==> At(s, toks[i].str) in "+-")
  }

  /** Every token sits at a character of its class: an operator at `+` or
      `-`, a number at the start of the digit run `strtol` reads, the EOF
      token at the end of the input. */
  predicate Classified(s: string, toks: seq<Token>)
  {
    forall i :: 0 <= i < |toks| ==>
      toks[i].str <= |s| &&
      (toks[i].kind == Eof ==> toks[i].str == |s|) &&
      (toks[i].kind == Reserved ==> toks[i].str < |s| && s[toks[i].str] in "+-") &&
      (toks[i].kind == Num ==>
         toks[i].str < |s| && IsDigit(s[toks[i].str]) &&
         toks[i].val == StrtolInt(s[toks[i].str..DigitEnd(s, toks[i].str)]))
  }

  /** Tokenizing fails exactly at the first character no rule accepts. */
  lemma {:induction false} LexFailsAtFirstBad(s: string, p: nat)
    requires p <= |s|
    ensures LexFrom(s, p).Failure? <==> FirstBad(s, p) < |s|
    ensures LexFrom(s, p).Failure? ==> LexFrom(s, p).error == FirstBad(s, p)
    decreases |s| - p
  {
    if p < |s| && Lexable(s[p]) {
      if IsDigit(s[p]) && !IsSpace(s[p]) {
        var e := DigitEnd(s, p);
        SkipGood(s, p, e);
        LexFailsAtFirstBad(s, e);
      } else {
        LexFailsAtFirstBad(s, p + 1);
      }
    }
  }

  /** Skipping lexable characters does not move the first bad one. */
  lemma {:induction false} SkipGood(s: string, p: nat, e: nat)
    requires p <= e <= |s|
    requires forall k :: p <= k < e ==> Lexable(s[k])
    ensures FirstBad(s, p) == FirstBad(s, e)
    decreases e - p
  {
    if p < e {
      SkipGood(s, p + 1, e);
    }
  }

  /** A successful tokenization is well formed, with every token at a
      character of its class. */
  lemma {:induction false} LexShape(s: string, p: nat)
    requires p <= |s| && LexFrom(s, p).Success?
    ensures WellFormed(s, LexFrom(s, p).value) && Classified(s, LexFrom(s, p).value)
    ensures forall i :: 0 <= i < |LexFrom(s, p).value| ==> p <= LexFrom(s, p).value[i].str
    decreases |s| - p
  {
    if p < |s| {
      if IsSpace(s[p]) {
        LexShape(s, p + 1);
      } else if s[p] == '+' || s[p] == '-' {
        LexShape(s, p + 1);
        ConsShape(s, Token(Reserved, 0, p), LexFrom(s, p + 1).value);
      } else {
        var e := DigitEnd(s, p);
        LexShape(s, e);
        ConsShape(s, Token(Num, StrtolInt(s[p..e]), p), LexFrom(s, e).value);
      }
    }
  }

  lemma ConsShape(s: string, t: Token, rest: seq<Token>)
    requires WellFormed(s, rest) && Classified(s, rest) && t.kind != Eof
    requires t.kind == Reserved ==> t.str < |s| && s[t.str] in "+-"
    requires t.kind == Num ==> t.str < |s| && IsDigit(s[t.str]) && t.val == StrtolInt(s[t.str..DigitEnd(s, t.str)])
    ensures WellFormed(s, [t] + rest) && Classified(s, [t] + rest)
  {
    var ts := [t] + rest;
    forall i | 0 <= i < |ts|
      ensures ts[i].kind == Reserved ==> At(s, ts[i].str) in "+-"
    {
      if i > 0 {
        assert ts[i] == rest[i - 1];
      }
    }
    forall i | 1 <= i < |ts| - 1
      ensures ts[i].kind != Eof
    {
      assert ts[i] == rest[i - 1];
    }
  }

  /** `tokenize` skips blanks: it reads the same list from the next
      non-blank position. */
  lemma {:induction false} LexSkip(s: string, p: nat)
    requires p <= |s|
    ensures LexFrom(s, p) == LexFrom(s, LexerSpec.SkipSpace(s, p))
    decreases |s| - p
  {
    if p < |s| && IsSpace(s[p]) {
      LexSkip(s, p + 1);
    }
  }

  // ---------------------------------------------------------------------
  // The token list of a text, described on the text

  /** The token a rule of `tokenize` makes at the non-blank position `j`: an
      operator token for `+` or `-`, or a number token holding the `strtol`
      value of the maximal digit run. */
  predicate TokenAt(s: string, j: nat, t: Token)
    requires j < |s|
  {
    (s[j] in "+-" && t == Token(Reserved, 0, j))
    || (IsDigit(s[j]) && t == Token(Num, StrtolInt(s[j..DigitEnd(s, j)]), j))
  }

  /** Where the text continues after the token `t`: after an operator's one
      character, or at the end of a number's digit run. */
  function After(s: string, t: Token): (q: nat)
    requires t.str < |s|
    ensures t.str < q <= |s| || (t.kind == Num && !IsDigit(s[t.str]))
  {
    if t.kind == Num then DigitEnd(s, t.str) else t.str + 1
  }

  /** `toks` is the token list of the text from `p` on: blanks are skipped,
      each `+` or `-` is an operator token and each maximal digit run a
      number token, in the order of the text, and one EOF token stands at
      its end. */
  predicate Covers(s: string, p: nat, toks: seq<Token>)
    requires p <= |s|
    decreases |toks|
  {
    var j := LexerSpec.SkipSpace(s, p);
    |toks| > 0 &&
    if |toks| == 1 then j == |s| && toks[0] == Token(Eof, 0, |s|)
    else j < |s| && TokenAt(s, j, toks[0]) && Covers(s, After(s, toks[0]), toks[1..])
  }

  /** `tokenize` returns `toks` exactly when `toks` is the token list of the
      text. */
  lemma {:induction false} LexCovers(s: string, p: nat, toks: seq<Token>)
    requires p <= |s|
    ensures LexFrom(s, p) == Success(toks) <==> Covers(s, p, toks)
    decreases |s| - p
  {
    if p < |s| {
      LexerProofs.SkipSpaceAt(s, p);
      if IsSpace(s[p]) {
        LexCovers(s, p + 1, toks);
        assert Covers(s, p, toks) == Covers(s, p + 1, toks);
      } else if s[p] == '+' || s[p] == '-' || IsDigit(s[p]) {
        var e := if IsDigit(s[p]) then DigitEnd(s, p) else p + 1;
        var t := if IsDigit(s[p]) then Token(Num, StrtolInt(s[p..e]), p) else Token(Reserved, 0, p);
        assert LexFrom(s, p) == Prepend([t], LexFrom(s, e));
        if toks != [] {
          LexCovers(s, e, toks[1..]);
          assert toks == [toks[0]] + toks[1..];
          assert Covers(s, p, toks) <==> |toks| > 1 && toks[0] == t && Covers(s, e, toks[1..]) by {
            if |toks| > 1 && TokenAt(s, p, toks[0]) {
              assert toks[0] == t;
            }
          }
        }
      } else {
        assert !Covers(s, p, toks) by {
          if |toks| > 1 {
            assert !TokenAt(s, p, toks[0]);
          }
        }
      }
    } else if |toks| == 1 {
      assert toks == [toks[0]];
    }
  }

  /** `tokenize`: the loop over the input, with `strtol` read as its effect
      on the digit run. */
  method Tokenize(s: string) returns (r: Result<seq<Token>, nat>)
    requires IsCString(s)
    ensures r == LexFrom(s, 0)
  {
    var toks: seq<Token> := [];
    var p: nat := 0;
    PrependNil(LexFrom(s, 0));
    while At(s, p) != NUL
      invariant p <= |s|
      invariant LexFrom(s, 0) == Prepend(toks, LexFrom(s, p))
      decreases |s| - p
    {
      if IsSpace(s[p]) {
        p := p + 1;
        continue;
      }
      if s[p] == '+' || s[p] == '-' {
        PrependAppend(toks, [Token(Reserved, 0, p)], LexFrom(s, p + 1));
        toks, p := toks + [Token(Reserved, 0, p)], p + 1;
        continue;
      }
      if IsDigit(s[p]) {
        var e := DigitEnd(s, p);
        PrependAppend(toks, [Token(Num, StrtolInt(s[p..e]), p)], LexFrom(s, e));
        toks, p := toks + [Token(Num, StrtolInt(s[p..e]), p)], e;
        continue;
      }
      return Failure(p);
    }
    toks := toks + [Token(Eof, 0, p)];
    return Success(toks);
  }

  // ---------------------------------------------------------------------
  // The token cursor

  /** The test of `consume` and `expect`: a reserved token whose first
      character is `op` (only that character is compared). */
  predicate IsOp(s: string, t: Token, op: char)
  {
    t.kind == Reserved && At(s, t.str) == op
  }

  /** The global `token`: a position in a well-formed token list. */
  class Cursor {
    const src: string
    const tokens: seq<Token>
    var pos: nat

    ghost predicate Valid()
      reads this
    {
      pos < |tokens| && WellFormed(src, tokens)
    }

    /** `token = tokenize(user_input)` */
    constructor(src: string, tokens: seq<Token>)
      requires WellFormed(src, tokens)
      ensures this.src == src && this.tokens == tokens && pos == 0
      ensures Valid()
    {
      this.src := src;
      this.tokens := tokens;
      pos := 0;
    }

    /** `at_eof` */
    predicate AtEof()
      reads this
      requires Valid()
      ensures AtEof() <==> pos == |tokens| - 1
    {
      tokens[pos].kind == Eof
    }

    /** `consume(op)`: advance past an operator whose first character is
        `op`; otherwise stay put. */
    method Consume(op: char) returns (b: bool)
      requires Valid()
      modifies this
      ensures Valid()
      ensures b <==> IsOp(src, tokens[old(pos)], op)
      ensures pos == if b then old(pos) + 1 else old(pos)
    {
      var t := tokens[pos];
      if t.kind != Reserved || At(src, t.str) != op {
        return false;
      }
      pos := pos + 1;
      return true;
    }

    /** `expect(op)`: like `consume`, but any other token is a fatal error
        reported at the token's position in the input. */
    method Expect(op: char) returns (r: Outcome<nat>)
      requires Valid()
      modifies this
      ensures Valid()
      ensures r.Pass? <==> IsOp(src, tokens[old(pos)], op)
      ensures r.Pass? ==> pos == old(pos) + 1
      ensures r.Fail? ==> pos == old(pos) && r.error == tokens[pos].str
    {
      var t := tokens[pos];
      if t.kind != Reserved || At(src, t.str) != op {
        return Fail(t.str);
      }
      pos := pos + 1;
      return Pass;
    }

    /** `expect_number`: the value of a number token, advancing past it; any
        other token is a fatal error reported at its position. */
    method ExpectNumber() returns (r: Result<int, nat>)
      requires Valid()
      modifies this
      ensures Valid()
      ensures r.Success? <==> tokens[old(pos)].kind == Num
      ensures r.Success? ==> r.value == tokens[old(pos)].val && pos == old(pos) + 1
      ensures r.Failure? ==> pos == old(pos) && r.error == tokens[pos].str
    {
      var t := tokens[pos];
      if t.kind != Num {
        return Failure(t.str);
      }
      pos := pos + 1;
      return Success(t.val);
    }
  }

  // ---------------------------------------------------------------------
  // The compile loop of main

  /** The lines `main` prints after the header. */
  datatype Instr = MovRax(imm: int) | AddRax(imm: int) | SubRax(imm: int) | Ret

  /** The loop of `main` from token `i` on: `+ num` or `- num` steps until
      the EOF token, then `ret`; the position of the offending token
      otherwise. */
  function Steps(s: string, toks: seq<Token>, i: nat): Result<seq<Instr>, nat>
    requires WellFormed(s, toks) && i < |toks|
    decreases |toks| - i
  {
    var t := toks[i];
    if t.kind == Eof then Success([Ret])
    else
      var plus := IsOp(s, t, '+');
      if !plus && !IsOp(s, t, '-') then Failure(t.str)
      else
        var u := toks[i + 1];
        if u.kind != Num then Failure(u.str)
        else Prepend([if plus then AddRax(u.val) else SubRax(u.val)], Steps(s, toks, i + 2))
  }

  /** `main` after tokenizing: the first token must be a number. */
  function Translate(s: string, toks: seq<Token>): Result<seq<Instr>, nat>
    requires WellFormed(s, toks)
  {
    var t := toks[0];
    if t.kind != Num then Failure(t.str)
    else Prepend([MovRax(t.val)], Steps(s, toks, 1))
  }

  /** The compile loop as written: `expect_number` for the first term, then
      `consume('+')` or `expect('-')` followed by `expect_number` until EOF. */
  method Compile(cur: Cursor) returns (r: Result<seq<Instr>, nat>)
    requires cur.Valid() && cur.pos == 0
    modifies cur
    ensures r == Translate(cur.src, cur.tokens)
  {
    var first := cur.ExpectNumber();
    if first.Failure? {
      return Failure(first.error);
    }
    var code := [MovRax(first.value)];
    while !cur.AtEof()
      invariant cur.Valid()
      invariant Translate(cur.src, cur.tokens) == Prepend(code, Steps(cur.src, cur.tokens, cur.pos))
      decreases |cur.tokens| - cur.pos
    {
      ghost var i := cur.pos;
      var plus := cur.Consume('+');
      if !plus {
        var minus := cur.Expect('-');
        if minus.Fail? {
          return Failure(minus.error);
        }
      }
      var n := cur.ExpectNumber();
      if n.Failure? {
        return Failure(n.error);
      }
      var ins := if plus then AddRax(n.value) else SubRax(n.value);
      PrependAppend(code, [ins], Steps(cur.src, cur.tokens, i + 2));
      code := code + [ins];
    }
    code := code + [Ret];
    return Success(code);
  }

  // ---------------------------------------------------------------------
  // What the emitted program returns

  /** Execution from a given `rax`: `mov`, `add` and `sub` take a 32-bit
      immediate sign-extended to 64 bits and wrap modulo 2^64; `ret` returns
      `rax`. `None`: the code ran off its end. */
  function Run(rax: Word, code: seq<Instr>): Option<Word>
    decreases |code|
  {
    if code == [] then None
    else
      match code[0]
      case MovRax(n) => Run(ToWord(n), code[1..])
      case AddRax(n) => Run(ToWord(rax + n), code[1..])
      case SubRax(n) => Run(ToWord(rax - n), code[1..])
      case Ret => Some(rax)
  }

  /** One `+ n` or `- n` term of the input. */
  datatype Term = Term(plus: bool, n: int)

  /** `n0 ± n1 ± … ± nk` evaluated left to right in exact arithmetic. */
  function Value(n0: int, terms: seq<Term>): int
  {
    if terms == [] then n0
    else
      var v, t := Value(n0, terms[..|terms| - 1]), terms[|terms| - 1];
      if t.plus then v + t.n else v - t.n
  }

  /** The tokens from `i` on spell the terms, then the EOF token. */
  predicate SpellsFrom(s: string, toks: seq<Token>, i: nat, terms: seq<Term>)
    decreases terms
  {
    if terms == [] then i < |toks| && toks[i].kind == Eof
    else
      i + 1 < |toks| &&
      IsOp(s, toks[i], Sign(terms[0].plus)) &&
      toks[i + 1].kind == Num && toks[i + 1].val == terms[0].n &&
      SpellsFrom(s, toks, i + 2, terms[1..])
  }

  /** The token list spells `n0 ± n1 ± … ± nk`. */
  predicate Spells(s: string, toks: seq<Token>, n0: int, terms: seq<Term>)
  {
    |toks| > 0 && toks[0].kind == Num && toks[0].val == n0 && SpellsFrom(s, toks, 1, terms)
  }

  /** Folding the first term in first gives the same value. */
  lemma {:induction false} ValueFirst(n0: int, t: Term, rest: seq<Term>)
    ensures Value(n0, [t] + rest) == Value(if t.plus then n0 + t.n else n0 - t.n, rest)
    decreases |rest|
  {
    if rest == [] {
      assert [t] + rest == [t];
      assert ([t] + rest)[..0] == [];
    } else {
      var front := rest[..|rest| - 1];
      assert ([t] + rest)[..|[t] + rest| - 1] == [t] + front;
      assert ([t] + rest)[|[t] + rest| - 1] == rest[|rest| - 1];
      ValueFirst(n0, t, front);
    }
  }

  /** The loop accepts exactly the spelled terms, and the code it emits
      turns an accumulator held in `rax` into the running value. */
  lemma {:induction false} StepsComplete(s: string, toks: seq<Token>, i: nat, terms: seq<Term>, acc: int)
    requires WellFormed(s, toks) && i < |toks| && SpellsFrom(s, toks, i, terms)
    ensures Steps(s, toks, i).Success?
    ensures Run(ToWord(acc), Steps(s, toks, i).value) == Some(ToWord(Value(acc, terms)))
    decreases terms
  {
    if terms != [] {
      var t := terms[0];
      var acc' := if t.plus then acc + t.n else acc - t.n;
      StepsComplete(s, toks, i + 2, terms[1..], acc');
      var ins := if t.plus then AddRax(t.n) else SubRax(t.n);
      var rest := Steps(s, toks, i + 2).value;
      assert Steps(s, toks, i).value == [ins] + rest;
      assert ([ins] + rest)[1..] == rest;
      var q := acc / TWO_64;
      assert ToWord(acc) == acc + TWO_64 * -q;
      ToWordShift(acc + t.n, -q);
      ToWordShift(acc - t.n, -q);
      ValueFirst(acc, t, terms[1..]);
      assert [t] + terms[1..] == terms;
    }
  }

  /** Whatever the loop accepts spells some terms. */
  lemma {:induction false} StepsSound(s: string, toks: seq<Token>, i: nat) returns (terms: seq<Term>)
    requires WellFormed(s, toks) && i < |toks| && Steps(s, toks, i).Success?
    ensures SpellsFrom(s, toks, i, terms)
    decreases |toks| - i
  {
    var t := toks[i];
    if t.kind == Eof {
      terms := [];
    } else {
      var rest := StepsSound(s, toks, i + 2);
      terms := [Term(IsOp(s, t, '+'), toks[i + 1].val)] + rest;
      assert terms[1..] == rest;
    }
  }

  /** Stage one compiles exactly the inputs spelling `n0 ± n1 ± … ± nk`,
      and the program it emits returns their left-to-right value, wrapped to
      64 bits. */
  lemma TranslateComplete(s: string, toks: seq<Token>, n0: int, terms: seq<Term>, rax: Word)
    requires WellFormed(s, toks) && Spells(s, toks, n0, terms)
    ensures Translate(s, toks).Success?
    ensures Run(rax, Translate(s, toks).value) == Some(ToWord(Value(n0, terms)))
  {
    StepsComplete(s, toks, 1, terms, n0);
    var rest := Steps(s, toks, 1).value;
    assert Translate(s, toks).value == [MovRax(n0)] + rest;
    assert ([MovRax(n0)] + rest)[1..] == rest;
  }

  lemma TranslateSound(s: string, toks: seq<Token>) returns (n0: int, terms: seq<Term>)
    requires WellFormed(s, toks) && Translate(s, toks).Success?
    ensures Spells(s, toks, n0, terms)
  {
    n0 := toks[0].val;
    terms := StepsSound(s, toks, 1);
  }

  // ---------------------------------------------------------------------
  // main

  /** `main` on the argument string: tokenize, then compile. */
  function Compiled(s: string): Result<seq<Instr>, nat>
  {
    var lexed := LexFrom(s, 0);
    if lexed.Failure? then Failure(lexed.error)
    else
      LexShape(s, 0);
      Translate(s, lexed.value)
  }

  /** `main` after the argument count check: `tokenize`, point the cursor
      at the first token, run the compile loop. */
  method CompileMain(s: string) returns (r: Result<seq<Instr>, nat>)
    requires IsCString(s)
    ensures r == Compiled(s)
  {
    var lexed := Tokenize(s);
    if lexed.Failure? {
      return Failure(lexed.error);
    }
    LexShape(s, 0);
    var cur := new Cursor(s, lexed.value);
    r := Compile(cur);
  }

  // ---------------------------------------------------------------------
  // The inputs stage one compiles, described on the text

  /** The character of a `+` or `-` term. */
  function Sign(plus: bool): char
  {
    if plus then '+' else '-'
  }

  /** From `p` on, after blanks, the text reads the terms `± n1 ± … ± nk`,
      and then nothing but blanks. */
  predicate TermsText(s: string, p: nat, terms: seq<Term>)
    requires p <= |s|
    decreases |terms|, 0
  {
    var j := LexerSpec.SkipSpace(s, p);
    if terms == [] then j == |s|
    else j < |s| && s[j] == Sign(terms[0].plus) && NumberText(s, j + 1, terms[0].n, terms[1..])
  }

  /** From `p` on, after blanks, the text holds a digit run whose `strtol`
      value is `n`, and then reads the terms. */
  predicate NumberText(s: string, p: nat, n: int, terms: seq<Term>)
    requires p <= |s|
    decreases |terms|, 1
  {
    var j := LexerSpec.SkipSpace(s, p);
    j < |s| && IsDigit(s[j]) && StrtolInt(s[j..DigitEnd(s, j)]) == n
    && TermsText(s, DigitEnd(s, j), terms)
  }

  /** The input reads `n0 ± n1 ± … ± nk`, with blanks allowed before and
      after every sign and every digit run. */
  predicate Reads(s: string, n0: int, terms: seq<Term>)
  {
    NumberText(s, 0, n0, terms)
  }

  /** A token in front shifts the spelled terms by one place. */
  lemma {:induction false} SpellsShift(s: string, t: Token, rest: seq<Token>, i: nat, terms: seq<Term>)
    ensures SpellsFrom(s, [t] + rest, i + 1, terms) == SpellsFrom(s, rest, i, terms)
    decreases terms
  {
    if terms != [] {
      SpellsShift(s, t, rest, i + 2, terms[1..]);
    }
  }

  /** The text reads the terms from `p` exactly when `tokenize` succeeds
      there with a list spelling them. */
  lemma {:induction false} TermsTextLex(s: string, p: nat, terms: seq<Term>)
    requires p <= |s|
    ensures TermsText(s, p, terms) <==> LexFrom(s, p).Success? && SpellsFrom(s, LexFrom(s, p).value, 0, terms)
    decreases |terms|, 0, 1
  {
    LexSkip(s, p);
    TermsTextAt(s, LexerSpec.SkipSpace(s, p), terms);
  }

  /** `TermsTextLex` at a position that holds no blank. */
  lemma {:induction false} TermsTextAt(s: string, j: nat, terms: seq<Term>)
    requires j <= |s| && (j < |s| ==> !IsSpace(s[j]))
    ensures (if terms == [] then j == |s|
             else j < |s| && s[j] == Sign(terms[0].plus) && NumberText(s, j + 1, terms[0].n, terms[1..]))
            <==> LexFrom(s, j).Success? && SpellsFrom(s, LexFrom(s, j).value, 0, terms)
    decreases |terms|, 0, 0
  {
    if j == |s| {
      assert LexFrom(s, j) == Success([Token(Eof, 0, j)]);
    } else if s[j] == '+' || s[j] == '-' {
      var t := Token(Reserved, 0, j);
      assert LexFrom(s, j) == Prepend([t], LexFrom(s, j + 1));
      if terms != [] {
        NumberTextLex(s, j + 1, terms[0].n, terms[1..]);
        if LexFrom(s, j + 1).Success? {
          var w := LexFrom(s, j + 1).value;
          SpellsShift(s, t, w, 1, terms[1..]);
          assert SpellsFrom(s, [t] + w, 0, terms) <==>
            IsOp(s, t, Sign(terms[0].plus)) && Spells(s, w, terms[0].n, terms[1..]);
        }
      }
    } else if IsDigit(s[j]) {
      var e := DigitEnd(s, j);
      assert LexFrom(s, j) == Prepend([Token(Num, StrtolInt(s[j..e]), j)], LexFrom(s, e));
    } else {
      assert LexFrom(s, j).Failure?;
    }
  }

  /** The text holds a number and then reads the terms from `p` exactly when
      `tokenize` succeeds there with a list spelling them. */
  lemma {:induction false} NumberTextLex(s: string, p: nat, n: int, terms: seq<Term>)
    requires p <= |s|
    ensures NumberText(s, p, n, terms) <==> LexFrom(s, p).Success? && Spells(s, LexFrom(s, p).value, n, terms)
    decreases |terms|, 1
  {
    LexSkip(s, p);
    var j := LexerSpec.SkipSpace(s, p);
    if j < |s| && IsDigit(s[j]) {
      var e := DigitEnd(s, j);
      var t := Token(Num, StrtolInt(s[j..e]), j);
      assert LexFrom(s, j) == Prepend([t], LexFrom(s, e));
      TermsTextLex(s, e, terms);
      if LexFrom(s, e).Success? {
        SpellsShift(s, t, LexFrom(s, e).value, 0, terms);
      }
    }
  }

  /** Whatever `main` compiles reads `n0 ± n1 ± … ± nk`, and the program it
      prints returns that sum, wrapped to 64 bits. */
  lemma CompiledValue(s: string, rax: Word) returns (n0: int, terms: seq<Term>)
    requires Compiled(s).Success?
    ensures Reads(s, n0, terms)
    ensures Run(rax, Compiled(s).value) == Some(ToWord(Value(n0, terms)))
  {
    var toks := LexFrom(s, 0).value;
    LexShape(s, 0);
    n0, terms := TranslateSound(s, toks);
    TranslateComplete(s, toks, n0, terms, rax);
    NumberTextLex(s, 0, n0, terms);
  }

  /** Every input reading `n0 ± n1 ± … ± nk` compiles, to a program that
      returns that sum, wrapped to 64 bits. */
  lemma ReadsCompile(s: string, n0: int, terms: seq<Term>, rax: Word)
    requires Reads(s, n0, terms)
    ensures Compiled(s).Success?
    ensures Run(rax, Compiled(s).value) == Some(ToWord(Value(n0, terms)))
  {
    NumberTextLex(s, 0, n0, terms);
    LexShape(s, 0);
    TranslateComplete(s, LexFrom(s, 0).value, n0, terms, rax);
  }
}
