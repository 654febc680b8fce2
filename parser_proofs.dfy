/** What the grammar of parser.c means: printing a tree with the fewest
    parentheses its operators' precedence and associativity allow, and
    parsing the result, gives back the same tree. Precedence, left
    associativity, the right associativity of `=`, the operand swap of `>`
    and `>=` and the lowering of unary minus follow as corollaries. */
module ParserProofs {
  import opened Wrappers
  import opened Defs
  import opened LexerSpec
  import opened ParserSpec
  import Words

  // ---------------------------------------------------------------------
  // Printing trees as lexemes

  /** The binding level of an operator kind; a smaller level binds tighter:
      `mul` (3), `add` (4), `relational` (5), `equality` (6), `assign` (7). */
  function KindPrec(k: NodeKind): nat
  {
    if k == Mul || k == Div then 3
    else if k == Add || k == Sub then 4
    else if k == Grt || k == Geq then 5
    else if k == Equ || k == Neq then 6
    else 7
  }

  /** The binding level of a node; primaries sit at level 2. */
  function Prec(e: Node): nat
  {
    if e.BinNode? then KindPrec(e.kind) else 2
  }

  /** The operator text that builds a node kind in source order. */
  function OpText(k: NodeKind): string
  {
    match k
    case Add => "+"
    case Sub => "-"
    case Mul => "*"
    case Div => "/"
    case Equ => "=="
    case Neq => "!="
    case Grt => "<"
    case Geq => "<="
    case _ => "="
  }

  predicate IsCharCode(n: int)
  {
    0 <= n < 0xD800 || 0xE000 <= n < 0x11_0000
  }

  /** The signed reading of a `size_t` offset. */
  function SlotValue(offset: nat): int
  {
    if offset < Words.TWO_63 then offset else offset - Words.TWO_64
  }

  /** `offset` is the stack slot of some character. */
  predicate IsSlot(offset: nat)
  {
    offset < Words.TWO_64 && SlotValue(offset) % 8 == 0 && IsCharCode(SlotValue(offset) / 8 + 96)
  }

  /** The variable whose stack slot is `offset`: the inverse of `SlotOffset`. */
  function VarChar(offset: nat): char
    requires IsSlot(offset)
  {
    (SlotValue(offset) / 8 + 96) as char
  }

  /** The kinds of the binary nodes `parser.c` builds. */
  predicate IsBinKind(k: NodeKind)
  {
    k.Add? || k.Sub? || k.Mul? || k.Div? || k.Equ? || k.Neq? || k.Grt? || k.Geq? || k.Assign?
  }

  /** Trees `parser.c` can build: the binary kinds it creates, numbers, and
      variables at the slot of some character. */
  predicate Wf(e: Node)
  {
    match e
    case BinNode(k, a, b) => IsBinKind(k) && Wf(a) && Wf(b)
    case NumNode(_) => true
    case VarNode(offset) => IsSlot(offset)
  }

  function Paren(w: seq<Lexeme>): seq<Lexeme>
  {
    [Punct("(")] + w + [Punct(")")]
  }

  /** The level a left operand of `k` is printed at: its operator's own
      level (left associativity), one tighter for `=`. */
  function LeftLevel(k: NodeKind): nat
  {
    if k == Assign then 6 else KindPrec(k)
  }

  /** The level a right operand of `k` is printed at: one tighter than its
      operator, except that the right operand of `=` may itself be an
      assignment (right associativity). */
  function RightLevel(k: NodeKind): nat
  {
    if k == Assign then 7 else KindPrec(k) - 1
  }

  /** `e` printed at level `L`: parenthesised when its operator binds more
      loosely than `L`. */
  function Show(e: Node, L: nat): seq<Lexeme>
    requires Wf(e)
    decreases e, if Prec(e) > L then 1 else 0
  {
    if Prec(e) > L then Paren(Show(e, 7))
    else
      match e
      case NumNode(n) => [Literal(n)]
      case VarNode(offset) => [Name(VarChar(offset))]
      case BinNode(k, a, b) => Show(a, LeftLevel(k)) + [Punct(OpText(k))] + Show(b, RightLevel(k))
  }

  /** `x` would be taken as an operator by some level up to `L`. */
  predicate Binds(L: nat, x: Lexeme)
  {
    (L >= 3 && (x == Punct("*") || x == Punct("/")))
    || (L >= 4 && (x == Punct("+") || x == Punct("-")))
    || (L >= 5 && RelationalOp(x).Some?)
    || (L >= 6 && (x == Punct("==") || x == Punct("!=")))
    || (L >= 7 && x == Punct("="))
  }

  /** `v[i..j]` is `e` printed at level `L`. */
  predicate Printed(v: seq<Lexeme>, i: nat, j: nat, e: Node, L: nat)
  {
    Wf(e) && i <= j <= |v| && v[i..j] == Show(e, L)
  }

  lemma SliceSplit2(v: seq<Lexeme>, i: nat, j: nat, x: seq<Lexeme>, y: seq<Lexeme>)
    requires i <= j <= |v| && v[i..j] == x + y
    ensures v[i..i + |x|] == x && v[i + |x|..j] == y
  {
    var u := v[i..j];
    assert v[i..i + |x|] == u[..|x|] == (x + y)[..|x|] == x;
    assert v[i + |x|..j] == u[|x|..] == (x + y)[|x|..] == y;
  }

  lemma SliceSplit(v: seq<Lexeme>, i: nat, j: nat, x: seq<Lexeme>, y: seq<Lexeme>, z: seq<Lexeme>)
    requires i <= j <= |v| && v[i..j] == x + y + z
    ensures v[i..i + |x|] == x && v[i + |x|..i + |x| + |y|] == y && v[i + |x| + |y|..j] == z
  {
    SliceSplit2(v, i, j, x + y, z);
    SliceSplit2(v, i, i + |x + y|, x, y);
  }

  /** A binary node printed at its own level `L`, taken apart into its left
      operand (printed at `L1`), its operator at `ea`, and its right operand
      (printed at `L2`). */
  lemma ShowBin(v: seq<Lexeme>, i: nat, j: nat, e: Node, L: nat, L1: nat, L2: nat) returns (ea: nat)
    requires e.BinNode? && L == Prec(e) && L1 == LeftLevel(e.kind) && L2 == RightLevel(e.kind)
    requires Printed(v, i, j, e, L)
    ensures Printed(v, i, ea, e.lhs, L1) && Printed(v, ea + 1, j, e.rhs, L2)
    ensures ea < j && v[ea] == Punct(OpText(e.kind))
  {
    SliceSplit(v, i, j, Show(e.lhs, L1), [Punct(OpText(e.kind))], Show(e.rhs, L2));
    ea := i + |Show(e.lhs, L1)|;
  }

  /** A tree printed in parentheses. */
  lemma ShowParen(v: seq<Lexeme>, i: nat, j: nat, e: Node, L: nat)
    requires Printed(v, i, j, e, L) && Prec(e) > L
    ensures i + 2 <= j && Printed(v, i + 1, j - 1, e, 7)
    ensures v[i] == Punct("(") && v[j - 1] == Punct(")")
  {
    var inner := Show(e, 7);
    assert v[i..j] == [Punct("(")] + inner + [Punct(")")];
    SliceSplit(v, i, j, [Punct("(")], inner, [Punct(")")]);
    assert v[i] == v[i..i + 1][0];
    assert v[j - 1] == v[i + 1 + |inner|..j][0];
  }

  /** A number or variable printed as one lexeme. */
  lemma ShowAtom(v: seq<Lexeme>, i: nat, j: nat, e: Node, L: nat)
    requires Printed(v, i, j, e, L) && !e.BinNode? && L >= 2
    ensures j == i + 1
    ensures e.NumNode? ==> v[i] == Literal(e.val)
    ensures e.VarNode? ==> v[i] == Name(VarChar(e.offset))
  {
    assert v[i] == v[i..j][0];
  }

  /** Printing at a level the operator does not reach is printing at any
      other such level. */
  lemma PrintedLevels(v: seq<Lexeme>, i: nat, j: nat, e: Node, L: nat, L': nat)
    requires Printed(v, i, j, e, L) && (Prec(e) > L <==> Prec(e) > L')
    ensures Printed(v, i, j, e, L')
  {
  }

  // ---------------------------------------------------------------------
  // Single steps of the grammar

  lemma BindsUpTo(L: nat, L': nat, x: Lexeme)
    requires L <= L' && !Binds(L', x)
    ensures !Binds(L, x)
  {
  }

  /** The text a kind is printed with is not an operator of any tighter
      level, and `relational` maps it back to that kind. */
  lemma OperatorLevel(k: NodeKind)
    requires IsBinKind(k)
    ensures !Binds(KindPrec(k) - 1, Punct(OpText(k)))
    ensures k == Grt || k == Geq ==> RelationalOp(Punct(OpText(k))) == Some((k, false))
  {
  }

  /** A closing parenthesis is no operator. */
  lemma CloseStops()
    ensures !Binds(7, Punct(")"))
  {
  }

  lemma SlotOfVarChar(offset: nat)
    requires IsSlot(offset)
    ensures SlotOffset(VarChar(offset)) == offset
  {
    var x := SlotValue(offset);
    assert (VarChar(offset) as int - 'a' as int + 1) * 8 == x;
    if offset >= Words.TWO_63 {
      assert x % Words.TWO_64 == offset by {
        assert x + Words.TWO_64 == offset;
      }
    }
  }

  lemma MulRestStop(v: seq<Lexeme>, j: nat, n: Node)
    requires j <= |v| && !Binds(3, Peek(v, j))
    ensures PMulRest(v, j, n) == Success(Parsed(n, j))
  {
  }

  lemma AddRestStop(v: seq<Lexeme>, j: nat, n: Node)
    requires j <= |v| && !Binds(4, Peek(v, j))
    ensures PAddRest(v, j, n) == Success(Parsed(n, j))
  {
  }

  lemma RelationalRestStop(v: seq<Lexeme>, j: nat, n: Node)
    requires j <= |v| && !Binds(5, Peek(v, j))
    ensures PRelationalRest(v, j, n) == Success(Parsed(n, j))
  {
  }

  lemma EqualityRestStop(v: seq<Lexeme>, j: nat, n: Node)
    requires j <= |v| && !Binds(6, Peek(v, j))
    ensures PEqualityRest(v, j, n) == Success(Parsed(n, j))
  {
  }

  lemma MulRestStep(v: seq<Lexeme>, j: nat, e: Node, k: nat)
    requires e.BinNode? && (e.kind == Mul || e.kind == Div)
    requires j < |v| && v[j] == Punct(OpText(e.kind))
    requires PUnary(v, j + 1) == Success(Parsed(e.rhs, k))
    ensures PMulRest(v, j, e.lhs) == PMulRest(v, k, e)
  {
  }

  lemma AddRestStep(v: seq<Lexeme>, j: nat, e: Node, k: nat)
    requires e.BinNode? && (e.kind == Add || e.kind == Sub)
    requires j < |v| && v[j] == Punct(OpText(e.kind))
    requires PMul(v, j + 1) == Success(Parsed(e.rhs, k))
    ensures PAddRest(v, j, e.lhs) == PAddRest(v, k, e)
  {
  }

  lemma RelationalRestStep(v: seq<Lexeme>, j: nat, e: Node, k: nat)
    requires e.BinNode? && (e.kind == Grt || e.kind == Geq)
    requires j < |v| && RelationalOp(v[j]) == Some((e.kind, false))
    requires PAdd(v, j + 1) == Success(Parsed(e.rhs, k))
    ensures PRelationalRest(v, j, e.lhs) == PRelationalRest(v, k, e)
  {
  }

  lemma EqualityRestStep(v: seq<Lexeme>, j: nat, e: Node, k: nat)
    requires e.BinNode? && (e.kind == Equ || e.kind == Neq)
    requires j < |v| && v[j] == Punct(OpText(e.kind))
    requires PRelational(v, j + 1) == Success(Parsed(e.rhs, k))
    ensures PEqualityRest(v, j, e.lhs) == PEqualityRest(v, k, e)
  {
  }

  lemma MulFromUnary(v: seq<Lexeme>, i: nat, j: nat, n: Node)
    requires i <= j <= |v| && PUnary(v, i) == Success(Parsed(n, j))
    ensures PMul(v, i) == PMulRest(v, j, n)
  {
  }

  lemma AddFromMul(v: seq<Lexeme>, i: nat, j: nat, n: Node)
    requires i <= j <= |v| && PMul(v, i) == Success(Parsed(n, j))
    ensures PAdd(v, i) == PAddRest(v, j, n)
  {
  }

  lemma RelationalFromAdd(v: seq<Lexeme>, i: nat, j: nat, n: Node)
    requires i <= j <= |v| && PAdd(v, i) == Success(Parsed(n, j))
    ensures PRelational(v, i) == PRelationalRest(v, j, n)
  {
  }

  lemma EqualityFromRelational(v: seq<Lexeme>, i: nat, j: nat, n: Node)
    requires i <= j <= |v| && PRelational(v, i) == Success(Parsed(n, j))
    ensures PEquality(v, i) == PEqualityRest(v, j, n)
  {
  }

  lemma AssignStep(v: seq<Lexeme>, i: nat, j: nat, k: nat, lhs: Node, rhs: Node)
    requires i <= j < |v| && v[j] == Punct("=")
    requires PEquality(v, i) == Success(Parsed(lhs, j))
    requires PAssign(v, j + 1) == Success(Parsed(rhs, k))
    ensures PAssign(v, i) == Success(Parsed(BinNode(Assign, lhs, rhs), k))
  {
  }

  lemma AssignStop(v: seq<Lexeme>, i: nat, j: nat, n: Node)
    requires i <= j <= |v| && !Binds(7, Peek(v, j))
    requires PEquality(v, i) == Success(Parsed(n, j))
    ensures PAssign(v, i) == Success(Parsed(n, j))
  {
  }

  lemma PrimaryParen(v: seq<Lexeme>, i: nat, j: nat, e: Node)
    requires i + 2 <= j <= |v| && v[i] == Punct("(") && v[j - 1] == Punct(")")
    requires PExpr(v, i + 1) == Success(Parsed(e, j - 1))
    ensures PPrimary(v, i) == Success(Parsed(e, j)) && PUnary(v, i) == Success(Parsed(e, j))
  {
  }

  lemma PrimaryAtom(v: seq<Lexeme>, i: nat, e: Node)
    requires i < |v| && ((e.NumNode? && v[i] == Literal(e.val)) || (v[i].Name? && e == VarNode(SlotOffset(v[i].first))))
    ensures PPrimary(v, i) == Success(Parsed(e, i + 1)) && PUnary(v, i) == Success(Parsed(e, i + 1))
  {
  }

  // ---------------------------------------------------------------------
  // Parsing what was printed, level by level

  /** The measure of the round-trip proofs: each level either hands the same
      tree to the next tighter level, or (at the tree's own level) recurses
      into its operands; a parenthesised tree restarts at `assign`. */
  function Rank(e: Node, L: nat): nat
  {
    if Prec(e) <= L then L - Prec(e) else 8 + L
  }

  /** `unary` (and `primary` under it) reads back a number, a variable or a
      parenthesised tree. */
  lemma {:induction false} UnaryRoundTrip(v: seq<Lexeme>, i: nat, j: nat, e: Node)
    requires Printed(v, i, j, e, 2)
    ensures PPrimary(v, i) == Success(Parsed(e, j))
    ensures PUnary(v, i) == Success(Parsed(e, j))
    decreases e, Rank(e, 2)
  {
    if Prec(e) > 2 {
      ShowParen(v, i, j, e, 2);
      CloseStops();
      AssignRoundTrip(v, i + 1, j - 1, e);
      PrimaryParen(v, i, j, e);
    } else {
      ShowAtom(v, i, j, e, 2);
      if e.VarNode? {
        SlotOfVarChar(e.offset);
      }
      PrimaryAtom(v, i, e);
    }
  }

  lemma {:induction false} MulRoundTrip(v: seq<Lexeme>, i: nat, j: nat, e: Node)
    requires Printed(v, i, j, e, 3)
    ensures PMul(v, i) == PMulRest(v, j, e)
    decreases e, Rank(e, 3), 1
  {
    if Prec(e) == 3 {
      var ea := ShowBin(v, i, j, e, 3, 3, 2);
      MulRoundTrip(v, i, ea, e.lhs);
      UnaryRoundTrip(v, ea + 1, j, e.rhs);
      MulRestStep(v, ea, e, j);
    } else {
      PrintedLevels(v, i, j, e, 3, 2);
      UnaryRoundTrip(v, i, j, e);
      MulFromUnary(v, i, j, e);
    }
  }

  lemma {:induction false} AddRoundTrip(v: seq<Lexeme>, i: nat, j: nat, e: Node)
    requires Printed(v, i, j, e, 4) && !Binds(3, Peek(v, j))
    ensures PAdd(v, i) == PAddRest(v, j, e)
    decreases e, Rank(e, 4), 1
  {
    if Prec(e) == 4 {
      var ea := ShowBin(v, i, j, e, 4, 4, 3);
      OperatorLevel(e.kind);
      AddRoundTrip(v, i, ea, e.lhs);
      MulRoundTrip(v, ea + 1, j, e.rhs);
      MulRestStop(v, j, e.rhs);
      AddRestStep(v, ea, e, j);
    } else {
      PrintedLevels(v, i, j, e, 4, 3);
      MulRoundTrip(v, i, j, e);
      MulRestStop(v, j, e);
      AddFromMul(v, i, j, e);
    }
  }

  lemma {:induction false} RelationalRoundTrip(v: seq<Lexeme>, i: nat, j: nat, e: Node)
    requires Printed(v, i, j, e, 5) && !Binds(4, Peek(v, j))
    ensures PRelational(v, i) == PRelationalRest(v, j, e)
    decreases e, Rank(e, 5), 1
  {
    BindsUpTo(3, 4, Peek(v, j));
    if Prec(e) == 5 {
      var ea := ShowBin(v, i, j, e, 5, 5, 4);
      OperatorLevel(e.kind);
      RelationalRoundTrip(v, i, ea, e.lhs);
      AddRoundTrip(v, ea + 1, j, e.rhs);
      AddRestStop(v, j, e.rhs);
      RelationalRestStep(v, ea, e, j);
    } else {
      PrintedLevels(v, i, j, e, 5, 4);
      AddRoundTrip(v, i, j, e);
      AddRestStop(v, j, e);
      RelationalFromAdd(v, i, j, e);
    }
  }

  lemma {:induction false} EqualityRoundTrip(v: seq<Lexeme>, i: nat, j: nat, e: Node)
    requires Printed(v, i, j, e, 6) && !Binds(5, Peek(v, j))
    ensures PEquality(v, i) == PEqualityRest(v, j, e)
    decreases e, Rank(e, 6), 1
  {
    BindsUpTo(4, 5, Peek(v, j));
    if Prec(e) == 6 {
      var ea := ShowBin(v, i, j, e, 6, 6, 5);
      OperatorLevel(e.kind);
      EqualityRoundTrip(v, i, ea, e.lhs);
      RelationalRoundTrip(v, ea + 1, j, e.rhs);
      RelationalRestStop(v, j, e.rhs);
      EqualityRestStep(v, ea, e, j);
    } else {
      PrintedLevels(v, i, j, e, 6, 5);
      RelationalRoundTrip(v, i, j, e);
      RelationalRestStop(v, j, e);
      EqualityFromRelational(v, i, j, e);
    }
  }

  lemma {:induction false} AssignRoundTrip(v: seq<Lexeme>, i: nat, j: nat, e: Node)
    requires Printed(v, i, j, e, 7) && !Binds(7, Peek(v, j))
    ensures PAssign(v, i) == Success(Parsed(e, j))
    decreases e, Rank(e, 7), 1
  {
    BindsUpTo(5, 7, Peek(v, j));
    BindsUpTo(6, 7, Peek(v, j));
    if Prec(e) == 7 {
      var ea := ShowBin(v, i, j, e, 7, 6, 7);
      OperatorLevel(e.kind);
      BindsUpTo(5, 6, v[ea]);
      EqualityRoundTrip(v, i, ea, e.lhs);
      EqualityRestStop(v, ea, e.lhs);
      AssignRoundTrip(v, ea + 1, j, e.rhs);
      AssignStep(v, i, ea, j, e.lhs, e.rhs);
    } else {
      PrintedLevels(v, i, j, e, 7, 6);
      EqualityRoundTrip(v, i, j, e);
      EqualityRestStop(v, j, e);
      AssignStop(v, i, j, e);
    }
  }

  /** `expr` reads back every tree `parser.c` can build, printed with the
      fewest parentheses, when what follows is not an operator. */
  lemma ExprRoundTrip(v: seq<Lexeme>, i: nat, j: nat, e: Node)
    requires Printed(v, i, j, e, 7) && !Binds(7, Peek(v, j))
    ensures PExpr(v, i) == Success(Parsed(e, j))
  {
    AssignRoundTrip(v, i, j, e);
  }

  /** Printing is injective: `expr` is an unambiguous grammar for the trees
      it builds. */
  lemma ShowInjective(e1: Node, e2: Node)
    requires Wf(e1) && Wf(e2) && Show(e1, 7) == Show(e2, 7)
    ensures e1 == e2
  {
    var w := Show(e1, 7);
    var v := w + [End];
    assert v[0..|w|] == w;
    ExprRoundTrip(v, 0, |w|, e1);
    ExprRoundTrip(v, 0, |w|, e2);
  }

  // ---------------------------------------------------------------------
  // Corollaries on concrete shapes

  /** A variable's stack slot names it back. */
  lemma VarCharOfSlot(c: char)
    ensures IsSlot(SlotOffset(c))
    ensures VarChar(SlotOffset(c)) == c
  {
    var x := (c as int - 96) * 8;
    if x < 0 {
      assert SlotOffset(c) == x + Words.TWO_64;
    } else {
      assert SlotOffset(c) == x;
    }
    assert SlotValue(SlotOffset(c)) == x;
  }

  /** Names before `a` get a slot wrapped modulo 2^64: `_` the one at
      2^64 - 8, `A` the one at 2^64 - 248. */
  lemma SlotWraps()
    ensures SlotOffset('_') == Words.TWO_64 - 8
    ensures SlotOffset('A') == Words.TWO_64 - 248
    ensures SlotOffset('a') == 8
  {
  }

  /** Three numbers joined by two operators, the first other than `=` and
      binding at least as tightly as the second: the first pair groups (left
      associativity for operators of one level, precedence otherwise). */
  lemma {:induction false} LeftGroups(k1: NodeKind, k2: NodeKind, a: int, b: int, c: int)
    requires IsBinKind(k1) && k1 != Assign && IsBinKind(k2)
    requires KindPrec(k1) <= KindPrec(k2)
    ensures PExpr([Literal(a), Punct(OpText(k1)), Literal(b), Punct(OpText(k2)), Literal(c), End], 0)
         == Success(Parsed(BinNode(k2, BinNode(k1, NumNode(a), NumNode(b)), NumNode(c)), 5))
  {
    var v := [Literal(a), Punct(OpText(k1)), Literal(b), Punct(OpText(k2)), Literal(c), End];
    var e := BinNode(k2, BinNode(k1, NumNode(a), NumNode(b)), NumNode(c));
    assert Wf(NumNode(a)) && Wf(NumNode(b)) && Wf(NumNode(c));
    assert Wf(e.lhs) && Wf(e);
    assert Show(e.lhs, LeftLevel(k2)) == [Literal(a), Punct(OpText(k1)), Literal(b)];
    assert Show(e, 7) == v[0..5];
    ExprRoundTrip(v, 0, 5, e);
  }

  /** Three numbers joined by two operators, the second binding strictly
      more tightly: the second pair groups. */
  lemma {:induction false} RightGroups(k1: NodeKind, k2: NodeKind, a: int, b: int, c: int)
    requires IsBinKind(k1) && IsBinKind(k2) && k2 != Assign
    requires KindPrec(k2) < KindPrec(k1)
    ensures PExpr([Literal(a), Punct(OpText(k1)), Literal(b), Punct(OpText(k2)), Literal(c), End], 0)
         == Success(Parsed(BinNode(k1, NumNode(a), BinNode(k2, NumNode(b), NumNode(c))), 5))
  {
    var v := [Literal(a), Punct(OpText(k1)), Literal(b), Punct(OpText(k2)), Literal(c), End];
    var e := BinNode(k1, NumNode(a), BinNode(k2, NumNode(b), NumNode(c)));
    assert Wf(NumNode(a)) && Wf(NumNode(b)) && Wf(NumNode(c));
    assert Wf(e.rhs) && Wf(e);
    assert Show(e.rhs, RightLevel(k1)) == [Literal(b), Punct(OpText(k2)), Literal(c)];
    assert Show(e, 7) == v[0..5];
    ExprRoundTrip(v, 0, 5, e);
  }

  /** `x = y = n` assigns `n` to `y` and the result to `x`. */
  lemma {:induction false} AssignRightAssociative(x: char, y: char, n: int)
    ensures PExpr([Name(x), Punct("="), Name(y), Punct("="), Literal(n), End], 0)
         == Success(Parsed(BinNode(Assign, VarNode(SlotOffset(x)),
                                   BinNode(Assign, VarNode(SlotOffset(y)), NumNode(n))), 5))
  {
    var v := [Name(x), Punct("="), Name(y), Punct("="), Literal(n), End];
    VarCharOfSlot(x);
    VarCharOfSlot(y);
    var e := BinNode(Assign, VarNode(SlotOffset(x)), BinNode(Assign, VarNode(SlotOffset(y)), NumNode(n)));
    assert Wf(VarNode(SlotOffset(x))) && Wf(VarNode(SlotOffset(y))) && Wf(NumNode(n));
    assert Wf(e.rhs) && Wf(e);
    assert Show(e.rhs, 7) == [Name(y), Punct("="), Literal(n)];
    assert Show(e, 7) == v[0..5];
    ExprRoundTrip(v, 0, 5, e);
  }

  lemma RelationalRestSwap(v: seq<Lexeme>, j: nat, kind: NodeKind, lhs: Node, rhs: Node, k: nat)
    requires j < |v| && RelationalOp(v[j]) == Some((kind, true))
    requires PAdd(v, j + 1) == Success(Parsed(rhs, k))
    ensures PRelationalRest(v, j, lhs) == PRelationalRest(v, k, BinNode(kind, rhs, lhs))
  {
  }

  /** The parse of `a op b` where `op` is `>` or `>=`, with `a` printed
      at `v[0..ea]` and `b` at `v[ea + 1..end]`. */
  lemma {:induction false} GreaterSwapsAt(v: seq<Lexeme>, ea: nat, end: nat, a: Node, b: Node, op: string, kind: NodeKind)
    requires (op, kind) == (">", Grt) || (op, kind) == (">=", Geq)
    requires Printed(v, 0, ea, a, 4) && Printed(v, ea + 1, end, b, 4)
    requires ea < end && v[ea] == Punct(op) && Peek(v, end) == End
    ensures PExpr(v, 0) == Success(Parsed(BinNode(kind, b, a), end))
  {
    var n := BinNode(kind, b, a);
    AddRoundTrip(v, 0, ea, a);
    AddRestStop(v, ea, a);
    AddRoundTrip(v, ea + 1, end, b);
    AddRestStop(v, end, b);
    RelationalRestSwap(v, ea, kind, a, b, end);
    RelationalFromAdd(v, 0, ea, a);
    RelationalRestStop(v, end, n);
    EqualityFromRelational(v, 0, end, n);
    EqualityRestStop(v, end, n);
    AssignStop(v, 0, end, n);
  }

  /** `a > b` is read as `b < a`, and `a >= b` as `b <= a`: the same node
      kinds with the operands swapped. */
  lemma GreaterSwapsOperands(v: seq<Lexeme>, a: Node, b: Node, op: string, kind: NodeKind)
    requires (op, kind) == (">", Grt) || (op, kind) == (">=", Geq)
    requires Wf(a) && Wf(b)
    requires v == Show(a, 4) + [Punct(op)] + Show(b, 4) + [End]
    ensures PExpr(v, 0) == Success(Parsed(BinNode(kind, b, a), |v| - 1))
  {
    var sa, sb := Show(a, 4), Show(b, 4);
    var ea, end := |sa|, |v| - 1;
    assert v[0..end] == sa + [Punct(op)] + sb;
    SliceSplit(v, 0, end, sa, [Punct(op)], sb);
    assert v[ea] == v[ea..ea + 1][0] == Punct(op);
    GreaterSwapsAt(v, ea, end, a, b, op, kind);
  }

  /** Unary minus is subtraction from zero; unary plus is the operand. */
  lemma UnarySigns(v: seq<Lexeme>, i: nat, j: nat, x: Node)
    requires i < |v| && Printed(v, i + 1, j, x, 2)
    ensures v[i] == Punct("-") ==> PUnary(v, i) == Success(Parsed(BinNode(Sub, NumNode(0), x), j))
    ensures v[i] == Punct("+") ==> PUnary(v, i) == Success(Parsed(x, j))
  {
    UnaryRoundTrip(v, i + 1, j, x);
  }

  /** The first lexeme of a printed tree is never the EOF. */
  lemma {:induction false} ShowStarts(e: Node, L: nat)
    requires Wf(e)
    ensures |Show(e, L)| > 0 && Show(e, L)[0] != End
    decreases e, if Prec(e) > L then 1 else 0
  {
    if Prec(e) <= L && e.BinNode? {
      ShowStarts(e.lhs, LeftLevel(e.kind));
    }
  }

  /** `stmt` reads back an expression and its `;`; a missing `;` is reported
      at the lexeme that stands in its place. */
  lemma StmtRoundTrip(v: seq<Lexeme>, i: nat, j: nat, e: Node)
    requires Printed(v, i, j, e, 7) && !Binds(7, Peek(v, j))
    ensures Peek(v, j) == Punct(";") ==> PStmt(v, i) == Success(Parsed(e, j + 1))
    ensures Peek(v, j) != Punct(";") ==> PStmt(v, i) == Failure(j)
  {
    ExprRoundTrip(v, i, j, e);
  }

  /** A program printed as its statements, each followed by `;`. */
  function ShowProgram(ns: seq<Node>): seq<Lexeme>
    requires forall k :: 0 <= k < |ns| ==> Wf(ns[k])
  {
    if ns == [] then [] else Show(ns[0], 7) + [Punct(";")] + ShowProgram(ns[1..])
  }

  lemma ProgramStep(v: seq<Lexeme>, i: nat, j: nat, n: Node, rest: seq<Node>)
    requires i < j <= |v| && Peek(v, i) != End && PStmt(v, i) == Success(Parsed(n, j))
    requires PProgram(v, j) == Success(rest) && StmtCount(v, j) == |rest|
    ensures PProgram(v, i) == Success([n] + rest) && StmtCount(v, i) == 1 + |rest|
  {
  }

  /** `v[i..j]` is the program `ns` printed. */
  predicate ProgramPrinted(v: seq<Lexeme>, i: nat, j: nat, ns: seq<Node>)
  {
    (forall k :: 0 <= k < |ns| ==> Wf(ns[k])) && i <= j <= |v| && v[i..j] == ShowProgram(ns)
  }

  /** A semicolon is no operator. */
  lemma SemicolonStops()
    ensures !Binds(7, Punct(";"))
  {
  }

  /** A printed program of at least one statement, taken apart into its
      first statement, ending at `m`, its `;`, and the rest. */
  lemma ProgramSplit(v: seq<Lexeme>, i: nat, j: nat, ns: seq<Node>) returns (m: nat)
    requires ProgramPrinted(v, i, j, ns) && ns != []
    ensures Printed(v, i, m, ns[0], 7) && m < j && v[m] == Punct(";")
    ensures ProgramPrinted(v, m + 1, j, ns[1..])
    ensures v[i] != End
  {
    var s := Show(ns[0], 7);
    m := i + |s|;
    SliceSplit(v, i, j, s, [Punct(";")], ShowProgram(ns[1..]));
    ShowStarts(ns[0], 7);
    assert v[i] == v[i..m][0] == s[0];
    assert v[m] == v[m..m + 1][0];
  }

  /** `program` reads back every list of statements, and counts them. */
  lemma {:induction false} ProgramRoundTrip(v: seq<Lexeme>, i: nat, j: nat, ns: seq<Node>)
    requires ProgramPrinted(v, i, j, ns) && Peek(v, j) == End
    ensures PProgram(v, i) == Success(ns)
    ensures StmtCount(v, i) == |ns|
    decreases ns
  {
    if ns != [] {
      var m := ProgramSplit(v, i, j, ns);
      SemicolonStops();
      StmtRoundTrip(v, i, m, ns[0]);
      ProgramRoundTrip(v, m + 1, j, ns[1..]);
      ProgramStep(v, i, m + 1, ns[0], ns[1..]);
      assert [ns[0]] + ns[1..] == ns;
    }
  }
}
