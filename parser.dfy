/** parser.c as imperative code: each grammar function reads through the
    shared token cursor, accumulates `node` in its `for (;;)` loop, and is
    proved to build exactly what the matching function of `ParserSpec`
    describes. A fatal error is returned as the index of the token it is
    reported at. */
module Parser {
  import opened Wrappers
  import opened CLib
  import opened Defs
  import opened LexerSpec
  import opened Lexer
  import opened ParserSpec

  /** The method's result and final cursor position are those of `spec`. */
  predicate Agrees(r: Result<Node, nat>, spec: PResult, pos: nat)
  {
    match spec
    case Success(p) => r == Success(p.node) && pos == p.next
    case Failure(e) => r == Failure(e)
  }

  /** `expr` */
  method Expr(cur: TokenCursor) returns (r: Result<Node, nat>)
    requires cur.Valid()
    modifies cur
    ensures cur.Valid()
    ensures Agrees(r, PExpr(cur.Lexemes(), old(cur.pos)), cur.pos)
    decreases |cur.tokens| - cur.pos, 7
  {
    r := Assign(cur);
  }

  /** `assign` */
  method Assign(cur: TokenCursor) returns (r: Result<Node, nat>)
    requires cur.Valid()
    modifies cur
    ensures cur.Valid()
    ensures Agrees(r, PAssign(cur.Lexemes(), old(cur.pos)), cur.pos)
    decreases |cur.tokens| - cur.pos, 6
  {
    var node := Equality(cur);
    if node.Failure? {
      return node;
    }
    var b := cur.Consume("=");
    if b {
      var rhs := Assign(cur);
      if rhs.Failure? {
        return rhs;
      }
      node := Success(BinNode(Defs.Assign, node.value, rhs.value));
    }
    return node;
  }

  /** `equality` */
  method Equality(cur: TokenCursor) returns (r: Result<Node, nat>)
    requires cur.Valid()
    modifies cur
    ensures cur.Valid()
    ensures Agrees(r, PEquality(cur.Lexemes(), old(cur.pos)), cur.pos)
    decreases |cur.tokens| - cur.pos, 5
  {
    ghost var v, i0 := cur.Lexemes(), cur.pos;
    var first := Relational(cur);
    if first.Failure? {
      return first;
    }
    var node := first.value;
    while true
      invariant cur.Valid() && i0 < cur.pos
      invariant PEquality(v, i0) == PEqualityRest(v, cur.pos, node)
      decreases |cur.tokens| - cur.pos
    {
      var b := cur.Consume("==");
      if b {
        var rhs := Relational(cur);
        if rhs.Failure? {
          return rhs;
        }
        node := BinNode(Equ, node, rhs.value);
        continue;
      }
      b := cur.Consume("!=");
      if b {
        var rhs := Relational(cur);
        if rhs.Failure? {
          return rhs;
        }
        node := BinNode(Neq, node, rhs.value);
        continue;
      }
      return Success(node);
    }
  }

  /** The four `consume` tests of the loop of `relational`, in order: which
      operator was read, as its node kind and whether it swaps operands. */
  method ConsumeRelational(cur: TokenCursor) returns (op: Option<(NodeKind, bool)>)
    requires cur.Valid()
    modifies cur
    ensures cur.Valid()
    ensures op == RelationalOp(cur.Lexemes()[old(cur.pos)])
    ensures cur.pos == if op.Some? then old(cur.pos) + 1 else old(cur.pos)
  {
    var b := cur.Consume("<");
    if b {
      return Some((Grt, false));
    }
    b := cur.Consume(">");
    if b {
      return Some((Grt, true));
    }
    b := cur.Consume("<=");
    if b {
      return Some((Geq, false));
    }
    b := cur.Consume(">=");
    if b {
      return Some((Geq, true));
    }
    return None;
  }

  /** `relational`: `>` and `>=` swap their operands. */
  method Relational(cur: TokenCursor) returns (r: Result<Node, nat>)
    requires cur.Valid()
    modifies cur
    ensures cur.Valid()
    ensures Agrees(r, PRelational(cur.Lexemes(), old(cur.pos)), cur.pos)
    decreases |cur.tokens| - cur.pos, 4
  {
    ghost var v, i0 := cur.Lexemes(), cur.pos;
    var first := Add(cur);
    if first.Failure? {
      return first;
    }
    var node := first.value;
    while true
      invariant cur.Valid() && i0 < cur.pos
      invariant PRelational(v, i0) == PRelationalRest(v, cur.pos, node)
      decreases |cur.tokens| - cur.pos
    {
      var op := ConsumeRelational(cur);
      if op.None? {
        return Success(node);
      }
      var other := Add(cur);
      if other.Failure? {
        return other;
      }
      var (kind, swap) := op.value;
      node := if swap then BinNode(kind, other.value, node) else BinNode(kind, node, other.value);
    }
  }

  /** `add` */
  method Add(cur: TokenCursor) returns (r: Result<Node, nat>)
    requires cur.Valid()
    modifies cur
    ensures cur.Valid()
    ensures Agrees(r, PAdd(cur.Lexemes(), old(cur.pos)), cur.pos)
    decreases |cur.tokens| - cur.pos, 3
  {
    ghost var v, i0 := cur.Lexemes(), cur.pos;
    var first := Mul(cur);
    if first.Failure? {
      return first;
    }
    var node := first.value;
    while true
      invariant cur.Valid() && i0 < cur.pos
      invariant PAdd(v, i0) == PAddRest(v, cur.pos, node)
      decreases |cur.tokens| - cur.pos
    {
      var b := cur.Consume("+");
      if b {
        var rhs := Mul(cur);
        if rhs.Failure? {
          return rhs;
        }
        node := BinNode(Defs.Add, node, rhs.value);
        continue;
      }
      b := cur.Consume("-");
      if b {
        var rhs := Mul(cur);
        if rhs.Failure? {
          return rhs;
        }
        node := BinNode(Sub, node, rhs.value);
        continue;
      }
      return Success(node);
    }
  }

  /** `mul` */
  method Mul(cur: TokenCursor) returns (r: Result<Node, nat>)
    requires cur.Valid()
    modifies cur
    ensures cur.Valid()
    ensures Agrees(r, PMul(cur.Lexemes(), old(cur.pos)), cur.pos)
    decreases |cur.tokens| - cur.pos, 2
  {
    ghost var v, i0 := cur.Lexemes(), cur.pos;
    var first := Unary(cur);
    if first.Failure? {
      return first;
    }
    var node := first.value;
    while true
      invariant cur.Valid() && i0 < cur.pos
      invariant PMul(v, i0) == PMulRest(v, cur.pos, node)
      decreases |cur.tokens| - cur.pos
    {
      var b := cur.Consume("*");
      if b {
        var rhs := Unary(cur);
        if rhs.Failure? {
          return rhs;
        }
        node := BinNode(Defs.Mul, node, rhs.value);
        continue;
      }
      b := cur.Consume("/");
      if b {
        var rhs := Unary(cur);
        if rhs.Failure? {
          return rhs;
        }
        node := BinNode(Div, node, rhs.value);
        continue;
      }
      return Success(node);
    }
  }

  /** `unary` */
  method Unary(cur: TokenCursor) returns (r: Result<Node, nat>)
    requires cur.Valid()
    modifies cur
    ensures cur.Valid()
    ensures Agrees(r, PUnary(cur.Lexemes(), old(cur.pos)), cur.pos)
    decreases |cur.tokens| - cur.pos, 1
  {
    var b := cur.Consume("+");
    if b {
      r := Primary(cur);
      return;
    }
    b := cur.Consume("-");
    if b {
      var x := Primary(cur);
      if x.Failure? {
        return x;
      }
      return Success(BinNode(Sub, NumNode(0), x.value));
    }
    r := Primary(cur);
  }

  /** `primary` */
  method Primary(cur: TokenCursor) returns (r: Result<Node, nat>)
    requires cur.Valid()
    modifies cur
    ensures cur.Valid()
    ensures Agrees(r, PPrimary(cur.Lexemes(), old(cur.pos)), cur.pos)
    decreases |cur.tokens| - cur.pos, 0
  {
    var b := cur.Consume("(");
    if b {
      var node := Expr(cur);
      if node.Failure? {
        return node;
      }
      var closed := cur.Expect(")");
      if closed.Fail? {
        return Failure(closed.error);
      }
      return node;
    }
    var tok := cur.ConsumeIdent();
    if tok.Some? {
      return Success(VarNode(SlotOffset(At(cur.src, tok.value.str))));
    }
    var val := cur.ExpectNumber();
    if val.Failure? {
      return Failure(val.error);
    }
    return Success(NumNode(val.value));
  }

  /** `stmt` */
  method Stmt(cur: TokenCursor) returns (r: Result<Node, nat>)
    requires cur.Valid()
    modifies cur
    ensures cur.Valid()
    ensures Agrees(r, PStmt(cur.Lexemes(), old(cur.pos)), cur.pos)
  {
    var node := Expr(cur);
    if node.Failure? {
      return node;
    }
    var semi := cur.Expect(";");
    if semi.Fail? {
      return Failure(semi.error);
    }
    return node;
  }

  /** One pass of the loop of `program`, in the terms of `PProgram`. */
  lemma ProgramStep(v: seq<Lexeme>, done: seq<Node>, i: nat)
    requires i <= |v| && Peek(v, i) != End
    ensures PStmt(v, i).Failure? ==> Prepend(done, PProgram(v, i)) == Failure(PStmt(v, i).error)
    ensures PStmt(v, i).Success? ==>
      var j := PStmt(v, i).value.next;
      Prepend(done, PProgram(v, i)) == Prepend(done + [PStmt(v, i).value.node], PProgram(v, j))
      && StmtCount(v, i) == 1 + StmtCount(v, j)
  {
    if PStmt(v, i).Success? {
      var Parsed(n, j) := PStmt(v, i).value;
      if PProgram(v, j).Success? {
        assert done + ([n] + PProgram(v, j).value) == (done + [n]) + PProgram(v, j).value;
      }
    }
  }

  /** The statements from `i` fit in `code[100]` with the NULL after them:
      fewer than 100 when the program parses, and at most 100 stored before
      a failing statement. */
  predicate FitsCode(v: seq<Lexeme>, i: nat)
    requires i <= |v|
  {
    StmtCount(v, i) <= 100 && (PProgram(v, i).Success? ==> StmtCount(v, i) < 100)
  }

  /** `program`: parse statements into `code` until the EOF token and store
      NULL after the last one. */
  method Program(cur: TokenCursor, code: array<Option<Node>>) returns (r: Outcome<nat>)
    requires cur.Valid() && code.Length == 100
    requires FitsCode(cur.Lexemes(), cur.pos)
    modifies cur, code
    ensures r.Pass? <==> PProgram(cur.Lexemes(), old(cur.pos)).Success?
    ensures r.Pass? ==>
      var ns := PProgram(cur.Lexemes(), old(cur.pos)).value;
      |ns| == StmtCount(cur.Lexemes(), old(cur.pos)) < code.Length && code[|ns|] == None
      && (forall k :: 0 <= k < |ns| ==> code[k] == Some(ns[k]))
      && forall k :: |ns| < k < code.Length ==> code[k] == old(code[k])
    ensures r.Pass? ==> cur.pos == |cur.tokens| - 1
    ensures r.Fail? ==> r.error == PProgram(cur.Lexemes(), old(cur.pos)).error
    ensures r.Fail? ==> forall k :: StmtCount(cur.Lexemes(), old(cur.pos)) <= k < code.Length ==> code[k] == old(code[k])
    ensures cur.Valid()
  {
    ghost var v, i0 := cur.Lexemes(), cur.pos;
    ghost var done: seq<Node> := [];
    assert Prepend(done, PProgram(v, i0)) == PProgram(v, i0) by {
      if PProgram(v, i0).Success? {
        assert [] + PProgram(v, i0).value == PProgram(v, i0).value;
      }
    }
    var i := 0;
    while !cur.AtEof()
      invariant cur.Valid() && i == |done| <= code.Length
      invariant forall k :: 0 <= k < i ==> code[k] == Some(done[k])
      invariant forall k :: i <= k < code.Length ==> code[k] == old(code[k])
      invariant PProgram(v, i0) == Prepend(done, PProgram(v, cur.pos))
      invariant StmtCount(v, i0) == |done| + StmtCount(v, cur.pos)
      decreases |cur.tokens| - cur.pos
    {
      ProgramStep(v, done, cur.pos);
      var node := Stmt(cur);
      if node.Failure? {
        return Fail(node.error);
      }
      code[i] := Some(node.value);
      done := done + [node.value];
      i := i + 1;
    }
    assert done + [] == done;
    code[i] := None;
    return Pass;
  }
}
