/** The parser and the code generator together: the text of an expression,
    parsed by `expr` and compiled by `codegen`, returns the expression's
    value. */
module Pipeline {
  import opened Wrappers
  import opened Words
  import opened Defs
  import opened LexerSpec
  import opened ParserSpec
  import opened ParserProofs
  import opened X86
  import opened Codegen

  /** The printed form of `e` followed by the end of input parses back to
      `e`, and the program compiled from that tree returns `e`'s value. */
  lemma CompilesToValue(v: seq<Lexeme>, e: Node, m: Machine)
    requires Wf(e) && Generable(e) && Eval(e).Some? && !m.halted
    requires v == Show(e, 7) + [End]
    ensures PExpr(v, 0) == Success(Parsed(e, |v| - 1))
    ensures Run(m, Codegen.Codegen(e)).Some? && Run(m, Codegen.Codegen(e)).value.rax == ToWord(Eval(e).value)
  {
    ParsesBack(v, e);
    CodegenReturns(m, e);
  }

  lemma ParsesBack(v: seq<Lexeme>, e: Node)
    requires Wf(e) && v == Show(e, 7) + [End]
    ensures PExpr(v, 0) == Success(Parsed(e, |v| - 1))
  {
    var end := |v| - 1;
    assert v[0..end] == Show(e, 7);
    assert Peek(v, end) == v[end] == End;
    ParsesAt(v, end, e);
  }

  lemma ParsesAt(v: seq<Lexeme>, end: nat, e: Node)
    requires Printed(v, 0, end, e, 7) && Peek(v, end) == End
    ensures PExpr(v, 0) == Success(Parsed(e, end))
  {
    assert !Binds(7, End);
    ExprRoundTrip(v, 0, end, e);
  }

  /** `a > b` and `a >= b` compile to programs returning 1 exactly when the
      comparison holds of the values as written, although the parser swaps
      the operands and the code uses `setl`/`setle`. */
  lemma GreaterCompiles(v: seq<Lexeme>, a: Node, b: Node, op: string, kind: NodeKind, m: Machine)
    requires (op, kind) == (">", Grt) || (op, kind) == (">=", Geq)
    requires Wf(a) && Wf(b) && Generable(a) && Generable(b)
    requires Eval(a).Some? && Eval(b).Some? && !m.halted
    requires v == Show(a, 4) + [Punct(op)] + Show(b, 4) + [End]
    ensures PExpr(v, 0).Success? && PExpr(v, 0).value.node == BinNode(kind, b, a)
    ensures Generable(BinNode(kind, b, a))
    ensures var r := Run(m, Codegen.Codegen(BinNode(kind, b, a)));
      r.Some? && r.value.rax ==
        if (op == ">" && Eval(a).value > Eval(b).value) || (op == ">=" && Eval(a).value >= Eval(b).value)
        then 1 else 0
  {
    GreaterSwapsOperands(v, a, b, op, kind);
    GreaterRuns(a, b, kind, m);
  }

  lemma GreaterRuns(a: Node, b: Node, kind: NodeKind, m: Machine)
    requires kind == Grt || kind == Geq
    requires Generable(a) && Generable(b) && Eval(a).Some? && Eval(b).Some? && !m.halted
    ensures Generable(BinNode(kind, b, a))
    ensures var r := Run(m, Codegen.Codegen(BinNode(kind, b, a)));
      r.Some? && r.value.rax ==
        if (kind == Grt && Eval(a).value > Eval(b).value) || (kind == Geq && Eval(a).value >= Eval(b).value)
        then 1 else 0
  {
    var e := BinNode(kind, b, a);
    var bit := if (kind == Grt && Eval(a).value > Eval(b).value) || (kind == Geq && Eval(a).value >= Eval(b).value)
      then 1 else 0;
    assert Eval(e) == Some(bit) by {
      GreaterMeaning(a, b);
    }
    CodegenReturns(m, e);
    assert ToWord(bit) == bit;
  }
}
