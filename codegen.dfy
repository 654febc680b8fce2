/** The code generator of codegen.c: a post-order walk of the syntax tree
    that emits stack-machine style x86-64 — each subtree leaves its value
    pushed on the stack — and a reference evaluator giving the value C
    assigns the same tree on a 64-bit target. The main result is that
    running the emitted code pushes exactly that value and leaves the rest of
    the stack as it was. */
module Codegen {
  import opened Wrappers
  import opened Words
  import opened Defs
  import opened X86

  /** The trees `gen` can walk: a number is a leaf, every other node has
      two children to recurse into. A variable node has none (its children
      are null pointers), so it is excluded; so is a binary node labelled
      `Num`, which `gen` would read as a leaf. */
  predicate Generable(n: Node)
  {
    match n
    case NumNode(_) => true
    case VarNode(_) => false
    case BinNode(k, l, r) => k != Num && Generable(l) && Generable(r)
  }

  /** `gen_relation`: compare, set the low byte from a condition, widen. */
  function Relation(cc: Cond): seq<Instr>
  {
    [CmpRaxRdi, SetAl(cc), MovzbRaxAl]
  }

  /** The body of `gen`'s switch, run on `rax` (left operand) and `rdi`
      (right operand). Kinds without a case emit nothing. */
  function Operation(k: NodeKind): seq<Instr>
  {
    match k
    case Add => [AddRaxRdi]
    case Sub => [SubRaxRdi]
    case Mul => [ImulRaxRdi]
    case Div => [Cqo, IdivRdi]
    case Equ => Relation(E)
    case Neq => Relation(NE)
    case Grt => Relation(L)
    case Geq => Relation(LE)
    case _ => []
  }

  /** What `gen` emits after both operands: pop them, operate, push. */
  function Tail(k: NodeKind): seq<Instr>
  {
    [PopRdi, PopRax] + Operation(k) + [PushRax]
  }

  /** `gen`: the emitted code pushes one word net, and never pops anything
      that was on the stack before it started. */
  function Gen(n: Node): (code: seq<Instr>)
    requires Generable(n)
    ensures Net(code) == 1 && StaysAbove(code, 0)
  {
    match n
    case NumNode(v) => [PushImm(v)]
    case BinNode(k, l, r) =>
      var a, b := Gen(l), Gen(r);
      BinaryBalance(a, b, k);
      a + b + Tail(k)
  }

  /** `codegen`: the expression's code, then its value popped into `rax`
      and returned. */
  function Codegen(n: Node): (code: seq<Instr>)
    requires Generable(n)
    ensures Net(code) == 0 && StaysAbove(code, 0)
  {
    var g := Gen(n);
    var epilogue := [PopRax, Ret];
    assert StaysAbove(epilogue, 1) && Net(epilogue) == -1;
    StaysAboveAppend(g, epilogue, 0);
    NetAppend(g, epilogue);
    g + epilogue
  }

  // ---------------------------------------------------------------------
  // The reference semantics

  /** The C value of `a op b` for `long` operands on a 64-bit target:
      wrap-around for `+ - *`, truncating `/`, 0 or 1 for a comparison.
      `Grt` and `Geq` hold trees whose operands the parser has already
      swapped, so they compare left < right and left <= right. A kind the
      code generator has no case for yields its left operand. `None`: the
      division has no defined value (divisor 0, or LONG_MIN / -1). */
  function Apply(k: NodeKind, a: int, b: int): (r: Option<int>)
    requires InLong(a) && InLong(b)
    ensures r.Some? ==> InLong(r.value)
  {
    match k
    case Add => Some(Wrap(a + b))
    case Sub => Some(Wrap(a - b))
    case Mul => Some(Wrap(a * b))
    case Div =>
      if b == 0 || (a == -TWO_63 && b == -1) then None
      else
        QuotInLong(a, b);
        Some(Quot(a, b))
    case Equ => Some(if a == b then 1 else 0)
    case Neq => Some(if a != b then 1 else 0)
    case Grt => Some(if a < b then 1 else 0)
    case Geq => Some(if a <= b then 1 else 0)
    case _ => Some(a)
  }

  /** The value of a tree; `None` if some division in it is undefined. */
  function Eval(n: Node): (r: Option<int>)
    requires Generable(n)
    ensures r.Some? ==> InLong(r.value)
  {
    match n
    case NumNode(v) => Some(Wrap(v))
    case BinNode(k, l, r) =>
      var a, b := Eval(l), Eval(r);
      if a.Some? && b.Some? then Apply(k, a.value, b.value) else None
  }

  // ---------------------------------------------------------------------
  // Word arithmetic

  /** Signed operands wrap to the same word as the unsigned ones. */
  lemma WrapAgrees(x: Word, y: Word)
    ensures ToWord(Wrap(Signed(x) + Signed(y))) == ToWord(x + y)
    ensures ToWord(Wrap(Signed(x) - Signed(y))) == ToWord(x - y)
    ensures ToWord(Wrap(Signed(x) * Signed(y))) == ToWord(x * y)
  {
    var cx := if x < TWO_63 then 0 else 1;
    var cy := if y < TWO_63 then 0 else 1;
    assert Signed(x) == x - TWO_64 * cx;
    assert Signed(y) == y - TWO_64 * cy;
    ToWordShift(x + y, -cx - cy);
    ToWordShift(x - y, cy - cx);
    ProductShift(x, y, cx, cy);
  }

  lemma ProductShift(x: int, y: int, cx: int, cy: int)
    ensures ToWord((x - TWO_64 * cx) * (y - TWO_64 * cy)) == ToWord(x * y)
  {
    var t := TWO_64 * cx * cy - cx * y - cy * x;
    assert (x - TWO_64 * cx) * (y - TWO_64 * cy) == x * y + TWO_64 * t;
    ToWordShift(x * y, t);
  }

  /** `cqo` makes `rdx:rax` the sign extension of `rax`. */
  lemma CqoExtends(rax: Word)
    ensures Dividend(if Signed(rax) < 0 then TWO_64 - 1 else 0, rax) == Signed(rax)
  {
    assert Signed(TWO_64 - 1) == -1;
  }

  /** The machine's overflow test for `idiv` is the C rule. */
  lemma QuotFits(a: int, b: int)
    requires InLong(a) && InLong(b) && b != 0
    ensures InLong(Quot(a, b)) <==> !(a == -TWO_63 && b == -1)
  {
    if !(a == -TWO_63 && b == -1) {
      QuotInLong(a, b);
    } else {
      assert Quot(a, b) == TWO_63;
    }
  }

  /** `set<cc> al` then `movzb rax, al` leaves exactly the flag bit. */
  lemma LowByte(x: Word, bit: int)
    requires bit == 0 || bit == 1
    ensures (x - x % 256 + bit) % 256 == bit
  {
    assert x - x % 256 == 256 * (x / 256);
    var y := 256 * (x / 256) + bit;
    assert y / 256 == x / 256 && y % 256 == bit;
  }

  // ---------------------------------------------------------------------
  // The emitted code against the reference semantics

  /** Running `code` from `m` leaves `v` in `rax` and the stack as it was,
      and faults exactly when `v` is undefined. */
  predicate Computes(m: Machine, code: seq<Instr>, v: Option<int>)
  {
    var r := Run(m, code);
    (r.Some? <==> v.Some?) &&
    (r.Some? ==> r.value.rax == ToWord(v.value) && r.value.stack == m.stack && !r.value.halted)
  }

  /** `gen_relation` leaves 1 in `rax` when the condition holds of the
      signed operands and 0 otherwise. */
  lemma RelationYieldsFlag(m: Machine, cc: Cond)
    requires !m.halted
    ensures var a, b := Signed(m.rax), Signed(m.rdi);
      Computes(m, Relation(cc), Some(if CondHolds(cc, a == b, a < b) then 1 else 0))
  {
    var a, b := Signed(m.rax), Signed(m.rdi);
    assert (m.rax == m.rdi) == (a == b);
    var m1 := m.(zf := m.rax == m.rdi, less := a < b);
    assert Step(m, CmpRaxRdi) == Some(m1);
    assert Run(m, Relation(cc)) == Run(m1, [SetAl(cc), MovzbRaxAl]);
    SetAndWiden(m1, cc);
  }

  lemma SetAndWiden(m: Machine, cc: Cond)
    requires !m.halted
    ensures var bit := if CondHolds(cc, m.zf, m.less) then 1 else 0;
      Run(m, [SetAl(cc), MovzbRaxAl]) == Some(m.(rax := bit))
  {
    var bit := if CondHolds(cc, m.zf, m.less) then 1 else 0;
    SetLowByte(m, cc);
    var m2 := Step(m, SetAl(cc)).value;
    assert Run(m, [SetAl(cc), MovzbRaxAl]) == Run(m2, [MovzbRaxAl]);
    Widen(m2);
    assert m2.(rax := m2.rax % 256) == m.(rax := bit);
  }

  lemma Widen(m: Machine)
    requires !m.halted
    ensures Run(m, [MovzbRaxAl]) == Some(m.(rax := m.rax % 256))
  {
    assert Run(m.(rax := m.rax % 256), []) == Some(m.(rax := m.rax % 256));
  }

  /** `set<cc> al` writes the flag bit into the low byte of `rax`. */
  lemma SetLowByte(m: Machine, cc: Cond)
    requires !m.halted
    ensures var r := Step(m, SetAl(cc));
      r.Some? && r.value == m.(rax := r.value.rax) &&
      r.value.rax % 256 == if CondHolds(cc, m.zf, m.less) then 1 else 0
  {
    var bit := if CondHolds(cc, m.zf, m.less) then 1 else 0;
    LowByte(m.rax, bit);
  }

  /** The instructions of one switch case compute `Apply` on the operands in
      `rax` and `rdi`, and fault exactly when it is undefined. */
  lemma OperationCorrect(m: Machine, k: NodeKind)
    requires !m.halted
    ensures Computes(m, Operation(k), Apply(k, Signed(m.rax), Signed(m.rdi)))
  {
    var a, b := Signed(m.rax), Signed(m.rdi);
    match k
    case Add => ArithCorrect(m, k);
    case Sub => ArithCorrect(m, k);
    case Mul => ArithCorrect(m, k);
    case Div => DivCorrect(m);
    case Equ =>
      RelationYieldsFlag(m, E);
      assert Apply(k, a, b) == Some(if CondHolds(E, a == b, a < b) then 1 else 0);
    case Neq =>
      RelationYieldsFlag(m, NE);
      assert Apply(k, a, b) == Some(if CondHolds(NE, a == b, a < b) then 1 else 0);
    case Grt =>
      RelationYieldsFlag(m, L);
      assert Apply(k, a, b) == Some(if CondHolds(L, a == b, a < b) then 1 else 0);
    case Geq =>
      RelationYieldsFlag(m, LE);
      assert Apply(k, a, b) == Some(if CondHolds(LE, a == b, a < b) then 1 else 0);
    case _ => NoOperation(m, k);
  }

  /** A kind without a switch case leaves the left operand in `rax`. */
  lemma NoOperation(m: Machine, k: NodeKind)
    requires !m.halted && !(k in [Add, Sub, Mul, Div, Equ, Neq, Grt, Geq])
    ensures Computes(m, Operation(k), Apply(k, Signed(m.rax), Signed(m.rdi)))
  {
    assert Operation(k) == [];
    assert Apply(k, Signed(m.rax), Signed(m.rdi)) == Some(Signed(m.rax));
  }

  lemma ArithCorrect(m: Machine, k: NodeKind)
    requires !m.halted && (k == Add || k == Sub || k == Mul)
    ensures Computes(m, Operation(k), Apply(k, Signed(m.rax), Signed(m.rdi)))
  {
    WrapAgrees(m.rax, m.rdi);
    var ins := Operation(k)[0];
    assert Operation(k) == [ins];
    assert Run(m, [ins]) == Step(m, ins);
  }

  /** `cqo; idiv rdi` is C's truncating `/`, faulting exactly where C
      leaves it undefined. */
  lemma DivCorrect(m: Machine)
    requires !m.halted
    ensures Computes(m, Operation(Div), Apply(Div, Signed(m.rax), Signed(m.rdi)))
  {
    var a, b := Signed(m.rax), Signed(m.rdi);
    CqoExtends(m.rax);
    var m1 := m.(rdx := if a < 0 then TWO_64 - 1 else 0);
    assert Dividend(m1.rdx, m1.rax) == a;
    if b != 0 {
      QuotFits(a, b);
    }
    assert Step(m, Cqo) == Some(m1);
    assert Run(m, [Cqo, IdivRdi]) == Run(m1, [IdivRdi]);
    assert Run(m1, [IdivRdi]) == Step(m1, IdivRdi);
  }

  /** The tail `gen` emits after both operands are pushed replaces the top
      two words with the operation's result. */
  lemma TailCorrect(m: Machine, k: NodeKind, rest: seq<Word>, x: Word, y: Word)
    requires !m.halted && m.stack == rest + [x, y]
    ensures var r := Run(m, Tail(k));
      var v := Apply(k, Signed(x), Signed(y));
      (r.Some? <==> v.Some?) &&
      (r.Some? ==> r.value.stack == rest + [ToWord(v.value)] && !r.value.halted)
  {
    var m2 := m.(rdi := y, rax := x, stack := rest);
    PopTwo(m, rest, x, y);
    RunAppend(m, [PopRdi, PopRax], Operation(k) + [PushRax]);
    assert Tail(k) == [PopRdi, PopRax] + (Operation(k) + [PushRax]);
    OperateAndPush(m2, k);
  }

  /** The switch case, then `push rax`. */
  lemma OperateAndPush(m: Machine, k: NodeKind)
    requires !m.halted
    ensures var r := Run(m, Operation(k) + [PushRax]);
      var v := Apply(k, Signed(m.rax), Signed(m.rdi));
      (r.Some? <==> v.Some?) &&
      (r.Some? ==> r.value.stack == m.stack + [ToWord(v.value)] && !r.value.halted)
  {
    OperationCorrect(m, k);
    ThenPush(m, Operation(k), Apply(k, Signed(m.rax), Signed(m.rdi)));
  }

  /** Code that computes `v` in `rax`, followed by `push rax`, pushes it. */
  lemma ThenPush(m: Machine, code: seq<Instr>, v: Option<int>)
    requires Computes(m, code, v)
    ensures var r := Run(m, code + [PushRax]);
      (r.Some? <==> v.Some?) &&
      (r.Some? ==> r.value.stack == m.stack + [ToWord(v.value)] && !r.value.halted)
  {
    RunAppend(m, code, [PushRax]);
    if Run(m, code).Some? {
      var m3 := Run(m, code).value;
      assert Run(m3, [PushRax]) == Some(m3.(stack := m3.stack + [m3.rax]));
    }
  }

  lemma PopTwo(m: Machine, rest: seq<Word>, x: Word, y: Word)
    requires !m.halted && m.stack == rest + [x, y]
    ensures Run(m, [PopRdi, PopRax]) == Some(m.(rdi := y, rax := x, stack := rest))
  {
    assert m.stack[..|m.stack| - 1] == rest + [x];
    assert (rest + [x])[..|rest + [x]| - 1] == rest;
    var m1 := m.(rdi := y, stack := rest + [x]);
    var m2 := m1.(rax := x, stack := rest);
    assert Step(m, PopRdi) == Some(m1);
    assert Step(m1, PopRax) == Some(m2);
    assert Run(m2, []) == Some(m2);
  }

  /** Running `gen`'s code pushes exactly the tree's value, as a word, and
      leaves everything below it on the stack unchanged; it faults exactly
      when the value is undefined. */
  lemma {:induction false} GenCorrect(m: Machine, n: Node)
    requires Generable(n) && !m.halted
    ensures var r := Run(m, Gen(n));
      (r.Some? <==> Eval(n).Some?) &&
      (r.Some? ==> r.value.stack == m.stack + [ToWord(Eval(n).value)] && !r.value.halted)
    decreases n
  {
    match n
    case NumNode(v) =>
      assert Run(m, Gen(n)) == Run(m.(stack := m.stack + [ToWord(v)]), []);
    case BinNode(k, l, r) =>
      RunAppend(m, Gen(l) + Gen(r), Tail(k));
      RunAppend(m, Gen(l), Gen(r));
      GenCorrect(m, l);
      if Eval(l).Some? {
        var m1 := Run(m, Gen(l)).value;
        GenCorrect(m1, r);
        if Eval(r).Some? {
          var a, b := Eval(l).value, Eval(r).value;
          var m2 := Run(m1, Gen(r)).value;
          assert m2.stack == m.stack + [ToWord(a), ToWord(b)];
          SignedToWord(a);
          SignedToWord(b);
          TailCorrect(m2, k, m.stack, ToWord(a), ToWord(b));
        }
      }
  }

  /** `codegen`: the program returns the expression's value in `rax`, with
      the stack as it found it; it faults exactly when the value is
      undefined. */
  lemma CodegenReturns(m: Machine, n: Node)
    requires Generable(n) && !m.halted
    ensures var r := Run(m, Codegen(n));
      (r.Some? <==> Eval(n).Some?) &&
      (r.Some? ==> r.value.halted && r.value.rax == ToWord(Eval(n).value) && r.value.stack == m.stack)
  {
    assert Codegen(n) == Gen(n) + [PopRax, Ret];
    RunAppend(m, Gen(n), [PopRax, Ret]);
    GenCorrect(m, n);
    if Eval(n).Some? {
      var m1 := Run(m, Gen(n)).value;
      var w := ToWord(Eval(n).value);
      assert m1.stack == m.stack + [w];
      Epilogue(m1, m.stack, w);
    }
  }

  lemma Epilogue(m: Machine, rest: seq<Word>, w: Word)
    requires !m.halted && m.stack == rest + [w]
    ensures Run(m, [PopRax, Ret]) == Some(m.(rax := w, stack := rest, halted := true))
  {
    assert m.stack[..|m.stack| - 1] == rest;
    var m1 := m.(rax := w, stack := rest);
    assert Step(m, PopRax) == Some(m1);
    assert Step(m1, Ret) == Some(m1.(halted := true));
    assert Run(m1.(halted := true), []) == Some(m1.(halted := true));
  }

  /** Two one-word pieces of code and the tail push one word net, never
      reaching below the entry depth. */
  lemma BinaryBalance(a: seq<Instr>, b: seq<Instr>, k: NodeKind)
    requires Net(a) == 1 && StaysAbove(a, 0) && Net(b) == 1 && StaysAbove(b, 0)
    ensures Net(a + b + Tail(k)) == 1 && StaysAbove(a + b + Tail(k), 0)
  {
    TailBalance(k);
    StaysAboveHigher(b, 0, 1);
    StaysAboveAppend(b, Tail(k), 1);
    NetAppend(b, Tail(k));
    StaysAboveAppend(a, b + Tail(k), 0);
    NetAppend(a, b + Tail(k));
    assert a + b + Tail(k) == a + (b + Tail(k));
  }

  lemma TailBalance(k: NodeKind)
    ensures Net(Tail(k)) == -1 && StaysAbove(Tail(k), 2)
  {
    OperationNeutral(k);
    BracketBalance(Operation(k));
  }

  /** No switch case pushes or pops. */
  lemma OperationNeutral(k: NodeKind)
    ensures Net(Operation(k)) == 0 && StaysAbove(Operation(k), 0)
  {
    var op := Operation(k);
    assert forall i :: 0 <= i < |op| ==> Delta(op[i]) == 0 by {
      match k
      case Equ => assert op == Relation(E);
      case Neq => assert op == Relation(NE);
      case Grt => assert op == Relation(L);
      case Geq => assert op == Relation(LE);
      case _ =>
    }
    StackNeutral(op, 0);
  }

  lemma BracketBalance(op: seq<Instr>)
    requires Net(op) == 0 && StaysAbove(op, 0)
    ensures Net([PopRdi, PopRax] + op + [PushRax]) == -1
    ensures StaysAbove([PopRdi, PopRax] + op + [PushRax], 2)
  {
    assert Net([PushRax]) == 1 && StaysAbove([PushRax], 0);
    NetAppend(op, [PushRax]);
    StaysAboveAppend(op, [PushRax], 0);
    assert Net([PopRdi, PopRax]) == -2 && StaysAbove([PopRdi, PopRax], 2);
    NetAppend([PopRdi, PopRax], op + [PushRax]);
    StaysAboveAppend([PopRdi, PopRax], op + [PushRax], 2);
    assert [PopRdi, PopRax] + op + [PushRax] == [PopRdi, PopRax] + (op + [PushRax]);
  }

  /** The two comparisons the source writes with `>` and `>=`: once the
      parser has swapped the operands, the tree computes the intended
      comparison of the operands as written. */
  lemma GreaterMeaning(a: Node, b: Node)
    requires Generable(a) && Generable(b) && Eval(a).Some? && Eval(b).Some?
    ensures Eval(BinNode(Grt, b, a)) == Some(if Eval(a).value > Eval(b).value then 1 else 0)
    ensures Eval(BinNode(Geq, b, a)) == Some(if Eval(a).value >= Eval(b).value then 1 else 0)
  {
  }
}
