/** The x86-64 instructions codegen.c emits, and what they do to the
    registers, the flags and the stack. Registers hold 64-bit words; `push`
    and `pop` move whole words; `idiv` faults (#DE) on a zero divisor or a
    quotient outside the signed 64-bit range. */
module X86 {
  import opened Wrappers
  import opened Words

  /** The condition codes of `sete`, `setne`, `setl` and `setle`. */
  datatype Cond = E | NE | L | LE

  datatype Instr =
    | PushImm(imm: int)   // push <imm>
    | PopRdi              // pop rdi
    | PopRax              // pop rax
    | AddRaxRdi           // add rax, rdi
    | SubRaxRdi           // sub rax, rdi
    | ImulRaxRdi          // imul rax, rdi
    | Cqo                 // cqo
    | IdivRdi             // idiv rdi
    | CmpRaxRdi           // cmp rax, rdi
    | SetAl(cc: Cond)     // set<cc> al
    | MovzbRaxAl          // movzb rax, al
    | PushRax             // push rax
    | Ret                 // ret

  /** The machine state the emitted code depends on: three registers, the
      two flag facts `cmp` establishes (ZF, and SF != OF), the stack (top
      at the end) and whether `ret` has run. */
  datatype Machine = Machine(
    rax: Word, rdi: Word, rdx: Word,
    zf: bool, less: bool,
    stack: seq<Word>,
    halted: bool)

  /** The 128-bit signed dividend `rdx:rax` of `idiv`. */
  function Dividend(rdx: Word, rax: Word): int
  {
    Signed(rdx) * TWO_64 + rax
  }

  function CondHolds(cc: Cond, zf: bool, less: bool): bool
  {
    match cc
    case E => zf
    case NE => !zf
    case L => less
    case LE => zf || less
  }

  /** One instruction; `None` is a fault: a pop from an empty stack, or a
      division error. Once `ret` has run nothing else executes. */
  function Step(m: Machine, ins: Instr): Option<Machine>
  {
    if m.halted then Some(m)
    else
      match ins
      case PushImm(imm) => Some(m.(stack := m.stack + [ToWord(imm)]))
      case PopRdi =>
        if m.stack == [] then None
        else Some(m.(rdi := m.stack[|m.stack| - 1], stack := m.stack[..|m.stack| - 1]))
      case PopRax =>
        if m.stack == [] then None
        else Some(m.(rax := m.stack[|m.stack| - 1], stack := m.stack[..|m.stack| - 1]))
      case AddRaxRdi => Some(m.(rax := ToWord(m.rax + m.rdi)))
      case SubRaxRdi => Some(m.(rax := ToWord(m.rax - m.rdi)))
      case ImulRaxRdi => Some(m.(rax := ToWord(m.rax * m.rdi)))
      case Cqo => Some(m.(rdx := if Signed(m.rax) < 0 then TWO_64 - 1 else 0))
      case IdivRdi =>
        var x, d := Dividend(m.rdx, m.rax), Signed(m.rdi);
        if d == 0 || !InLong(Quot(x, d)) then None
        else Some(m.(rax := ToWord(Quot(x, d)), rdx := ToWord(x - Quot(x, d) * d)))
      case CmpRaxRdi => Some(m.(zf := m.rax == m.rdi, less := Signed(m.rax) < Signed(m.rdi)))
      case SetAl(cc) => Some(m.(rax := m.rax - m.rax % 256 + if CondHolds(cc, m.zf, m.less) then 1 else 0))
      case MovzbRaxAl => Some(m.(rax := m.rax % 256))
      case PushRax => Some(m.(stack := m.stack + [m.rax]))
      case Ret => Some(m.(halted := true))
  }

  /** Straight-line execution of a code sequence. */
  function Run(m: Machine, code: seq<Instr>): Option<Machine>
    decreases |code|
  {
    if code == [] then Some(m)
    else
      match Step(m, code[0])
      case None => None
      case Some(m') => Run(m', code[1..])
  }

  /** Running two pieces of code one after the other. */
  lemma {:induction false} RunAppend(m: Machine, c1: seq<Instr>, c2: seq<Instr>)
    ensures Run(m, c1 + c2) == if Run(m, c1).None? then None else Run(Run(m, c1).value, c2)
    decreases |c1|
  {
    if c1 != [] {
      assert (c1 + c2)[0] == c1[0];
      assert (c1 + c2)[1..] == c1[1..] + c2;
      match Step(m, c1[0])
      case None =>
      case Some(m') => RunAppend(m', c1[1..], c2);
    } else {
      assert c1 + c2 == c2;
    }
  }

  // ---------------------------------------------------------------------
  // Stack discipline, counted on the code alone

  /** How an instruction changes the stack depth. */
  function Delta(ins: Instr): int
  {
    match ins
    case PushImm(_) => 1
    case PushRax => 1
    case PopRdi => -1
    case PopRax => -1
    case _ => 0
  }

  /** The net change of the stack depth over `code`. */
  function Net(code: seq<Instr>): int
  {
    if code == [] then 0 else Delta(code[0]) + Net(code[1..])
  }

  /** Starting `d` words above the entry depth, `code` never pops below the
      entry depth. */
  predicate StaysAbove(code: seq<Instr>, d: int)
  {
    code == [] || (d + Delta(code[0]) >= 0 && StaysAbove(code[1..], d + Delta(code[0])))
  }

  lemma {:induction false} NetAppend(c1: seq<Instr>, c2: seq<Instr>)
    ensures Net(c1 + c2) == Net(c1) + Net(c2)
  {
    if c1 != [] {
      assert (c1 + c2)[1..] == c1[1..] + c2;
      NetAppend(c1[1..], c2);
    } else {
      assert c1 + c2 == c2;
    }
  }

  lemma {:induction false} StaysAboveAppend(c1: seq<Instr>, c2: seq<Instr>, d: int)
    requires StaysAbove(c1, d) && StaysAbove(c2, d + Net(c1))
    ensures StaysAbove(c1 + c2, d)
  {
    if c1 != [] {
      assert (c1 + c2)[0] == c1[0];
      assert (c1 + c2)[1..] == c1[1..] + c2;
      StaysAboveAppend(c1[1..], c2, d + Delta(c1[0]));
    } else {
      assert c1 + c2 == c2;
    }
  }

  lemma {:induction false} StaysAboveHigher(code: seq<Instr>, d: int, d': int)
    requires StaysAbove(code, d) && d <= d'
    ensures StaysAbove(code, d')
  {
    if code != [] {
      StaysAboveHigher(code[1..], d + Delta(code[0]), d' + Delta(code[0]));
    }
  }

  /** Code that neither pushes nor pops leaves the depth alone. */
  lemma {:induction false} StackNeutral(code: seq<Instr>, d: int)
    requires d >= 0 && forall i :: 0 <= i < |code| ==> Delta(code[i]) == 0
    ensures Net(code) == 0 && StaysAbove(code, d)
  {
    if code != [] {
      assert Delta(code[0]) == 0;
      StackNeutral(code[1..], d);
    }
  }
}
