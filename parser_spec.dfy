/** The grammar of parser.c as functions over the lexemes of a token list:
    each precedence level reads from a token index and yields the node it
    builds and the index after it, or the index of the token where a fatal
    error is reported.

      program    = stmt*
      stmt       = expr ";"
      expr       = assign
      assign     = equality ("=" assign)?
      equality   = relational ("==" relational | "!=" relational)*
      relational = add ("<" add | "<=" add | ">" add | ">=" add)*
      add        = mul ("+" mul | "-" mul)*
      mul        = unary ("*" unary | "/" unary)*
      unary      = ("+" | "-")? primary
      primary    = num | ident | "(" expr ")"
*/
module ParserSpec {
  import opened Wrappers
  import opened Defs
  import opened CLib
  import opened LexerSpec

  /** The lexeme at index `i`; past the end of the list there is only EOF. */
  function Peek(v: seq<Lexeme>, i: nat): Lexeme
  {
    if i < |v| then v[i] else End
  }

  /** A node and the index of the first token after it. */
  datatype Parsed = Parsed(node: Node, next: nat)

  type PResult = Result<Parsed, nat>

  /** A successful parse from `i` read at least one token and stopped inside
      the list. */
  predicate Advances(v: seq<Lexeme>, i: nat, r: PResult)
  {
    r.Success? ==> i < r.value.next <= |v|
  }

  /** The stack slot of a variable named by its first character:
      `(c - 'a' + 1) * 8`, stored in the `size_t` field `offset`. For a
      character before `a` (`_`, an upper-case letter) the product is
      negative and wraps modulo 2^64. */
  function SlotOffset(c: char): nat
  {
    SizeT((c as int - 'a' as int + 1) * 8)
  }

  /** `expr` */
  function PExpr(v: seq<Lexeme>, i: nat): (r: PResult)
    requires i <= |v|
    ensures Advances(v, i, r)
    decreases |v| - i, 7
  {
    PAssign(v, i)
  }

  /** `assign`: right-associative, by recursion on the right operand. */
  function PAssign(v: seq<Lexeme>, i: nat): (r: PResult)
    requires i <= |v|
    ensures Advances(v, i, r)
    decreases |v| - i, 6
  {
    match PEquality(v, i)
    case Failure(e) => Failure(e)
    case Success(Parsed(lhs, j)) =>
      if Peek(v, j) == Punct("=") then
        match PAssign(v, j + 1)
        case Failure(e) => Failure(e)
        case Success(Parsed(rhs, k)) => Success(Parsed(BinNode(Assign, lhs, rhs), k))
      else Success(Parsed(lhs, j))
  }

  /** `equality` */
  function PEquality(v: seq<Lexeme>, i: nat): (r: PResult)
    requires i <= |v|
    ensures Advances(v, i, r)
    decreases |v| - i, 5
  {
    match PRelational(v, i)
    case Failure(e) => Failure(e)
    case Success(Parsed(n, j)) => PEqualityRest(v, j, n)
  }

  /** The `for (;;)` loop of `equality` with `lhs` accumulated so far and the
      cursor at `j`: left-associative. */
  function PEqualityRest(v: seq<Lexeme>, j: nat, lhs: Node): (r: PResult)
    requires j <= |v|
    ensures r.Success? ==> j <= r.value.next <= |v|
    decreases |v| - j, 5
  {
    if Peek(v, j) == Punct("==") then
      match PRelational(v, j + 1)
      case Failure(e) => Failure(e)
      case Success(Parsed(rhs, k)) => PEqualityRest(v, k, BinNode(Equ, lhs, rhs))
    else if Peek(v, j) == Punct("!=") then
      match PRelational(v, j + 1)
      case Failure(e) => Failure(e)
      case Success(Parsed(rhs, k)) => PEqualityRest(v, k, BinNode(Neq, lhs, rhs))
    else Success(Parsed(lhs, j))
  }

  /** `relational` */
  function PRelational(v: seq<Lexeme>, i: nat): (r: PResult)
    requires i <= |v|
    ensures Advances(v, i, r)
    decreases |v| - i, 4
  {
    match PAdd(v, i)
    case Failure(e) => Failure(e)
    case Success(Parsed(n, j)) => PRelationalRest(v, j, n)
  }

  /** The operators of `relational`: the node kind each builds, and whether
      it swaps its operands (`>` and `>=` do). */
  function RelationalOp(x: Lexeme): Option<(NodeKind, bool)>
  {
    if x == Punct("<") then Some((Grt, false))
    else if x == Punct(">") then Some((Grt, true))
    else if x == Punct("<=") then Some((Geq, false))
    else if x == Punct(">=") then Some((Geq, true))
    else None
  }

  /** The loop of `relational`: `<` and `<=` keep the operands in order,
      `>` and `>=` swap them into the same two node kinds. */
  function PRelationalRest(v: seq<Lexeme>, j: nat, lhs: Node): (r: PResult)
    requires j <= |v|
    ensures r.Success? ==> j <= r.value.next <= |v|
    decreases |v| - j, 4
  {
    match RelationalOp(Peek(v, j))
    case None => Success(Parsed(lhs, j))
    case Some((kind, swap)) =>
      match PAdd(v, j + 1)
      case Failure(e) => Failure(e)
      case Success(Parsed(rhs, k)) =>
        PRelationalRest(v, k, if swap then BinNode(kind, rhs, lhs) else BinNode(kind, lhs, rhs))
  }

  /** `add` */
  function PAdd(v: seq<Lexeme>, i: nat): (r: PResult)
    requires i <= |v|
    ensures Advances(v, i, r)
    decreases |v| - i, 3
  {
    match PMul(v, i)
    case Failure(e) => Failure(e)
    case Success(Parsed(n, j)) => PAddRest(v, j, n)
  }

  function PAddRest(v: seq<Lexeme>, j: nat, lhs: Node): (r: PResult)
    requires j <= |v|
    ensures r.Success? ==> j <= r.value.next <= |v|
    decreases |v| - j, 3
  {
    if Peek(v, j) == Punct("+") then
      match PMul(v, j + 1)
      case Failure(e) => Failure(e)
      case Success(Parsed(rhs, k)) => PAddRest(v, k, BinNode(Add, lhs, rhs))
    else if Peek(v, j) == Punct("-") then
      match PMul(v, j + 1)
      case Failure(e) => Failure(e)
      case Success(Parsed(rhs, k)) => PAddRest(v, k, BinNode(Sub, lhs, rhs))
    else Success(Parsed(lhs, j))
  }

  /** `mul` */
  function PMul(v: seq<Lexeme>, i: nat): (r: PResult)
    requires i <= |v|
    ensures Advances(v, i, r)
    decreases |v| - i, 2
  {
    match PUnary(v, i)
    case Failure(e) => Failure(e)
    case Success(Parsed(n, j)) => PMulRest(v, j, n)
  }

  function PMulRest(v: seq<Lexeme>, j: nat, lhs: Node): (r: PResult)
    requires j <= |v|
    ensures r.Success? ==> j <= r.value.next <= |v|
    decreases |v| - j, 2
  {
    if Peek(v, j) == Punct("*") then
      match PUnary(v, j + 1)
      case Failure(e) => Failure(e)
      case Success(Parsed(rhs, k)) => PMulRest(v, k, BinNode(Mul, lhs, rhs))
    else if Peek(v, j) == Punct("/") then
      match PUnary(v, j + 1)
      case Failure(e) => Failure(e)
      case Success(Parsed(rhs, k)) => PMulRest(v, k, BinNode(Div, lhs, rhs))
    else Success(Parsed(lhs, j))
  }

  /** `unary`: `+x` is `x`, `-x` is `0 - x`. */
  function PUnary(v: seq<Lexeme>, i: nat): (r: PResult)
    requires i <= |v|
    ensures Advances(v, i, r)
    decreases |v| - i, 1
  {
    if Peek(v, i) == Punct("+") then PPrimary(v, i + 1)
    else if Peek(v, i) == Punct("-") then
      match PPrimary(v, i + 1)
      case Failure(e) => Failure(e)
      case Success(Parsed(x, j)) => Success(Parsed(BinNode(Sub, NumNode(0), x), j))
    else PPrimary(v, i)
  }

  /** `primary`: a parenthesised expression, a variable, or else a number;
      a missing `)` or a missing number is reported at the current token. */
  function PPrimary(v: seq<Lexeme>, i: nat): (r: PResult)
    requires i <= |v|
    ensures Advances(v, i, r)
    decreases |v| - i, 0
  {
    if Peek(v, i) == Punct("(") then
      match PExpr(v, i + 1)
      case Failure(e) => Failure(e)
      case Success(Parsed(n, j)) =>
        if Peek(v, j) == Punct(")") then Success(Parsed(n, j + 1)) else Failure(j)
    else if Peek(v, i).Name? then Success(Parsed(VarNode(SlotOffset(Peek(v, i).first)), i + 1))
    else if Peek(v, i).Literal? then Success(Parsed(NumNode(Peek(v, i).val), i + 1))
    else Failure(i)
  }

  /** `stmt`: an expression and its `;`. */
  function PStmt(v: seq<Lexeme>, i: nat): (r: PResult)
    requires i <= |v|
    ensures Advances(v, i, r)
  {
    match PExpr(v, i)
    case Failure(e) => Failure(e)
    case Success(Parsed(n, j)) =>
      if Peek(v, j) == Punct(";") then Success(Parsed(n, j + 1)) else Failure(j)
  }

  /** `program`: statements up to the EOF token. */
  function PProgram(v: seq<Lexeme>, i: nat): Result<seq<Node>, nat>
    requires i <= |v|
    decreases |v| - i
  {
    if Peek(v, i) == End then Success([])
    else
      match PStmt(v, i)
      case Failure(e) => Failure(e)
      case Success(Parsed(n, j)) =>
        match PProgram(v, j)
        case Failure(e) => Failure(e)
        case Success(ns) => Success([n] + ns)
  }

  /** How many statements `program` completes from `i`, up to the EOF token
      or the statement that fails. */
  function StmtCount(v: seq<Lexeme>, i: nat): nat
    requires i <= |v|
    decreases |v| - i
  {
    if Peek(v, i) == End then 0
    else
      match PStmt(v, i)
      case Failure(_) => 0
      case Success(Parsed(_, j)) => 1 + StmtCount(v, j)
  }
}
