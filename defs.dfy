/** The data declared in k9cc.h: token kinds, tokens, node kinds and the
    expression tree built by parser.c. */
module Defs {

  /** TokenKind: TK_RESERVED, TK_IDENT, TK_NUM, the keyword kinds, TK_EOF
      and TK_NONE, in declaration order. */
  datatype TokenKind =
    | Reserved | Ident | Number
    | KwReturn | KwIf | KwElse | KwWhile | KwFor
    | Eof | NoKind

  /** A token. `str` is the index into the input where the C `str` pointer
      points, `len` the `size_t` length field, `val` the `int` value (0,
      as `calloc` leaves it, unless the token is a number). The `next` link
      is the order of the token sequence. */
  datatype Token = Token(kind: TokenKind, val: int, str: nat, len: nat)

  /** NodeKind, in declaration order. */
  datatype NodeKind =
    | Add | Sub | Mul | Div | Equ | Neq | Grt | Geq | Assign
    | LVar | Num | Return | If | IfElse | While | For | Block | FunCall

  /** The nodes parser.c creates. `BinNode` is `new_node(kind, lhs, rhs)`,
      `NumNode` is `new_node_num(val)`, and `VarNode` is the ND_LVAR node
      that `primary` fills in by hand with its frame offset, a `size_t`. */
  datatype Node =
    | BinNode(kind: NodeKind, lhs: Node, rhs: Node)
    | NumNode(val: int)
    | VarNode(offset: nat)

  function KindOf(n: Node): NodeKind
  {
    match n
    case BinNode(k, _, _) => k
    case NumNode(_) => Num
    case VarNode(_) => LVar
  }
}
