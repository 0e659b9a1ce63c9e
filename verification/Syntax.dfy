/** finsh expressions, and the child/sibling trees the parser builds for them. */
module Syntax {
  import opened Words

  /** The address of a variable's slot. */
  datatype Addr = Addr(word: bv32)

  /** What an identifier was found to be: an int or long variable, or a system call. */
  datatype Symbol = Local(addr: Addr) | Syscall(func: bv32)

  datatype BinOp = Or | Xor | And | Shl | Shr | Add | Sub | Mul | Div | Mod

  datatype PreOp = PreInc | PreDec | Bitwise | GetValue | GetAddr

  datatype PostOp = Inc | Dec

  datatype Expr =
    | Value(v: bv32)
    | Name(symbol: Symbol)
    | Pre(pre: PreOp, e: Expr)
    | Post(post: PostOp, e: Expr)
    | Call(f: Expr, args: Exprs)
    | Binary(op: BinOp, l: Expr, r: Expr)
    | Assign(l: Expr, r: Expr)

  datatype Exprs = NoMore | More(head: Expr, tail: Exprs)

  datatype Kind =
    | ValueKind(v: bv32)
    | NameKind(symbol: Symbol)
    | PreKind(pre: PreOp)
    | PostKind(post: PostOp)
    | CallKind
    | BinaryKind(op: BinOp)
    | AssignKind

  /** FINSH_DATA_TYPE_VOID and FINSH_DATA_TYPE_DWORD. */
  datatype Width = Void | Dword

  /** struct finsh_node; Nil is the null pointer. */
  datatype Tree = Nil | Node(kind: Kind, address: bool, width: Width, child: Tree, sibling: Tree)

  /** A node as it is allocated. */
  function Fresh(kind: Kind, child: Tree): Tree {
    Node(kind, false, Void, child, Nil)
  }

  function WithSibling(t: Tree, sibling: Tree): Tree {
    if t.Nil? then Nil else t.(sibling := sibling)
  }

  /** make_sys_node. */
  function MakeNode(kind: Kind, node1: Tree, node2: Tree): Tree {
    Fresh(kind, WithSibling(node1, node2))
  }

  /** The tree of an expression. */
  function ToTree(e: Expr): (t: Tree)
    ensures t.Node? && t.sibling == Nil
  {
    match e
    case Value(v) => Fresh(ValueKind(v), Nil)
    case Name(s) => Fresh(NameKind(s), Nil)
    case Pre(op, a) => MakeNode(PreKind(op), ToTree(a), Nil)
    case Post(op, a) => MakeNode(PostKind(op), ToTree(a), Nil)
    case Call(f, args) => MakeNode(CallKind, ToTree(f), ListTree(args))
    case Binary(op, l, r) => MakeNode(BinaryKind(op), ToTree(l), ToTree(r))
    case Assign(l, r) => MakeNode(AssignKind, ToTree(l), ToTree(r))
  }

  /** The trees of a list, each the next one's predecessor. */
  function ListTree(es: Exprs): Tree {
    match es
    case NoMore => Nil
    case More(e, rest) => WithSibling(ToTree(e), ListTree(rest))
  }
}
