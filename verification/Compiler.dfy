/** finsh_type_check and finsh_compile: byte code for child/sibling trees. */
module Compiler {
  import opened Words
  import opened Syntax

  const TEXT_MAX := 128

  const LD_DWORD: byte := 0x24
  const LD_VALUE_DWORD: byte := 0x27
  const ST_DWORD: byte := 0x2a
  const POP: byte := 0x2b
  const SYSCALL: byte := 0x2c
  const LD_VALUE_DWORD_STACK: byte := 0x2f
  const BITWISE_DWORD: byte := 0x1b

  function OpCode(op: BinOp): byte {
    match op
    case Add => 0x03
    case Sub => 0x06
    case Div => 0x09
    case Mod => 0x0c
    case Mul => 0x0f
    case And => 0x12
    case Or => 0x15
    case Xor => 0x18
    case Shl => 0x1e
    case Shr => 0x21
  }

  // ---------- Type check ----------

  /** Does the child stand for an address? */
  predicate ChildAddress(kind: Kind, isAddr: bool) {
    match kind
    case AssignKind => true
    case PreKind(op) => op.PreInc? || op.PreDec? || op.GetAddr? || (!op.GetValue? && isAddr)
    case _ => isAddr
  }

  /** The width of a leaf. */
  function LeafWidth(kind: Kind, width: Width): Width {
    match kind
    case ValueKind(_) => Dword
    case NameKind(s) => if s.Local? then Dword else width
    case _ => width
  }

  /** finsh_type_check: addresses are marked, and widths come from the first child. */
  function TypeCheck(t: Tree, isAddr: bool): Tree {
    match t
    case Nil => Nil
    case Node(kind, address, width, child, sibling) =>
      var child' := TypeCheck(child, ChildAddress(kind, isAddr));
      var sibling' := TypeCheck(sibling, false);
      var address' := if kind.NameKind? && kind.symbol.Syscall? then address else address || isAddr;
      var width' := if child'.Node? then child'.width else LeafWidth(kind, width);
      Node(kind, address', width', child', sibling')
  }

  // ---------- Code ----------

  function Ld(v: bv32): seq<byte> { [LD_DWORD] + ToLe32(v) }

  function LdValue(a: Addr): seq<byte> { [LD_VALUE_DWORD] + ToLe32(a.word) }

  /** Load the variable, add or subtract one, store. */
  function Bump(a: Addr, inc: bool): seq<byte> {
    LdValue(a) + Ld(1) + [OpCode(if inc then Add else Sub), ST_DWORD]
  }

  function Siblings(t: Tree): nat {
    if t.Nil? then 0 else 1 + Siblings(t.sibling)
  }

  predicate IsLocal(t: Tree) {
    t.Node? && t.kind.NameKind? && t.kind.symbol.Local?
  }

  /** What finsh_compile writes for the node itself, its child being compiled already. */
  function Emit(kind: Kind, address: bool, width: Width, child: Tree): seq<byte> {
    match kind
    case ValueKind(v) => Ld(v)
    case NameKind(s) =>
      (match s
       case Syscall(func) => Ld(func)
       case Local(a) => if address then Ld(a.word) else LdValue(a))
    case PreKind(op) =>
      (match op
       case Bitwise => if width.Dword? then [BITWISE_DWORD] else []
       case GetValue => if !address && width.Dword? then [LD_VALUE_DWORD_STACK] else []
       case GetAddr => []
       case _ =>
         if IsLocal(child) && width.Dword? then Bump(child.kind.symbol.addr, op.PreInc?) + [LD_VALUE_DWORD_STACK] else [])
    case PostKind(op) =>
      if IsLocal(child) && width.Dword?
      then Ld(child.kind.symbol.addr.word) + Bump(child.kind.symbol.addr, op.Inc?) + [POP] else []
    case CallKind => if child.Node? then [SYSCALL, (Siblings(child.sibling) % 256) as byte] else []
    case BinaryKind(op) => if width.Dword? then [OpCode(op)] else []
    case AssignKind =>
      if child.Node? && (child.kind.NameKind? || child.kind == PreKind(GetValue)) && child.width.Dword?
      then [ST_DWORD, LD_VALUE_DWORD_STACK] else []
  }

  /** finsh_compile: child, node, sibling. */
  function Code(t: Tree): seq<byte> {
    match t
    case Nil => []
    case Node(kind, address, width, child, sibling) =>
      Code(child) + Emit(kind, address, width, child) + Code(sibling)
  }

  // ---------- The code of an expression, without the tree ----------

  /** Int and long expressions over variables: assignment and increments apply to a variable, and nothing is called. */
  predicate Simple(e: Expr) {
    match e
    case Value(_) => true
    case Name(s) => s.Local?
    case Pre(op, a) => if op.Bitwise? then Simple(a) else (op.PreInc? || op.PreDec?) && IsVariable(a)
    case Post(_, a) => IsVariable(a)
    case Call(_, _) => false
    case Binary(_, l, r) => Simple(l) && Simple(r)
    case Assign(l, r) => IsVariable(l) && Simple(r)
  }

  predicate IsVariable(e: Expr) {
    e.Name? && e.symbol.Local?
  }

  function Gen(e: Expr): seq<byte>
    requires Simple(e)
  {
    match e
    case Value(v) => Ld(v)
    case Name(s) => LdValue(s.addr)
    case Pre(op, a) =>
      if op.Bitwise? then Gen(a) + [BITWISE_DWORD]
      else Ld(a.symbol.addr.word) + Bump(a.symbol.addr, op.PreInc?) + [LD_VALUE_DWORD_STACK]
    case Post(op, a) =>
      LdValue(a.symbol.addr) + Ld(a.symbol.addr.word) + Bump(a.symbol.addr, op.Inc?) + [POP]
    case Binary(op, l, r) => Gen(l) + Gen(r) + [OpCode(op)]
    case Assign(l, r) => Ld(l.symbol.addr.word) + Gen(r) + [ST_DWORD, LD_VALUE_DWORD_STACK]
  }

  lemma Checked(kind: Kind, child: Tree, sibling: Tree, isAddr: bool)
    ensures TypeCheck(Nil, isAddr) == Nil && Code(Nil) == []
    ensures var c := TypeCheck(child, ChildAddress(kind, isAddr));
            TypeCheck(Node(kind, false, Void, child, sibling), isAddr) ==
            Node(kind, isAddr && !(kind.NameKind? && kind.symbol.Syscall?),
                 if c.Node? then c.width else LeafWidth(kind, Void), c, TypeCheck(sibling, false))
  {}

  lemma Coded(kind: Kind, address: bool, width: Width, child: Tree, sibling: Tree)
    ensures Code(Node(kind, address, width, child, sibling)) == Code(child) + Emit(kind, address, width, child) + Code(sibling)
  {}

  /** A variable, as a value or as an address. */
  lemma VariableCode(e: Expr, sibling: Tree, isAddr: bool)
    requires IsVariable(e)
    ensures var t := TypeCheck(WithSibling(ToTree(e), sibling), isAddr);
            && t == Node(NameKind(e.symbol), isAddr, Dword, Nil, TypeCheck(sibling, false))
            && Code(t) == (if isAddr then Ld(e.symbol.addr.word) else LdValue(e.symbol.addr)) + Code(TypeCheck(sibling, false))
  {
    hide TypeCheck, Code, Ld, LdValue, Bump;
    Checked(NameKind(e.symbol), Nil, sibling, isAddr);
    Checked(NameKind(e.symbol), Nil, sibling, ChildAddress(NameKind(e.symbol), isAddr));
    Coded(NameKind(e.symbol), isAddr, Dword, Nil, TypeCheck(sibling, false));
  }

  lemma NoSibling(e: Expr)
    ensures WithSibling(ToTree(e), Nil) == ToTree(e)
  {}

  /** Type check and compilation of the tree give that code, whatever follows as a sibling. */
  lemma {:induction false} CodeIsGen(e: Expr, sibling: Tree)
    requires Simple(e)
    ensures var t := TypeCheck(WithSibling(ToTree(e), sibling), false);
            t.Node? && t.width == Dword && Code(t) == Gen(e) + Code(TypeCheck(sibling, false))
    decreases e
  {
    hide TypeCheck, Code, Ld, LdValue, Bump;
    match e
    case Value(v) =>
      Checked(ValueKind(v), Nil, sibling, false);
      Coded(ValueKind(v), false, Dword, Nil, TypeCheck(sibling, false));
    case Name(_) =>
      VariableCode(e, sibling, false);
    case Pre(op, a) =>
      PreCode(op, a, sibling);
    case Post(op, a) =>
      NoSibling(a);
      VariableCode(a, Nil, false);
      Checked(PostKind(op), ToTree(a), sibling, false);
      Coded(PostKind(op), false, Dword, TypeCheck(ToTree(a), false), TypeCheck(sibling, false));
    case Binary(op, l, r) =>
      BinaryCode(op, l, r, sibling);
    case Assign(l, r) =>
      AssignCode(l, r, sibling);
  }

  lemma {:induction false} PreCode(op: PreOp, a: Expr, sibling: Tree)
    requires Simple(Pre(op, a))
    ensures var t := TypeCheck(WithSibling(ToTree(Pre(op, a)), sibling), false);
            t.Node? && t.width == Dword && Code(t) == Gen(Pre(op, a)) + Code(TypeCheck(sibling, false))
    decreases Pre(op, a), 0
  {
    hide TypeCheck, Code, Ld, LdValue, Bump;
    NoSibling(a);
    Checked(PreKind(op), ToTree(a), sibling, false);
    if op.Bitwise? {
      CodeIsGen(a, Nil);
      Coded(PreKind(op), false, Dword, TypeCheck(ToTree(a), false), TypeCheck(sibling, false));
    } else {
      VariableCode(a, Nil, true);
      Coded(PreKind(op), false, Dword, TypeCheck(ToTree(a), true), TypeCheck(sibling, false));
    }
  }

  lemma {:induction false} BinaryCode(op: BinOp, l: Expr, r: Expr, sibling: Tree)
    requires Simple(l) && Simple(r)
    ensures var t := TypeCheck(WithSibling(ToTree(Binary(op, l, r)), sibling), false);
            t.Node? && t.width == Dword && Code(t) == Gen(Binary(op, l, r)) + Code(TypeCheck(sibling, false))
    decreases Binary(op, l, r), 0
  {
    hide TypeCheck, Code, Ld, LdValue, Bump;
    NoSibling(r);
    CodeIsGen(l, ToTree(r));
    CodeIsGen(r, Nil);
    var child := WithSibling(ToTree(l), ToTree(r));
    Checked(BinaryKind(op), child, sibling, false);
    Coded(BinaryKind(op), false, Dword, TypeCheck(child, false), TypeCheck(sibling, false));
  }

  lemma {:induction false} AssignCode(l: Expr, r: Expr, sibling: Tree)
    requires IsVariable(l) && Simple(r)
    ensures var t := TypeCheck(WithSibling(ToTree(Assign(l, r)), sibling), false);
            t.Node? && t.width == Dword && Code(t) == Gen(Assign(l, r)) + Code(TypeCheck(sibling, false))
    decreases Assign(l, r), 0
  {
    hide TypeCheck, Code, Ld, LdValue, Bump;
    NoSibling(r);
    VariableCode(l, ToTree(r), true);
    CodeIsGen(r, Nil);
    var child := WithSibling(ToTree(l), ToTree(r));
    Checked(AssignKind, child, sibling, false);
    Coded(AssignKind, false, Dword, TypeCheck(child, true), TypeCheck(sibling, false));
  }

  // ---------- Programs ----------

  predicate AllSimple(es: Exprs) {
    es.More? ==> Simple(es.head) && AllSimple(es.tail)
  }

  /** Statements are separated by POP. */
  function GenAll(es: Exprs): seq<byte>
    requires AllSimple(es)
  {
    match es
    case NoMore => []
    case More(e, rest) => Gen(e) + if rest.More? then [POP] + GenAll(rest) else []
  }

  // ---------- Calls and pointers ----------

  function Length(es: Exprs): nat {
    if es.NoMore? then 0 else 1 + Length(es.tail)
  }

  /** The code of the arguments, one after the other. */
  function GenArgs(es: Exprs): seq<byte>
    requires AllSimple(es)
  {
    if es.NoMore? then [] else Gen(es.head) + GenArgs(es.tail)
  }

  lemma {:induction false} ArgsCode(es: Exprs)
    requires AllSimple(es)
    ensures Code(TypeCheck(ListTree(es), false)) == GenArgs(es)
    ensures Siblings(TypeCheck(ListTree(es), false)) == Length(es)
  {
    hide Code, Gen, ToTree, TypeCheck;
    NothingCoded();
    if es.More? {
      ArgsCode(es.tail);
      CodeIsGen(es.head, ListTree(es.tail));
      NextArgument(es.head, ListTree(es.tail));
    }
  }

  lemma NothingCoded()
    ensures TypeCheck(Nil, false) == Nil && Code(Nil) == [] && Siblings(Nil) == 0
  {}

  lemma NextArgument(e: Expr, rest: Tree)
    ensures var t := TypeCheck(WithSibling(ToTree(e), rest), false);
            t.Node? && t.sibling == TypeCheck(rest, false)
  {}

  /** The function and the arguments behind it. */
  lemma FunctionCode(func: bv32, args: Exprs)
    requires AllSimple(args)
    ensures var t := TypeCheck(Node(NameKind(Syscall(func)), false, Void, Nil, ListTree(args)), false);
            t.Node? && t.width == Void && Code(t) == Ld(func) + GenArgs(args) && Siblings(t.sibling) == Length(args)
  {
    hide Code, TypeCheck, Ld, GenArgs, Siblings, Length, ListTree;
    var f, list := NameKind(Syscall(func)), ListTree(args);
    NothingCoded();
    ArgsCode(args);
    Checked(f, Nil, list, false);
    Coded(f, false, Void, Nil, TypeCheck(list, false));
    assert [] + Ld(func) == Ld(func);
  }

  /** A call loads the function, evaluates its arguments from the left, and carries their number. */
  lemma CallCode(func: bv32, args: Exprs)
    requires AllSimple(args) && Length(args) < 256
    ensures Code(TypeCheck(ToTree(Call(Name(Syscall(func)), args)), false)) ==
            Ld(func) + GenArgs(args) + [SYSCALL, Length(args) as byte]
  {
    hide Code, TypeCheck, Ld, GenArgs, Siblings, Length, ListTree;
    var node := Node(NameKind(Syscall(func)), false, Void, Nil, ListTree(args));
    NothingCoded();
    FunctionCode(func, args);
    Checked(CallKind, node, Nil, false);
    Coded(CallKind, false, Void, TypeCheck(node, false), Nil);
    CallTree(func, args, node);
  }

  lemma CallTree(func: bv32, args: Exprs, node: Tree)
    requires node == Node(NameKind(Syscall(func)), false, Void, Nil, ListTree(args))
    ensures ToTree(Call(Name(Syscall(func)), args)) == Node(CallKind, false, Void, node, Nil)
  {}

  /** `&x` is the address of the variable, `*e` loads what the value of `e` points to. */
  lemma PointerCode(x: Expr, e: Expr)
    requires IsVariable(x) && Simple(e)
    ensures Code(TypeCheck(ToTree(Pre(GetAddr, x)), false)) == Ld(x.symbol.addr.word)
    ensures Code(TypeCheck(ToTree(Pre(GetValue, e)), false)) == Gen(e) + [LD_VALUE_DWORD_STACK]
  {
    hide Code, TypeCheck, Ld;
    NothingCoded();
    NoSibling(x);
    NoSibling(e);
    VariableCode(x, Nil, true);
    Checked(PreKind(GetAddr), ToTree(x), Nil, false);
    Coded(PreKind(GetAddr), false, Dword, TypeCheck(ToTree(x), true), Nil);
    CodeIsGen(e, Nil);
    Checked(PreKind(GetValue), ToTree(e), Nil, false);
    Coded(PreKind(GetValue), false, Dword, TypeCheck(ToTree(e), false), Nil);
  }

  /** What finsh_compiler_run writes for the statements of a type-checked list. */
  function Program0(t: Tree): seq<byte> {
    if t.Nil? then [] else Code(t.(sibling := Nil)) + if t.sibling.Node? then [POP] + Program0(t.sibling) else []
  }

  lemma {:induction false} ProgramIsGen(es: Exprs)
    requires AllSimple(es)
    ensures Program0(TypeCheck(ListTree(es), false)) == GenAll(es)
    ensures TypeCheck(ListTree(es), false).Node? <==> es.More?
  {
    hide Gen, Code;
    if es.More? {
      var rest := ListTree(es.tail);
      ProgramIsGen(es.tail);
      CodeIsGen(es.head, Nil);
      EmptyCode();
      var t := TypeCheck(WithSibling(ToTree(es.head), rest), false);
      assert t.sibling == TypeCheck(rest, false);
      assert t.(sibling := Nil) == TypeCheck(WithSibling(ToTree(es.head), Nil), false);
    }
  }

  lemma EmptyCode()
    ensures Code(TypeCheck(Nil, false)) == []
  {}

  // ---------- Writing the text segment ----------

  class Writer {
    var text: seq<byte>
    var pc: nat

    constructor ()
      ensures text == Zeros(TEXT_MAX) && pc == 0
    {
      text, pc := Zeros(TEXT_MAX), 0;
    }

    method Put(s: seq<byte>)
      requires pc + |s| <= |text|
      modifies this
      ensures text == Program(old(text), old(pc), s) && pc == old(pc) + |s|
    {
      text := Program(text, pc, s);
      pc := pc + |s|;
    }

    /** finsh_compile: child first, then the node, then the sibling. */
    method CompileNode(t: Tree)
      requires pc + |Code(t)| <= |text|
      modifies this
      ensures text == Program(old(text), old(pc), Code(t)) && pc == old(pc) + |Code(t)|
      decreases t
    {
      hide Emit, Program;
      match t
      case Nil =>
        ProgramNothing(text, pc);
      case Node(kind, address, width, child, sibling) =>
        ghost var mine := Emit(kind, address, width, child);
        CompileNode(child);
        Put(Emit(kind, address, width, child));
        CompileNode(sibling);
        ProgramTwice(old(text), old(pc), Code(child), mine);
        ProgramTwice(old(text), old(pc), Code(child) + mine, Code(sibling));
    }

    /** finsh_compiler_run: a clean text segment, then statement by statement. */
    method CompilerRun(root: Tree)
      requires |Program0(TypeCheck(root, false))| <= TEXT_MAX
      modifies this
      ensures |text| == 128 && text == Program(Zeros(TEXT_MAX), 0, Program0(TypeCheck(root, false)))
    {
      hide Code, Program, TypeCheck, Zeros;
      var node := TypeCheck(root, false);
      text, pc := Zeros(TEXT_MAX), 0;
      ProgramNothing(text, 0);
      ghost var done, all := [], Program0(node);
      while node.Node?
        invariant pc == |done| && |text| == TEXT_MAX && all == done + Program0(node) && |all| <= TEXT_MAX
        invariant text == Program(Zeros(TEXT_MAX), 0, done)
        decreases node
      {
        ghost var c := Code(node.(sibling := Nil));
        CompileNode(node.(sibling := Nil));
        ProgramTwice(Zeros(TEXT_MAX), 0, done, c);
        done := done + c;
        if node.sibling.Node? {
          Put([POP]);
          ProgramTwice(Zeros(TEXT_MAX), 0, done, [POP]);
          done := done + [POP];
        }
        node := node.sibling;
      }
      assert done + [] == done;
    }
  }
}
