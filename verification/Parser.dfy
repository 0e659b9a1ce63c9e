/** The finsh recursive-descent parser, and a printer it undoes. */
module Parser {
  import opened Options
  import opened Words
  import opened Syntax
  import Compiler
  import Vm

  datatype Token =
    | Ident(symbol: Symbol) | Number(v: bv32)
    | Pipe | Caret | Amp | ShlSign | ShrSign | Plus | Minus | Star | Slash | Percent
    | PlusPlus | MinusMinus | Tilde
    | Equals | LeftParen | RightParen | Comma | Semicolon

  /** A tree, the tokens behind it, and how many nodes of the pool are left. */
  datatype Parsed = Failed | Parsed(tree: Tree, rest: seq<Token>, pool: nat)

  /** FINSH_NODE_MAX. */
  const NODE_MAX: nat := 16

  /** The precedence of binary operators, from '|' up to '*'. */
  function Level(op: BinOp): nat {
    match op
    case Or => 1
    case Xor => 2
    case And => 3
    case Shl => 4
    case Shr => 4
    case Add => 5
    case Sub => 5
    case Mul => 6
    case Div => 6
    case Mod => 6
  }

  /** The binary operator a token stands for. */
  function BinaryOf(t: Token): Option<BinOp> {
    match t
    case Pipe => Some(Or)
    case Caret => Some(Xor)
    case Amp => Some(And)
    case ShlSign => Some(Shl)
    case ShrSign => Some(Shr)
    case Plus => Some(Add)
    case Minus => Some(Sub)
    case Star => Some(Mul)
    case Slash => Some(Div)
    case Percent => Some(Mod)
    case _ => None
  }

  /** The prefix operator a token stands for, sign characters aside. */
  function PrefixOf(t: Token): Option<PreOp> {
    match t
    case PlusPlus => Some(PreInc)
    case MinusMinus => Some(PreDec)
    case Tilde => Some(Bitwise)
    case Star => Some(GetValue)
    case Amp => Some(GetAddr)
    case _ => None
  }

  /** The next token is a binary operator of this level. */
  predicate OperatorAt(level: nat, ts: seq<Token>) {
    ts != [] && BinaryOf(ts[0]).Some? && Level(BinaryOf(ts[0]).value) == level
  }

  // ---------- The grammar, function by function ----------

  /** make_sys_node: a node from the pool, or an error when the pool is used up. */
  function Make(kind: Kind, l: Tree, r: Tree, rest: seq<Token>, pool: nat): (p: Parsed)
    ensures p.Parsed? <==> pool > 0
    ensures p.Parsed? ==> p.rest == rest
  {
    if pool == 0 then Failed else Parsed(MakeNode(kind, l, r), rest, pool - 1)
  }

  /** proc_assign_expr. */
  function ParseAssign(ts: seq<Token>, pool: nat): (r: Parsed)
    ensures r.Parsed? ==> |r.rest| < |ts|
    decreases |ts|, 20
  {
    match ParseBinary(1, ts, pool)
    case Failed => Failed
    case Parsed(l, rest, n) =>
      if rest != [] && rest[0] == Equals then
        match ParseAssign(rest[1..], n)
        case Failed => Failed
        case Parsed(r, rest', m) => Make(AssignKind, l, r, rest', m)
      else Parsed(l, rest, n)
  }

  /** proc_inclusive_or_expr (1) to proc_multiplicative_expr (6): an operand, then operators of this level. */
  function ParseBinary(level: nat, ts: seq<Token>, pool: nat): (r: Parsed)
    requires 1 <= level <= 7
    ensures r.Parsed? ==> |r.rest| < |ts|
    decreases |ts|, 19 - level
  {
    if level == 7 then ParseCast(ts, pool)
    else
      match ParseBinary(level + 1, ts, pool)
      case Failed => Failed
      case Parsed(l, rest, n) => MoreBinary(level, l, rest, n)
  }

  function MoreBinary(level: nat, l: Tree, ts: seq<Token>, pool: nat): (r: Parsed)
    requires 1 <= level <= 6
    ensures r.Parsed? ==> |r.rest| <= |ts|
    decreases |ts|, 18
  {
    if OperatorAt(level, ts) then
      match ParseBinary(level + 1, ts[1..], pool)
      case Failed => Failed
      case Parsed(r, rest, n) =>
        if n == 0 then Failed else MoreBinary(level, MakeNode(BinaryKind(BinaryOf(ts[0]).value), l, r), rest, n - 1)
    else Parsed(l, ts, pool)
  }

  /** proc_cast_expr without casts: a parenthesis here would have to open one. */
  function ParseCast(ts: seq<Token>, pool: nat): (r: Parsed)
    ensures r.Parsed? ==> |r.rest| < |ts|
    decreases |ts|, 11
  {
    if ts != [] && ts[0] == LeftParen then Failed else ParseUnary(ts, pool)
  }

  /** proc_unary_expr; the sign takes a node for the zero it subtracts from. */
  function ParseUnary(ts: seq<Token>, pool: nat): (r: Parsed)
    ensures r.Parsed? ==> |r.rest| < |ts|
    decreases |ts|, 10
  {
    if ts == [] then Failed
    else if ts[0] == Plus then ParseCast(ts[1..], pool)
    else if ts[0] == Minus then
      match ParseCast(ts[1..], pool)
      case Failed => Failed
      case Parsed(t, rest, n) =>
        if n == 0 then Failed else Make(BinaryKind(Sub), Fresh(ValueKind(0), Nil), t, rest, n - 1)
    else
      match PrefixOf(ts[0])
      case None => ParsePostfix(ts, pool)
      case Some(op) =>
        match ParseCast(ts[1..], pool)
        case Failed => Failed
        case Parsed(t, rest, n) => Make(PreKind(op), t, Nil, rest, n)
  }

  /** proc_postfix_expr. */
  function ParsePostfix(ts: seq<Token>, pool: nat): (r: Parsed)
    ensures r.Parsed? ==> |r.rest| < |ts|
    decreases |ts|, 9
  {
    match ParsePrimary(ts, pool)
    case Failed => Failed
    case Parsed(t, rest, n) => MorePostfix(t, rest, n)
  }

  function MorePostfix(t: Tree, ts: seq<Token>, pool: nat): (r: Parsed)
    ensures r.Parsed? ==> |r.rest| <= |ts|
    decreases |ts|, 8
  {
    if ts == [] then Parsed(t, ts, pool)
    else if ts[0] == PlusPlus then OnNode(PostKind(Inc), t, Nil, ts, 1, pool)
    else if ts[0] == MinusMinus then OnNode(PostKind(Dec), t, Nil, ts, 1, pool)
    else if ts[0] == LeftParen then
      if |ts| > 1 && ts[1] == RightParen then OnNode(CallKind, t, Nil, ts, 2, pool)
      else
        match ParseParams(ts[1..], pool)
        case Failed => Failed
        case Parsed(args, rest, n) =>
          if rest != [] && rest[0] == RightParen then OnNode(CallKind, t, args, rest, 1, n) else Failed
    else Parsed(t, ts, pool)
  }

  /** A postfix node from the pool, and what follows behind `skip` tokens. */
  function OnNode(kind: Kind, l: Tree, r: Tree, ts: seq<Token>, skip: nat, pool: nat): (p: Parsed)
    requires 0 < skip <= |ts|
    ensures p.Parsed? ==> |p.rest| < |ts|
    decreases |ts|, 7
  {
    if pool == 0 then Failed else MorePostfix(MakeNode(kind, l, r), ts[skip..], pool - 1)
  }

  /** proc_primary_expr; a parenthesis never gets here. */
  function ParsePrimary(ts: seq<Token>, pool: nat): (r: Parsed)
    ensures r.Parsed? ==> |r.rest| < |ts|
  {
    if ts == [] || pool == 0 then Failed
    else
      match ts[0]
      case Ident(s) => Parsed(Fresh(NameKind(s), Nil), ts[1..], pool - 1)
      case Number(v) => Parsed(Fresh(ValueKind(v), Nil), ts[1..], pool - 1)
      case _ => Failed
  }

  /** proc_param_list. */
  function ParseParams(ts: seq<Token>, pool: nat): (r: Parsed)
    ensures r.Parsed? ==> |r.rest| < |ts|
    decreases |ts|, 21
  {
    match ParseAssign(ts, pool)
    case Failed => Failed
    case Parsed(t, rest, n) => MoreParams(t, rest, n)
  }

  function MoreParams(t: Tree, ts: seq<Token>, pool: nat): (r: Parsed)
    ensures r.Parsed? ==> |r.rest| <= |ts|
    decreases |ts|, 22
  {
    if ts != [] && ts[0] == Comma then Before(t, ParseParams(ts[1..], pool)) else Parsed(t, ts, pool)
  }

  /** `t` in front of a parsed list. */
  function Before(t: Tree, p: Parsed): Parsed {
    match p
    case Failed => Failed
    case Parsed(more, rest, n) => Parsed(WithSibling(t, more), rest, n)
  }

  function AllBefore(list: seq<Tree>, p: Parsed): Parsed {
    if list == [] then p else AllBefore(list[..|list| - 1], Before(list[|list| - 1], p))
  }

  /** finsh_parser_run on expression statements: no tree when an error was set. */
  function ParseProgram(ts: seq<Token>, pool: nat): Option<Tree>
    decreases |ts|
  {
    if ts == [] then Some(Nil)
    else
      match ParseAssign(ts, pool)
      case Failed => None
      case Parsed(t, rest, n) =>
        if rest != [] && rest[0] == Semicolon then
          match ParseProgram(rest[1..], n)
          case None => None
          case Some(more) => Some(WithSibling(t, more))
        else None
  }

  // ---------- Printing ----------

  function BinaryToken(op: BinOp): Token {
    match op
    case Or => Pipe
    case Xor => Caret
    case And => Amp
    case Shl => ShlSign
    case Shr => ShrSign
    case Add => Plus
    case Sub => Minus
    case Mul => Star
    case Div => Slash
    case Mod => Percent
  }

  function PrefixToken(op: PreOp): Token {
    match op
    case PreInc => PlusPlus
    case PreDec => MinusMinus
    case Bitwise => Tilde
    case GetValue => Star
    case GetAddr => Amp
  }

  function Print(e: Expr): seq<Token> {
    match e
    case Value(v) => [Number(v)]
    case Name(s) => [Ident(s)]
    case Pre(op, x) => [PrefixToken(op)] + Print(x)
    case Post(op, x) => Print(x) + [if op.Inc? then PlusPlus else MinusMinus]
    case Call(f, args) => Print(f) + [LeftParen] + PrintArgs(args) + [RightParen]
    case Binary(op, l, r) => Print(l) + [BinaryToken(op)] + Print(r)
    case Assign(l, r) => Print(l) + [Equals] + Print(r)
  }

  function PrintArgs(es: Exprs): seq<Token> {
    match es
    case NoMore => []
    case More(e, rest) => Print(e) + if rest.More? then [Comma] + PrintArgs(rest) else []
  }

  function PrintProgram(es: Exprs): seq<Token> {
    match es
    case NoMore => []
    case More(e, rest) => Print(e) + [Semicolon] + PrintProgram(rest)
  }

  /** How tightly an expression is bound: 0 assignment, 1 to 6 binary, 7 prefix, 8 postfix and primary. */
  function Rank(e: Expr): nat {
    match e
    case Assign(_, _) => 0
    case Binary(op, _, _) => Level(op)
    case Pre(_, _) => 7
    case _ => 8
  }

  /** No parentheses are needed: C precedence, operators to the left, assignment to the right. */
  predicate Printable(e: Expr) {
    match e
    case Value(_) => true
    case Name(_) => true
    case Pre(_, x) => Rank(x) >= 7 && Printable(x)
    case Post(_, x) => Rank(x) >= 8 && Printable(x)
    case Call(f, args) => Rank(f) >= 8 && Printable(f) && AllPrintable(args)
    case Binary(op, l, r) => Rank(l) >= Level(op) && Rank(r) > Level(op) && Printable(l) && Printable(r)
    case Assign(l, r) => Rank(l) >= 1 && Printable(l) && Printable(r)
  }

  predicate AllPrintable(es: Exprs) {
    es.More? ==> Printable(es.head) && AllPrintable(es.tail)
  }

  // ---------- Round trip ----------

  /** The next token does not go on with an expression of rank n or higher. */
  predicate Stops(n: nat, ts: seq<Token>) {
    ts != [] ==> && ts[0] != PlusPlus && ts[0] != MinusMinus && ts[0] != LeftParen
                 && (BinaryOf(ts[0]).Some? ==> Level(BinaryOf(ts[0]).value) < n)
                 && (n == 0 ==> ts[0] != Equals)
  }

  lemma {:induction false} FirstToken(e: Expr)
    requires Printable(e)
    ensures Print(e) != [] && Print(e)[0] != RightParen && Print(e)[0] != LeftParen
    ensures Rank(e) >= 8 ==> Print(e)[0].Ident? || Print(e)[0].Number?
    decreases e
  {
    match e
    case Post(_, x) => FirstToken(x);
    case Call(f, _) => FirstToken(f);
    case Binary(_, l, _) => FirstToken(l);
    case Assign(l, _) => FirstToken(l);
    case _ =>
  }

  // ---------- How many nodes ----------

  /** The nodes of an expression's tree. */
  function Nodes(e: Expr): (n: nat)
    ensures n > 0
  {
    match e
    case Value(_) => 1
    case Name(_) => 1
    case Pre(_, x) => Nodes(x) + 1
    case Post(_, x) => Nodes(x) + 1
    case Call(f, args) => Nodes(f) + AllNodes(args) + 1
    case Binary(_, l, r) => Nodes(l) + Nodes(r) + 1
    case Assign(l, r) => Nodes(l) + Nodes(r) + 1
  }

  function AllNodes(es: Exprs): nat {
    match es
    case NoMore => 0
    case More(e, rest) => Nodes(e) + AllNodes(rest)
  }

  /** The tree, if the pool has the nodes for it. */
  function Take(need: nat, t: Tree, rest: seq<Token>, pool: nat): Parsed {
    if need <= pool then Parsed(t, rest, pool - need) else Failed
  }

  /** The same with postfix operators still to come. */
  function TakeOn(need: nat, t: Tree, rest: seq<Token>, pool: nat): Parsed {
    if need <= pool then MorePostfix(t, rest, pool - need) else Failed
  }

  lemma LeafBack(e: Expr, rest: seq<Token>, pool: nat)
    requires e.Value? || e.Name?
    ensures ParsePostfix(Print(e) + rest, pool) == TakeOn(1, ToTree(e), rest, pool)
  {}

  lemma PostOnce(t: Tree, op: PostOp, rest: seq<Token>, pool: nat)
    ensures MorePostfix(t, [if op.Inc? then PlusPlus else MinusMinus] + rest, pool) ==
            TakeOn(1, MakeNode(PostKind(op), t, Nil), rest, pool)
  {}

  /** After a postfix expression the parser goes on with more postfix operators. */
  lemma {:induction false} PostfixBack(e: Expr, rest: seq<Token>, pool: nat)
    requires Printable(e) && Rank(e) >= 8
    ensures ParsePostfix(Print(e) + rest, pool) == TakeOn(Nodes(e), ToTree(e), rest, pool)
    decreases e, 1
  {
    hide ParsePostfix, MorePostfix, MakeNode;
    match e
    case Value(_) => LeafBack(e, rest, pool);
    case Name(_) => LeafBack(e, rest, pool);
    case Post(op, x) =>
      var more := [if op.Inc? then PlusPlus else MinusMinus] + rest;
      PostfixBack(x, more, pool);
      assert Print(e) + rest == Print(x) + more;
      if Nodes(x) <= pool {
        PostOnce(ToTree(x), op, rest, pool - Nodes(x));
      }
    case Call(f, args) =>
      var more := [LeftParen] + (PrintArgs(args) + ([RightParen] + rest));
      PostfixBack(f, more, pool);
      assert Print(e) + rest == Print(f) + more;
      if Nodes(f) <= pool {
        CallBack(ToTree(f), args, rest, pool - Nodes(f));
      }
  }

  lemma {:induction false} CallBack(t: Tree, args: Exprs, rest: seq<Token>, pool: nat)
    requires AllPrintable(args)
    ensures MorePostfix(t, [LeftParen] + (PrintArgs(args) + ([RightParen] + rest)), pool) ==
            TakeOn(AllNodes(args) + 1, MakeNode(CallKind, t, ListTree(args)), rest, pool)
    decreases args, 1
  {
    hide ParseParams, MakeNode, MorePostfix, Print, Printable, Nodes, ToTree;
    var end := [RightParen] + rest;
    var ts := [LeftParen] + (PrintArgs(args) + end);
    assert ts[1..] == PrintArgs(args) + end;
    if args.More? {
      FirstToken(args.head);
      assert ts[1] == Print(args.head)[0];
      ParamsBack(args, end, pool);
      assert end[1..] == rest;
      CallStep(t, ts, pool);
    } else {
      assert ts == [LeftParen, RightParen] + rest;
      assert ts[2..] == rest;
      CallStep(t, ts, pool);
    }
  }

  lemma CallStep(t: Tree, ts: seq<Token>, pool: nat)
    requires |ts| > 1 && ts[0] == LeftParen
    ensures var p := ParseParams(ts[1..], pool);
            MorePostfix(t, ts, pool) ==
            if ts[1] == RightParen then TakeOn(1, MakeNode(CallKind, t, Nil), ts[2..], pool)
            else if p.Failed? || p.rest == [] || p.rest[0] != RightParen then Failed
            else TakeOn(1, MakeNode(CallKind, t, p.tree), p.rest[1..], p.pool)
  {
    hide ParseParams, MakeNode;
  }

  lemma {:induction false} ParamsBack(es: Exprs, rest: seq<Token>, pool: nat)
    requires es.More? && AllPrintable(es) && rest != [] && rest[0] == RightParen
    ensures ParseParams(PrintArgs(es) + rest, pool) == Take(AllNodes(es), ListTree(es), rest, pool)
    decreases es, 0
  {
    hide ParseAssign, ParseParams, Print, Printable, Nodes, ToTree;
    var more := if es.tail.More? then [Comma] + (PrintArgs(es.tail) + rest) else rest;
    assert PrintArgs(es) + rest == Print(es.head) + more;
    AssignBack(es.head, more, pool);
    ParamsStep(Print(es.head) + more, pool);
    if es.tail.More? {
      assert more[1..] == PrintArgs(es.tail) + rest;
      if Nodes(es.head) <= pool {
        ParamsBack(es.tail, rest, pool - Nodes(es.head));
      }
    } else {
      assert WithSibling(ToTree(es.head), Nil) == ToTree(es.head);
    }
  }

  lemma ParamsStep(ts: seq<Token>, pool: nat)
    ensures ParseParams(ts, pool) ==
            match ParseAssign(ts, pool)
            case Failed => Failed
            case Parsed(t, rest, n) =>
              if rest != [] && rest[0] == Comma then Before(t, ParseParams(rest[1..], n)) else Parsed(t, rest, n)
  {
    hide ParseAssign;
  }

  lemma {:induction false} UnaryBack(e: Expr, rest: seq<Token>, pool: nat)
    requires Printable(e) && Rank(e) >= 7 && Stops(7, rest)
    ensures ParseCast(Print(e) + rest, pool) == Take(Nodes(e), ToTree(e), rest, pool)
    decreases e, 2
  {
    hide ParsePostfix, MorePostfix, MakeNode, ToTree, ParseCast;
    if e.Pre? {
      UnaryBack(e.e, rest, pool);
      PrefixOnce(e.pre, e.e, rest, pool);
    } else {
      PostfixBack(e, rest, pool);
      FirstToken(e);
      PlainUnary(Print(e) + rest, pool);
      if Nodes(e) <= pool {
        PostfixDone(ToTree(e), rest, pool - Nodes(e));
      }
    }
  }

  lemma PrefixOnce(op: PreOp, x: Expr, rest: seq<Token>, pool: nat)
    requires ParseCast(Print(x) + rest, pool) == Take(Nodes(x), ToTree(x), rest, pool)
    ensures ParseCast(Print(Pre(op, x)) + rest, pool) == Take(Nodes(Pre(op, x)), ToTree(Pre(op, x)), rest, pool)
  {
    hide ParsePostfix, MakeNode, ParseCast;
    var ts := [PrefixToken(op)] + (Print(x) + rest);
    assert Print(Pre(op, x)) + rest == ts;
    assert ts[1..] == Print(x) + rest;
    PrefixFirst(op, ts, pool);
  }

  lemma PrefixFirst(op: PreOp, ts: seq<Token>, pool: nat)
    requires ts != [] && ts[0] == PrefixToken(op)
    ensures ParseCast(ts, pool) == match ParseCast(ts[1..], pool)
                                   case Failed => Failed
                                   case Parsed(t, rest, n) => Make(PreKind(op), t, Nil, rest, n)
  {
    hide ParsePostfix, MakeNode;
  }

  lemma PostfixDone(t: Tree, rest: seq<Token>, pool: nat)
    requires Stops(7, rest)
    ensures MorePostfix(t, rest, pool) == Parsed(t, rest, pool)
  {}

  lemma PlainUnary(ts: seq<Token>, pool: nat)
    requires ts != [] && (ts[0].Ident? || ts[0].Number?)
    ensures ParseCast(ts, pool) == ParsePostfix(ts, pool)
  {}

  /** An operand of a level, with nothing behind it that belongs to the level. */
  lemma {:induction false} OperandBack(k: nat, e: Expr, rest: seq<Token>, pool: nat)
    requires 1 <= k <= 7 && Printable(e) && Rank(e) >= k && Stops(k, rest)
    ensures ParseBinary(k, Print(e) + rest, pool) == Take(Nodes(e), ToTree(e), rest, pool)
    decreases e, 2 * (8 - k) + 1
  {
    hide ParseCast;
    if k == 7 {
      UnaryBack(e, rest, pool);
    } else {
      BinaryBack(k, e, rest, pool);
    }
  }

  /** An expression of a level, which may go on with operators of that level. */
  lemma {:induction false} BinaryBack(k: nat, e: Expr, rest: seq<Token>, pool: nat)
    requires 1 <= k <= 6 && Printable(e) && Rank(e) >= k && Stops(k + 1, rest)
    ensures ParseBinary(k, Print(e) + rest, pool) ==
            if Nodes(e) <= pool then MoreBinary(k, ToTree(e), rest, pool - Nodes(e)) else Failed
    decreases e, 2 * (8 - k)
  {
    hide ParseBinary, MoreBinary, MakeNode, Print, Nodes, ToTree, Printable, BinaryToken, BinaryOf;
    if Rank(e) > k {
      OperandBack(k + 1, e, rest, pool);
      BinaryStart(k, Print(e) + rest, pool);
    } else {
      var tail := Print(e.r) + rest;
      var more := [BinaryToken(e.op)] + tail;
      BinaryParts(e);
      assert Print(e) + rest == Print(e.l) + more;
      OperatorStops(e.op, more);
      BinaryBack(k, e.l, more, pool);
      if Nodes(e.l) <= pool {
        OperandBack(k + 1, e.r, rest, pool - Nodes(e.l));
        MoreStep(k, ToTree(e.l), e.op, tail, pool - Nodes(e.l));
      }
    }
  }

  lemma BinaryStart(k: nat, ts: seq<Token>, pool: nat)
    requires 1 <= k <= 6
    ensures ParseBinary(k, ts, pool) ==
            match ParseBinary(k + 1, ts, pool)
            case Failed => Failed
            case Parsed(l, rest, n) => MoreBinary(k, l, rest, n)
  {
    hide MoreBinary, ParseCast;
  }

  lemma MoreStep(k: nat, l: Tree, op: BinOp, tail: seq<Token>, pool: nat)
    requires 1 <= k <= 6 && Level(op) == k
    ensures MoreBinary(k, l, [BinaryToken(op)] + tail, pool) ==
            match ParseBinary(k + 1, tail, pool)
            case Failed => Failed
            case Parsed(r, rest, n) => if n == 0 then Failed else MoreBinary(k, MakeNode(BinaryKind(op), l, r), rest, n - 1)
  {
    hide ParseBinary, MakeNode;
    TokenBack(op);
    assert ([BinaryToken(op)] + tail)[1..] == tail;
  }

  lemma BinaryParts(e: Expr)
    requires e.Binary?
    ensures Print(e) == Print(e.l) + [BinaryToken(e.op)] + Print(e.r)
    ensures Nodes(e) == Nodes(e.l) + Nodes(e.r) + 1
    ensures ToTree(e) == MakeNode(BinaryKind(e.op), ToTree(e.l), ToTree(e.r))
    ensures Printable(e) ==> Rank(e.l) >= Level(e.op) && Rank(e.r) > Level(e.op) && Printable(e.l) && Printable(e.r)
  {}

  lemma OperatorStops(op: BinOp, ts: seq<Token>)
    requires ts != [] && ts[0] == BinaryToken(op)
    ensures Stops(Level(op) + 1, ts)
  {}

  lemma TokenBack(op: BinOp)
    ensures BinaryOf(BinaryToken(op)) == Some(op)
  {}

  /** Parsing a printed expression rebuilds its tree exactly if the pool has enough nodes, and takes just those. */
  lemma {:induction false} AssignBack(e: Expr, rest: seq<Token>, pool: nat)
    requires Printable(e) && Stops(0, rest)
    ensures ParseAssign(Print(e) + rest, pool) == Take(Nodes(e), ToTree(e), rest, pool)
    decreases e, 20
  {
    hide ParseBinary, ParseAssign, MakeNode, Print, Nodes, ToTree;
    AssignStep(Print(e) + rest, pool);
    if e.Assign? {
      var more := [Equals] + (Print(e.r) + rest);
      AssignParts(e);
      assert Print(e) + rest == Print(e.l) + more;
      OperandBack(1, e.l, more, pool);
      assert more[1..] == Print(e.r) + rest;
      if Nodes(e.l) <= pool {
        AssignBack(e.r, rest, pool - Nodes(e.l));
      }
    } else {
      OperandBack(1, e, rest, pool);
    }
  }

  lemma AssignStep(ts: seq<Token>, pool: nat)
    ensures ParseAssign(ts, pool) ==
            match ParseBinary(1, ts, pool)
            case Failed => Failed
            case Parsed(l, rest, n) =>
              if rest != [] && rest[0] == Equals then
                match ParseAssign(rest[1..], n)
                case Failed => Failed
                case Parsed(r, rest', m) => Make(AssignKind, l, r, rest', m)
              else Parsed(l, rest, n)
  {
    hide ParseBinary, MakeNode;
  }

  lemma AssignParts(e: Expr)
    requires e.Assign?
    ensures Print(e) == Print(e.l) + [Equals] + Print(e.r)
    ensures Nodes(e) == Nodes(e.l) + Nodes(e.r) + 1
    ensures ToTree(e) == MakeNode(AssignKind, ToTree(e.l), ToTree(e.r))
  {}

  /** Parsing the printed statements rebuilds their trees exactly if they have no more nodes than the pool. */
  lemma {:induction false} ProgramBack(es: Exprs, pool: nat)
    requires AllPrintable(es)
    ensures ParseProgram(PrintProgram(es), pool) == if AllNodes(es) <= pool then Some(ListTree(es)) else None
  {
    hide ParseAssign, ToTree, Print, Nodes, Printable, ParseProgram;
    ProgramStep(PrintProgram(es), pool);
    if es.More? {
      FirstToken(es.head);
      var more := [Semicolon] + PrintProgram(es.tail);
      assert PrintProgram(es) == Print(es.head) + more;
      AssignBack(es.head, more, pool);
      assert more[1..] == PrintProgram(es.tail);
      if Nodes(es.head) <= pool {
        ProgramBack(es.tail, pool - Nodes(es.head));
      }
    }
  }

  lemma ProgramStep(ts: seq<Token>, pool: nat)
    ensures ParseProgram(ts, pool) ==
            if ts == [] then Some(Nil)
            else
              match ParseAssign(ts, pool)
              case Failed => None
              case Parsed(t, rest, n) =>
                if rest != [] && rest[0] == Semicolon then
                  match ParseProgram(rest[1..], n)
                  case None => None
                  case Some(more) => Some(WithSibling(t, more))
                else None
  {
    hide ParseAssign;
  }

  // ---------- C precedence, written out ----------

  /** In `a p b q c` the first two operands belong together: `p` binds at least as tightly as `q`. */
  predicate GroupsLeft(p: BinOp, q: BinOp) {
    match q
    case Mul => p in {Mul, Div, Mod}
    case Div => p in {Mul, Div, Mod}
    case Mod => p in {Mul, Div, Mod}
    case Add => p in {Mul, Div, Mod, Add, Sub}
    case Sub => p in {Mul, Div, Mod, Add, Sub}
    case Shl => p in {Mul, Div, Mod, Add, Sub, Shl, Shr}
    case Shr => p in {Mul, Div, Mod, Add, Sub, Shl, Shr}
    case And => p !in {Xor, Or}
    case Xor => p != Or
    case Or => true
  }

  /** A constant or a variable, with prefix and postfix operators. */
  predicate Operand(e: Expr) {
    match e
    case Pre(_, x) => Operand(x)
    case _ => Suffixed(e)
  }

  predicate Suffixed(e: Expr) {
    match e
    case Value(_) => true
    case Name(_) => true
    case Post(_, x) => Suffixed(x)
    case _ => false
  }

  lemma {:induction false} SuffixedPrints(e: Expr)
    requires Suffixed(e)
    ensures Printable(e) && Rank(e) >= 8
  {
    if e.Post? {
      SuffixedPrints(e.e);
    }
  }

  lemma {:induction false} OperandPrints(e: Expr)
    requires Operand(e)
    ensures Printable(e) && Rank(e) >= 7
  {
    if e.Pre? {
      OperandPrints(e.e);
    } else {
      SuffixedPrints(e);
    }
  }

  /** The statement `a p b q c;` */
  function Sentence(a: Expr, p: BinOp, b: Expr, q: BinOp, c: Expr): seq<Token> {
    Print(a) + [BinaryToken(p)] + Print(b) + [BinaryToken(q)] + Print(c) + [Semicolon]
  }

  /** One printed statement is parsed to its tree. */
  lemma StatementBack(e: Expr, ts: seq<Token>, pool: nat)
    requires Printable(e) && ts == Print(e) && Nodes(e) <= pool
    ensures ParseProgram(ts + [Semicolon], pool) == Some(ToTree(e))
  {
    hide ParseProgram, Print, ToTree, Nodes, Printable;
    ProgramBack(More(e, NoMore), pool);
    assert PrintProgram(More(e, NoMore)) == ts + [Semicolon];
    assert WithSibling(ToTree(e), Nil) == ToTree(e);
  }

  lemma Regroup(a: seq<Token>, x: seq<Token>, b: seq<Token>, y: seq<Token>, c: seq<Token>)
    ensures a + x + (b + y + c) == a + x + b + y + c
  {}

  /** Every two operators are grouped as in C. */
  lemma Precedence(a: Expr, p: BinOp, b: Expr, q: BinOp, c: Expr, pool: nat)
    requires Operand(a) && Operand(b) && Operand(c) && Nodes(a) + Nodes(b) + Nodes(c) + 2 <= pool
    ensures ParseProgram(Sentence(a, p, b, q, c), pool) ==
            Some(ToTree(if GroupsLeft(p, q) then Binary(q, Binary(p, a, b), c) else Binary(p, a, Binary(q, b, c))))
  {
    hide ParseProgram, BinaryToken, Printable, Rank, ToTree;
    OperandPrints(a);
    OperandPrints(b);
    OperandPrints(c);
    GroupingPrints(a, p, b, q, c);
    var e := if GroupsLeft(p, q) then Binary(q, Binary(p, a, b), c) else Binary(p, a, Binary(q, b, c));
    Regroup(Print(a), [BinaryToken(p)], Print(b), [BinaryToken(q)], Print(c));
    StatementBack(e, Print(a) + [BinaryToken(p)] + Print(b) + [BinaryToken(q)] + Print(c), pool);
  }

  lemma GroupingPrints(a: Expr, p: BinOp, b: Expr, q: BinOp, c: Expr)
    requires Printable(a) && Printable(b) && Printable(c) && Rank(a) >= 7 && Rank(b) >= 7 && Rank(c) >= 7
    ensures Printable(if GroupsLeft(p, q) then Binary(q, Binary(p, a, b), c) else Binary(p, a, Binary(q, b, c)))
  {}

  /** Assignments are grouped to the right, and everything else binds tighter. */
  lemma AssignsLast(a: Expr, b: Expr, p: BinOp, c: Expr, pool: nat)
    requires Operand(a) && Operand(b) && Operand(c) && Nodes(a) + Nodes(b) + Nodes(c) + 2 <= pool
    ensures ParseProgram(Print(a) + [Equals] + Print(b) + [Equals] + Print(c) + [Semicolon], pool) ==
            Some(ToTree(Assign(a, Assign(b, c))))
    ensures ParseProgram(Print(a) + [Equals] + Print(b) + [BinaryToken(p)] + Print(c) + [Semicolon], pool) ==
            Some(ToTree(Assign(a, Binary(p, b, c))))
  {
    hide ParseProgram, BinaryToken, ToTree;
    OperandPrints(a);
    OperandPrints(b);
    OperandPrints(c);
    AssignPrints(a, b, p, c);
    Regroup(Print(a), [Equals], Print(b), [Equals], Print(c));
    Regroup(Print(a), [Equals], Print(b), [BinaryToken(p)], Print(c));
    hide Printable, Rank;
    StatementBack(Assign(a, Assign(b, c)), Print(a) + [Equals] + Print(b) + [Equals] + Print(c), pool);
    StatementBack(Assign(a, Binary(p, b, c)), Print(a) + [Equals] + Print(b) + [BinaryToken(p)] + Print(c), pool);
  }

  lemma AssignPrints(a: Expr, b: Expr, p: BinOp, c: Expr)
    requires Printable(a) && Printable(b) && Printable(c) && Rank(a) >= 7 && Rank(b) >= 7 && Rank(c) >= 7
    ensures Printable(Assign(a, Assign(b, c))) && Printable(Assign(a, Binary(p, b, c)))
  {}

  /** A sign is zero minus its operand, with a node for the zero. */
  lemma SignBack(e: Expr, rest: seq<Token>, pool: nat)
    requires Operand(e) && Stops(7, rest)
    ensures ParseCast([Minus] + Print(e) + rest, pool) ==
            Take(Nodes(e) + 2, ToTree(Binary(Sub, Value(0), e)), rest, pool)
    ensures ParseCast([Plus] + Print(e) + rest, pool) == Take(Nodes(e), ToTree(e), rest, pool)
  {
    hide ParsePostfix, Print, Nodes, ToTree;
    OperandPrints(e);
    UnaryBack(e, rest, pool);
    var ts := Print(e) + rest;
    assert ([Minus] + Print(e) + rest)[1..] == ts && ([Plus] + Print(e) + rest)[1..] == ts;
    SignTree(e);
  }

  lemma SignTree(e: Expr)
    ensures ToTree(Binary(Sub, Value(0), e)) == MakeNode(BinaryKind(Sub), Fresh(ValueKind(0), Nil), ToTree(e))
  {}

  /** From text to result: printed statements are parsed, checked, compiled and run to what they evaluate to exactly if
      they have at most 16 nodes; otherwise there is no tree, and nothing is compiled. */
  lemma ShellRuns(es: Exprs, store: Vm.Store)
    requires es.More? && AllPrintable(es) && Compiler.AllSimple(es)
    ensures var root := ParseProgram(PrintProgram(es), NODE_MAX);
            && (root.Some? <==> AllNodes(es) <= NODE_MAX)
            && (root.Some? && |Compiler.GenAll(es)| <= Compiler.TEXT_MAX ==>
                  var c := Compiler.Program0(Compiler.TypeCheck(root.value, false));
                  && |c| <= Compiler.TEXT_MAX
                  && Vm.Exec(Program(Zeros(Compiler.TEXT_MAX), 0, c), Vm.Machine([], store, 0)) ==
                     match Vm.EvalAll(es, store)
                     case None => None
                     case Some(r) => Some(Vm.Machine([r.v], r.store, Compiler.TEXT_MAX)))
  {
    hide *;
    ProgramBack(es, NODE_MAX);
    if AllNodes(es) <= NODE_MAX && |Compiler.GenAll(es)| <= Compiler.TEXT_MAX {
      Vm.RunProgram(es, store);
    }
  }

  /** 1+1+...+1 with `n` plus signs. */
  function Ones(n: nat): Expr {
    if n == 0 then Value(1) else Binary(Add, Ones(n - 1), Value(1))
  }

  lemma {:induction false} OnesNodes(n: nat)
    ensures Nodes(Ones(n)) == 2 * n + 1 && Printable(Ones(n)) && Rank(Ones(n)) >= 5 && Compiler.Simple(Ones(n))
  {
    if n > 0 {
      OnesNodes(n - 1);
    }
  }

  /** A sum of eight ones runs, and one more needs a seventeenth node and is refused. */
  lemma SeventeenNodes()
    ensures ParseProgram(PrintProgram(More(Ones(7), NoMore)), NODE_MAX) == Some(ToTree(Ones(7)))
    ensures ParseProgram(PrintProgram(More(Ones(8), NoMore)), NODE_MAX) == None
  {
    hide ParseProgram, PrintProgram, ToTree, Ones, Nodes, Printable;
    OnesNodes(7);
    OnesNodes(8);
    ProgramBack(More(Ones(7), NoMore), NODE_MAX);
    ProgramBack(More(Ones(8), NoMore), NODE_MAX);
    assert WithSibling(ToTree(Ones(7)), Nil) == ToTree(Ones(7));
  }

  // ---------- In place: the token stream and the loops ----------

  /** The token state and the node pool: reading takes the first token off, replay is not taking it. */
  class Reader {
    var ts: seq<Token>
    var pool: nat

    constructor (ts: seq<Token>)
      ensures this.ts == ts && pool == NODE_MAX
    {
      this.ts, pool := ts, NODE_MAX;
    }

    /** finsh_node_allocate and make_sys_node. */
    method NewNode(kind: Kind, l: Tree, r: Tree) returns (ok: bool, t: Tree)
      modifies this`pool
      ensures ok == (old(pool) > 0) && pool == (if ok then old(pool) - 1 else 0)
      ensures ok ==> t == MakeNode(kind, l, r)
    {
      if pool == 0 {
        return false, Nil;
      }
      pool := pool - 1;
      ok, t := true, MakeNode(kind, l, r);
    }

    method AssignExpr() returns (ok: bool, t: Tree)
      modifies this
      ensures ParseAssign(old(ts), old(pool)) == if ok then Parsed(t, ts, pool) else Failed
      decreases |ts|, 20
    {
      hide ParseBinary, MakeNode;
      ok, t := BinaryExpr(1);
      if ok && ts != [] && ts[0] == Equals {
        ts := ts[1..];
        var r;
        ok, r := AssignExpr();
        if ok {
          ok, t := NewNode(AssignKind, t, r);
        }
      }
    }

    method BinaryExpr(level: nat) returns (ok: bool, t: Tree)
      requires 1 <= level <= 7
      modifies this
      ensures ParseBinary(level, old(ts), old(pool)) == if ok then Parsed(t, ts, pool) else Failed
      decreases |ts|, 19 - level
    {
      hide ParseCast, MakeNode, OperatorAt;
      if level == 7 {
        ok, t := CastExpr();
        return;
      }
      ok, t := BinaryExpr(level + 1);
      while ok && OperatorAt(level, ts)
        invariant ok ==> |ts| < |old(ts)|
        invariant ParseBinary(level, old(ts), old(pool)) == if ok then MoreBinary(level, t, ts, pool) else Failed
        decreases ok, |ts|
      {
        assert ts != [] && BinaryOf(ts[0]).Some? by { IsOperator(level, ts); }
        var op := BinaryOf(ts[0]).value;
        ts := ts[1..];
        var r;
        ok, r := BinaryExpr(level + 1);
        if ok {
          ok, t := NewNode(BinaryKind(op), t, r);
        }
      }
    }

    method CastExpr() returns (ok: bool, t: Tree)
      modifies this
      ensures ParseCast(old(ts), old(pool)) == if ok then Parsed(t, ts, pool) else Failed
      decreases |ts|, 11
    {
      hide ParseUnary;
      if ts != [] && ts[0] == LeftParen {
        return false, Nil;
      }
      ok, t := UnaryExpr();
    }

    method UnaryExpr() returns (ok: bool, t: Tree)
      modifies this
      ensures ParseUnary(old(ts), old(pool)) == if ok then Parsed(t, ts, pool) else Failed
      decreases |ts|, 10
    {
      hide ParsePostfix, ParseCast, MakeNode, Fresh;
      if ts == [] {
        return false, Nil;
      }
      var first := ts[0];
      if first != Plus && first != Minus && PrefixOf(first).None? {
        ok, t := PostfixExpr();
        return;
      }
      ts := ts[1..];
      ok, t := CastExpr();
      if !ok || first == Plus {
        return;
      }
      if first == Minus {
        var zero;
        ok, zero := NewLeaf(ValueKind(0));
        if ok {
          ok, t := NewNode(BinaryKind(Sub), zero, t);
        }
      } else {
        ok, t := NewNode(PreKind(PrefixOf(first).value), t, Nil);
      }
    }

    /** finsh_node_new_id and the literals. */
    method NewLeaf(kind: Kind) returns (ok: bool, t: Tree)
      modifies this`pool
      ensures ok == (old(pool) > 0) && pool == (if ok then old(pool) - 1 else 0)
      ensures ok ==> t == Fresh(kind, Nil)
    {
      ok, t := NewNode(kind, Nil, Nil);
    }

    method PostfixExpr() returns (ok: bool, t: Tree)
      modifies this
      ensures ParsePostfix(old(ts), old(pool)) == if ok then Parsed(t, ts, pool) else Failed
      decreases |ts|, 9
    {
      hide ParsePrimary, ParseParams, MakeNode;
      ok, t := PrimaryExpr();
      while ok && ts != [] && (ts[0] == PlusPlus || ts[0] == MinusMinus || ts[0] == LeftParen)
        invariant ok ==> |ts| < |old(ts)|
        invariant ParsePostfix(old(ts), old(pool)) == if ok then MorePostfix(t, ts, pool) else Failed
        decreases ok, |ts|
      {
        var first := ts[0];
        assert ts == [first] + ts[1..];
        ts := ts[1..];
        if first == PlusPlus {
          ok, t := NewNode(PostKind(Inc), t, Nil);
        } else if first == MinusMinus {
          ok, t := NewNode(PostKind(Dec), t, Nil);
        } else {
          ok, t := Arguments(t);
        }
      }
    }

    /** What follows the opening parenthesis of a call. */
    method Arguments(f: Tree) returns (ok: bool, t: Tree)
      modifies this
      ensures MorePostfix(f, [LeftParen] + old(ts), old(pool)) == if ok then MorePostfix(t, ts, pool) else Failed
      ensures ok ==> |ts| <= |old(ts)|
      decreases |ts|, 22
    {
      hide ParseParams, MakeNode;
      ghost var all := [LeftParen] + ts;
      assert all[1..] == ts;
      if ts != [] && ts[0] == RightParen {
        assert all[2..] == ts[1..];
        ts := ts[1..];
        ok, t := NewNode(CallKind, f, Nil);
        return;
      }
      var args;
      t := f;
      ok, args := ParamList();
      if ok {
        ok := ts != [] && ts[0] == RightParen;
        if ok {
          ts := ts[1..];
          ok, t := NewNode(CallKind, f, args);
        }
      }
    }

    method PrimaryExpr() returns (ok: bool, t: Tree)
      modifies this
      ensures ParsePrimary(old(ts), old(pool)) == if ok then Parsed(t, ts, pool) else Failed
    {
      if ts == [] {
        return false, Nil;
      }
      match ts[0]
      case Ident(s) =>
        ts := ts[1..];
        ok, t := NewLeaf(NameKind(s));
      case Number(v) =>
        ts := ts[1..];
        ok, t := NewLeaf(ValueKind(v));
      case _ =>
        return false, Nil;
    }

    method ParamList() returns (ok: bool, t: Tree)
      modifies this
      ensures ParseParams(old(ts), old(pool)) == if ok then Parsed(t, ts, pool) else Failed
      decreases |ts|, 21
    {
      hide ParseAssign, Before;
      ok, t := AssignExpr();
      if !ok {
        return;
      }
      var list, last := [], t;
      while ts != [] && ts[0] == Comma
        invariant |ts| < |old(ts)| && AllBefore(list, MoreParams(last, ts, pool)) == ParseParams(old(ts), old(pool))
        decreases |ts|
      {
        ghost var p := ParseParams(ts[1..], pool);
        ts := ts[1..];
        var r;
        ok, r := AssignExpr();
        OneMore(list, last, p);
        if !ok {
          NoneBefore(list + [last]);
          return;
        }
        list, last := list + [last], r;
      }
      t := last;
      while list != []
        invariant AllBefore(list, Parsed(t, ts, pool)) == ParseParams(old(ts), old(pool))
        decreases |list|
      {
        JoinTwo(list[|list| - 1], t, ts, pool);
        t := WithSibling(list[|list| - 1], t);
        list := list[..|list| - 1];
      }
    }
  }

  lemma OneMore(list: seq<Tree>, last: Tree, p: Parsed)
    ensures AllBefore(list, Before(last, p)) == AllBefore(list + [last], p)
  {}

  lemma {:induction false} NoneBefore(list: seq<Tree>)
    ensures AllBefore(list, Failed) == Failed
    decreases |list|
  {
    if list != [] {
      NoneBefore(list[..|list| - 1]);
    }
  }

  lemma JoinTwo(last: Tree, t: Tree, ts: seq<Token>, pool: nat)
    ensures Before(last, Parsed(t, ts, pool)) == Parsed(WithSibling(last, t), ts, pool)
  {}

  lemma IsOperator(level: nat, ts: seq<Token>)
    requires OperatorAt(level, ts)
    ensures ts != [] && BinaryOf(ts[0]).Some?
  {}
}
