/** The finsh stack machine, and what its programs mean. */
module Vm {
  import opened Options
  import opened Words
  import opened Syntax
  import opened Compiler
  import opened Signed
  import opened Bits
  import Arith

  const STACK_MAX := 64

  type Store = map<Addr, bv32>

  // ---------- 32-bit arithmetic; None where C leaves the result undefined ----------

  /** Division toward zero. */
  function Trunc(i: int, j: int): int
    requires j != 0
  {
    if (i < 0) == (j < 0) then Abs(i) / Abs(j) else 0 - Abs(i) / Abs(j)
  }

  function Abs(i: int): nat { if i < 0 then 0 - i else i }

  predicate Dividable(a: bv32, b: bv32) { Int(b) != 0 && !(Int(a) == -0x8000_0000 && Int(b) == -1) }

  function Apply(op: BinOp, a: bv32, b: bv32): Option<bv32> {
    match op
    case Add => Some(FromInt(Int(a) + Int(b)))
    case Sub => Some(FromInt(Int(a) - Int(b)))
    case Mul => Some(FromInt(Int(a) * Int(b)))
    case Div => if Dividable(a, b) then Some(FromInt(Trunc(Int(a), Int(b)))) else None
    case Mod => if Dividable(a, b) then Some(FromInt(Int(a) - Trunc(Int(a), Int(b)) * Int(b))) else None
    case And => Some(Both(a, b))
    case Or => Some(Either(a, b))
    case Xor => Some(Differ(a, b))
    case Shl => if Number(b) < 32 then Some(FromInt(Int(a) * Pow2(Number(b)))) else None
    case Shr => if Number(b) < 32 then Some(FromInt(Int(a) / Pow2(Number(b)))) else None
  }

  function Complement(a: bv32): bv32 { Not(a) }

  /** The sum, up to a multiple of 2^32; the difference, which added to the subtrahend gives the minuend; and the product. */
  lemma SumLaws(a: bv32, b: bv32)
    ensures var z := Apply(Add, a, b); z.Some? && (Int(z.value) - Int(a) - Int(b)) % WORDS == 0
    ensures var z := Apply(Sub, a, b); z.Some? && (Int(z.value) + Int(b) - Int(a)) % WORDS == 0
    ensures var z := Apply(Mul, a, b); z.Some? && (Int(z.value) - Int(a) * Int(b)) % WORDS == 0
  {
    hide Int, FromInt, Wrap;
    IntOfWord(Int(a) + Int(b));
    IntOfWord(Int(a) - Int(b));
    IntOfWord(Int(a) * Int(b));
    WrapIs(Int(a) + Int(b));
    WrapIs(Int(a) - Int(b));
    WrapIs(Int(a) * Int(b));
  }

  lemma TruncTimes(i: int, j: int, x: int, y: int, q: int)
    requires j != 0 && x == Abs(i) && y == Abs(j) && q == x / y
    ensures Trunc(i, j) * j == if i < 0 then 0 - q * y else q * y
  {
    Signs(q, y);
  }

  lemma DivParts(x: int, y: int, q: int)
    requires y > 0 && q == x / y
    ensures 0 <= x - q * y < y
  {}

  lemma TruncLaws(i: int, j: int)
    requires j != 0
    ensures var r := i - Trunc(i, j) * j;
            Abs(r) < Abs(j) && (r == 0 || (r < 0) == (i < 0)) && Abs(Trunc(i, j)) <= Abs(i)
  {
    var x: int, y: int := Abs(i), Abs(j);
    var q := x / y;
    DivParts(x, y, q);
    DivSmaller(x, y);
    TruncTimes(i, j, x, y, q);
  }

  lemma DivSmaller(x: nat, y: nat)
    requires y > 0
    ensures x / y <= x
  {
    if x / y > x {
      Arith.MulMonotone(y, x + 1, x / y);
      Arith.MulMonotone(x + 1, 1, y);
    }
  }

  lemma Signs(q: int, y: int)
    ensures (0 - q) * y == 0 - q * y && q * (0 - y) == 0 - q * y && (0 - q) * (0 - y) == q * y
  {}

  /** Quotient and remainder of C: together they give the dividend, the remainder is smaller than the divisor and has the
      sign of the dividend.  There is neither exactly for a zero divisor and for INT_MIN / -1. */
  lemma DivLaws(a: bv32, b: bv32)
    ensures var q, r := Apply(Div, a, b), Apply(Mod, a, b);
            && (q.Some? <==> r.Some?)
            && (q.None? <==> Int(b) == 0 || (Int(a) == -0x8000_0000 && Int(b) == -1))
            && (q.Some? ==> && Int(q.value) * Int(b) + Int(r.value) == Int(a)
                            && Abs(Int(r.value)) < Abs(Int(b))
                            && (Int(r.value) == 0 || (Int(r.value) < 0) == (Int(a) < 0)))
  {
    hide Int, FromInt, Wrap, Trunc;
    IntRange(a);
    IntRange(b);
    if Dividable(a, b) {
      var i, j := Int(a), Int(b);
      TruncLaws(i, j);
      TruncRange(i, j);
      IntOfWord(Trunc(i, j));
      IntOfWord(i - Trunc(i, j) * j);
    }
  }

  lemma TruncRange(i: int, j: int)
    requires -0x8000_0000 <= i < 0x8000_0000 && j != 0 && !(i == -0x8000_0000 && j == -1)
    ensures Trunc(i, j) < 0x8000_0000
  {
    hide Trunc;
    TruncLaws(i, j);
    if Trunc(i, j) == 0x8000_0000 {
      assert i == -0x8000_0000;
      Arith.MulMonotone(0x8000_0000, j, -2);
    }
  }

  /** The bitwise operators, bit by bit. */
  lemma BitLaws(a: bv32, b: bv32, k: nat)
    requires k < 32
    ensures var z := Apply(And, a, b); z.Some? && (Bit(z.value, k) <==> Bit(a, k) && Bit(b, k))
    ensures var z := Apply(Or, a, b); z.Some? && (Bit(z.value, k) <==> Bit(a, k) || Bit(b, k))
    ensures var z := Apply(Xor, a, b); z.Some? && (Bit(z.value, k) <==> Bit(a, k) != Bit(b, k))
    ensures Bit(Complement(a), k) <==> !Bit(a, k)
  {
    hide Bit, Both, Either, Differ, Not;
    BitOps(a, b, k);
    BitNot(a, k);
  }

  /** Shifts are products with powers of two and divisions that round down; there is no result exactly for counts outside 0
      to 31. */
  lemma ShiftLaws(a: bv32, b: bv32)
    ensures var l, r := Apply(Shl, a, b), Apply(Shr, a, b);
            && (l.Some? <==> 0 <= Int(b) < 32) && (r.Some? <==> 0 <= Int(b) < 32)
            && (l.Some? ==> (Int(l.value) - Int(a) * Pow2(Int(b))) % WORDS == 0)
            && (r.Some? ==> Int(r.value) * Pow2(Int(b)) <= Int(a) < (Int(r.value) + 1) * Pow2(Int(b)))
  {
    hide FromInt, Wrap, Negative, Number, Pow2;
    NumberBound(b);
    IntRange(b);
    IntRange(a);
    if Number(b) < 32 {
      var p := Pow2(Int(b));
      IntOfWord(Int(a) * p);
      WrapIs(Int(a) * p);
      Floor(Int(a), p);
      IntOfWord(Int(a) / p);
    }
  }

  lemma Floor(i: int, p: nat)
    requires p > 0 && -0x8000_0000 <= i < 0x8000_0000
    ensures (i / p) * p <= i < (i / p + 1) * p && -0x8000_0000 <= i / p < 0x8000_0000
  {
    var q := i / p;
    DivParts(i, p, q);
    if i >= 0 {
      DivSmaller(i, p);
    } else if q < i {
      Arith.MulMonotone(p, q, i - 1);
      Arith.MulMonotone(0 - i, 1, p);
    }
  }

  // ---------- Meaning ----------

  datatype Result = Result(v: bv32, store: Store)

  /** Add or subtract one. */
  function Bumped(v: bv32, inc: bool): Option<bv32> {
    Apply(if inc then Add else Sub, v, 1)
  }

  /** Left-to-right evaluation. */
  function Eval(e: Expr, store: Store): Option<Result>
    requires Simple(e)
  {
    match e
    case Value(v) => Some(Result(v, store))
    case Name(s) => if s.addr in store then Some(Result(store[s.addr], store)) else None
    case Pre(op, x) =>
      if op.Bitwise? then
        match Eval(x, store)
        case None => None
        case Some(r) => Some(Result(Complement(r.v), r.store))
      else EvalBump(x.symbol.addr, op.PreInc?, store, true)
    case Post(op, x) => EvalBump(x.symbol.addr, op.Inc?, store, false)
    case Binary(op, l, r) =>
      (match Eval(l, store)
       case None => None
       case Some(x) =>
         match Eval(r, x.store)
         case None => None
         case Some(y) =>
           match Apply(op, x.v, y.v)
           case None => None
           case Some(z) => Some(Result(z, y.store)))
    case Assign(l, r) =>
      match Eval(r, store)
      case None => None
      case Some(x) =>
        if l.symbol.addr in x.store then Some(Result(x.v, x.store[l.symbol.addr := x.v])) else None
  }

  /** The variable changes by one; the value is the new one or the old one. */
  function EvalBump(a: Addr, inc: bool, store: Store, new': bool): Option<Result> {
    if a in store then
      match Bumped(store[a], inc)
      case None => None
      case Some(z) => Some(Result(if new' then z else store[a], store[a := z]))
    else None
  }

  // ---------- The machine ----------

  datatype Machine = Machine(stack: seq<bv32>, store: Store, pc: nat)

  function Push(m: Machine, v: bv32, pc: nat): Option<Machine> {
    if |m.stack| < STACK_MAX then Some(Machine(m.stack + [v], m.store, pc)) else None
  }

  /** The binary operator of an opcode. */
  function Decode(op: byte): Option<BinOp> {
    if op == 0x03 then Some(Add) else if op == 0x06 then Some(Sub)
    else if op == 0x09 then Some(Div) else if op == 0x0c then Some(Mod)
    else if op == 0x0f then Some(Mul) else if op == 0x12 then Some(And)
    else if op == 0x15 then Some(Or) else if op == 0x18 then Some(Xor)
    else if op == 0x1e then Some(Shl) else if op == 0x21 then Some(Shr)
    else None
  }

  /** One instruction; None where the machine reads or writes outside its stack, its text or the variables. */
  function Step(text: seq<byte>, m: Machine): (r: Option<Machine>)
    requires m.pc < |text|
    ensures r.Some? ==> r.value.pc > m.pc
  {
    var op, n, pc := text[m.pc], |m.stack|, m.pc + 1;
    if op == 0x00 then Some(m.(pc := pc))
    else if op == LD_DWORD then
      if pc + 4 <= |text| then Push(m, FromLe32(text[pc..pc + 4]), pc + 4) else None
    else if op == LD_VALUE_DWORD then
      if pc + 4 <= |text| && Addr(FromLe32(text[pc..pc + 4])) in m.store
      then Push(m, m.store[Addr(FromLe32(text[pc..pc + 4]))], pc + 4) else None
    else if op == LD_VALUE_DWORD_STACK then
      if n >= 1 && Addr(m.stack[n - 1]) in m.store
      then Some(Machine(m.stack[..n - 1] + [m.store[Addr(m.stack[n - 1])]], m.store, pc)) else None
    else if op == ST_DWORD then
      if n >= 2 && Addr(m.stack[n - 2]) in m.store
      then Some(Machine(m.stack[..n - 1], m.store[Addr(m.stack[n - 2]) := m.stack[n - 1]], pc)) else None
    else if op == POP then
      if n >= 1 then Some(Machine(m.stack[..n - 1], m.store, pc)) else None
    else if op == BITWISE_DWORD then
      if n >= 1 then Some(Machine(m.stack[..n - 1] + [Complement(m.stack[n - 1])], m.store, pc)) else None
    else
      match Decode(op)
      case None => None
      case Some(bin) =>
        if n >= 2 then
          match Apply(bin, m.stack[n - 2], m.stack[n - 1])
          case None => None
          case Some(z) => Some(Machine(m.stack[..n - 2] + [z], m.store, pc))
        else None
  }

  /** finsh_vm_run: until the program counter leaves the text segment. */
  function Exec(text: seq<byte>, m: Machine): Option<Machine>
    decreases if m.pc < |text| then |text| - m.pc else 0
  {
    if m.pc >= |text| then Some(m)
    else
      match Step(text, m)
      case None => None
      case Some(m') => Exec(text, m')
  }

  // ---------- Single instructions ----------

  /** The bytes `c` stand in the text at `pc`. */
  ghost predicate Stands(text: seq<byte>, pc: nat, c: seq<byte>) {
    pc + |c| <= |text| && text[pc..pc + |c|] == c
  }

  lemma StandsSplit(text: seq<byte>, pc: nat, a: seq<byte>, b: seq<byte>)
    requires Stands(text, pc, a + b)
    ensures Stands(text, pc, a) && Stands(text, pc + |a|, b)
  {
    SliceParts(text, pc, a, b, []);
  }

  ghost function Then(text: seq<byte>, r: Option<Machine>): Option<Machine> {
    match r
    case None => None
    case Some(m) => Exec(text, m)
  }

  lemma ExecStep(text: seq<byte>, m: Machine)
    requires m.pc < |text|
    ensures Exec(text, m) == Then(text, Step(text, m))
  {}

  lemma Operand(text: seq<byte>, pc: nat, op: byte, v: bv32)
    requires Stands(text, pc, [op] + ToLe32(v))
    ensures |ToLe32(v)| == 4 && pc + 5 <= |text| && text[pc] == op && FromLe32(text[pc + 1..pc + 5]) == v
  {}

  lemma ExecLd(text: seq<byte>, m: Machine, v: bv32)
    requires Stands(text, m.pc, Ld(v)) && |m.stack| < STACK_MAX
    ensures |Ld(v)| == 5 && Exec(text, m) == Exec(text, Machine(m.stack + [v], m.store, m.pc + 5))
  {
    hide ToLe32, FromLe32, Exec;
    Operand(text, m.pc, LD_DWORD, v);
    ExecStep(text, m);
  }

  lemma ExecLdValue(text: seq<byte>, m: Machine, a: Addr)
    requires Stands(text, m.pc, LdValue(a)) && |m.stack| < STACK_MAX
    ensures |LdValue(a)| == 5
    ensures Exec(text, m) == if a in m.store then Exec(text, Machine(m.stack + [m.store[a]], m.store, m.pc + 5)) else None
  {
    hide ToLe32, FromLe32, Exec;
    Operand(text, m.pc, LD_VALUE_DWORD, a.word);
    ExecStep(text, m);
  }

  /** An instruction without operand. */
  lemma ExecPlain(text: seq<byte>, m: Machine, op: byte)
    requires Stands(text, m.pc, [op])
    ensures m.pc < |text| && text[m.pc] == op && Exec(text, m) == Then(text, Step(text, m))
  {}

  lemma DecodeOp(op: BinOp)
    ensures Decode(OpCode(op)) == Some(op)
    ensures var c := OpCode(op);
            c != 0 && c != LD_DWORD && c != LD_VALUE_DWORD && c != LD_VALUE_DWORD_STACK && c != ST_DWORD && c != POP && c != BITWISE_DWORD
  {}

  lemma ExecBin(text: seq<byte>, m: Machine, op: BinOp, s: seq<bv32>, x: bv32, y: bv32)
    requires Stands(text, m.pc, [OpCode(op)]) && m.stack == s + [x] + [y]
    ensures Exec(text, m) == match Apply(op, x, y)
                             case None => None
                             case Some(z) => Exec(text, Machine(s + [z], m.store, m.pc + 1))
  {
    hide Exec, Apply, Decode, OpCode;
    ExecPlain(text, m, OpCode(op));
    DecodeOp(op);
    assert m.stack[..|m.stack| - 2] == s;
  }

  lemma ExecBitwise(text: seq<byte>, m: Machine, s: seq<bv32>, x: bv32)
    requires Stands(text, m.pc, [BITWISE_DWORD]) && m.stack == s + [x]
    ensures Exec(text, m) == Exec(text, Machine(s + [Complement(x)], m.store, m.pc + 1))
  {
    hide Exec, Decode, Complement;
    ExecPlain(text, m, BITWISE_DWORD);
    assert m.stack[..|m.stack| - 1] == s;
  }

  lemma ExecPop(text: seq<byte>, m: Machine, s: seq<bv32>, x: bv32)
    requires Stands(text, m.pc, [POP]) && m.stack == s + [x]
    ensures Exec(text, m) == Exec(text, Machine(s, m.store, m.pc + 1))
  {
    hide Exec, Decode;
    ExecPlain(text, m, POP);
    assert m.stack[..|m.stack| - 1] == s;
  }

  lemma ExecStore(text: seq<byte>, m: Machine, s: seq<bv32>, a: Addr, v: bv32)
    requires Stands(text, m.pc, [ST_DWORD]) && m.stack == s + [a.word] + [v]
    ensures Exec(text, m) ==
            if a in m.store then Exec(text, Machine(s + [a.word], m.store[a := v], m.pc + 1)) else None
  {
    hide Exec, Decode;
    ExecPlain(text, m, ST_DWORD);
    assert m.stack[..|m.stack| - 1] == s + [a.word];
  }

  lemma ExecReload(text: seq<byte>, m: Machine, s: seq<bv32>, a: Addr)
    requires Stands(text, m.pc, [LD_VALUE_DWORD_STACK]) && m.stack == s + [a.word] && a in m.store
    ensures Exec(text, m) == Exec(text, Machine(s + [m.store[a]], m.store, m.pc + 1))
  {
    hide Exec, Decode;
    ExecPlain(text, m, LD_VALUE_DWORD_STACK);
    assert m.stack[..|m.stack| - 1] == s;
  }

  // ---------- Expressions ----------

  /** Stack slots an expression needs. */
  function Need(e: Expr): nat
    requires Simple(e)
  {
    match e
    case Value(_) => 1
    case Name(_) => 1
    case Pre(op, x) => if op.Bitwise? then Need(x) else 3
    case Post(_, _) => 4
    case Binary(_, l, r) => if Need(l) < 1 + Need(r) then 1 + Need(r) else Need(l)
    case Assign(_, r) => 1 + Need(r)
  }

  /** Every slot costs at least five bytes of code. */
  lemma {:induction false} NeedBound(e: Expr)
    requires Simple(e)
    ensures 5 <= 5 * Need(e) <= |Gen(e)|
  {
    hide ToLe32;
    match e
    case Pre(op, x) =>
      if op.Bitwise? { NeedBound(x); }
    case Binary(_, l, r) =>
      NeedBound(l);
      NeedBound(r);
    case Assign(_, r) =>
      NeedBound(r);
    case _ =>
  }

  /** Running on after an expression that was evaluated. */
  ghost function Continue(text: seq<byte>, r: Option<Result>, stack: seq<bv32>, pc: nat): Option<Machine> {
    match r
    case None => None
    case Some(x) => Exec(text, Machine(stack + [x.v], x.store, pc))
  }

  /** Address on the stack: load the variable, change it by one, store it. */
  lemma ExecBump(text: seq<byte>, stack: seq<bv32>, store: Store, pc: nat, a: Addr, inc: bool)
    requires Stands(text, pc, Bump(a, inc)) && |stack| + 3 <= STACK_MAX
    ensures |Bump(a, inc)| == 12
    ensures Exec(text, Machine(stack + [a.word], store, pc)) ==
            if a in store then
              match Bumped(store[a], inc)
              case None => None
              case Some(z) => Exec(text, Machine(stack + [a.word], store[a := z], pc + 12))
            else None
  {
    hide Exec, Apply, Ld, LdValue, OpCode;
    var op := if inc then Add else Sub;
    LdSizes(a, 1);
    assert Bump(a, inc) == LdValue(a) + (Ld(1) + ([OpCode(op)] + [ST_DWORD]));
    StandsSplit(text, pc, LdValue(a), Ld(1) + ([OpCode(op)] + [ST_DWORD]));
    StandsSplit(text, pc + 5, Ld(1), [OpCode(op)] + [ST_DWORD]);
    StandsSplit(text, pc + 10, [OpCode(op)], [ST_DWORD]);
    var s := stack + [a.word];
    ExecLdValue(text, Machine(s, store, pc), a);
    if a in store {
      ExecLd(text, Machine(s + [store[a]], store, pc + 5), 1);
      ExecBin(text, Machine(s + [store[a]] + [1], store, pc + 10), op, s, store[a], 1);
      var z := Bumped(store[a], inc);
      if z.Some? {
        ExecStore(text, Machine(s + [z.value], store, pc + 11), stack, a, z.value);
      }
    }
  }

  lemma LdSizes(a: Addr, v: bv32)
    ensures |Ld(v)| == 5 && |LdValue(a)| == 5
  {}

  /** Compiler correctness: the code of an expression pushes exactly its value, leaves the store of its
      evaluation, and fails exactly when evaluation does. */
  lemma {:induction false} ExecGen(text: seq<byte>, e: Expr, stack: seq<bv32>, store: Store, pc: nat)
    requires Simple(e) && Stands(text, pc, Gen(e)) && |stack| + Need(e) <= STACK_MAX
    ensures Exec(text, Machine(stack, store, pc)) == Continue(text, Eval(e, store), stack, pc + |Gen(e)|)
    decreases e, 1
  {
    hide Exec, Apply, Complement, Ld, LdValue, Bump, OpCode;
    match e
    case Value(v) =>
      LdSizes(Addr(0), v);
      ExecLd(text, Machine(stack, store, pc), v);
    case Name(s) =>
      LdSizes(s.addr, 0);
      ExecLdValue(text, Machine(stack, store, pc), s.addr);
    case Pre(op, x) =>
      if op.Bitwise? {
        StandsSplit(text, pc, Gen(x), [BITWISE_DWORD]);
        ExecGen(text, x, stack, store, pc);
        var r := Eval(x, store);
        if r.Some? {
          ExecBitwise(text, Machine(stack + [r.value.v], r.value.store, pc + |Gen(x)|), stack, r.value.v);
        }
      } else {
        ExecPre(text, x.symbol.addr, op.PreInc?, stack, store, pc);
      }
    case Post(op, x) =>
      ExecPost(text, x.symbol.addr, op.Inc?, stack, store, pc);
    case Binary(op, l, r) =>
      ExecBinary(text, op, l, r, stack, store, pc);
    case Assign(l, r) =>
      ExecAssign(text, l, r, stack, store, pc);
  }

  lemma ExecPre(text: seq<byte>, a: Addr, inc: bool, stack: seq<bv32>, store: Store, pc: nat)
    requires var c := Ld(a.word) + Bump(a, inc) + [LD_VALUE_DWORD_STACK]; Stands(text, pc, c)
    requires |stack| + 3 <= STACK_MAX
    ensures |Ld(a.word) + Bump(a, inc) + [LD_VALUE_DWORD_STACK]| == 18
    ensures Exec(text, Machine(stack, store, pc)) == Continue(text, EvalBump(a, inc, store, true), stack, pc + 18)
  {
    hide Exec, Apply, Ld, Bump;
    LdSizes(a, a.word);
    StandsSplit(text, pc, Ld(a.word) + Bump(a, inc), [LD_VALUE_DWORD_STACK]);
    StandsSplit(text, pc, Ld(a.word), Bump(a, inc));
    ExecLd(text, Machine(stack, store, pc), a.word);
    ExecBump(text, stack, store, pc + 5, a, inc);
    if a in store {
      var z := Bumped(store[a], inc);
      if z.Some? {
        ExecReload(text, Machine(stack + [a.word], store[a := z.value], pc + 17), stack, a);
      }
    }
  }

  lemma ExecPost(text: seq<byte>, a: Addr, inc: bool, stack: seq<bv32>, store: Store, pc: nat)
    requires var c := LdValue(a) + Ld(a.word) + Bump(a, inc) + [POP]; Stands(text, pc, c)
    requires |stack| + 4 <= STACK_MAX
    ensures |LdValue(a) + Ld(a.word) + Bump(a, inc) + [POP]| == 23
    ensures Exec(text, Machine(stack, store, pc)) == Continue(text, EvalBump(a, inc, store, false), stack, pc + 23)
  {
    hide Exec, Apply, Ld, LdValue, Bump;
    LdSizes(a, a.word);
    StandsSplit(text, pc, LdValue(a) + Ld(a.word) + Bump(a, inc), [POP]);
    StandsSplit(text, pc, LdValue(a) + Ld(a.word), Bump(a, inc));
    StandsSplit(text, pc, LdValue(a), Ld(a.word));
    ExecLdValue(text, Machine(stack, store, pc), a);
    if a in store {
      var s := stack + [store[a]];
      ExecLd(text, Machine(s, store, pc + 5), a.word);
      ExecBump(text, s, store, pc + 10, a, inc);
      var z := Bumped(store[a], inc);
      if z.Some? {
        ExecPop(text, Machine(s + [a.word], store[a := z.value], pc + 22), s, a.word);
      }
    } else {
      BumpSize(a, inc);
    }
  }

  lemma BumpSize(a: Addr, inc: bool)
    ensures |Bump(a, inc)| == 12
  {}

  lemma {:induction false} ExecBinary(text: seq<byte>, op: BinOp, l: Expr, r: Expr, stack: seq<bv32>, store: Store, pc: nat)
    requires Simple(l) && Simple(r) && Stands(text, pc, Gen(l) + Gen(r) + [OpCode(op)])
    requires |stack| + Need(Binary(op, l, r)) <= STACK_MAX
    ensures Exec(text, Machine(stack, store, pc)) ==
            Continue(text, Eval(Binary(op, l, r), store), stack, pc + |Gen(l)| + |Gen(r)| + 1)
    decreases Binary(op, l, r), 0
  {
    hide Exec, Apply, OpCode, Gen;
    StandsSplit(text, pc, Gen(l) + Gen(r), [OpCode(op)]);
    StandsSplit(text, pc, Gen(l), Gen(r));
    ExecGen(text, l, stack, store, pc);
    var x := Eval(l, store);
    if x.Some? {
      var s, at := stack + [x.value.v], pc + |Gen(l)|;
      ExecGen(text, r, s, x.value.store, at);
      var y := Eval(r, x.value.store);
      if y.Some? {
        ExecBin(text, Machine(s + [y.value.v], y.value.store, at + |Gen(r)|), op, stack, x.value.v, y.value.v);
      }
    }
  }

  lemma {:induction false} ExecAssign(text: seq<byte>, l: Expr, r: Expr, stack: seq<bv32>, store: Store, pc: nat)
    requires IsVariable(l) && Simple(r)
    requires Stands(text, pc, Ld(l.symbol.addr.word) + Gen(r) + [ST_DWORD, LD_VALUE_DWORD_STACK])
    requires |stack| + 1 + Need(r) <= STACK_MAX
    ensures |Ld(l.symbol.addr.word)| == 5
    ensures Exec(text, Machine(stack, store, pc)) ==
            Continue(text, Eval(Assign(l, r), store), stack, pc + 5 + |Gen(r)| + 2)
    decreases Assign(l, r), 0
  {
    hide Exec, Apply, Ld, Gen;
    var a := l.symbol.addr;
    LdSizes(a, a.word);
    StandsSplit(text, pc, Ld(a.word) + Gen(r), [ST_DWORD, LD_VALUE_DWORD_STACK]);
    StandsSplit(text, pc, Ld(a.word), Gen(r));
    var at := pc + 5 + |Gen(r)|;
    assert [ST_DWORD, LD_VALUE_DWORD_STACK] == [ST_DWORD] + [LD_VALUE_DWORD_STACK];
    StandsSplit(text, at, [ST_DWORD], [LD_VALUE_DWORD_STACK]);
    ExecLd(text, Machine(stack, store, pc), a.word);
    var s := stack + [a.word];
    ExecGen(text, r, s, store, pc + 5);
    var x := Eval(r, store);
    if x.Some? {
      var v, st := x.value.v, x.value.store;
      ExecStore(text, Machine(s + [v], st, at), stack, a, v);
      if a in st {
        ExecReload(text, Machine(s, st[a := v], at + 1), stack, a);
      }
    }
  }

  // ---------- Programs ----------

  /** Statement after statement; the value of the last. */
  function EvalAll(es: Exprs, store: Store): Option<Result>
    requires es.More? && AllSimple(es)
  {
    match Eval(es.head, store)
    case None => None
    case Some(r) => if es.tail.More? then EvalAll(es.tail, r.store) else Some(r)
  }

  lemma {:induction false} ExecAll(text: seq<byte>, es: Exprs, store: Store, pc: nat)
    requires es.More? && AllSimple(es) && Stands(text, pc, GenAll(es)) && |text| <= 5 * STACK_MAX
    ensures Exec(text, Machine([], store, pc)) == Continue(text, EvalAll(es, store), [], pc + |GenAll(es)|)
    decreases es
  {
    hide Exec, Eval, Gen;
    var c := Gen(es.head);
    NeedBound(es.head);
    if es.tail.More? {
      StandsSplit(text, pc, c, [POP] + GenAll(es.tail));
      StandsSplit(text, pc + |c|, [POP], GenAll(es.tail));
      ExecGen(text, es.head, [], store, pc);
      var r := Eval(es.head, store);
      if r.Some? {
        ExecPop(text, Machine([] + [r.value.v], r.value.store, pc + |c|), [], r.value.v);
        ExecAll(text, es.tail, r.value.store, pc + |c| + 1);
      }
    } else {
      assert GenAll(es) == c;
      ExecGen(text, es.head, [], store, pc);
    }
  }

  /** The rest of the text segment is no-operations. */
  lemma {:induction false} ExecZeros(text: seq<byte>, m: Machine)
    requires m.pc <= |text| && forall i | m.pc <= i < |text| :: text[i] == 0
    ensures Exec(text, m) == Some(m.(pc := |text|))
    decreases |text| - m.pc
  {
    if m.pc < |text| {
      ExecZeros(text, m.(pc := m.pc + 1));
    }
  }

  /** Compile and run: the machine stops with one value at the bottom of the stack, that of the last
      statement, and the store evaluation leaves; it fails exactly when evaluation does. */
  lemma RunProgram(es: Exprs, store: Store)
    requires es.More? && AllSimple(es) && |GenAll(es)| <= TEXT_MAX
    ensures var c := Program0(TypeCheck(ListTree(es), false));
            && |c| <= TEXT_MAX
            && Exec(Program(Zeros(TEXT_MAX), 0, c), Machine([], store, 0)) ==
               match EvalAll(es, store)
               case None => None
               case Some(r) => Some(Machine([r.v], r.store, TEXT_MAX))
  {
    hide Exec, EvalAll, GenAll, Program0, TypeCheck, Zeros, Program;
    ProgramIsGen(es);
    var c := GenAll(es);
    var text := Program(Zeros(TEXT_MAX), 0, c);
    ProgramReads(Zeros(TEXT_MAX), 0, c);
    ExecAll(text, es, store, 0);
    var r := EvalAll(es, store);
    if r.Some? {
      TailZeros(text, c);
      ExecZeros(text, Machine([] + [r.value.v], r.value.store, |c|));
      assert [] + [r.value.v] == [r.value.v];
    }
  }

  lemma TailZeros(text: seq<byte>, c: seq<byte>)
    requires |c| <= TEXT_MAX && text == Program(Zeros(TEXT_MAX), 0, c)
    ensures forall i | |c| <= i < TEXT_MAX :: text[i] == 0
  {}

  /** finsh_vm_run. */
  method Run(text: seq<byte>, store: Store) returns (r: Option<Machine>)
    ensures r == Exec(text, Machine([], store, 0))
  {
    hide Step;
    var m := Machine([], store, 0);
    while m.pc < |text|
      invariant Exec(text, m) == Exec(text, Machine([], store, 0))
      decreases if m.pc < |text| then |text| - m.pc else 0
    {
      var next := Step(text, m);
      if next.None? {
        return None;
      }
      m := next.value;
    }
    r := Some(m);
  }
}
