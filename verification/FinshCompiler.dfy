/** The finsh compiler (components/finsh/finsh_compiler.c) on the DWORD fragment: the type and
    address annotation pass, the byte-code emitter and the statement loop, as functions on the
    child/sibling tree; and the proof that compiled code means what the expression means. */
module FinshCompiler {
  import opened FinshVm
  import opened Lists
  import opened Words

  datatype Kind =
    | Id | Value | Binary(op: BinOp) | Bitwise | Assign
    | PreInc | PreDec | Inc | Dec | GetValue | GetAddr

  datatype DataType = Void | Dword

  /** What an identifier node refers to: a finsh variable or an exported system variable.  Of the
      variable types, int, long and pointers to them all have data type DWORD. */
  datatype Symbol = Variable(address: Word) | SystemVariable(address: Word)

  /** A node of the parser's tree with its child and sibling links.  `addr` is the ADDRESS bit of
      `idtype`; the parser leaves it clear and `data_type` void. */
  datatype Tree =
    | Nil
    | Node(kind: Kind, sym: Option<Symbol>, val: Word, addr: bool, dtype: DataType, child: Tree, sibling: Tree)

  // ----- finsh_type_check -----

  function ChildIsAddress(kind: Kind, isAddr: bool): bool {
    if kind in {Assign, PreInc, PreDec, GetAddr} then true
    else if kind == GetValue && isAddr then false
    else isAddr
  }

  function OwnType(kind: Kind, sym: Option<Symbol>, dtype: DataType): DataType {
    if kind == Value || (kind == Id && sym.Some?) then Dword else dtype
  }

  function Annotate(t: Tree, isAddr: bool): Tree {
    match t
    case Nil => Nil
    case Node(kind, sym, val, addr, dtype, child, sibling) =>
      var child' := Annotate(child, ChildIsAddress(kind, isAddr));
      var dtype' := if child'.Node? then child'.dtype else OwnType(kind, sym, dtype);
      Node(kind, sym, val, addr || isAddr, dtype', child', Annotate(sibling, false))
  }

  // ----- finsh_compile -----

  /** What a node looks at in its first child. */
  datatype Head = Head(kind: Kind, sym: Option<Symbol>, dtype: DataType)

  function HeadOf(t: Tree): Option<Head> {
    if t.Nil? then None else Some(Head(t.kind, t.sym, t.dtype))
  }

  /** The bytes a node adds after those of its children. */
  function OwnCode(kind: Kind, sym: Option<Symbol>, val: Word, addr: bool, dtype: DataType,
                   child: Option<Head>): seq<Byte> {
    match kind
    case Id => if sym.None? then [] else Load(if addr then OP_LD else OP_LD_VALUE, sym.value.address)
    case Value => Load(OP_LD, val)
    case Binary(op) => if dtype == Dword then [OpCode(op)] else []
    case Bitwise => if dtype == Dword then [OP_BITWISE] else []
    case Assign =>
      if child.Some? && child.value.kind in {Id, GetValue} && child.value.dtype == Dword then [OP_ST] + [OP_LD_STACK] else []
    case PreInc => StepCode(child, dtype, OP_ADD, false)
    case PreDec => StepCode(child, dtype, OP_SUB, false)
    case Inc => StepCode(child, dtype, OP_ADD, true)
    case Dec => StepCode(child, dtype, OP_SUB, true)
    case GetValue => if !addr && dtype == Dword then [OP_LD_STACK] else []
    case GetAddr => []
  }

  /** `++` and `--`.  The prefix forms find the address on the stack already; the postfix forms
      find the old value there, load the address themselves and drop it again. */
  function StepCode(child: Option<Head>, dtype: DataType, op: Byte, postfix: bool): seq<Byte> {
    if child.Some? && child.value.kind == Id && child.value.sym.Some? && child.value.sym.value.Variable? && dtype == Dword then
      StepBytes(child.value.sym.value.address, op, postfix)
    else []
  }

  function StepBytes(a: Word, op: Byte, postfix: bool): seq<Byte> {
    (if postfix then Load(OP_LD, a) else []) + Load(OP_LD_VALUE, a) + Load(OP_LD, 1) + [op] + [OP_ST]
    + [if postfix then OP_POP else OP_LD_STACK]
  }

  function Emit(t: Tree): seq<Byte> {
    match t
    case Nil => []
    case Node(kind, sym, val, addr, dtype, child, sibling) =>
      Emit(child) + OwnCode(kind, sym, val, addr, dtype, HeadOf(child)) + Emit(sibling)
  }

  /** The statement loop of `finsh_compiler_run`: every statement but the last is popped. */
  function EmitProgram(t: Tree): seq<Byte> {
    if t.Nil? then []
    else Emit(t.(sibling := Nil)) + (if t.sibling.Nil? then [] else [OP_POP] + EmitProgram(t.sibling))
  }

  function Compile(t: Tree): seq<Byte> {
    EmitProgram(Annotate(t, false))
  }

  // ----- the source language and its meaning -----

  datatype LValue = Named(sym: Symbol) | Pointed(pointer: Expr)

  datatype Expr =
    | Const(w: Word)
    | Read(lv: LValue)
    | Compute(op: BinOp, left: Expr, right: Expr)
    | Complement(e: Expr)
    | Set(lv: LValue, e: Expr)
    | Step(address: Word, up: bool, postfix: bool)
    | AddressOf(lv: LValue)

  function Stepped(up: bool, x: Word): Word { if up then Sum(x, 1) else Difference(x, 1) }

  /** Direct left-to-right evaluation.  None where C leaves an operation undefined. */
  function Eval(e: Expr, mem: Memory): Option<(Word, Memory)>
  {
    match e
    case Const(w) => Some((w, mem))
    case Read(lv) =>
      (match Locate(lv, mem)
       case None => None
       case Some((a, mem)) => Some((Load32(mem, a), mem)))
    case Compute(op, l, r) =>
      (match Eval(l, mem)
       case None => None
       case Some((x, mem)) =>
         match Eval(r, mem)
         case None => None
         case Some((y, mem)) =>
           match Apply(op, x, y)
           case None => None
           case Some(w) => Some((w, mem)))
    case Complement(e) =>
      (match Eval(e, mem)
       case None => None
       case Some((x, mem)) => Some((Inverted(x), mem)))
    case Set(lv, e) =>
      (match Locate(lv, mem)
       case None => None
       case Some((a, mem)) =>
         match Eval(e, mem)
         case None => None
         case Some((x, mem)) => Some((x, Store32(mem, a, x))))
    case Step(a, up, postfix) =>
      var x := Load32(mem, a);
      var y := Stepped(up, x);
      Some((if postfix then x else y, Store32(mem, a, y)))
    case AddressOf(lv) => Locate(lv, mem)
  }

  /** The address an l-value denotes. */
  function Locate(lv: LValue, mem: Memory): Option<(Word, Memory)>
  {
    match lv
    case Named(sym) => Some((sym.address, mem))
    case Pointed(e) => Eval(e, mem)
  }

  // ----- what evaluation means -----

  /** Operands from left to right, each operator as in C. */
  lemma ComputeMeans(op: BinOp, l: Expr, r: Expr, mem: Memory, x: Word, m1: Memory, y: Word, m2: Memory)
    requires Eval(l, mem) == Some((x, m1)) && Eval(r, m1) == Some((y, m2))
    ensures match Eval(Compute(op, l, r), mem)
            case Some((w, m)) => m == m2 && Computes(op, x, y, w)
            case None => (op in {Div, Mod} && y == 0) || (op in {Shl, Shr} && y >= 32)
  {
    hide Apply; hide Computes;
    ApplyMeans(op, x, y);
  }

  /** The complement of x is -x - 1. */
  lemma ComplementMeans(e: Expr, mem: Memory, x: Word, m1: Memory)
    requires Eval(e, mem) == Some((x, m1))
    ensures match Eval(Complement(e), mem)
            case Some((w, m)) => m == m1 && Signed(w) == -Signed(x) - 1
            case None => false
  {
    hide Inverted;
    InvertedMeans(x, 0);
  }

  /** An assignment locates its target first, has the value that it assigns, and a read of the target afterwards
      finds it; no other byte changes. */
  lemma SetMeans(lv: LValue, e: Expr, mem: Memory, a: Word, m1: Memory, x: Word, m2: Memory)
    requires Locate(lv, mem) == Some((a, m1)) && Eval(e, m1) == Some((x, m2))
    ensures match Eval(Set(lv, e), mem)
            case Some((w, m)) =>
              && w == x && Load32(m, a) == x
              && forall b: Word :: b !in {a, At(a, 1), At(a, 2), At(a, 3)} ==> m(b) == m2(b)
            case None => false
  {
    hide Store32; hide Load32; hide At;
    LoadAfterStore(m2, a, x);
  }

  /** `++` and `--` move the variable by one; the postfix forms have its value before, the prefix forms after. */
  lemma StepMoves(a: Word, up: bool, postfix: bool, mem: Memory)
    ensures match Eval(Step(a, up, postfix), mem)
            case Some((w, m)) =>
              var (x, y) := (Load32(mem, a), Load32(m, a));
              Means(y, if up then Signed(x) + 1 else Signed(x) - 1) && w == if postfix then x else y
            case None => false
  {
    hide Store32; hide Load32; hide Means; hide Sum; hide Difference;
    var x := Load32(mem, a);
    LoadAfterStore(mem, a, Stepped(up, x));
    ArithmeticMeans(x, 1);
  }

  /** `*&` leaves an l-value what it is. */
  lemma PointedAddress(lv: LValue, mem: Memory)
    ensures Locate(Pointed(AddressOf(lv)), mem) == Locate(lv, mem)
    ensures Eval(Read(Pointed(AddressOf(lv))), mem) == Eval(Read(lv), mem)
  {
    hide Load32;
  }

  // ----- the tree the parser builds -----

  function New(kind: Kind, child: Tree, sibling: Tree): Tree {
    Node(kind, None, 0, false, Void, child, sibling)
  }

  function Parse(e: Expr, sibling: Tree): Tree {
    match e
    case Const(w) => Node(Value, None, w, false, Void, Nil, sibling)
    case Read(lv) => ParseLValue(lv, sibling)
    case Compute(op, l, r) => New(Binary(op), Parse(l, Parse(r, Nil)), sibling)
    case Complement(e) => New(Bitwise, Parse(e, Nil), sibling)
    case Set(lv, e) => New(Assign, ParseLValue(lv, Parse(e, Nil)), sibling)
    case Step(a, up, postfix) =>
      New(if postfix then (if up then Inc else Dec) else (if up then PreInc else PreDec),
          Node(Id, Some(Variable(a)), 0, false, Void, Nil, Nil), sibling)
    case AddressOf(lv) => New(GetAddr, ParseLValue(lv, Nil), sibling)
  }

  function ParseLValue(lv: LValue, sibling: Tree): Tree {
    match lv
    case Named(sym) => Node(Id, Some(sym), 0, false, Void, Nil, sibling)
    case Pointed(e) => New(GetValue, Parse(e, Nil), sibling)
  }

  function ParseAll(es: seq<Expr>): Tree {
    if es == [] then Nil else Parse(es[0], ParseAll(es[1..]))
  }

  // ----- what the annotated tree emits -----

  /** The code of an expression, and of the address of an l-value. */
  function Code(e: Expr): seq<Byte>
  {
    match e
    case Const(w) => Load(OP_LD, w)
    case Read(Named(sym)) => Load(OP_LD_VALUE, sym.address)
    case Read(Pointed(p)) => Code(p) + [OP_LD_STACK]
    case Compute(op, l, r) => Code(l) + Code(r) + [OpCode(op)]
    case Complement(e) => Code(e) + [OP_BITWISE]
    case Set(lv, e) => AddressCode(lv) + Code(e) + ([OP_ST] + [OP_LD_STACK])
    case Step(a, up, postfix) =>
      Load(if postfix then OP_LD_VALUE else OP_LD, a)
      + StepBytes(a, if up then OP_ADD else OP_SUB, postfix)
    case AddressOf(lv) => AddressCode(lv)
  }

  function AddressCode(lv: LValue): seq<Byte>
  {
    match lv
    case Named(sym) => Load(OP_LD, sym.address)
    case Pointed(e) => Code(e)
  }

  /** One level of annotation and emission. */
  lemma EmitNode(kind: Kind, child: Tree, sibling: Tree, isAddr: bool)
    requires child.Node?
    ensures var child' := Annotate(child, ChildIsAddress(kind, isAddr));
            var t := Annotate(New(kind, child, sibling), isAddr);
            && child'.Node? && t.Node? && t.kind == kind && t.dtype == child'.dtype
            && Emit(t) == Emit(child') + OwnCode(kind, None, 0, isAddr, child'.dtype, HeadOf(child'))
                          + Emit(Annotate(sibling, false))
  {
  }

  ghost predicate Emits(t: Tree, code: seq<Byte>, sibling: Tree) {
    t.Node? && t.dtype == Dword && Emit(t) == code + Emit(Annotate(sibling, false))
  }

  /** The annotation pass marks exactly the l-values in address position, and types every node
      DWORD, so that the emitter produces `Code`. */
  lemma {:induction false} EmitsCode(e: Expr, sibling: Tree)
    ensures Emits(Annotate(Parse(e, sibling), false), Code(e), sibling)
    decreases e
  {
    hide Load; hide Emit; hide Annotate;
    assert Emit(Annotate(Nil, false)) == [] by { EmitNil(); }
    match e
    case Const(w) => EmitsLeaf(Value, None, w, false, sibling);
    case Read(Named(sym)) => EmitsLeaf(Id, Some(sym), 0, false, sibling);
    case Read(Pointed(p)) =>
      EmitsCode(p, Nil);
      EmitsRead(p, sibling);
    case Compute(op, l, r) =>
      EmitsCode(l, Parse(r, Nil));
      EmitsCode(r, Nil);
      EmitsCompute(op, l, r, sibling);
    case Complement(e1) =>
      EmitsCode(e1, Nil);
      EmitsComplement(e1, sibling);
    case Set(lv, e1) =>
      EmitsAddress(lv, Parse(e1, Nil));
      EmitsCode(e1, Nil);
      EmitsSet(lv, e1, sibling);
    case Step(a, up, postfix) => EmitsStep(a, up, postfix, sibling);
    case AddressOf(lv) =>
      EmitsAddress(lv, Nil);
      EmitNode(GetAddr, ParseLValue(lv, Nil), sibling, false);
  }

  lemma EmitsRead(e: Expr, sibling: Tree)
    requires Emits(Annotate(Parse(e, Nil), false), Code(e), Nil)
    ensures Emits(Annotate(Parse(Read(Pointed(e)), sibling), false), Code(Read(Pointed(e))), sibling)
  {
    hide Load; hide Emit; hide Annotate;
    EmitNil();
    EmitNode(GetValue, Parse(e, Nil), sibling, false);
  }

  lemma EmitsComplement(e: Expr, sibling: Tree)
    requires Emits(Annotate(Parse(e, Nil), false), Code(e), Nil)
    ensures Emits(Annotate(Parse(Complement(e), sibling), false), Code(Complement(e)), sibling)
  {
    hide Load; hide Emit; hide Annotate;
    EmitNil();
    EmitNode(Bitwise, Parse(e, Nil), sibling, false);
  }

  lemma EmitsCompute(op: BinOp, l: Expr, r: Expr, sibling: Tree)
    requires Emits(Annotate(Parse(l, Parse(r, Nil)), false), Code(l), Parse(r, Nil))
    requires Emits(Annotate(Parse(r, Nil), false), Code(r), Nil)
    ensures Emits(Annotate(Parse(Compute(op, l, r), sibling), false), Code(Compute(op, l, r)), sibling)
  {
    hide Load; hide Emit; hide Annotate; hide OpCode;
    EmitNil();
    EmitNode(Binary(op), Parse(l, Parse(r, Nil)), sibling, false);
  }

  lemma EmitsSet(lv: LValue, e: Expr, sibling: Tree)
    requires var t := Annotate(ParseLValue(lv, Parse(e, Nil)), true);
             Emits(t, AddressCode(lv), Parse(e, Nil)) && t.kind in {Id, GetValue}
    requires Emits(Annotate(Parse(e, Nil), false), Code(e), Nil)
    ensures Emits(Annotate(Parse(Set(lv, e), sibling), false), Code(Set(lv, e)), sibling)
  {
    hide Load; hide Emit; hide Annotate;
    EmitNil();
    EmitNode(Assign, ParseLValue(lv, Parse(e, Nil)), sibling, false);
  }

  lemma {:induction false} EmitsAddress(lv: LValue, sibling: Tree)
    ensures var t := Annotate(ParseLValue(lv, sibling), true);
            Emits(t, AddressCode(lv), sibling) && t.kind in {Id, GetValue}
    decreases lv
  {
    hide Load; hide Emit; hide Annotate;
    match lv
    case Named(sym) => EmitsLeaf(Id, Some(sym), 0, true, sibling);
    case Pointed(e) =>
      EmitNil();
      EmitsCode(e, Nil);
      EmitNode(GetValue, Parse(e, Nil), sibling, true);
  }

  lemma EmitNil()
    ensures Emit(Annotate(Nil, false)) == []
  {
  }

  lemma EmitsLeaf(kind: Kind, sym: Option<Symbol>, val: Word, isAddr: bool, sibling: Tree)
    requires kind == Value || (kind == Id && sym.Some?)
    ensures var t := Annotate(Node(kind, sym, val, false, Void, Nil, sibling), isAddr);
            t.Node? && t.kind == kind && t.sym == sym && Emits(t, OwnCode(kind, sym, val, isAddr, Dword, None), sibling)
  {
    hide OwnCode;
    var raw := Node(kind, sym, val, false, Void, Nil, sibling);
    var t := Annotate(raw, isAddr);
    assert Annotate(Nil, ChildIsAddress(kind, isAddr)) == Nil;
    assert t == Node(kind, sym, val, isAddr, Dword, Nil, Annotate(sibling, false));
    var code := OwnCode(kind, sym, val, isAddr, Dword, None);
    assert Emit(t) == [] + code + Emit(t.sibling);
    assert [] + code == code;
  }

  lemma EmitsStep(a: Word, up: bool, postfix: bool, sibling: Tree)
    ensures Emits(Annotate(Parse(Step(a, up, postfix), sibling), false), Code(Step(a, up, postfix)), sibling)
  {
    hide Load; hide StepBytes; hide Emit; hide Annotate;
    var sym := Some(Variable(a));
    EmitNil();
    EmitsLeaf(Id, sym, 0, !postfix, Nil);
    EmitNode(if postfix then (if up then Inc else Dec) else (if up then PreInc else PreDec),
             Node(Id, sym, 0, false, Void, Nil, Nil), sibling, false);
  }

  // ----- what the emitted code does -----

  /** The stack slots an expression needs. */
  function Depth(e: Expr): nat {
    match e
    case Const(_) => 1
    case Read(lv) => AddressDepth(lv)
    case Compute(_, l, r) => Max(Depth(l), 1 + Depth(r))
    case Complement(e) => Depth(e)
    case Set(lv, e) => Max(AddressDepth(lv), 1 + Depth(e))
    case Step(_, _, postfix) => if postfix then 4 else 3
    case AddressOf(lv) => AddressDepth(lv)
  }

  function AddressDepth(lv: LValue): nat {
    match lv
    case Named(_) => 1
    case Pointed(e) => Depth(e)
  }

  /** The machine that continues after an evaluation: exactly one value is pushed. */
  function After(limit: nat, rest: seq<Byte>, s: seq<Word>, r: Option<(Word, Memory)>): Machine {
    match r
    case None => Fault(Undefined)
    case Some((w, mem)) => Run(limit, rest, Running(s + [w], mem))
  }

  /** From any stack and store with enough slots, the code of an expression pushes the value of
      direct evaluation and leaves the store of direct evaluation; it faults only where direct
      evaluation is undefined, never by underflow, overflow or a bad code. */
  lemma {:induction false} CodeEvaluates(limit: nat, e: Expr, rest: seq<Byte>, s: seq<Word>, mem: Memory)
    requires |s| + Depth(e) <= limit
    ensures Run(limit, Code(e) + rest, Running(s, mem)) == After(limit, rest, s, Eval(e, mem))
    decreases e
  {
    hide Run; hide Load; hide Load32;
    match e
    case Const(w) => RunLoad(limit, OP_LD, w, rest, Running(s, mem));
    case Read(Named(sym)) => RunLoad(limit, OP_LD_VALUE, sym.address, rest, Running(s, mem));
    case Read(Pointed(p)) =>
      assert Code(e) + rest == Code(p) + ([OP_LD_STACK] + rest);
      CodeEvaluates(limit, p, [OP_LD_STACK] + rest, s, mem);
      if Eval(p, mem).Some? {
        var (a, mem1) := Eval(p, mem).value;
        Reload(limit, rest, s, a, mem1);
      }
    case Compute(op, l, r) => ComputeEvaluates(limit, op, l, r, rest, s, mem);
    case Complement(x) =>
      assert Code(e) + rest == Code(x) + ([OP_BITWISE] + rest);
      CodeEvaluates(limit, x, [OP_BITWISE] + rest, s, mem);
      if Eval(x, mem).Some? {
        var (w, mem1) := Eval(x, mem).value;
        Invert(limit, rest, s, w, mem1);
      }
    case Set(lv, x) => SetEvaluates(limit, lv, x, rest, s, mem);
    case Step(a, up, postfix) => StepEvaluates(limit, a, up, postfix, rest, s, mem);
    case AddressOf(lv) => AddressEvaluates(limit, lv, rest, s, mem);
  }

  lemma Reload(limit: nat, rest: seq<Byte>, s: seq<Word>, a: Word, mem: Memory)
    ensures Run(limit, [OP_LD_STACK] + rest, Running(s + [a], mem))
            == Run(limit, rest, Running(s + [Load32(mem, a)], mem))
  {
    hide Run; hide Load32;
    RunOp(limit, OP_LD_STACK, rest, Running(s + [a], mem));
    assert (s + [a])[|s| := Load32(mem, a)] == s + [Load32(mem, a)];
  }

  lemma Invert(limit: nat, rest: seq<Byte>, s: seq<Word>, w: Word, mem: Memory)
    ensures Run(limit, [OP_BITWISE] + rest, Running(s + [w], mem)) == Run(limit, rest, Running(s + [Inverted(w)], mem))
  {
    hide Run;
    RunOp(limit, OP_BITWISE, rest, Running(s + [w], mem));
    assert (s + [w])[|s| := Inverted(w)] == s + [Inverted(w)];
  }

  lemma {:induction false} AddressEvaluates(limit: nat, lv: LValue, rest: seq<Byte>, s: seq<Word>, mem: Memory)
    requires |s| + AddressDepth(lv) <= limit
    ensures Run(limit, AddressCode(lv) + rest, Running(s, mem)) == After(limit, rest, s, Locate(lv, mem))
    decreases lv
  {
    match lv
    case Named(sym) => RunLoad(limit, OP_LD, sym.address, rest, Running(s, mem));
    case Pointed(e) => CodeEvaluates(limit, e, rest, s, mem);
  }

  lemma {:induction false} ComputeEvaluates(
    limit: nat, op: BinOp, l: Expr, r: Expr, rest: seq<Byte>, s: seq<Word>, mem: Memory)
    requires |s| + Depth(Compute(op, l, r)) <= limit
    ensures var e := Compute(op, l, r);
            Run(limit, Code(e) + rest, Running(s, mem)) == After(limit, rest, s, Eval(e, mem))
    decreases Compute(op, l, r), 0
  {
    hide Run; hide Apply; hide OpCode; hide Code;
    var tail := [OpCode(op)] + rest;
    CodeOfCompute(op, l, r, rest);
    CodeEvaluates(limit, l, Code(r) + tail, s, mem);
    if Eval(l, mem).Some? {
      var (x, mem1) := Eval(l, mem).value;
      CodeEvaluates(limit, r, tail, s + [x], mem1);
      if Eval(r, mem1).Some? {
        var (y, mem2) := Eval(r, mem1).value;
        BinaryStep(limit, op, rest, s, x, y, mem2);
      }
    }
  }

  lemma CodeOfCompute(op: BinOp, l: Expr, r: Expr, rest: seq<Byte>)
    ensures Code(Compute(op, l, r)) + rest == Code(l) + (Code(r) + ([OpCode(op)] + rest))
  {
    hide OpCode;
  }

  lemma BinaryStep(limit: nat, op: BinOp, rest: seq<Byte>, s: seq<Word>, x: Word, y: Word, mem: Memory)
    ensures Run(limit, [OpCode(op)] + rest, Running(s + [x] + [y], mem))
            == match Apply(op, x, y)
               case None => Fault(Undefined)
               case Some(w) => Run(limit, rest, Running(s + [w], mem))
  {
    hide Apply; hide Run; hide OpCode; hide Decode; hide HasOperand; hide Arity;
    var m := Running(s + [x] + [y], mem);
    OpCodes(op);
    RunFault(limit, rest, Undefined);
    RunOp(limit, OpCode(op), rest, m);
    assert StackOp(OpCode(op), m) == FinshVm.Binary(op, m);
    assert m.stack[..|s|] == s && m.stack[|s|] == x && m.stack[|s| + 1] == y;
  }

  /** The byte of a binary operation is decoded to that operation. */
  lemma OpCodes(op: BinOp)
    ensures var b := OpCode(op);
            !HasOperand(b) && Decode(b) == Some(op) && Arity(b) == Some(2)
            && b !in {OP_NOOP, OP_POP, OP_BITWISE, OP_LD_STACK, OP_ST}
  {
  }

  lemma {:induction false} SetEvaluates(
    limit: nat, lv: LValue, x: Expr, rest: seq<Byte>, s: seq<Word>, mem: Memory)
    requires |s| + Depth(Set(lv, x)) <= limit
    ensures var e := Set(lv, x);
            Run(limit, Code(e) + rest, Running(s, mem)) == After(limit, rest, s, Eval(e, mem))
    decreases Set(lv, x), 0
  {
    var tail := [OP_ST] + ([OP_LD_STACK] + rest);
    assert Code(Set(lv, x)) + rest == AddressCode(lv) + (Code(x) + tail);
    AddressEvaluates(limit, lv, Code(x) + tail, s, mem);
    if Locate(lv, mem).Some? {
      var (a, mem1) := Locate(lv, mem).value;
      CodeEvaluates(limit, x, tail, s + [a], mem1);
      if Eval(x, mem1).Some? {
        var (w, mem2) := Eval(x, mem1).value;
        StoreAndReload(limit, rest, s, a, w, mem2);
      }
    }
  }

  /** A store leaves the address on the stack, and the reload replaces it by the stored value. */
  lemma StoreAndReload(limit: nat, rest: seq<Byte>, s: seq<Word>, a: Word, w: Word, mem: Memory)
    ensures Run(limit, [OP_ST] + ([OP_LD_STACK] + rest), Running(s + [a] + [w], mem))
            == Run(limit, rest, Running(s + [w], Store32(mem, a, w)))
  {
    var m := Running(s + [a] + [w], mem);
    RunOp(limit, OP_ST, [OP_LD_STACK] + rest, m);
    assert m.stack[..|s| + 1] == s + [a];
    var m1 := Running(s + [a], Store32(mem, a, w));
    RunOp(limit, OP_LD_STACK, rest, m1);
    LoadAfterStore(mem, a, w);
    assert m1.stack[|s| := w] == s + [w];
  }

  lemma StepEvaluates(
    limit: nat, a: Word, up: bool, postfix: bool, rest: seq<Byte>, s: seq<Word>, mem: Memory)
    requires |s| + Depth(Step(a, up, postfix)) <= limit
    ensures var e := Step(a, up, postfix);
            Run(limit, Code(e) + rest, Running(s, mem)) == After(limit, rest, s, Eval(e, mem))
  {
    hide Run; hide Load; hide Load32; hide Store32; hide Code; hide OpCode; hide Update; hide Stepped;
    hide LoadOp; hide StackOp;
    var op := if up then Add else Sub;
    StepMeans(a, up, postfix, mem);
    hide Eval;
    StepCodeShape(a, op, postfix, rest);
    if postfix {
      PostfixRuns(limit, a, op, rest, s, mem);
    } else {
      PrefixRuns(limit, a, op, rest, s, mem);
    }
  }

  lemma StepMeans(a: Word, up: bool, postfix: bool, mem: Memory)
    ensures var x := Load32(mem, a);
            var y := Stepped(up, x);
            Eval(Step(a, up, postfix), mem) == Some((if postfix then x else y, Store32(mem, a, y)))
  {
    hide Load32; hide Store32; hide Stepped;
  }

  lemma PostfixRuns(limit: nat, a: Word, op: BinOp, rest: seq<Byte>, s: seq<Word>, mem: Memory)
    requires op == Add || op == Sub
    requires |s| + 4 <= limit
    ensures var x := Load32(mem, a);
            var update := Update(a, op, [OP_ST] + ([OP_POP] + rest));
            Run(limit, Load(OP_LD_VALUE, a) + (Load(OP_LD, a) + update), Running(s, mem))
            == Run(limit, rest, Running(s + [x], Store32(mem, a, Stepped(op == Add, x))))
  {
    hide Run; hide Load; hide Load32; hide Store32; hide OpCode; hide Update; hide Stepped; hide StackOp;
    var x := Load32(mem, a);
    var tail := [OP_ST] + ([OP_POP] + rest);
    var update := Update(a, op, tail);
    RunLoad(limit, OP_LD_VALUE, a, Load(OP_LD, a) + update, Running(s, mem));
    RunLoad(limit, OP_LD, a, update, Running(s + [x], mem));
    UpdateStep(limit, a, op, tail, s + [x], mem);
    StoreAndDrop(limit, rest, s + [x], a, Stepped(op == Add, x), mem);
  }

  lemma PrefixRuns(limit: nat, a: Word, op: BinOp, rest: seq<Byte>, s: seq<Word>, mem: Memory)
    requires op == Add || op == Sub
    requires |s| + 3 <= limit
    ensures var y := Stepped(op == Add, Load32(mem, a));
            var update := Update(a, op, [OP_ST] + ([OP_LD_STACK] + rest));
            Run(limit, Load(OP_LD, a) + update, Running(s, mem))
            == Run(limit, rest, Running(s + [y], Store32(mem, a, y)))
  {
    hide Run; hide Load; hide Load32; hide Store32; hide OpCode; hide Update; hide Stepped; hide StackOp;
    var tail := [OP_ST] + ([OP_LD_STACK] + rest);
    var update := Update(a, op, tail);
    RunLoad(limit, OP_LD, a, update, Running(s, mem));
    UpdateStep(limit, a, op, tail, s, mem);
    StoreAndReload(limit, rest, s, a, Stepped(op == Add, Load32(mem, a)), mem);
  }

  function Update(a: Word, op: BinOp, tail: seq<Byte>): seq<Byte> {
    Load(OP_LD_VALUE, a) + (Load(OP_LD, 1) + ([OpCode(op)] + tail))
  }

  lemma Assoc(a: seq<Byte>, b: seq<Byte>, c: seq<Byte>)
    ensures (a + b) + c == a + (b + c)
  {
  }

  lemma StepCodeShape(a: Word, binop: BinOp, postfix: bool, rest: seq<Byte>)
    requires binop == Add || binop == Sub
    ensures var tail := [OP_ST] + ([if postfix then OP_POP else OP_LD_STACK] + rest);
            Code(Step(a, binop == Add, postfix)) + rest ==
            if postfix then Load(OP_LD_VALUE, a) + (Load(OP_LD, a) + Update(a, binop, tail))
            else Load(OP_LD, a) + Update(a, binop, tail)
  {
    hide Load;
    var last := [if postfix then OP_POP else OP_LD_STACK];
    var op := [OpCode(binop)];
    var first := Load(if postfix then OP_LD_VALUE else OP_LD, a);
    var address := if postfix then Load(OP_LD, a) else [];
    var a1 := address + Load(OP_LD_VALUE, a);
    var a2 := a1 + Load(OP_LD, 1);
    var a3 := a2 + op;
    var a4 := a3 + [OP_ST];
    Assoc(first, a4 + last, rest);
    Assoc(a4, last, rest);
    Assoc(a3, [OP_ST], last + rest);
    Assoc(a2, op, [OP_ST] + (last + rest));
    Assoc(a1, Load(OP_LD, 1), op + ([OP_ST] + (last + rest)));
    Assoc(address, Load(OP_LD_VALUE, a), Load(OP_LD, 1) + (op + ([OP_ST] + (last + rest))));
    assert !postfix ==> address + (Load(OP_LD_VALUE, a) + (Load(OP_LD, 1) + (op + ([OP_ST] + (last + rest)))))
                        == Load(OP_LD_VALUE, a) + (Load(OP_LD, 1) + (op + ([OP_ST] + (last + rest))));
  }

  /** Above the address: load the variable, load one, add or subtract. */
  lemma UpdateStep(limit: nat, a: Word, op: BinOp, tail: seq<Byte>, s: seq<Word>, mem: Memory)
    requires op == Add || op == Sub
    requires |s| + 3 <= limit
    ensures Run(limit, Update(a, op, tail), Running(s + [a], mem))
            == Run(limit, tail, Running(s + [a] + [Stepped(op == Add, Load32(mem, a))], mem))
  {
    hide Run; hide Load; hide Load32; hide OpCode; hide Apply; hide Stepped;
    var x := Load32(mem, a);
    RunLoad(limit, OP_LD_VALUE, a, Load(OP_LD, 1) + ([OpCode(op)] + tail), Running(s + [a], mem));
    RunLoad(limit, OP_LD, 1, [OpCode(op)] + tail, Running(s + [a] + [x], mem));
    BinaryStep(limit, op, tail, s + [a], x, 1, mem);
    ApplyOne(op, x);
  }

  lemma ApplyOne(op: BinOp, x: Word)
    requires op == Add || op == Sub
    ensures Apply(op, x, 1) == Some(Stepped(op == Add, x))
  {
    hide Sum; hide Difference; hide Product; hide Quotient; hide Remainder; hide ShiftLeft; hide ShiftRight;
  }

  lemma StoreAndDrop(limit: nat, rest: seq<Byte>, s: seq<Word>, a: Word, w: Word, mem: Memory)
    ensures Run(limit, [OP_ST] + ([OP_POP] + rest), Running(s + [a] + [w], mem))
            == Run(limit, rest, Running(s, Store32(mem, a, w)))
  {
    var m := Running(s + [a] + [w], mem);
    RunOp(limit, OP_ST, [OP_POP] + rest, m);
    assert m.stack[..|s| + 1] == s + [a];
    RunOp(limit, OP_POP, rest, Running(s + [a], Store32(mem, a, w)));
    assert (s + [a])[..|s|] == s;
  }

  // ----- statement lists -----

  /** Statements are evaluated in order; the last one gives the result. */
  function EvalAll(es: seq<Expr>, mem: Memory): Option<(Word, Memory)>
    requires es != []
  {
    match Eval(es[0], mem)
    case None => None
    case Some((w, mem)) => if |es| == 1 then Some((w, mem)) else EvalAll(es[1..], mem)
  }

  lemma ParsedNode(e: Expr, sibling: Tree)
    ensures var t := Parse(e, sibling);
            t.Node? && t.sibling == sibling && t.(sibling := Nil) == Parse(e, Nil)
  {
    match e
    case Read(Named(_)) =>
    case Read(Pointed(_)) =>
    case _ =>
  }

  lemma DetachStatement(e: Expr, sibling: Tree)
    ensures var t := Annotate(Parse(e, sibling), false);
            t.Node? && t.sibling == Annotate(sibling, false) && Emit(t.(sibling := Nil)) == Code(e)
  {
    hide Code; hide Load; hide Parse; hide OwnCode; hide ChildIsAddress; hide OwnType;
    EmitsCode(e, Nil);
    ParsedNode(e, sibling);
    var t := Annotate(Parse(e, sibling), false);
    assert t.(sibling := Nil) == Annotate(Parse(e, Nil), false);
    assert Code(e) + [] == Code(e);
  }

  lemma {:induction false} ProgramEvaluates(limit: nat, es: seq<Expr>, rest: seq<Byte>, mem: Memory)
    requires es != [] && forall i :: 0 <= i < |es| ==> Depth(es[i]) <= limit
    ensures Run(limit, Compile(ParseAll(es)) + rest, Running([], mem)) == After(limit, rest, [], EvalAll(es, mem))
  {
    hide Run; hide Code; hide Depth; hide Parse; hide Annotate; hide Emit;
    var t := Annotate(ParseAll(es), false);
    var others := ParseAll(es[1..]);
    DetachStatement(es[0], others);
    if |es| == 1 {
      assert t.sibling.Nil? && EmitProgram(t) == Code(es[0]) by { EmptyList(); }
      CodeEvaluates(limit, es[0], rest, [], mem);
    } else {
      var tail := Compile(others) + rest;
      DetachStatement(es[1], ParseAll(es[1..][1..]));
      ParsedNode(es[1], ParseAll(es[1..][1..]));
      assert EmitProgram(t) + rest == Code(es[0]) + ([OP_POP] + tail);
      CodeEvaluates(limit, es[0], [OP_POP] + tail, [], mem);
      if Eval(es[0], mem).Some? {
        var (w, mem1) := Eval(es[0], mem).value;
        assert [] + [w] == [w] && [w][..0] == [];
        RunOp(limit, OP_POP, tail, Running([w], mem1));
        ProgramEvaluates(limit, es[1..], rest, mem1);
      }
    }
  }

  lemma EmptyList()
    ensures ParseAll([]) == Nil && Annotate(Nil, false) == Nil
  {
  }

  // ----- stack use -----

  const NODE_MAX: nat := 16

  function Nodes(t: Tree): nat {
    if t.Nil? then 0 else 1 + Nodes(t.child) + Nodes(t.sibling)
  }

  /** An expression needs at most two slots more than it has nodes. */
  lemma {:induction false} DepthBound(e: Expr, sibling: Tree)
    ensures Depth(e) + Nodes(sibling) <= Nodes(Parse(e, sibling)) + 2
    ensures Nodes(Parse(e, sibling)) > Nodes(sibling)
    decreases e
  {
    match e
    case Const(_) =>
    case Read(lv) => AddressDepthBound(lv, sibling);
    case Compute(_, l, r) => DepthBound(l, Parse(r, Nil)); DepthBound(r, Nil);
    case Complement(e1) => DepthBound(e1, Nil);
    case Set(lv, e1) => AddressDepthBound(lv, Parse(e1, Nil)); DepthBound(e1, Nil);
    case Step(_, _, _) =>
    case AddressOf(lv) => AddressDepthBound(lv, Nil);
  }

  lemma {:induction false} AddressDepthBound(lv: LValue, sibling: Tree)
    ensures AddressDepth(lv) + Nodes(sibling) <= Nodes(ParseLValue(lv, sibling)) + 2
    ensures Nodes(ParseLValue(lv, sibling)) > Nodes(sibling)
    decreases lv
  {
    match lv
    case Named(_) =>
    case Pointed(e) => DepthBound(e, Nil);
  }

  lemma {:induction false} StatementDepths(es: seq<Expr>, i: nat)
    requires i < |es|
    ensures Depth(es[i]) <= Nodes(ParseAll(es)) + 2
  {
    DepthBound(es[0], ParseAll(es[1..]));
    if i > 0 { StatementDepths(es[1..], i - 1); }
  }

  /** The shell end to end: for every statement list that fits the 16-entry node table and whose
      code fits the zeroed text segment, a run over the 64-slot stack ends with exactly the value
      of the last statement on the stack (at its bottom) and the store of direct evaluation; it
      stops early only where direct evaluation is undefined. */
  lemma ShellEvaluates(es: seq<Expr>, text: seq<Byte>, mem: Memory)
    requires es != [] && Nodes(ParseAll(es)) <= NODE_MAX
    requires var code := Compile(ParseAll(es));
             && |code| <= |text| && text[..|code|] == code
             && forall i :: |code| <= i < |text| ==> text[i] == OP_NOOP
    ensures Run(STACK_MAX, text, Running([], mem)) ==
            match EvalAll(es, mem)
            case None => Fault(Undefined)
            case Some((w, mem')) => Running([w], mem')
  {
    hide Run; hide Compile;
    var code := Compile(ParseAll(es));
    var padding := text[|code|..];
    assert text == code + padding;
    forall i | 0 <= i < |es| ensures Depth(es[i]) <= STACK_MAX { StatementDepths(es, i); }
    ProgramEvaluates(STACK_MAX, es, padding, mem);
    if EvalAll(es, mem).Some? {
      var (w, mem') := EvalAll(es, mem).value;
      assert [] + [w] == [w];
      RunPadding(STACK_MAX, padding, Running([w], mem'));
    }
  }

  // ----- the compiler over the node table and the text segment -----

  const NULL: int := -1

  /** An entry of the node table; links are table indices. */
  datatype Entry = Entry(kind: Kind, sym: Option<Symbol>, val: Word, addr: bool, dtype: DataType,
                         child: int, sibling: int)

  /** The table entries a tree occupies. */
  ghost function Footprint(table: seq<Entry>, n: int, t: Tree): set<int>
    decreases t
  {
    if t.Nil? || !(0 <= n < |table|) then {}
    else {n} + Footprint(table, table[n].child, t.child) + Footprint(table, table[n].sibling, t.sibling)
  }

  /** The entry at `n` is the root of tree `t`, and no entry is shared. */
  ghost predicate Shows(table: seq<Entry>, n: int, t: Tree)
    decreases t
  {
    match t
    case Nil => n == NULL
    case Node(kind, sym, val, addr, dtype, child, sibling) =>
      && 0 <= n < |table|
      && var e := table[n];
      && e.kind == kind && e.sym == sym && e.val == val && e.addr == addr && e.dtype == dtype
      && Shows(table, e.child, child) && Shows(table, e.sibling, sibling)
      && n !in Footprint(table, e.child, child) && n !in Footprint(table, e.sibling, sibling)
      && Footprint(table, e.child, child) !! Footprint(table, e.sibling, sibling)
  }

  lemma {:induction false} Frame(table: seq<Entry>, table': seq<Entry>, n: int, t: Tree)
    requires Shows(table, n, t) && |table'| == |table|
    requires forall i :: i in Footprint(table, n, t) ==> 0 <= i < |table| ==> table'[i] == table[i]
    ensures Shows(table', n, t) && Footprint(table', n, t) == Footprint(table, n, t)
    decreases t
  {
    if t.Node? {
      assert n in Footprint(table, n, t);
      Frame(table, table', table[n].child, t.child);
      Frame(table, table', table[n].sibling, t.sibling);
    }
  }

  /** Clearing the sibling link of the first statement leaves it and the rest apart. */
  lemma Detach(table: seq<Entry>, n: int, t: Tree)
    requires t.Node? && Shows(table, n, t)
    ensures var table' := table[n := table[n].(sibling := NULL)];
            Shows(table', n, t.(sibling := Nil)) && Shows(table', table[n].sibling, t.sibling)
  {
    var table' := table[n := table[n].(sibling := NULL)];
    Frame(table, table', table[n].child, t.child);
    Frame(table, table', table[n].sibling, t.sibling);
  }

  /** A text after writing `bytes` at `pc`. */
  ghost function Patch(text: seq<Byte>, pc: nat, bytes: seq<Byte>): seq<Byte>
    requires pc + |bytes| <= |text|
  {
    text[..pc] + bytes + text[pc + |bytes|..]
  }

  lemma PatchEmpty(text: seq<Byte>, pc: nat)
    requires pc <= |text|
    ensures Patch(text, pc, []) == text
  {
  }

  lemma PatchTwice(text: seq<Byte>, pc: nat, a: seq<Byte>, b: seq<Byte>)
    requires pc + |a| + |b| <= |text|
    ensures var once := Patch(text, pc, a);
            |once| == |text| && Patch(once, pc + |a|, b) == Patch(text, pc, a + b)
  {
    var once := Patch(text, pc, a);
    assert once[..pc + |a|] == text[..pc] + a;
    assert once[pc + |a| + |b|..] == text[pc + |a| + |b|..];
  }

  /** A node after the annotation of its child and sibling. */
  ghost function LinksChecked(t: Tree, isAddr: bool): Tree
    requires t.Node?
  {
    t.(child := Annotate(t.child, ChildIsAddress(t.kind, isAddr)), sibling := Annotate(t.sibling, false))
  }

  lemma SetRoot(table: seq<Entry>, n: int, t: Tree, addr: bool, dtype: DataType)
    requires t.Node? && Shows(table, n, t)
    ensures var table' := table[n := table[n].(addr := addr, dtype := dtype)];
            var t' := t.(addr := addr, dtype := dtype);
            Shows(table', n, t') && Footprint(table', n, t') == Footprint(table, n, t)
  {
    var table' := table[n := table[n].(addr := addr, dtype := dtype)];
    Frame(table, table', table[n].child, t.child);
    Frame(table, table', table[n].sibling, t.sibling);
  }

  class Compiler {
    var table: array<Entry>
    var text: array<Byte>
    var pc: nat

    constructor (table: array<Entry>, text: array<Byte>)
      requires text.Length == TEXT_MAX
      ensures this.table == table && this.text == text
    {
      this.table, this.text, pc := table, text, 0;
    }

    /** `finsh_type_check`: annotates the nodes below `n` in place. */
    method TypeCheck(n: int, isAddr: bool, ghost t: Tree)
      requires Shows(table[..], n, t)
      modifies table
      ensures Shows(table[..], n, Annotate(t, isAddr))
      ensures Footprint(table[..], n, Annotate(t, isAddr)) == old(Footprint(table[..], n, t))
      ensures forall i :: 0 <= i < table.Length && i !in old(Footprint(table[..], n, t)) ==>
                table[i] == old(table[i])
      decreases t, 1
    {
      hide ChildIsAddress; hide OwnType;
      if n == NULL { return; }
      CheckLinks(n, isAddr, t);
      var e := table[n];
      ghost var root := LinksChecked(t, isAddr);
      var dtype := if e.child != NULL then table[e.child].dtype else OwnType(e.kind, e.sym, e.dtype);
      ghost var before := table[..];
      SetRoot(before, n, root, e.addr || isAddr, dtype);
      assert Annotate(t, isAddr) == root.(addr := e.addr || isAddr, dtype := dtype);
      assert n in Footprint(before, n, root);
      hide Shows; hide Footprint; hide Annotate;
      table[n] := e.(addr := e.addr || isAddr, dtype := dtype);
    }

    /** The two recursive calls. */
    method CheckLinks(n: int, isAddr: bool, ghost t: Tree)
      requires t.Node? && Shows(table[..], n, t)
      modifies table
      ensures Shows(table[..], n, LinksChecked(t, isAddr))
      ensures Footprint(table[..], n, LinksChecked(t, isAddr)) == old(Footprint(table[..], n, t))
      ensures forall i :: 0 <= i < table.Length && i !in old(Footprint(table[..], n, t)) ==>
                table[i] == old(table[i])
      decreases t, 0
    {
      hide ChildIsAddress; hide Annotate;
      var e := table[n];
      ghost var table0 := table[..];
      ghost var fc, fs := Footprint(table0, e.child, t.child), Footprint(table0, e.sibling, t.sibling);
      TypeCheck(e.child, ChildIsAddress(e.kind, isAddr), t.child);
      ghost var table1 := table[..];
      ghost var child' := Annotate(t.child, ChildIsAddress(e.kind, isAddr));
      Frame(table0, table1, e.sibling, t.sibling);
      TypeCheck(e.sibling, false, t.sibling);
      Frame(table1, table[..], e.child, child');
      assert table[n] == e;
    }

    method Write(bytes: seq<Byte>)
      requires pc + |bytes| <= text.Length
      modifies this`pc, text
      ensures pc == old(pc) + |bytes| && text[..] == Patch(old(text[..]), old(pc), bytes)
    {
      forall i | 0 <= i < |bytes| { text[pc + i] := bytes[i]; }
      pc := pc + |bytes|;
    }

    /** `finsh_compile`: child, node, sibling. */
    method CompileNode(n: int, ghost t: Tree)
      requires Shows(table[..], n, t) && pc + |Emit(t)| <= text.Length
      requires (table as object) != text
      modifies this`pc, text
      ensures pc == old(pc) + |Emit(t)| && text[..] == Patch(old(text[..]), old(pc), Emit(t))
      decreases t
    {
      hide OwnCode; hide Patch;
      ghost var pc0, text0 := pc, text[..];
      if n == NULL {
        PatchEmpty(text0, pc0);
        return;
      }
      var e := table[n];
      var first := if e.child == NULL then None
                   else Some(Head(table[e.child].kind, table[e.child].sym, table[e.child].dtype));
      var own := OwnCode(e.kind, e.sym, e.val, e.addr, e.dtype, first);
      assert Emit(t) == Emit(t.child) + own + Emit(t.sibling);
      PatchTwice(text0, pc0, Emit(t.child), own);
      PatchTwice(text0, pc0, Emit(t.child) + own, Emit(t.sibling));
      CompileNode(e.child, t.child);
      Write(own);
      CompileNode(e.sibling, t.sibling);
    }

    /** The statement loop: each statement is detached from the rest and compiled, and the value of
        all but the last is popped. */
    method CompileAll(root: int, ghost t: Tree)
      requires (table as object) != text && pc == 0
      requires Shows(table[..], root, t) && |EmitProgram(t)| <= text.Length
      modifies this`pc, table, text
      ensures pc == |EmitProgram(t)| && text[..] == Patch(old(text[..]), 0, EmitProgram(t))
    {
      hide Patch; hide Emit;
      ghost var text0 := text[..];
      ghost var rest, done := t, [];
      PatchEmpty(text0, 0);
      var sibling := root;
      while sibling != NULL
        invariant Shows(table[..], sibling, rest)
        invariant done + EmitProgram(rest) == EmitProgram(t)
        invariant pc == |done| && text[..] == Patch(text0, 0, done)
        decreases rest
      {
        var current := sibling;
        sibling := table[current].sibling;
        ghost var single := rest.(sibling := Nil);
        Detach(table[..], current, rest);
        table[current] := table[current].(sibling := NULL);
        CompileNode(current, single);
        PatchTwice(text0, 0, done, Emit(single));
        done := done + Emit(single);
        rest := rest.sibling;
        if sibling != NULL {
          Write([OP_POP]);
          PatchTwice(text0, 0, done, [OP_POP]);
          done := done + [OP_POP];
        }
      }
      assert done + [] == done;
    }

    /** `finsh_compiler_run`: annotate, clear the text segment, compile the statements. */
    method CompilerRun(root: int, ghost t: Tree)
      requires (table as object) != text && text.Length == TEXT_MAX
      requires Shows(table[..], root, t) && |Compile(t)| <= TEXT_MAX
      modifies this`pc, table, text
      ensures pc == |Compile(t)| && text[..pc] == Compile(t)
      ensures forall i :: pc <= i < text.Length ==> text[i] == OP_NOOP
    {
      TypeCheck(root, false, t);
      ghost var checked := table[..];
      forall i | 0 <= i < text.Length { text[i] := OP_NOOP; }
      assert table[..] == checked;
      pc := 0;
      CompileAll(root, Annotate(t, false));
    }
  }
}
